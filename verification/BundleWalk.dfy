/** holdsBundled: the answer for one object, and the answers it keeps on the way. */
module BundleWalk {
  import opened Wrappers
  import opened Reach
  import opened Stacks
  import opened Bundles

  /** Each object on the path was read as the last kid of the one before it. */
  ghost predicate Linked(nodes: seq<Node>, path: seq<nat>) {
    forall i, j :: 0 <= i && j == i + 1 && j < |path| && path[i] < |nodes| && path[j] < |nodes| ==>
      var n := nodes[path[i]];
      0 < n.next <= |n.kids| && n.kids[n.next - 1].v == nodes[path[j]].v
  }

  lemma LinkedBelow(g: Objects, w: Walk, path: seq<nat>)
    requires Structured(g, w) && Stack(path, w.on) && Linked(w.nodes, path)
    requires |path| > 1 && w.top == path[|path| - 1]
    ensures Below(w, path[|path| - 2])
  {
    StackSecond(path, w.on);
  }

  // What is left of a walk.

  ghost predicate Sane(g: Objects, nodes: seq<Node>, path: seq<nat>) {
    forall i :: 0 <= i < |path| ==> path[i] < |nodes| && Reads(g, nodes[path[i]], path[i] == 0)
  }

  ghost function Rest(g: Objects, n: Node, first: bool): nat
    requires Valid(g) && Reads(g, n, first)
  {
    assert forall k :: k in n.kids[n.next..] ==> k in n.kids;
    Left(g, n.kids[n.next..])
  }

  /** The steps the walk still takes before it reads another target for the first time. */
  ghost function Work(g: Objects, nodes: seq<Node>, path: seq<nat>): nat
    requires Valid(g) && Sane(g, nodes, path)
  {
    if path == [] then 0
    else
      var i := |path| - 1;
      1 + Rest(g, nodes[path[i]], path[i] == 0) + Work(g, nodes, path[..i])
  }

  lemma {:induction false} WorkFrame(g: Objects, a: seq<Node>, b: seq<Node>, path: seq<nat>)
    requires Valid(g) && Sane(g, a, path) && Sane(g, b, path)
    requires forall i :: 0 <= i < |path| ==>
      a[path[i]].kids == b[path[i]].kids && a[path[i]].next == b[path[i]].next
    ensures Work(g, a, path) == Work(g, b, path)
  {
    if path != [] {
      WorkFrame(g, a, b, path[..|path| - 1]);
    }
  }

  /** Reading a kid takes a step, and those of the kid, if it is no target. */
  lemma WorkAdvance(g: Objects, a: seq<Node>, b: seq<Node>, path: seq<nat>)
    requires Valid(g) && Sane(g, a, path) && Sane(g, b, path) && path != []
    requires forall i, j :: 0 <= i < j < |path| ==> path[i] != path[j]
    requires var t := path[|path| - 1];
      && a[t].next < |a[t].kids| && b[t].kids == a[t].kids && b[t].next == a[t].next + 1
      && forall i :: 0 <= i < |path| - 1 ==> a[path[i]].kids == b[path[i]].kids && a[path[i]].next == b[path[i]].next
    ensures var k := a[path[|path| - 1]].kids[a[path[|path| - 1]].next];
      k.v < |g.kids| && Work(g, a, path) == Work(g, b, path) + 1 + if k.target then 0 else Cost(g, k.v)
  {
    hide Cost;
    var m, t := |path| - 1, path[|path| - 1];
    var n := a[t];
    WorkFrame(g, a, b, path[..m]);
    assert n.kids[n.next] in n.kids;
    assert n.kids[n.next..][1..] == n.kids[n.next + 1..];
    assert forall k :: k in n.kids[n.next..] ==> k in n.kids;
  }

  lemma WorkPush(g: Objects, a: seq<Node>, path: seq<nat>, n: Node, longer: seq<nat>)
    requires Valid(g) && Sane(g, a, path) && Reads(g, n, false) && n.next == 0 && longer == path + [|a|] && |a| > 0
    ensures Sane(g, a + [n], longer) && Work(g, a + [n], longer) == Work(g, a, path) + Cost(g, n.v)
  {
    assert longer[..|path|] == path;
    WorkFrame(g, a, a + [n], path);
    LeftIsCost(g, n.v, 0);
    assert n.kids[0..] == n.kids;
  }

  // The walk as the code holds it.

  /** seen holds the targets read: open ones, or those whose answer is known. */
  ghost predicate Seen(w: Walk, seen: map<nat, nat>, known: map<nat, bool>) {
    forall k :: k in seen ==>
      && 0 < seen[k] < |w.nodes| && w.nodes[seen[k]].v == k && w.nodes[seen[k]].keep
      && (seen[k] in w.open || k in known)
  }

  ghost predicate Tracks(g: Objects, w: Walk, path: seq<nat>, scc: seq<nat>, root: Node) {
    && Walking(g, w) && !w.pending
    && Stack(path, w.on) && Stack(scc, w.open)
    && path != [] && w.top == path[|path| - 1]
    && Linked(w.nodes, path)
    && w.nodes[0].v == root.v && w.nodes[0].keep == root.keep && w.nodes[0].kids == root.kids
  }

  lemma TrackSane(g: Objects, w: Walk, path: seq<nat>, scc: seq<nat>, root: Node)
    requires Tracks(g, w, path, scc, root)
    ensures Valid(g) && Sane(g, w.nodes, path) && path != [] && w.top == path[|path| - 1] && w.top < |w.nodes|
    ensures forall i, j :: 0 <= i < j < |path| ==> path[i] != path[j]
    ensures Reads(g, w.nodes[w.top], w.top == 0) && Stack(scc, w.open)
    ensures forall x :: x in w.open ==> x < |w.nodes|
  {
    hide AllCovered, Lowest, Valid;
    assert forall i :: 0 <= i < |path| ==> path[i] in path;
  }

  lemma TrackStart(g: Objects, root: Node)
    requires Valid(g) && Reads(g, root, true) && root.next == 0 && root.low == 0
    ensures Tracks(g, Walk([root], {0}, {0}, 0, false), [0], [0], root)
  {
    StartWalking(g, root);
  }

  lemma TrackSkip(g: Objects, w: Walk, path: seq<nat>, scc: seq<nat>, root: Node)
    requires Tracks(g, w, path, scc, root) && w.top < |w.nodes| && w.nodes[w.top].next < |w.nodes[w.top].kids|
    requires !Holds(g, w.nodes[w.top].kids[w.nodes[w.top].next].v)
    ensures Tracks(g, Skipped(Advanced(w)), path, scc, root)
  {
    hide Holds, AllCovered, Lowest, Valid;
    AdvanceWalking(g, w);
    SkipWalking(g, Advanced(w));
    TrackLinked(w, Skipped(Advanced(w)), path);
  }

  lemma TrackLinked(w: Walk, a: Walk, path: seq<nat>)
    requires Linked(w.nodes, path) && Stack(path, w.on) && path != [] && w.top == path[|path| - 1]
    requires |a.nodes| == |w.nodes|
    requires forall x :: 0 <= x < |w.nodes| ==> a.nodes[x].v == w.nodes[x].v && a.nodes[x].kids == w.nodes[x].kids
    requires forall x :: 0 <= x < |w.nodes| && x != w.top ==> a.nodes[x].next == w.nodes[x].next
    ensures Linked(a.nodes, path)
  {
  }

  lemma TrackTake(g: Objects, w: Walk, path: seq<nat>, scc: seq<nat>, root: Node, m: nat)
    requires Tracks(g, w, path, scc, root) && w.top < |w.nodes| && w.nodes[w.top].next < |w.nodes[w.top].kids|
    requires m in w.open && 0 < m < |w.nodes| && w.nodes[m].v == w.nodes[w.top].kids[w.nodes[w.top].next].v
    ensures Tracks(g, Taken(Advanced(w), m), path, scc, root)
  {
    hide Holds, AllCovered, Lowest, Valid;
    AdvanceWalking(g, w);
    TakeWalking(g, Advanced(w), m);
    TrackLinked(w, Taken(Advanced(w), m), path);
  }

  lemma TrackPush(g: Objects, w: Walk, path: seq<nat>, scc: seq<nat>, root: Node, n: Node, longer: seq<nat>,
      more: seq<nat>)
    requires Tracks(g, w, path, scc, root) && w.top < |w.nodes| && w.nodes[w.top].next < |w.nodes[w.top].kids|
    requires n.v == w.nodes[w.top].kids[w.nodes[w.top].next].v
    requires Reads(g, n, false) && n.next == 0 && n.low == |w.nodes| && longer == path + [|w.nodes|] &&
      more == scc + [|w.nodes|]
    ensures Tracks(g, Pushed(Advanced(w), n), longer, more, root)
  {
    hide Holds, AllCovered, Lowest, Valid;
    AdvanceWalking(g, w);
    PushWalking(g, Advanced(w), n);
    StackPush(path, w.on, |w.nodes|);
    StackPush(scc, w.open, |w.nodes|);
    TrackLinked(w, Advanced(w), path);
    PushLinked(w, path, n, longer);
  }

  lemma PushLinked(w: Walk, path: seq<nat>, n: Node, longer: seq<nat>)
    requires path != [] && w.top == path[|path| - 1] && w.top < |w.nodes| && Linked(Advanced(w).nodes, path)
    requires w.nodes[w.top].next < |w.nodes[w.top].kids| && n.v == w.nodes[w.top].kids[w.nodes[w.top].next].v
    requires longer == path + [|w.nodes|] && forall i :: 0 <= i < |path| ==> path[i] < |w.nodes|
    ensures Linked(Pushed(Advanced(w), n).nodes, longer)
  {
  }

  lemma TrackPop(g: Objects, w: Walk, path: seq<nat>, scc: seq<nat>, root: Node, p: nat, rest: seq<nat>)
    requires Tracks(g, w, path, scc, root) && w.top < |w.nodes| && w.nodes[w.top].next == |w.nodes[w.top].kids|
    requires |path| > 1 && p == path[|path| - 2] && p < |w.nodes| && Stack(rest, w.open - Component(w))
    ensures Tracks(g, Popped(w, p), path[..|path| - 1], rest, root)
  {
    hide Holds, AllCovered, Lowest, Valid;
    LinkedBelow(g, w, path);
    PopWalking(g, w, p);
    StackPop(path, w.on);
    PopLinked(w, path, p);
  }

  lemma PopLinked(w: Walk, path: seq<nat>, p: nat)
    requires Linked(w.nodes, path) && path != [] && p < |w.nodes| && w.top < |w.nodes|
    ensures Linked(Popped(w, p).nodes, path[..|path| - 1])
  {
  }

  ghost function Measure(g: Objects, nodes: seq<Node>, path: seq<nat>): nat {
    if Valid(g) && Sane(g, nodes, path) then Work(g, nodes, path) else 0
  }

  ghost predicate Grown(a: map<nat, bool>, b: map<nat, bool>) {
    forall k :: k in a ==> k in b && b[k] == a[k]
  }

  /** The last kid read of the top of the path leads to a value that is itself found. */
  ghost predicate Hit(g: Objects, nodes: seq<Node>, path: seq<nat>) {
    path != [] && path[|path| - 1] < |nodes| &&
    var n := nodes[path[|path| - 1]];
    0 < n.next <= |n.kids| && n.kids[n.next - 1].v < |g.kids| && Holds(g, n.kids[n.next - 1].v)
  }

  /** Every object on the path then does. */
  lemma {:induction false} HitHolds(g: Objects, nodes: seq<Node>, path: seq<nat>, i: nat)
    requires Valid(g) && Sane(g, nodes, path) && Linked(nodes, path) && Hit(g, nodes, path) && i < |path|
    requires forall a, b :: 0 <= a < b < |path| ==> path[a] < path[b]
    ensures nodes[path[i]].keep || path[i] > 0 ==> Holds(g, nodes[path[i]].v)
    ensures exists j :: 0 <= j < |nodes[path[i]].kids| && Holds(g, nodes[path[i]].kids[j].v)
    decreases |path| - i
  {
    var n := nodes[path[i]];
    assert Reads(g, n, path[i] == 0);
    if i < |path| - 1 {
      HitHolds(g, nodes, path, i + 1);
      assert path[i + 1] > 0;
    }
    assert Holds(g, n.kids[n.next - 1].v);
    if n.keep || path[i] > 0 {
      HoldsKid(g, n.v, n.next - 1);
    }
  }

  class Document {
    const g: Objects
    var known: map<nat, bool>

    constructor (g: Objects)
      requires Bundles.Valid(g)
      ensures Valid() && this.g == g && known == map[]
    {
      this.g := g;
      known := map[];
    }

    /** Every answer kept is the true one. */
    ghost predicate Valid()
      reads this
    {
      && Bundles.Valid(g)
      && forall k :: k in known ==> k < |g.kids| && (known[k] <==> Holds(g, k))
    }

    /** What other calls may do between two steps of this one: keep more answers. Callers know no more of it. */
    method OtherCalls()
      requires Valid()
      modifies this`known
      ensures Valid() && Grown(old(known), known)
    {
    }

    method Load(k: nat) returns (got: Option<bool>)
      requires Valid()
      modifies this`known
      ensures Valid() && Grown(old(known), known)
      ensures got == if k in known then Some(known[k]) else None
    {
      OtherCalls();
      got := if k in known then Some(known[k]) else None;
    }

    method Keep(k: nat, answer: bool)
      requires Valid() && k < |g.kids| && (answer <==> Holds(g, k))
      modifies this`known
      ensures Valid() && Grown(old(known), known) && k in known
    {
      OtherCalls();
      known := known[k := answer];
    }

    /** Keeps the answer true of each object of the path that may keep one, and of no other. */
    method Found(nodes: seq<Node>, path: seq<nat>, root: Node)
      requires Valid() && Ended(g, nodes, path, root) && path != [] && path[0] == 0 && Sane(g, nodes, path)
      modifies this`known
      ensures Valid() && Grown(old(known), known)
      ensures forall i :: 0 <= i < |path| && nodes[path[i]].keep ==> nodes[path[i]].v in known
      ensures exists j :: 0 <= j < |root.kids| && Holds(g, root.kids[j].v)
    {
      hide Holds;
      HitHolds(g, nodes, path, 0);
      var i := 0;
      while i < |path|
        invariant i <= |path| && Valid() && Grown(old(known), known)
        invariant forall j :: 0 <= j < i && nodes[path[j]].keep ==> nodes[path[j]].v in known
      {
        HitHolds(g, nodes, path, i);
        var n := nodes[path[i]];
        if n.keep {
          assert Reads(g, n, path[i] == 0);
          Keep(n.v, true);
        }
        i := i + 1;
      }
    }

    /** Keeps that the objects of the component on top of the walk lead to no such value. */
    method PopComponent(nodes: seq<Node>, scc: seq<nat>, i: nat, ghost w: Walk) returns (rest: seq<nat>)
      requires Valid() && Finished(g, w) && w.nodes == nodes && w.top == i && nodes[i].low == i && Stack(scc, w.open)
      modifies this`known
      ensures Valid() && Grown(old(known), known) && Stack(rest, w.open - Component(w))
      ensures forall x :: x in Component(w) && nodes[x].keep ==> nodes[x].v in known
    {
      hide Holds, AllCovered, Lowest;
      rest := scc;
      ghost var left := w.open;
      while true
        invariant Valid() && Grown(old(known), known) && Stack(rest, left) && i in left && left <= w.open
        invariant forall x :: x in w.open && x !in left ==> x > i && (nodes[x].keep ==> nodes[x].v in known)
        decreases |rest|
      {
        StackPop(rest, left);
        var m := rest[|rest| - 1];
        rest := rest[..|rest| - 1];
        assert i <= m by {
          StackLast(rest + [m], left, i);
        }
        if nodes[m].keep {
          ComponentHoldsNone(g, w, m);
          assert Reads(g, nodes[m], m == 0);
          Keep(nodes[m].v, false);
        }
        left := left - {m};
        if m == i {
          LeftBelow(rest, left, w, m);
          return;
        }
      }
    }

    /** Reads what the object of the next kid of the top holds: it is a hit, or holds none, or is to be read in turn. */
    method ScanKid(nodes: seq<Node>, path: seq<nat>, scc: seq<nat>, seen: map<nat, nat>, root: Node, ghost w: Walk)
      returns (hit: bool, after: seq<Node>, longer: seq<nat>, more: seq<nat>, targets: map<nat, nat>, ghost a: Walk)
      requires Valid() && Tracks(g, w, path, scc, root) && w.nodes == nodes && Seen(w, seen, known)
      requires w.top < |nodes| && nodes[w.top].next < |nodes[w.top].kids| && path != [] && w.top == path[|path| - 1]
      requires nodes[w.top].kids[nodes[w.top].next].v !in seen
      modifies this`known
      ensures Valid() && Grown(old(known), known)
      ensures longer != [] && (hit ==> longer == path && Ended(g, after, path, root))
      ensures !hit ==> Tracks(g, a, longer, more, root) && a.nodes == after && Seen(a, targets, known)
      ensures !hit ==> Less(g, nodes, path, seen, after, longer, targets)
    {
      hide Holds, Walking, Structured, Tracks, Measure, Reads, Sane, Hit, Linked;
      TrackRead(g, w, path, scc, root);
      hit, longer, more, targets := false, path, scc, seen;
      var t := path[|path| - 1];
      var kid := nodes[t].kids[nodes[t].next];
      after, a := nodes[t := nodes[t].(next := nodes[t].next + 1)], w;
      var found, kids, keep := g.found[kid.v], g.kids[kid.v], kid.target || g.holder[kid.v];
      LeafHolds(g, kid.v);
      if found || kids == [] {
        if keep {
          Keep(kid.v, found);
        }
        if found {
          hit := true;
          HitTop(g, w, path, scc, root);
        } else {
          TrackSkip(g, w, path, scc, root);
          a := Skipped(Advanced(w));
          TrackLess(g, w, a, path, scc, root);
        }
        return;
      }
      var m := Node(kid.v, keep, kids, 0, |nodes|);
      if kid.target {
        targets := seen[kid.v := |nodes|];
        assert kid.v in Nodes(|g.kids|) - seen.Keys;
      }
      NewReads(g, m);
      longer, more := path + [|nodes|], scc + [|nodes|];
      TrackPush(g, w, path, scc, root, m, longer, more);
      PushLess(g, w, path, scc, root, m, longer);
      after, a := after + [m], Pushed(Advanced(w), m);
    }

    /** The top of the walk reads its next kid: it knows its answer, or has it open, or scans it. */
    method ReadKid(nodes: seq<Node>, path: seq<nat>, scc: seq<nat>, seen: map<nat, nat>, root: Node, ghost w: Walk)
      returns (hit: bool, after: seq<Node>, longer: seq<nat>, more: seq<nat>, targets: map<nat, nat>, ghost a: Walk)
      requires Valid() && Tracks(g, w, path, scc, root) && w.nodes == nodes && Seen(w, seen, known)
      requires w.top < |nodes| && nodes[w.top].next < |nodes[w.top].kids| && path != [] && w.top == path[|path| - 1]
      modifies this`known
      ensures Valid() && Grown(old(known), known)
      ensures longer != [] && (hit ==> longer == path && Ended(g, after, path, root))
      ensures !hit ==> Tracks(g, a, longer, more, root) && a.nodes == after && Seen(a, targets, known)
      ensures !hit ==> Less(g, nodes, path, seen, after, longer, targets)
    {
      hide Holds, Walking, Structured, Tracks, Measure, Reads, Sane, Hit, Linked;
      TrackRead(g, w, path, scc, root);
      hit, longer, more, targets := false, path, scc, seen;
      var t := path[|path| - 1];
      var kid := nodes[t].kids[nodes[t].next];
      after, a := nodes[t := nodes[t].(next := nodes[t].next + 1)], w;
      var got := Load(kid.v);
      if got.Some? {
        if got.value {
          hit := true;
          HitTop(g, w, path, scc, root);
        } else {
          TrackSkip(g, w, path, scc, root);
          a := Skipped(Advanced(w));
          TrackLess(g, w, a, path, scc, root);
        }
      } else if kid.v in seen { // on the path still: k closes a cycle
        var m := seen[kid.v];
        after := after[t := Lower(after[t], m)];
        TrackTake(g, w, path, scc, root, m);
        a := Taken(Advanced(w), m);
        TrackLess(g, w, a, path, scc, root);
      } else {
        hit, after, longer, more, targets, a := ScanKid(nodes, path, scc, seen, root, w);
      }
    }

    /** The top of the walk, with no kid left, leaves its path, its component, if complete, leading to no such value. */
    method LeaveTop(nodes: seq<Node>, path: seq<nat>, scc: seq<nat>, ghost seen: map<nat, nat>, root: Node,
        ghost w: Walk)
      returns (after: seq<Node>, shorter: seq<nat>, rest: seq<nat>, ghost a: Walk)
      requires Valid() && Tracks(g, w, path, scc, root) && w.nodes == nodes && Seen(w, seen, known)
      requires w.top < |nodes| && nodes[w.top].next == |nodes[w.top].kids| && path != [] && w.top == path[|path| - 1]
      modifies this`known
      ensures Valid() && Grown(old(known), known) && shorter == path[..|path| - 1]
      ensures shorter == [] ==> (forall j :: 0 <= j < |root.kids| ==> !Holds(g, root.kids[j].v))
      ensures shorter == [] && root.keep ==> root.v in known
      ensures shorter != [] ==> Tracks(g, a, shorter, rest, root) && a.nodes == after && Seen(a, seen, known)
      ensures shorter != [] ==> Less(g, nodes, path, seen, after, shorter, seen)
    {
      hide Holds, Measure, Tracks, Finished, Stack, Component;
      LeaveFacts(g, w, path, scc, root);
      var i := path[|path| - 1];
      shorter, after, rest, a := path[..|path| - 1], nodes, scc, w;
      var n := nodes[i];
      if shorter != [] {
        var p := shorter[|shorter| - 1];
        after := nodes[p := Lower(nodes[p], n.low)];
        a := Popped(w, p);
      }
      if n.low == i { // nothing above i leads below it
        rest := PopComponent(nodes, scc, i, w);
        ComponentHoldsNone(g, w, i);
      }
      RootAlone(g, w, path, scc, root);
      RootPopped(w);
      if shorter != [] {
        TrackPop(g, w, path, scc, root, shorter[|shorter| - 1], rest);
        PopLess(g, w, a, path, scc, rest, root);
      }
    }

    /** The answer for v, or for a part of v: found if that part has such a value itself, and else whether one of kids,
        what the part holds and refers to, leads to one. With keep the part is all of v, and its answer is kept. */
    method Run(v: nat, keep: bool, found: bool, kids: seq<Kid>) returns (answer: bool)
      requires Valid() && forall k :: k in kids ==> k.v < |g.kids|
      requires keep ==> v < |g.kids| && found == g.found[v] && (!found ==> kids == g.kids[v])
      modifies this`known
      ensures Valid() && Grown(old(known), known)
      ensures answer <==> found || exists j :: 0 <= j < |kids| && Holds(g, kids[j].v)
      ensures keep ==> v in known
    {
      hide Holds, Walking, Structured, Tracks, Measure, Linked, Hit;
      if found || kids == [] {
        if keep {
          LeafHolds(g, v);
          Keep(v, found);
        }
        return found;
      }
      var root := Node(v, keep, kids, 0, 0);
      var nodes, path: seq<nat>, scc: seq<nat>, seen: map<nat, nat> := [root], [0], [0], map[];
      ghost var w := Walk([root], {0}, {0}, 0, false);
      TrackStart(g, root);
      while path != []
        invariant Valid() && Grown(old(known), known)
        invariant path != [] ==> Tracks(g, w, path, scc, root) && w.nodes == nodes && Seen(w, seen, known)
        invariant path == [] ==> forall j :: 0 <= j < |kids| ==> !Holds(g, kids[j].v)
        invariant path == [] && keep ==> v in known
        decreases Nodes(|g.kids|) - seen.Keys, path != [], Measure(g, nodes, path)
      {
        TrackSane(g, w, path, scc, root);
        var i := path[|path| - 1];
        if nodes[i].next < |nodes[i].kids| {
          var hit: bool;
          hit, nodes, path, scc, seen, w := ReadKid(nodes, path, scc, seen, root, w);
          if hit {
            EndedPath(g, nodes, path, root);
            Found(nodes, path, root);
            return true;
          }
        } else {
          nodes, path, scc, w := LeaveTop(nodes, path, scc, seen, root, w);
        }
      }
      return false;
    }

    /** Whether any value reached from v is found. Only objects with Encoding Objects keep their answer. */
    method HoldsBundled(v: nat) returns (answer: bool)
      requires Valid() && v < |g.kids|
      modifies this`known
      ensures Valid() && Grown(old(known), known)
      ensures answer <==> Holds(g, v)
    {
      hide Holds;
      var got := Load(v);
      if got.Some? {
        return got.value;
      }
      assert forall j :: 0 <= j < |g.kids[v]| ==> g.kids[v][j] in g.kids[v];
      answer := Run(v, g.holder[v], g.found[v], g.kids[v]);
      HoldsIs(g, v);
    }
  }

  lemma HoldsIs(g: Objects, v: nat)
    requires Valid(g) && v < |g.kids|
    ensures Holds(g, v) <==> g.found[v] || exists j :: 0 <= j < |g.kids[v]| && Holds(g, g.kids[v][j].v)
  {
    hide Holds;
    LeafHolds(g, v);
    if j :| 0 <= j < |g.kids[v]| && Holds(g, g.kids[v][j].v) {
      HoldsKid(g, v, j);
    } else if !g.found[v] {
      NoneHeld(g, {v}, v);
    }
  }

  /** The walk ended with a hit. */
  ghost predicate Ended(g: Objects, nodes: seq<Node>, path: seq<nat>, root: Node) {
    && path != [] && path[0] == 0 && Sane(g, nodes, path) && Linked(nodes, path) && Hit(g, nodes, path)
    && nodes != [] && nodes[0].keep == root.keep && nodes[0].v == root.v && nodes[0].kids == root.kids
    && forall i, j :: 0 <= i < j < |path| ==> path[i] < path[j]
  }

  lemma EndedPath(g: Objects, nodes: seq<Node>, path: seq<nat>, root: Node)
    requires Ended(g, nodes, path, root)
    ensures path != [] && path[0] == 0 && Sane(g, nodes, path)
    ensures root.keep ==> nodes[path[0]].keep && nodes[path[0]].v == root.v
  {
  }

  /** A target more is seen, or less is left to do. */
  ghost predicate Less(g: Objects, nodes: seq<Node>, path: seq<nat>, seen: map<nat, nat>,
                       after: seq<Node>, longer: seq<nat>, targets: map<nat, nat>) {
    || Nodes(|g.kids|) - targets.Keys < Nodes(|g.kids|) - seen.Keys
    || (targets == seen && longer != [] && Measure(g, after, longer) < Measure(g, nodes, path))
  }

  /** What leaving the top of the path relies on. */
  lemma LeaveFacts(g: Objects, w: Walk, path: seq<nat>, scc: seq<nat>, root: Node)
    requires Tracks(g, w, path, scc, root) && w.top < |w.nodes| && w.nodes[w.top].next == |w.nodes[w.top].kids|
    ensures Finished(g, w) && Stack(scc, w.open) && w.top in w.open
    ensures forall j :: 0 <= j < |path| ==> path[j] < |w.nodes|
    ensures w.nodes[w.top].low != w.top ==> w.open - Component(w) == w.open
  {
    hide Holds, AllCovered, Lowest, Linked;
    assert forall j :: 0 <= j < |path| ==> path[j] in path;
  }

  /** The root of the walk is of its own component alone. */
  lemma RootPopped(w: Walk)
    ensures w.top == 0 && w.top < |w.nodes| && w.nodes[0].low == 0 && 0 in w.open ==> 0 in Component(w)
  {
  }

  lemma RootAlone(g: Objects, w: Walk, path: seq<nat>, scc: seq<nat>, root: Node)
    requires Tracks(g, w, path, scc, root)
    ensures w.nodes[0].v == root.v && w.nodes[0].keep == root.keep && w.nodes[0].kids == root.kids
    ensures |path| == 1 ==> path[0] == 0 && w.nodes[0].low == 0 && 0 in w.open
  {
    assert 0 in path;
    assert Lowest(w, 0);
  }

  lemma PopLess(g: Objects, w: Walk, a: Walk, path: seq<nat>, scc: seq<nat>, rest: seq<nat>, root: Node)
    requires Tracks(g, w, path, scc, root) && |path| > 1 && Tracks(g, a, path[..|path| - 1], rest, root)
    requires |a.nodes| == |w.nodes|
    requires forall x :: 0 <= x < |w.nodes| ==> a.nodes[x].kids == w.nodes[x].kids && a.nodes[x].next == w.nodes[x].next
    ensures Measure(g, a.nodes, path[..|path| - 1]) < Measure(g, w.nodes, path)
  {
    hide Tracks, Valid, Walking;
    TrackSane(g, w, path, scc, root);
    TrackSane(g, a, path[..|path| - 1], rest, root);
    WorkFrame(g, w.nodes, a.nodes, path[..|path| - 1]);
  }

  lemma StackLast(s: seq<nat>, e: set<nat>, i: nat)
    requires Stack(s, e) && s != [] && i in e
    ensures i <= s[|s| - 1]
  {
  }

  lemma LeftBelow(rest: seq<nat>, left: set<nat>, w: Walk, m: nat)
    requires Stack(rest, left) && w.top < |w.nodes| && m == w.top && w.nodes[m].low == m && left <= w.open
    requires forall x :: x in w.open && x !in left ==> x >= m
    requires forall x :: x in left ==> x < m
    ensures Stack(rest, w.open - Component(w))
  {
    assert left == w.open - Component(w);
  }

  /** What the code relies on to read the next kid of the top. */
  lemma TrackRead(g: Objects, w: Walk, path: seq<nat>, scc: seq<nat>, root: Node)
    requires Tracks(g, w, path, scc, root) && w.top < |w.nodes| && w.nodes[w.top].next < |w.nodes[w.top].kids|
    ensures w.nodes[w.top].kids[w.nodes[w.top].next].v < |g.kids| == |g.found| == |g.holder|
    ensures path != [] && path[0] == 0
  {
    hide AllCovered, Lowest;
    var n := w.nodes[w.top];
    assert n.kids[n.next] in n.kids;
    assert 0 in path;
  }

  lemma NewReads(g: Objects, m: Node)
    requires Valid(g) && m.v < |g.kids| && !g.found[m.v] && m.kids == g.kids[m.v] && m.next == 0
    ensures Reads(g, m, false)
  {
  }

  lemma LeafHolds(g: Objects, v: nat)
    requires Valid(g) && v < |g.kids|
    ensures g.found[v] ==> Holds(g, v)
    ensures !g.found[v] && g.kids[v] == [] ==> !Holds(g, v)
  {
    if g.found[v] {
      HoldsSelf(g, v);
    } else if g.kids[v] == [] {
      NoneHeldAlone(g, v);
    }
  }

  /** Reading a kid with nothing to read in turn leaves less to do. */
  lemma TrackLess(g: Objects, w: Walk, a: Walk, path: seq<nat>, scc: seq<nat>, root: Node)
    requires Tracks(g, w, path, scc, root) && Tracks(g, a, path, scc, root) && |a.nodes| == |w.nodes|
    requires w.top < |w.nodes| && w.nodes[w.top].next < |w.nodes[w.top].kids|
    requires a.nodes[w.top].kids == w.nodes[w.top].kids && a.nodes[w.top].next == w.nodes[w.top].next + 1
    requires forall x :: 0 <= x < |w.nodes| && x != w.top ==> a.nodes[x] == w.nodes[x]
    ensures Measure(g, a.nodes, path) < Measure(g, w.nodes, path)
  {
    hide Tracks, Valid, Walking;
    TrackSane(g, w, path, scc, root);
    TrackSane(g, a, path, scc, root);
    WorkAdvance(g, w.nodes, a.nodes, path);
  }

  /** So does reading one that is no target. */
  lemma PushLess(g: Objects, w: Walk, path: seq<nat>, scc: seq<nat>, root: Node, n: Node, longer: seq<nat>)
    requires Tracks(g, w, path, scc, root) && w.top < |w.nodes| && w.nodes[w.top].next < |w.nodes[w.top].kids|
    requires Reads(g, n, false) && n.next == 0 && longer == path + [|w.nodes|]
    requires n.v == w.nodes[w.top].kids[w.nodes[w.top].next].v
    ensures !w.nodes[w.top].kids[w.nodes[w.top].next].target ==>
      Measure(g, Pushed(Advanced(w), n).nodes, longer) < Measure(g, w.nodes, path)
  {
    hide Tracks, Valid, Walking;
    TrackSane(g, w, path, scc, root);
    AdvancedSane(g, w, path);
    WorkAdvance(g, w.nodes, Advanced(w).nodes, path);
    WorkPush(g, Advanced(w).nodes, path, n, longer);
  }

  lemma AdvancedSane(g: Objects, w: Walk, path: seq<nat>)
    requires Sane(g, w.nodes, path) && w.top < |w.nodes| && w.nodes[w.top].next < |w.nodes[w.top].kids|
    ensures Sane(g, Advanced(w).nodes, path)
  {
  }

  lemma HitTop(g: Objects, w: Walk, path: seq<nat>, scc: seq<nat>, root: Node)
    requires Tracks(g, w, path, scc, root) && w.top < |w.nodes| && w.nodes[w.top].next < |w.nodes[w.top].kids|
    requires w.nodes[w.top].kids[w.nodes[w.top].next].v < |g.kids|
    requires Holds(g, w.nodes[w.top].kids[w.nodes[w.top].next].v)
    ensures var after := Advanced(w).nodes;
      && Sane(g, after, path) && Linked(after, path) && Hit(g, after, path)
      && after != [] && after[0].keep == root.keep && after[0].v == root.v && after[0].kids == root.kids
    ensures forall i, j :: 0 <= i < j < |path| ==> path[i] < path[j]
  {
    hide Holds, AllCovered, Lowest;
    TrackSane(g, w, path, scc, root);
    AdvancedSane(g, w, path);
    TrackLinked(w, Advanced(w), path);
  }
}
