/** A walk as the code holds it, in sequences and a map, and what each step keeps of it. */
module ShapeTrack {
  import Chain
  import opened Wrappers
  import opened Reach
  import opened Stacks
  import opened Schemas
  import opened ShapeWalk
  import opened ShapePops

  /** Each schema on the path was named by the one before it, as the last it consumed. */
  ghost predicate Linked(g: Graph, nodes: seq<Node>, path: seq<nat>) {
    forall i, j :: 0 <= i && j == i + 1 && j < |path| && path[i] < |nodes| && path[j] < |nodes| ==>
      var n := nodes[path[i]];
      n.v < |g.kids| && 0 < n.next <= |g.kids[n.v]| && g.kids[n.v][n.next - 1] == nodes[path[j]].v
  }

  lemma LinkedBelow(g: Graph, w: Walk, path: seq<nat>)
    requires Structured(g, w) && Stack(path, w.on) && Linked(g, w.nodes, path)
    requires |path| > 1 && w.top == path[|path| - 1]
    ensures Below(g, w, path[|path| - 2])
  {
    StackSecond(path, w.on);
  }

  ghost function SpokenBy(w: Walk, ms: seq<nat>): set<nat>
    requires forall j :: 0 <= j < |ms| ==> ms[j] < |w.acc|
  {
    if ms == [] then {} else SpokenBy(w, ms[..|ms| - 1]) + w.acc[ms[|ms| - 1]]
  }

  lemma SpokenByIs(w: Walk, ms: seq<nat>, u: nat)
    requires forall j :: 0 <= j < |ms| ==> ms[j] < |w.acc|
    ensures u in SpokenBy(w, ms) <==> exists m :: m in ms && u in w.acc[m]
  {
    if ms != [] {
      var rest, last := ms[..|ms| - 1], ms[|ms| - 1];
      SpokenByIs(w, rest, u);
      assert ms == rest + [last];
      assert forall m :: m in ms <==> m in rest || m == last;
    }
  }

  /** cycle holds the nodes of the cycle on top of the walk. */
  ghost predicate IsCycle(w: Walk, cycle: seq<nat>) {
    forall x: nat :: x in cycle <==> x in Cycle(w)
  }

  lemma CycleCut(w: Walk, open: seq<nat>, i: nat)
    requires Stack(open, w.open) && i < |open| && open[i] == w.top
    ensures IsCycle(w, open[i..])
  {
    forall x: nat
      ensures x in open[i..] <==> x in Cycle(w)
    {
      if x in Cycle(w) {
        var j :| 0 <= j < |open| && open[j] == x;
        assert j >= i;
        assert open[i..][j - i] == x;
      }
    }
  }

  lemma SpokenByCycle(g: Graph, w: Walk, cycle: seq<nat>)
    requires Structured(g, w) && IsCycle(w, cycle)
    ensures forall j :: 0 <= j < |cycle| ==> cycle[j] < |w.acc|
    ensures SpeaksOfCycle(w, SpokenBy(w, cycle))
  {
    assert forall j :: 0 <= j < |cycle| ==> cycle[j] in cycle;
    forall u
      ensures u in SpokenBy(w, cycle) <==> exists x :: x in w.open && w.top <= x && u in w.acc[x]
    {
      SpokenByIs(w, cycle, u);
    }
  }

  lemma NodesBounded(g: Graph, w: Walk)
    requires Structured(g, w)
    ensures |w.nodes| <= |g.kids|
    ensures (exists k :: k < |g.kids| && 0 <= k && k !in w.byNode) ==> |w.nodes| < |g.kids|
  {
    var ids := set x | 0 <= x < |w.nodes| :: w.nodes[x].v;
    InjectiveSize(w, |w.nodes|);
    Chain.Small(ids, |g.kids|);
    if k :| 0 <= k < |g.kids| && k !in w.byNode {
      Chain.Small(ids + {k}, |g.kids|);
    }
  }

  lemma InjectiveSize(w: Walk, n: nat)
    requires n <= |w.nodes| && forall x, y :: 0 <= x < y < n ==> w.nodes[x].v != w.nodes[y].v
    ensures |set x | 0 <= x < n :: w.nodes[x].v| == n
  {
    if n > 0 {
      InjectiveSize(w, n - 1);
      assert (set x | 0 <= x < n :: w.nodes[x].v) == (set x | 0 <= x < n - 1 :: w.nodes[x].v) + {w.nodes[n - 1].v};
    }
  }

  /** Where the nodes of a path, but its last, consumed as much, a path that loses its last is linked still. */
  lemma LinkedCut(g: Graph, nodes: seq<Node>, more: seq<Node>, path: seq<nat>)
    requires Linked(g, nodes, path) && path != [] && |nodes| == |more|
    requires forall i :: 0 <= i < |path| && path[i] < |nodes| ==>
      more[path[i]].v == nodes[path[i]].v && more[path[i]].next == nodes[path[i]].next
    ensures Linked(g, more, path[..|path| - 1])
  {
  }

  /** The stacks without the top of the path, and the cycle above it. */
  lemma StacksCut(g: Graph, w: Walk, path: seq<nat>, open: seq<nat>, i: nat)
    requires Structured(g, w) && Stack(path, w.on) && Stack(open, w.open) && path != [] && w.top == path[|path| - 1]
    ensures Stack(path[..|path| - 1], w.on - {w.top})
    ensures i < |open| && open[i] == w.top ==> Stack(open[..i], w.open - Cycle(w))
  {
    StackCut(path, w.on, |path| - 1, w.on - {w.top});
    if i < |open| && open[i] == w.top {
      StackCut(open, w.open, i, w.open - Cycle(w));
    }
  }

  /** The walk for v holds w, its stacks as path and open, and is about to enter next, if any. */
  ghost predicate Tracks(g: Graph, v: nat, path: seq<nat>, open: seq<nat>, next: Option<nat>, w: Walk) {
    && Walking(g, w)
    && Stack(path, w.on) && Stack(open, w.open)
    && |path| > 0 && w.top == path[|path| - 1] && w.nodes[0].v == v
    && Linked(g, w.nodes, path)
    && (next.Some? <==> w.pending)
    && (next.Some? ==> next.value == Pending(g, w) && next.value !in w.byNode)
  }

  function Fresh(g: Graph, k: nat, t: nat): Node
    requires k < |g.own| == |g.kids|
  {
    Node(k, OwnShape(g.own[k]), g.kids[k], 0, 0, t)
  }

  /** What the code relies on to read the top of its path. */
  lemma TrackTop(g: Graph, v: nat, path: seq<nat>, open: seq<nat>, w: Walk)
    requires Tracks(g, v, path, open, None, w)
    ensures |path| > 0 && w.top == path[|path| - 1] && w.top < |w.nodes| == |w.acc| <= |g.kids| == |g.own|
    ensures w.top in w.open && (forall x :: x in w.open ==> x < |w.nodes|) && Stack(open, w.open)
    ensures forall k :: k in w.byNode ==> w.byNode[k] < |w.nodes| && w.nodes[w.byNode[k]].v == k
    ensures var n := w.nodes[w.top];
      && n.v < |g.kids| && |n.kids| == |g.kids[n.v]| && n.next <= |n.kids| && n.low <= w.top
      && (n.next < |n.kids| ==> n.kept < |n.kids| && n.kids[n.next] < |g.own|)
  {
    hide Reaches, Declares, Declaring, Spoken, ReachedDown, ReachedUp, AllCovered, Counted, Lowest, Linked, Stack;
    NodesBounded(g, w);
    TopCounted(g, w);
  }

  lemma CountedRoom(g: Graph, n: Node)
    requires Schemas.Valid(g) && Counted(g, n, n.next, true)
    ensures n.v < |g.kids| && |n.kids| == |g.kids[n.v]| && n.next <= |n.kids|
    ensures n.next < |n.kids| ==> n.kept < |n.kids| && n.kids[n.next] < |g.own|
  {
    hide Reaches, Declares, Declaring;
    if n.next < |n.kids| {
      assert n.kids[n.next] in g.kids[n.v];
    }
  }

  lemma LowestTop(g: Graph, w: Walk)
    requires Structured(g, w) && Lowest(g, w, w.top)
    ensures w.nodes[w.top].low <= w.top
  {
  }

  lemma TopCounted(g: Graph, w: Walk)
    requires Walking(g, w) && !w.pending
    ensures var n := w.nodes[w.top];
      && n.v < |g.kids| && |n.kids| == |g.kids[n.v]| && n.next <= |n.kids| && n.low <= w.top
      && (n.next < |n.kids| ==> n.kept < |n.kids| && n.kids[n.next] < |g.own|)
  {
    hide Spoken, ReachedDown, ReachedUp, AllCovered, Counted, Lowest;
    assert w.top in w.open && w.Done(w.top) == w.nodes[w.top].next;
    CountedRoom(g, w.nodes[w.top]);
    LowestTop(g, w);
  }

  lemma TrackStart(g: Graph, v: nat)
    requires Schemas.Valid(g) && v < |g.own|
    ensures Tracks(g, v, [0], [0], None, Entered(g, NOTHING, v))
  {
    hide Counted, Spoken, AllCovered, Lowest, ReachedDown, ReachedUp;
    StartWalking(g, v);
  }

  lemma TrackRoom(g: Graph, v: nat, path: seq<nat>, open: seq<nat>, k: nat, w: Walk)
    requires Tracks(g, v, path, open, Some(k), w)
    ensures k < |g.own| == |g.kids| && |w.nodes| < |g.kids|
  {
    hide Counted, Spoken, AllCovered, Lowest, ReachedDown, ReachedUp;
    PendingEdge(g, w);
    NodesBounded(g, w);
  }

  lemma TrackEnter(g: Graph, v: nat, path: seq<nat>, open: seq<nat>, k: nat, w: Walk, t: nat, longer: seq<nat>,
      more: seq<nat>)
    requires k < |g.own| == |g.kids| && Tracks(g, v, path, open, Some(k), w)
    requires t == |w.nodes| && longer == path + [t] && more == open + [t]
    ensures Tracks(g, v, longer, more, None, Entered(g, w, k))
  {
    hide Spoken, AllCovered, Lowest, ReachedDown, ReachedUp, Declaring, Declares;
    PendingEdge(g, w);
    EnterWalking(g, w, k);
    StackPush(path, w.on, |w.nodes|);
    StackPush(open, w.open, |w.nodes|);
    assert Counted(g, w.nodes[w.top], w.Done(w.top), true);
    EnterLinked(g, w, path, k);
  }

  lemma EnterLinked(g: Graph, w: Walk, path: seq<nat>, k: nat)
    requires Structured(g, w) && Stack(path, w.on) && Linked(g, w.nodes, path) && k < |g.own| == |g.kids|
    requires |path| > 0 && w.top == path[|path| - 1] && Edge(g.kids, w.nodes[w.top].v, k)
    requires var n := w.nodes[w.top]; 0 < n.next <= |g.kids[n.v]| && k == g.kids[n.v][n.next - 1]
    ensures Linked(g, Entered(g, w, k).nodes, path + [|w.nodes|])
  {
    assert forall i :: 0 <= i < |path| ==> path[i] in path;
  }

  /** What the last of a path consumes leaves it linked. */
  lemma LinkedLast(g: Graph, nodes: seq<Node>, path: seq<nat>, on: set<nat>, n: Node)
    requires Linked(g, nodes, path) && Stack(path, on) && path != [] && path[|path| - 1] < |nodes|
    requires n.v == nodes[path[|path| - 1]].v
    ensures Linked(g, nodes[path[|path| - 1] := n], path)
  {
  }

  lemma TrackNext(g: Graph, v: nat, path: seq<nat>, open: seq<nat>, w: Walk, k: nat)
    requires Tracks(g, v, path, open, None, w) && w.top < |w.nodes| && w.nodes[w.top].next < |w.nodes[w.top].kids|
    requires k == w.nodes[w.top].kids[w.nodes[w.top].next]
    ensures Walking(g, Advanced(w)) && Advanced(w).pending && Pending(g, Advanced(w)) == k
    ensures Linked(g, Advanced(w).nodes, path)
    ensures k !in w.byNode ==> Tracks(g, v, path, open, Some(k), Advanced(w))
  {
    hide Spoken, AllCovered, Lowest, ReachedDown, ReachedUp, Counted, Linked, Stack;
    TopNext(g, w);
    AdvanceWalking(g, w);
    LinkedLast(g, w.nodes, path, w.on, Advanced(w).nodes[w.top]);
  }

  /** The kid the top is to consume is as it was named. */
  lemma TopNext(g: Graph, w: Walk)
    requires Walking(g, w) && !w.pending && w.top < |w.nodes| && w.nodes[w.top].next < |w.nodes[w.top].kids|
    ensures var n := w.nodes[w.top];
      n.v < |g.kids| && |n.kids| == |g.kids[n.v]| && n.kids[n.next] == g.kids[n.v][n.next]
  {
    hide Spoken, AllCovered, Lowest, ReachedDown, ReachedUp, Declares, Declaring;
    assert Counted(g, w.nodes[w.top], w.Done(w.top), true);
  }

  lemma TrackAbsorb(g: Graph, v: nat, path: seq<nat>, open: seq<nat>, w: Walk, k: nat, ks: Shape)
    requires Tracks(g, v, path, open, None, w) && w.top < |w.nodes| && w.nodes[w.top].next < |w.nodes[w.top].kids|
    requires k == w.nodes[w.top].kids[w.nodes[w.top].next] && Right(g, k, ks)
    requires |w.acc| == |w.nodes| && w.nodes[w.top].kept < |w.nodes[w.top].kids|
    ensures Tracks(g, v, path, open, None, Absorbed(g, Advanced(w), k, ks))
  {
    hide Counted, Spoken, AllCovered, Lowest, ReachedDown, ReachedUp, Right;
    TrackNext(g, v, path, open, w, k);
    AbsorbWalking(g, Advanced(w), k, ks);
  }

  lemma TrackTake(g: Graph, v: nat, path: seq<nat>, open: seq<nat>, w: Walk, k: nat, m: nat)
    requires Tracks(g, v, path, open, None, w) && w.top < |w.nodes| && w.nodes[w.top].next < |w.nodes[w.top].kids|
    requires k == w.nodes[w.top].kids[w.nodes[w.top].next] && k in w.byNode && m == w.byNode[k] && m in w.open
    requires w.nodes[w.top].kept < |w.nodes[w.top].kids|
    ensures Tracks(g, v, path, open, None, Taken(Advanced(w), k, m))
  {
    hide Counted, Spoken, AllCovered, Lowest, ReachedDown, ReachedUp, Right;
    TrackNext(g, v, path, open, w, k);
    TakeWalking(g, Advanced(w), k, m);
  }

  /** The top has nothing left, and p is below it on the path. */
  lemma TrackBelow(g: Graph, v: nat, path: seq<nat>, open: seq<nat>, w: Walk)
    requires Tracks(g, v, path, open, None, w) && w.top < |w.nodes|
    requires w.nodes[w.top].next == |w.nodes[w.top].kids|
    ensures Finished(g, w)
    ensures |path| == 1 ==> w.nodes[w.top].v == v
    ensures w.nodes[w.top].low < w.top || |path| > 1 ==> |path| > 1 && path[|path| - 2] < |w.nodes|
    ensures |path| > 1 ==> var p := path[|path| - 2];
      && Below(g, w, p) && w.nodes[p].kept < |w.nodes[p].kids| && 0 < w.nodes[p].next <= |w.nodes[p].kids|
      && w.nodes[p].kids[w.nodes[p].next - 1] == w.nodes[w.top].v
  {
    hide Spoken, AllCovered, Lowest, ReachedDown, ReachedUp, Declares, Declaring;
    assert Counted(g, w.nodes[w.top], w.Done(w.top), true);
    if w.top > 0 {
      PathLong(g, w, path);
    }
    if |path| > 1 {
      LinkedBelow(g, w, path);
      var p := path[|path| - 2];
      assert Counted(g, w.nodes[p], w.Done(p), true);
    }
  }

  lemma TrackMerge(g: Graph, v: nat, path: seq<nat>, open: seq<nat>, w: Walk, p: nat)
    requires Tracks(g, v, path, open, None, w) && Finished(g, w) && w.nodes[w.top].low < w.top
    requires |path| > 1 && p == path[|path| - 2] && Below(g, w, p) && w.nodes[p].kept < |w.nodes[p].kids|
    ensures Tracks(g, v, path[..|path| - 1], open, None, Merged(w, p))
  {
    hide Counted, Spoken, AllCovered, Lowest, ReachedDown, ReachedUp, Linked, Stack, Below;
    MergeWalking(g, w, p);
    StacksCut(g, w, path, open, 0);
    LinkedCut(g, w.nodes, Merged(w, p).nodes, path);
  }

  lemma PathLong(g: Graph, w: Walk, path: seq<nat>)
    requires Structured(g, w) && Stack(path, w.on) && |path| > 0 && w.top == path[|path| - 1] && w.top > 0
    ensures |path| > 1
  {
    assert 0 in path;
  }

  lemma TrackComplete(g: Graph, v: nat, path: seq<nat>, open: seq<nat>, w: Walk, p: nat, i: nat, k: nat, done: Shape)
    requires Tracks(g, v, path, open, None, w) && Finished(g, w) && Whole(w)
    requires |path| > 1 && p == path[|path| - 2] && Below(g, w, p) && w.nodes[p].kept < |w.nodes[p].kids|
    requires i < |open| && open[i] == w.top && k == w.nodes[w.top].v && Right(g, k, done)
    ensures Tracks(g, v, path[..|path| - 1], open[..i], None, Absorbed(g, Completed(w, p), k, done))
  {
    hide Counted, Spoken, AllCovered, Lowest, ReachedDown, ReachedUp, Right, Linked, Stack, Below, Cycle;
    CompleteWalking(g, w, p);
    AbsorbWalking(g, Completed(w, p), k, done);
    StacksCut(g, w, path, open, i);
    LinkedCut(g, w.nodes, Absorbed(g, Completed(w, p), k, done).nodes, path);
  }
}
