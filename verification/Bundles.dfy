/** References among the values of a bundled document: from which objects one is reached, and one walk that decides it:
    Tarjan's algorithm, of which only what references name is recorded as seen. */
module Bundles {
  import opened Reach
  import opened Stacks

  /** An edge: v is a part of the object the edge is from, or, with target, what a reference in it names. */
  datatype Kid = Kid(v: nat, target: bool)

  /** By object: found if a value within it was written as a reference, holder if its answer may be kept (it has
      Encoding Objects), its edges, and a size that decreases from an object to its parts. */
  datatype Objects = Objects(found: seq<bool>, holder: seq<bool>, kids: seq<seq<Kid>>, size: seq<nat>)

  ghost predicate Valid(g: Objects) {
    && |g.found| == |g.holder| == |g.kids| == |g.size|
    && forall v, k :: 0 <= v < |g.kids| && k in g.kids[v] ==>
         k.v < |g.kids| && (!k.target ==> g.size[k.v] < g.size[v])
  }

  function Ids(ks: seq<Kid>): (s: seq<nat>)
    ensures |s| == |ks| && forall j :: 0 <= j < |ks| ==> s[j] == ks[j].v
  {
    seq(|ks|, j requires 0 <= j < |ks| => ks[j].v)
  }

  ghost function Links(g: Objects): (a: Adj)
    ensures |a| == |g.kids| && forall v :: 0 <= v < |a| ==> a[v] == Ids(g.kids[v])
  {
    seq(|g.kids|, v requires 0 <= v < |g.kids| => Ids(g.kids[v]))
  }

  /** A found object is reached from v. */
  ghost predicate Holds(g: Objects, v: nat) {
    exists w :: 0 <= w < |g.found| && g.found[w] && Reaches(Links(g), v, w)
  }

  lemma HoldsKid(g: Objects, v: nat, j: nat)
    requires Valid(g) && v < |g.kids| && j < |g.kids[v]| && Holds(g, g.kids[v][j].v)
    ensures Holds(g, v)
  {
    var w: nat :| w < |g.found| && g.found[w] && Reaches(Links(g), g.kids[v][j].v, w);
    var k := g.kids[v][j].v;
    assert Links(g)[v][j] == k;
    ReachesSelf(Links(g), v);
    ReachesEdge(Links(g), v, v, k);
    ReachesTrans(Links(g), v, k, w);
  }

  lemma HoldsSelf(g: Objects, v: nat)
    requires Valid(g) && v < |g.kids| && g.found[v]
    ensures Holds(g, v)
  {
    ReachesSelf(Links(g), v);
  }

  /** Objects that hold no such value, and hold only each other, or objects that lead to none, lead to none. */
  lemma NoneHeld(g: Objects, s: set<nat>, v: nat)
    requires Valid(g) && v in s && forall u :: u in s ==> u < |g.kids| && !g.found[u]
    requires forall u, j :: u in s && 0 <= j < |g.kids[u]| ==> g.kids[u][j].v in s || !Holds(g, g.kids[u][j].v)
    ensures !Holds(g, v)
  {
    if Holds(g, v) {
      var w: nat :| w < |g.found| && g.found[w] && Reaches(Links(g), v, w);
      var p :| IsPath(Links(g), p) && p[0] == v && p[|p| - 1] == w;
      var i := 0;
      while i < |p| - 1
        invariant 0 <= i < |p| && p[i] in s && Reaches(Links(g), p[i], w)
        decreases |p| - i
      {
        var u, k := p[i], p[i + 1];
        assert Edge(Links(g), u, k);
        var j :| 0 <= j < |Links(g)[u]| && Links(g)[u][j] == k;
        PathTail(Links(g), p, i + 1);
        i := i + 1;
      }
      assert false;
    }
  }

  lemma PathTail(a: Adj, p: seq<nat>, i: nat)
    requires IsPath(a, p) && 0 < i < |p| && p[i] < |a|
    ensures Reaches(a, p[i], p[|p| - 1])
  {
    var q := p[i..];
    forall x, y | 0 <= x && y == x + 1 && y < |q|
      ensures Edge(a, q[x], q[y])
    {
      assert Edge(a, p[i + x], p[i + y]);
    }
    assert IsPath(a, q);
  }

  lemma NoneHeldAlone(g: Objects, v: nat)
    requires Valid(g) && v < |g.kids| && !g.found[v] && g.kids[v] == []
    ensures !Holds(g, v)
  {
    NoneHeld(g, {v}, v);
  }

  // What is left to walk.

  /** The steps a walk of v takes, targets left out, which it walks once each. */
  ghost function Cost(g: Objects, v: nat): nat
    requires Valid(g) && v < |g.kids|
    decreases g.size[v], |g.kids[v]| + 1
  {
    1 + KidsCost(g, v, 0)
  }

  ghost function KidsCost(g: Objects, v: nat, j: nat): nat
    requires Valid(g) && v < |g.kids| && j <= |g.kids[v]|
    decreases g.size[v], |g.kids[v]| - j
  {
    if j == |g.kids[v]| then 0
    else
      var k := g.kids[v][j];
      assert k in g.kids[v];
      1 + (if k.target then 0 else Cost(g, k.v)) + KidsCost(g, v, j + 1)
  }

  ghost function Left(g: Objects, ks: seq<Kid>): nat
    requires Valid(g) && forall k :: k in ks ==> k.v < |g.kids|
  {
    if ks == [] then 0
    else
      assert ks[0] in ks;
      1 + (if ks[0].target then 0 else Cost(g, ks[0].v)) + Left(g, ks[1..])
  }

  lemma {:induction false} LeftIsCost(g: Objects, v: nat, j: nat)
    requires Valid(g) && v < |g.kids| && j <= |g.kids[v]|
    ensures forall k :: k in g.kids[v][j..] ==> k.v < |g.kids|
    ensures Left(g, g.kids[v][j..]) == KidsCost(g, v, j)
    decreases |g.kids[v]| - j
  {
    assert forall k :: k in g.kids[v][j..] ==> k in g.kids[v];
    if j < |g.kids[v]| {
      LeftIsCost(g, v, j + 1);
      assert g.kids[v][j..][1..] == g.kids[v][j + 1..];
    }
  }

  // A walk.

  /** An object read that holds others: its answer is kept with keep; low is as in the walk for shapes. */
  datatype Node = Node(v: nat, keep: bool, kids: seq<Kid>, next: nat, low: nat)

  datatype Walk = Walk(nodes: seq<Node>, on: set<nat>, open: set<nat>, top: nat, pending: bool)
  {
    ghost function Done(x: nat): int
      requires x < |nodes|
    {
      if x in on && (x != top || pending) then nodes[x].next - 1 else nodes[x].next
    }
  }

  /** A node is of an object that holds no such value itself; the first may stand for part of one, which is not kept. */
  ghost predicate Reads(g: Objects, n: Node, first: bool) {
    && |g.found| == |g.kids|
    && (forall k :: k in n.kids ==> k.v < |g.kids|)
    && n.next <= |n.kids|
    && (n.keep || !first ==> n.v < |g.kids| && !g.found[n.v] && n.kids == g.kids[n.v])
  }

  ghost predicate Structured(g: Objects, w: Walk) {
    && |g.found| == |g.kids|
    && (forall x :: 0 <= x < |w.nodes| ==> Reads(g, w.nodes[x], x == 0))
    && (forall x :: x in w.open ==> x < |w.nodes| && 0 <= w.Done(x))
    && (forall x :: x in w.on ==> x in w.open && x <= w.top)
    && (forall x :: x in w.open && x !in w.on ==> w.nodes[x].next == |w.nodes[x].kids|)
    && 0 in w.on && w.top in w.on
  }

  /** A kid read leads to no such value, or is open: no lower than low, and read before what is above x on the path. */
  ghost predicate Covered(g: Objects, w: Walk, x: nat, k: nat)
    requires x < |w.nodes|
  {
    !Holds(g, k) ||
    exists m :: m in w.open && 0 < m < |w.nodes| && w.nodes[m].v == k && w.nodes[x].low <= m
      && forall q: nat :: q in w.on && x < q ==> m < q
  }

  ghost predicate AllCovered(g: Objects, w: Walk, x: nat)
    requires x < |w.nodes|
  {
    forall j :: 0 <= j < w.Done(x) && j < |w.nodes[x].kids| ==> Covered(g, w, x, w.nodes[x].kids[j].v)
  }

  ghost predicate Lowest(w: Walk, x: nat)
    requires x < |w.nodes| && forall q :: q in w.on ==> q < |w.nodes|
  {
    && w.nodes[x].low <= x
    && (x !in w.on ==> forall q: nat :: Owner(w.on, q, x) ==> w.nodes[q].low <= w.nodes[x].low)
  }

  ghost predicate Walking(g: Objects, w: Walk) {
    && Valid(g)
    && Structured(g, w)
    && (forall x :: x in w.open ==> AllCovered(g, w, x))
    && (forall x :: x in w.open ==> Lowest(w, x))
  }

  ghost function Pending(w: Walk): Kid
    requires w.top < |w.nodes| && 0 < w.nodes[w.top].next <= |w.nodes[w.top].kids|
  {
    w.nodes[w.top].kids[w.nodes[w.top].next - 1]
  }

  lemma StartWalking(g: Objects, n: Node)
    requires Valid(g) && Reads(g, n, true) && n.next == 0 && n.low == 0
    ensures Walking(g, Walk([n], {0}, {0}, 0, false))
  {
  }

  ghost function Advanced(w: Walk): Walk
    requires w.top < |w.nodes|
  {
    var n := w.nodes[w.top];
    w.(nodes := w.nodes[w.top := n.(next := n.next + 1)], pending := true)
  }

  lemma AdvanceWalking(g: Objects, w: Walk)
    requires Walking(g, w) && !w.pending && w.nodes[w.top].next < |w.nodes[w.top].kids|
    ensures Walking(g, Advanced(w))
  {
    hide Holds, Valid;
    var a := Advanced(w);
    assert Structured(g, a);
    forall x | x in a.open
      ensures AllCovered(g, a, x) && Lowest(a, x)
    {
      assert Lowest(w, x);
      CoveredFrame(g, w, a, x);
    }
  }

  /** Coverage carries over to a later state, given it for the one kid newly read, if any. */
  lemma CoveredFrame(g: Objects, w: Walk, a: Walk, x: nat)
    requires |w.nodes| <= |a.nodes| && x in w.open && (forall y :: y in w.open ==> y < |w.nodes|)
    requires forall y :: y in w.open ==> a.nodes[y].v == w.nodes[y].v && a.nodes[y].kids == w.nodes[y].kids
    requires a.nodes[x].low <= w.nodes[x].low
    requires forall q: nat :: q in a.on && x < q ==> q in w.on || q >= |w.nodes|
    requires forall m :: m in w.open && m !in a.open && m > 0 ==> !Holds(g, w.nodes[m].v)
    requires AllCovered(g, w, x)
    requires w.Done(x) < a.Done(x) && 0 <= w.Done(x) < |w.nodes[x].kids| ==>
      a.Done(x) == w.Done(x) + 1 && Covered(g, a, x, w.nodes[x].kids[w.Done(x)].v)
    requires 0 <= w.Done(x)
    ensures AllCovered(g, a, x)
  {
    hide Holds;
    forall j | 0 <= j < a.Done(x) && j < |a.nodes[x].kids|
      ensures Covered(g, a, x, a.nodes[x].kids[j].v)
    {
      if j < w.Done(x) {
        assert Covered(g, w, x, w.nodes[x].kids[j].v);
      }
    }
  }

  // The kid read leads to no such value.

  ghost function Skipped(w: Walk): Walk {
    w.(pending := false)
  }

  lemma SkipWalking(g: Objects, w: Walk)
    requires Walking(g, w) && w.pending && 0 < w.nodes[w.top].next && !Holds(g, Pending(w).v)
    ensures Walking(g, Skipped(w))
  {
    hide Holds, Valid;
    var a := Skipped(w);
    assert Structured(g, a);
    forall x | x in a.open
      ensures AllCovered(g, a, x) && Lowest(a, x)
    {
      assert Lowest(w, x);
      CoveredFrame(g, w, a, x);
    }
  }

  // The kid read is a target open at m.

  function Lower(n: Node, low: nat): Node {
    n.(low := if low < n.low then low else n.low)
  }

  ghost function Taken(w: Walk, m: nat): Walk
    requires w.top < |w.nodes|
  {
    w.(nodes := w.nodes[w.top := Lower(w.nodes[w.top], m)], pending := false)
  }

  lemma TakeWalking(g: Objects, w: Walk, m: nat)
    requires Walking(g, w) && w.pending && 0 < w.nodes[w.top].next
    requires m in w.open && 0 < m && w.nodes[m].v == Pending(w).v
    ensures Walking(g, Taken(w, m))
  {
    hide Holds, Valid;
    var a, t := Taken(w, m), w.top;
    assert Structured(g, a);
    forall x | x in a.open
      ensures AllCovered(g, a, x) && Lowest(a, x)
    {
      assert Lowest(w, x);
      if x == t {
        assert m in a.open && a.nodes[m].v == Pending(w).v;
        assert Covered(g, a, t, Pending(w).v);
      }
      CoveredFrame(g, w, a, x);
    }
  }

  // The kid read holds others, and is read in turn.

  ghost function Pushed(w: Walk, n: Node): Walk {
    var t := |w.nodes|;
    Walk(w.nodes + [n], w.on + {t}, w.open + {t}, t, false)
  }

  lemma PushWalking(g: Objects, w: Walk, n: Node)
    requires Walking(g, w) && w.pending && 0 < w.nodes[w.top].next
    requires Reads(g, n, false) && n.next == 0 && n.low == |w.nodes|
    ensures Walking(g, Pushed(w, n))
  {
    hide Holds, Valid;
    var a, t := Pushed(w, n), |w.nodes|;
    assert Structured(g, a);
    forall x | x in a.open
      ensures AllCovered(g, a, x) && Lowest(a, x)
    {
      if x != t {
        assert Lowest(w, x);
        assert forall q: nat :: Owner(a.on, q, x) ==> Owner(w.on, q, x);
        PushCovered(g, w, n, x);
      }
    }
  }

  lemma PushCovered(g: Objects, w: Walk, n: Node, x: nat)
    requires Structured(g, w) && x in w.open && AllCovered(g, w, x) && w.pending
    ensures AllCovered(g, Pushed(w, n), x)
  {
    hide Holds;
    var a := Pushed(w, n);
    assert a.Done(x) == w.Done(x);
    forall j | 0 <= j < a.Done(x) && j < |a.nodes[x].kids|
      ensures Covered(g, a, x, a.nodes[x].kids[j].v)
    {
      assert Covered(g, w, x, w.nodes[x].kids[j].v);
      if Holds(g, a.nodes[x].kids[j].v) {
        var m :| m in w.open && 0 < m < |w.nodes| && w.nodes[m].v == w.nodes[x].kids[j].v && w.nodes[x].low <= m
          && forall q: nat :: q in w.on && x < q ==> m < q;
        assert m in a.open && a.nodes[m].v == a.nodes[x].kids[j].v;
      }
    }
  }

  // The top has no kid left, and p is below it on the path.

  ghost predicate Finished(g: Objects, w: Walk) {
    Walking(g, w) && !w.pending && w.nodes[w.top].next == |w.nodes[w.top].kids|
  }

  ghost predicate Below(w: Walk, p: nat) {
    && p in w.on && p < w.top < |w.nodes|
    && (forall q: nat :: q in w.on && q < w.top ==> q <= p)
    && var n := w.nodes[p];
       0 < n.next <= |n.kids| && n.kids[n.next - 1].v == w.nodes[w.top].v
  }

  /** A component whose objects are all read leads to no such value. */
  lemma ComponentHoldsNone(g: Objects, w: Walk, x: nat)
    requires Finished(g, w) && w.nodes[w.top].low == w.top && x in w.open && w.top <= x
    ensures 0 < x || w.nodes[x].keep ==> !Holds(g, w.nodes[x].v)
    ensures forall j :: 0 <= j < |w.nodes[x].kids| ==> !Holds(g, w.nodes[x].kids[j].v)
  {
    hide Holds;
    var s := set y | y in w.open && w.top <= y && (0 < y || w.nodes[y].keep) :: w.nodes[y].v;
    forall y, j | y in w.open && w.top <= y && 0 <= j < |w.nodes[y].kids|
      ensures w.nodes[y].kids[j].v in s || !Holds(g, w.nodes[y].kids[j].v)
    {
      ComponentCovered(g, w, y, j);
    }
    forall u | u in s
      ensures !Holds(g, u)
    {
      NoneHeld(g, s, u);
    }
  }

  lemma ComponentCovered(g: Objects, w: Walk, y: nat, j: nat)
    requires Finished(g, w) && w.nodes[w.top].low == w.top && y in w.open && w.top <= y && j < |w.nodes[y].kids|
    ensures !Holds(g, w.nodes[y].kids[j].v) ||
      exists m :: m in w.open && w.top <= m && 0 < m && w.nodes[m].v == w.nodes[y].kids[j].v
  {
    hide Holds, Valid;
    assert Lowest(w, y) && AllCovered(g, w, y);
    assert Owner(w.on, w.top, y);
    assert Covered(g, w, y, w.nodes[y].kids[j].v);
  }

  ghost function Component(w: Walk): set<nat> {
    if w.top < |w.nodes| && w.nodes[w.top].low == w.top then set x | x in w.open && w.top <= x else {}
  }

  ghost function Popped(w: Walk, p: nat): Walk
    requires p < |w.nodes| && w.top < |w.nodes|
  {
    Walk(w.nodes[p := Lower(w.nodes[p], w.nodes[w.top].low)], w.on - {w.top}, w.open - Component(w), p, false)
  }

  lemma PopLowest(g: Objects, w: Walk, p: nat, x: nat)
    requires Walking(g, w) && Below(w, p) && x in w.open - Component(w)
    ensures forall q :: q in Popped(w, p).on ==> q < |w.nodes|
    ensures Lowest(Popped(w, p), x)
  {
    hide Holds, Valid, AllCovered;
    var a := Popped(w, p);
    assert Lowest(w, x) && Lowest(w, w.top) && Lowest(w, p);
    if x !in a.on {
      forall q: nat | Owner(a.on, q, x)
        ensures a.nodes[q].low <= a.nodes[x].low
      {
        if x < w.top {
          OwnerWithout(w.on, w.top, q, x);
        } else {
          assert p in a.on && q <= p;
          assert Owner(w.on, w.top, x);
        }
      }
    }
  }

  lemma PopCovered(g: Objects, w: Walk, p: nat, x: nat)
    requires Finished(g, w) && Below(w, p) && x in w.open - Component(w)
    ensures AllCovered(g, Popped(w, p), x)
  {
    hide Holds, Valid;
    var a, t := Popped(w, p), w.top;
    assert Lowest(w, t) && Lowest(w, p);
    if x == p {
      if w.nodes[t].low == t {
        ComponentHoldsNone(g, w, t);
      } else {
        assert t in a.open && a.nodes[t].v == w.nodes[t].v;
      }
      assert Covered(g, a, p, w.nodes[t].v);
    }
    forall m | m in Component(w)
      ensures m > 0 ==> !Holds(g, w.nodes[m].v)
    {
      ComponentHoldsNone(g, w, m);
    }
    CoveredFrame(g, w, a, x);
  }

  lemma PopWalking(g: Objects, w: Walk, p: nat)
    requires Finished(g, w) && Below(w, p)
    ensures Walking(g, Popped(w, p))
  {
    hide Holds, Valid, AllCovered, Lowest;
    var a := Popped(w, p);
    PopStructured(g, w, p);
    forall x | x in a.open
      ensures AllCovered(g, a, x) && Lowest(a, x)
    {
      PopLowest(g, w, p, x);
      PopCovered(g, w, p, x);
    }
  }

  lemma PopStructured(g: Objects, w: Walk, p: nat)
    requires Finished(g, w) && Below(w, p)
    ensures Structured(g, Popped(w, p))
  {
    hide Holds, Valid, AllCovered, Lowest;
    var a := Popped(w, p);
    forall x | x in a.open
      ensures 0 <= a.Done(x)
    {
      assert 0 <= w.Done(x);
    }
  }
}
