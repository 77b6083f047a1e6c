/** The steps of a walk that leave the schema on top of its path: for one of whose cycle it is, or with its cycle
    complete. */
module ShapePops {
  import opened Reach
  import opened Stacks
  import opened Schemas
  import opened ShapeWalk

  /** p is the one below top on the path, which named top as the last schema it consumed. */
  ghost predicate Below(g: Graph, w: Walk, p: nat) {
    && p in w.on && p < w.top < |w.nodes|
    && (forall q: nat :: q in w.on && q < w.top ==> q <= p)
    && var n := w.nodes[p];
       n.v < |g.kids| && 0 < n.next <= |g.kids[n.v]| && g.kids[n.v][n.next - 1] == w.nodes[w.top].v
  }

  ghost predicate Finished(g: Graph, w: Walk) {
    Walking(g, w) && !w.pending && w.nodes[w.top].next == |g.kids[w.nodes[w.top].v]|
  }

  // A top whose low is below it joins p, the one it was entered from.

  ghost function Merged(w: Walk, p: nat): Walk
    requires p < |w.nodes| && w.top < |w.nodes| && w.nodes[p].kept < |w.nodes[p].kids|
  {
    w.(nodes := w.nodes[p := Lower(Append(w.nodes[p], w.nodes[w.top].v), w.nodes[w.top].low)],
       on := w.on - {w.top}, top := p)
  }

  lemma TopReachesBelow(g: Graph, w: Walk, p: nat)
    requires Structured(g, w) && ReachedDown(g, w) && ReachedUp(g, w) && Lowest(g, w, w.top) && Below(g, w, p)
    requires w.nodes[w.top].low < w.top
    ensures Reaches(g.kids, w.nodes[w.top].v, w.nodes[p].v)
  {
    hide Reaches;
    var l := w.nodes[w.top].low;
    OwnerExists(w.on, l);
    var q: nat :| Owner(w.on, q, l);
    ReachesTrans(g.kids, w.nodes[w.top].v, w.nodes[l].v, w.nodes[q].v);
    ReachesTrans(g.kids, w.nodes[w.top].v, w.nodes[q].v, w.nodes[p].v);
  }

  lemma MergeReached(g: Graph, w: Walk, p: nat, a: Walk)
    requires Structured(g, w) && ReachedDown(g, w) && ReachedUp(g, w) && Lowest(g, w, w.top) && Below(g, w, p)
    requires w.nodes[w.top].low < w.top
    requires Structured(g, a) && After(w, a) && a.on == w.on - {w.top} && a.top == p
    ensures ReachedDown(g, a) && ReachedUp(g, a)
  {
    hide Reaches;
    TopReachesBelow(g, w, p);
    forall q: nat, x: nat | x in a.open && Owner(a.on, q, x)
      ensures Reaches(g.kids, a.nodes[x].v, a.nodes[q].v)
    {
      if x < w.top {
        OwnerWithout(w.on, w.top, q, x);
      } else {
        assert q == p;
        assert Owner(w.on, w.top, x);
        ReachesTrans(g.kids, w.nodes[x].v, w.nodes[w.top].v, w.nodes[p].v);
      }
    }
  }

  lemma MergeLowest(g: Graph, w: Walk, p: nat, a: Walk, x: nat)
    requires Structured(g, w) && ReachedDown(g, w) && Below(g, w, p)
    requires x in w.open && Lowest(g, w, x) && Lowest(g, w, w.top) && Lowest(g, w, p)
    requires Structured(g, a) && After(w, a) && a.on == w.on - {w.top} && a.top == p
    requires x != p ==> a.nodes[x].low == w.nodes[x].low
    requires a.nodes[p].low == if w.nodes[w.top].low < w.nodes[p].low then w.nodes[w.top].low else w.nodes[p].low
    ensures Lowest(g, a, x)
  {
    hide Reaches;
    var n := a.nodes[x];
    if x == p {
      ReachesTrans(g.kids, w.nodes[p].v, w.nodes[w.top].v, w.nodes[w.nodes[w.top].low].v);
    } else if x !in a.on {
      forall q: nat | Owner(a.on, q, x)
        ensures a.nodes[q].low <= n.low
      {
        if x < w.top {
          OwnerWithout(w.on, w.top, q, x);
        } else {
          assert q == p;
          assert Owner(w.on, w.top, x);
        }
      }
    }
  }

  lemma MergeWalking(g: Graph, w: Walk, p: nat)
    requires Finished(g, w) && Below(g, w, p) && w.nodes[w.top].low < w.top
    ensures w.nodes[p].kept < |w.nodes[p].kids| && Walking(g, Merged(w, p))
  {
    hide Reaches, Declares, Declaring, Lowest, Spoken, ReachedDown, ReachedUp, AllCovered;
    var t, n := w.top, w.nodes[p];
    assert Counted(g, n, n.next - 1, true);
    var a := Merged(w, p);
    assert Structured(g, a);
    MergeReached(g, w, p, a);
    MergeCounted(g, w, p);
    forall x: nat | x in w.open
      ensures AllCovered(g, a, x) && Lowest(g, a, x)
    {
      LowIsBelow(g, w, t);
      KeepCovered(g, w, a, x);
      MergeLowest(g, w, p, a, x);
    }
  }

  lemma LowIsBelow(g: Graph, w: Walk, x: nat)
    requires Structured(g, w) && x < |w.nodes| && Lowest(g, w, x)
    ensures w.nodes[x].low <= x
  {
  }

  lemma MergeCounted(g: Graph, w: Walk, p: nat)
    requires Finished(g, w) && Below(g, w, p) && w.nodes[w.top].low < w.top
    requires w.nodes[p].kept < |w.nodes[p].kids|
    ensures var a := Merged(w, p); Counted(g, a.nodes[p], a.nodes[p].next, true)
  {
    hide Reaches, Declares, Declaring, Lowest, Spoken, ReachedDown, ReachedUp, AllCovered;
    var n := w.nodes[p];
    assert Counted(g, n, n.next - 1, true);
    TopReachesBelow(g, w, p);
    DownReaches(g, w, p);
    SameDeclares(g, n.v, w.nodes[w.top].v);
    AppendCounted(g, n, n.next - 1);
  }

  lemma DownReaches(g: Graph, w: Walk, p: nat)
    requires Structured(g, w) && ReachedDown(g, w) && p in w.on
    ensures Reaches(g.kids, w.nodes[p].v, w.nodes[w.top].v)
  {
  }

  // Its low is itself: what is open from it on is a cycle, or it alone.

  ghost predicate Whole(w: Walk) {
    w.top < |w.nodes| && w.nodes[w.top].low == w.top
  }

  ghost function Cycle(w: Walk): set<nat> {
    set x | x in w.open && w.top <= x
  }

  /** s speaks of all that the shapes of the cycle speak of. */
  ghost predicate SpeaksOfCycle(w: Walk, acc: set<nat>)
    requires |w.acc| == |w.nodes| && forall x :: x in w.open ==> x < |w.nodes|
  {
    forall u :: u in acc <==> exists x :: x in w.open && w.top <= x && u in w.acc[x]
  }

  lemma CycleConnected(g: Graph, w: Walk, x: nat)
    requires Finished(g, w) && Whole(w) && x in Cycle(w)
    ensures Reaches(g.kids, w.nodes[x].v, w.nodes[w.top].v) && Reaches(g.kids, w.nodes[w.top].v, w.nodes[x].v)
    ensures w.nodes[x].low >= w.top
  {
    hide Reaches, Declares, Declaring, Spoken, AllCovered;
    assert Owner(w.on, w.top, x);
    assert Lowest(g, w, x);
  }

  /** The cycle's kids are spoken of: those open are of the cycle, the others were accounted for. */
  lemma CycleClosed(g: Graph, w: Walk, acc: set<nat>, u: nat, k: nat)
    requires Finished(g, w) && Whole(w) && SpeaksOfCycle(w, acc) && u in acc && Edge(g.kids, u, k)
    ensures k in acc
  {
    hide Reaches, Declares, Declaring, Lowest, ReachedDown, ReachedUp, Says;
    var x :| x in w.open && w.top <= x && u in w.acc[x];
    CycleConnected(g, w, x);
    var n := w.nodes[x];
    assert Spoken(g, n.v, n.s, w.acc[x]);
    if u == n.v {
      assert Counted(g, n, w.Done(x), x in w.on);
      var j :| 0 <= j < |g.kids[u]| && g.kids[u][j] == k;
      assert Covered(w, x, g.kids[u][j]);
      if k !in w.acc[x] {
        var m := w.byNode[k];
        assert Spoken(g, w.nodes[m].v, w.nodes[m].s, w.acc[m]);
      }
    }
  }

  /** Every schema of the cycle reaches just what they speak of together. */
  lemma CycleFrom(g: Graph, w: Walk, acc: set<nat>, x: nat)
    requires Finished(g, w) && Whole(w) && SpeaksOfCycle(w, acc) && x in Cycle(w)
    ensures acc == From(g.kids, w.nodes[x].v)
  {
    hide Reaches, Declares, Declaring, Lowest, ReachedDown, ReachedUp, Says, AllCovered;
    var n := w.nodes[x];
    assert Spoken(g, n.v, n.s, w.acc[x]);
    CycleConnected(g, w, x);
    forall u, k | u in acc && Edge(g.kids, u, k)
      ensures k in acc
    {
      CycleClosed(g, w, acc, u, k);
    }
    forall u | u in acc
      ensures u in From(g.kids, n.v)
    {
      var y :| y in w.open && w.top <= y && u in w.acc[y];
      assert Spoken(g, w.nodes[y].v, w.nodes[y].s, w.acc[y]);
      CycleConnected(g, w, y);
      ReachesTrans(g.kids, n.v, w.nodes[w.top].v, w.nodes[y].v);
      FromSubset(g.kids, n.v, w.nodes[y].v);
    }
    FromIs(g.kids, n.v, acc);
  }

  function Kept(n: Node, s: Shape): Shape
    requires n.kept <= |n.kids|
  {
    s.(kids := if s.declares then n.kids[..n.kept] else [])
  }

  lemma NothingDeclares(g: Graph, v: nat, ks: seq<nat>)
    requires v < |g.kids| && !Declares(g, v) && forall k :: k in ks ==> k in g.kids[v]
    ensures Declaring(g, ks) == []
  {
    hide Reaches, Declares;
    if ks != [] {
      var k := ks[|ks| - 1];
      assert k in ks;
      if Declares(g, k) {
        ReachesSelf(g.kids, v);
        ReachesEdge(g.kids, v, v, k);
        FromDeclares(g, v, k);
        assert false;
      }
      NothingDeclares(g, v, ks[..|ks| - 1]);
    }
  }

  lemma FromDeclares(g: Graph, v: nat, k: nat)
    requires Reaches(g.kids, v, k) && Declares(g, k)
    ensures Declares(g, v)
  {
    FromSubset(g.kids, v, k);
  }

  /** What is published for each schema of the cycle is right. */
  lemma CycleRight(g: Graph, w: Walk, acc: set<nat>, s: Shape, x: nat)
    requires Finished(g, w) && Whole(w) && SpeaksOfCycle(w, acc) && Says(g, s, acc) && x in Cycle(w)
    ensures w.nodes[x].kept <= |w.nodes[x].kids| && Right(g, w.nodes[x].v, Kept(w.nodes[x], s))
  {
    hide Reaches, Lowest, ReachedDown, ReachedUp, AllCovered, Spoken;
    var n := w.nodes[x];
    assert Counted(g, n, w.Done(x), x in w.on);
    CycleFrom(g, w, acc, x);
    assert g.kids[n.v][..|g.kids[n.v]|] == g.kids[n.v];
    if !Declares(g, n.v) {
      NothingDeclares(g, n.v, g.kids[n.v]);
    }
  }

  ghost function Completed(w: Walk, p: nat): Walk {
    w.(on := w.on - {w.top}, open := w.open - Cycle(w), top := p, pending := true)
  }

  lemma CompleteCovered(g: Graph, w: Walk, p: nat, x: nat)
    requires Structured(g, w) && Below(g, w, p) && !w.pending && x in w.open && x < w.top && AllCovered(g, w, x)
    ensures AllCovered(g, Completed(w, p), x)
  {
    var a := Completed(w, p);
    assert a.Done(x) == w.Done(x);
    var ks := g.kids[w.nodes[x].v];
    forall j | 0 <= j < a.Done(x) && j < |ks|
      ensures Covered(a, x, ks[j])
    {
      assert Covered(w, x, ks[j]);
    }
  }

  lemma CompleteLowest(g: Graph, w: Walk, p: nat, x: nat)
    requires Structured(g, w) && Structured(g, Completed(w, p)) && x in w.open && x < w.top && Lowest(g, w, x)
    ensures Lowest(g, Completed(w, p), x)
  {
    hide Reaches;
    var a := Completed(w, p);
    forall q: nat | Owner(a.on, q, x)
      ensures Owner(w.on, q, x)
    {
      OwnerWithout(w.on, w.top, q, x);
    }
  }

  lemma CompleteReached(g: Graph, w: Walk, p: nat)
    requires Structured(g, w) && Structured(g, Completed(w, p)) && ReachedDown(g, w) && ReachedUp(g, w)
    ensures ReachedDown(g, Completed(w, p)) && ReachedUp(g, Completed(w, p))
  {
    hide Reaches;
    var a := Completed(w, p);
    forall q: nat, x: nat | x in a.open && Owner(a.on, q, x)
      ensures Reaches(g.kids, a.nodes[x].v, a.nodes[q].v)
    {
      OwnerWithout(w.on, w.top, q, x);
    }
  }

  lemma CompleteWalking(g: Graph, w: Walk, p: nat)
    requires Finished(g, w) && Whole(w) && Below(g, w, p)
    ensures Walking(g, Completed(w, p)) && Pending(g, Completed(w, p)) == w.nodes[w.top].v
  {
    hide Reaches, Declares, Declaring, Lowest, Spoken, ReachedDown, ReachedUp, AllCovered;
    var a := Completed(w, p);
    assert Structured(g, a);
    CompleteReached(g, w, p);
    forall x: nat | x in a.open
      ensures AllCovered(g, a, x) && Lowest(g, a, x)
    {
      CompleteCovered(g, w, p, x);
      CompleteLowest(g, w, p, x);
    }
  }
}
