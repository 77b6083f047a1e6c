/** Reachability in a finite directed graph given by its successor lists. */
module Reach {
  type Adj = seq<seq<nat>>

  ghost predicate WellFormed(a: Adj) {
    forall u, w :: 0 <= u < |a| && w in a[u] ==> w < |a|
  }

  ghost predicate Edge(a: Adj, u: nat, w: nat) {
    u < |a| && w in a[u]
  }

  ghost predicate IsPath(a: Adj, p: seq<nat>) {
    && |p| > 0
    && p[0] < |a|
    && forall i, j :: 0 <= i && j == i + 1 && j < |p| ==> Edge(a, p[i], p[j])
  }

  ghost predicate Reaches(a: Adj, u: nat, w: nat) {
    exists p :: IsPath(a, p) && p[0] == u && p[|p| - 1] == w
  }

  ghost function From(a: Adj, u: nat): set<nat> {
    set w | 0 <= w < |a| && Reaches(a, u, w)
  }

  ghost predicate Closed(a: Adj, s: set<nat>) {
    forall u, w :: u in s && u < |a| && w in a[u] ==> w in s
  }

  lemma ReachesSelf(a: Adj, u: nat)
    requires u < |a|
    ensures Reaches(a, u, u)
  {
    assert IsPath(a, [u]);
  }

  lemma ReachesTrans(a: Adj, u: nat, v: nat, w: nat)
    requires Reaches(a, u, v) && Reaches(a, v, w)
    ensures Reaches(a, u, w)
  {
    var p :| IsPath(a, p) && p[0] == u && p[|p| - 1] == v;
    var q :| IsPath(a, q) && q[0] == v && q[|q| - 1] == w;
    var r := p + q[1..];
    forall i, j | 0 <= i && j == i + 1 && j < |r|
      ensures Edge(a, r[i], r[j])
    {
      if j >= |p| {
        assert r[j] == q[j - |p| + 1] && r[i] == q[i - |p| + 1];
      }
    }
    assert IsPath(a, r);
    assert r[|r| - 1] == w;
  }

  lemma ReachesEdge(a: Adj, u: nat, v: nat, w: nat)
    requires Reaches(a, u, v) && v < |a| && w in a[v]
    ensures Reaches(a, u, w)
  {
    assert IsPath(a, [v, w]);
    ReachesTrans(a, u, v, w);
  }

  /** A set closed under the edges holds everything its members reach. */
  lemma ClosedHolds(a: Adj, s: set<nat>, u: nat, w: nat)
    requires Closed(a, s) && u in s && Reaches(a, u, w)
    ensures w in s
  {
    var p :| IsPath(a, p) && p[0] == u && p[|p| - 1] == w;
    var i := 0;
    while i < |p| - 1
      invariant 0 <= i < |p| && p[i] in s
    {
      assert Edge(a, p[i], p[i + 1]);
      i := i + 1;
    }
  }

  lemma FromFacts(a: Adj, u: nat)
    requires WellFormed(a) && u < |a|
    ensures u in From(a, u) && Closed(a, From(a, u))
  {
    ReachesSelf(a, u);
    forall v, w | v in From(a, u) && w in a[v]
      ensures w in From(a, u)
    {
      ReachesEdge(a, u, v, w);
    }
  }

  lemma FromSubset(a: Adj, u: nat, v: nat)
    requires Reaches(a, u, v)
    ensures From(a, v) <= From(a, u)
  {
    forall w | w in From(a, v)
      ensures w in From(a, u)
    {
      ReachesTrans(a, u, v, w);
    }
  }

  lemma FromEqual(a: Adj, u: nat, v: nat)
    requires Reaches(a, u, v) && Reaches(a, v, u)
    ensures From(a, u) == From(a, v)
  {
    FromSubset(a, u, v);
    FromSubset(a, v, u);
  }

  /** What u reaches is u and what its successors reach. */
  lemma FromIs(a: Adj, u: nat, s: set<nat>)
    requires WellFormed(a) && u < |a| && u in s && Closed(a, s) && s <= From(a, u)
    ensures s == From(a, u)
  {
    forall w | w in From(a, u)
      ensures w in s
    {
      ClosedHolds(a, s, u, w);
    }
  }

  /** The nodes of a graph of n. */
  ghost function Nodes(n: nat): (s: set<nat>)
    ensures forall v: nat :: v in s <==> v < n
  {
    if n == 0 then {} else Nodes(n - 1) + {n - 1}
  }
}
