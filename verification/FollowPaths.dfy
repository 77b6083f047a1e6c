/** Where a Reference Object leads, told by the nodes on the way. */
module FollowPaths {
  import opened Wrappers
  import opened Chain
  import opened Follow

  /** p is nodes from v on, each a reference that leads to the next. */
  ghost predicate Path(d: Refs, v: nat, p: seq<nat>) {
    && p != [] && p[0] == v && (forall i :: 0 <= i < |p| ==> p[i] < |d.hops|)
    && forall i :: 0 <= i < |p| - 1 ==> d.hops[p[i]].To? && d.hops[p[i]].v == p[i + 1]
  }

  /** A description that replaces that of what is led to: one of a node of OpenAPI 3.1 or later. */
  predicate Replaces(d: Refs, v: nat) {
    v < |d.late| && v < |d.descs| && d.late[v] && d.descs[v].Some?
  }

  /** r is the target at the end of p: the pointer is that of the reference to it, or src where it is v itself, and the
      description the first on the way that replaces others, or else its own, or none. */
  ghost predicate IsTarget(d: Refs, p: seq<nat>, src: string, r: Resolution)
    requires p != []
  {
    var (n, z) := (|p| - 1, p[|p| - 1]);
    && r.Resolved? && r.v == z
    && (n == 0 ==> r.at == src)
    && (n > 0 && p[n - 1] < |d.hops| && d.hops[p[n - 1]].To? ==> r.at == d.hops[p[n - 1]].at)
    && (forall i :: 0 <= i < n && Replaces(d, p[i]) && (forall j :: 0 <= j < i ==> !Replaces(d, p[j])) ==>
          d.descs[p[i]] == Some(r.desc))
    && ((forall i :: 0 <= i < n ==> !Replaces(d, p[i])) ==>
          z < |d.descs| && r.desc == if d.descs[z].Some? then d.descs[z].value else "")
  }

  /** r is the error of a cycle: it has the least of its nodes, which are all that are from one to itself. */
  ghost predicate IsCycle(cycle: seq<nat>, r: Resolution) {
    r.Failed? && r.error.Cycle? && r.error.first in cycle && forall u :: u in cycle ==> r.error.first <= u
  }

  /** r is where v leads: along any path from it, to the target at its end, or the failure, or around. */
  ghost predicate Leads(d: Refs, v: nat, src: string, r: Resolution) {
    forall p :: Path(d, v, p) ==>
      var z := p[|p| - 1];
      && (d.hops[z].Target? ==> IsTarget(d, p, src, r))
      && (d.hops[z].Fails? ==> r == Failed(d.hops[z].error))
      && forall i, j :: 0 <= i < j < |p| && p[i] == p[j] ==> IsCycle(p[i..j], r)
  }

  lemma {:induction false} PathAt(d: Refs, v: nat, p: seq<nat>, i: nat)
    requires Sound(d) && Path(d, v, p) && i < |p|
    ensures v < |d.hops| && At(Steps(d), v, i) == Some(p[i])
  {
    if i > 0 {
      PathAt(d, v, p, i - 1);
    }
  }

  lemma PathEnds(d: Refs, v: nat, p: seq<nat>)
    requires Sound(d) && Path(d, v, p) && !d.hops[p[|p| - 1]].To?
    ensures v < |d.hops| && !Loops(Steps(d), v)
  {
    PathAt(d, v, p, |p| - 1);
    assert At(Steps(d), v, |p|).None?;
  }

  lemma {:induction false} EndsAt(d: Refs, v: nat, p: seq<nat>, src: string)
    requires Sound(d) && Path(d, v, p) && !d.hops[p[|p| - 1]].To?
    ensures v < |d.hops|
    ensures d.hops[p[|p| - 1]].Target? ==> IsTarget(d, p, src, Resolve(d, v, src))
    ensures d.hops[p[|p| - 1]].Fails? ==> Resolve(d, v, src) == Failed(d.hops[p[|p| - 1]].error)
    decreases |p|
  {
    hide Loops, At;
    PathEnds(d, v, p);
    if |p| > 1 {
      var q, w, a := p[1..], d.hops[v].v, d.hops[v].at;
      LengthStep(Steps(d), v);
      EndsAt(d, w, q, a);
      if d.hops[p[|p| - 1]].Target? {
        TargetBack(d, p, a, Resolve(d, w, a), src);
      }
    }
  }

  /** What is so of the path from the second node on is so of the path, described. */
  lemma TargetBack(d: Refs, p: seq<nat>, at: string, r: Resolution, src: string)
    requires Sound(d) && |p| > 1 && Path(d, p[0], p) && at == d.hops[p[0]].at && IsTarget(d, p[1..], at, r)
    ensures IsTarget(d, p, src, Described(d, p[0], r))
  {
    hide Replaces, Described;
    var (q, s) := (p[1..], Described(d, p[0], r));
    DescribedIs(d, p[0], r);
    assert q[|q| - 1] == p[|p| - 1] && (|p| > 2 ==> q[|q| - 2] == p[|p| - 2]);
    forall i | 0 <= i < |p| - 1 && Replaces(d, p[i]) && (forall j :: 0 <= j < i ==> !Replaces(d, p[j]))
      ensures d.descs[p[i]] == Some(s.desc)
    {
      if i > 0 {
        FirstBack(d, p, i);
      }
    }
    if forall i :: 0 <= i < |p| - 1 ==> !Replaces(d, p[i]) {
      assert !Replaces(d, p[0]);
      assert forall i :: 0 <= i < |q| - 1 ==> q[i] == p[i + 1];
    }
  }

  lemma FirstBack(d: Refs, p: seq<nat>, i: nat)
    requires 0 < i < |p| && Replaces(d, p[i]) && forall j :: 0 <= j < i ==> !Replaces(d, p[j])
    ensures var q := p[1..];
      q[i - 1] == p[i] && !Replaces(d, p[0]) && forall j :: 0 <= j < i - 1 ==> !Replaces(d, q[j])
  {
    hide Replaces;
    assert forall j :: 0 <= j < i - 1 ==> p[1..][j] == p[j + 1];
  }

  lemma DescribedIs(d: Refs, v: nat, r: Resolution)
    requires v < |d.descs| && v < |d.late| && r.Resolved?
    ensures var s := Described(d, v, r);
      && s.Resolved? && s.v == r.v && s.at == r.at
      && if Replaces(d, v) then d.descs[v] == Some(s.desc) else s == r
  {
  }

  lemma Circles(d: Refs, v: nat, p: seq<nat>, i: nat, j: nat, src: string)
    requires Sound(d) && Path(d, v, p) && i < j < |p| && p[i] == p[j]
    ensures v < |d.hops| && IsCycle(p[i..j], Resolve(d, v, src))
  {
    hide At, Loops, OnCycle;
    var next, y, n := Steps(d), p[i], j - i;
    PathAt(d, v, p, i);
    PathAt(d, v, p, j);
    AtAdd(next, v, i, n);
    LoopsOn(next, v, i, y, n);
    var w := Least(next, v);
    Around(d, v, p, i, j, w);
    forall u | u in p[i..j]
      ensures w <= u
    {
      var m :| 0 <= m < n && p[i..j][m] == u;
      PathAt(d, v, p, i + m);
      Cyclic(next, y, n, v, i, m);
    }
  }

  lemma Cyclic(next: Next, y: nat, n: nat, v: nat, i: nat, m: nat)
    requires Valid(next) && v < |next| && At(next, v, i) == Some(y) && n > 0 && At(next, y, n) == Some(y)
    ensures At(next, v, i + m).Some? && OnCycle(next, At(next, v, i + m).value)
  {
    CycleGoesOn(next, y, n, m);
    AtAdd(next, v, i, m);
    var back := CycleBack(next, y, n, m);
  }

  /** A node of the cycle is on it between the two places of y. */
  lemma Around(d: Refs, v: nat, p: seq<nat>, i: nat, j: nat, w: nat)
    requires Sound(d) && Path(d, v, p) && i < j < |p| && p[i] == p[j] && v < |d.hops|
    requires w < |d.hops| && OnCycle(Steps(d), w) && Loops(Steps(d), v) &&
      exists k: nat :: At(Steps(d), v, k) == Some(w)
    ensures w in p[i..j]
  {
    hide At, Loops, OnCycle;
    var next, y := Steps(d), p[i];
    var k: nat :| At(next, v, k) == Some(w);
    PathAt(d, v, p, i);
    PathAt(d, v, p, j);
    AtAdd(next, v, i, j - i);
    CycleAhead(next, v, i, k, w);
    var m: nat :| At(next, y, m) == Some(w);
    var r := Reduced(next, y, j - i, m);
    AtAdd(next, v, i, r);
    PathAt(d, v, p, i + r);
    assert p[i..j][r] == p[i + r];
  }

  /** Following references leads where the paths do. */
  lemma ResolveLeads(d: Refs, v: nat, src: string)
    requires Sound(d) && v < |d.hops|
    ensures Leads(d, v, src, Resolve(d, v, src))
  {
    hide Resolve, IsTarget, IsCycle;
    forall p | Path(d, v, p)
      ensures var (z, r) := (p[|p| - 1], Resolve(d, v, src));
        && (d.hops[z].Target? ==> IsTarget(d, p, src, r))
        && (d.hops[z].Fails? ==> r == Failed(d.hops[z].error))
        && forall i, j :: 0 <= i < j < |p| && p[i] == p[j] ==> IsCycle(p[i..j], r)
    {
      if !d.hops[p[|p| - 1]].To? {
        EndsAt(d, v, p, src);
      }
      forall i, j | 0 <= i < j < |p| && p[i] == p[j]
        ensures IsCycle(p[i..j], Resolve(d, v, src))
      {
        Circles(d, v, p, i, j, src);
      }
    }
  }

  /** From every node there is a path to a target or a failure, or around. */
  lemma PathExists(d: Refs, v: nat) returns (p: seq<nat>)
    requires Sound(d) && v < |d.hops|
    ensures Path(d, v, p)
    ensures !d.hops[p[|p| - 1]].To? || exists i, j :: 0 <= i < j < |p| && p[i] == p[j]
  {
    p := [v];
    while d.hops[p[|p| - 1]].To? && forall i, j :: 0 <= i < j < |p| ==> p[i] != p[j]
      invariant Path(d, v, p) && |p| <= |d.hops| + 1
      decreases |d.hops| + 1 - |p|
    {
      WalkedShort(p, |d.hops|);
      p := p + [d.hops[p[|p| - 1]].v];
    }
  }
}
