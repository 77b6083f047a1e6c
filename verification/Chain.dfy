/** Chains in which each of finitely many states leads to at most one other. */
module Chain {
  import opened Wrappers

  type Next = seq<Option<nat>>

  ghost predicate Valid(next: Next) {
    forall v :: 0 <= v < |next| && next[v].Some? ==> next[v].value < |next|
  }

  /** Where i steps lead from v, if that far. */
  ghost function At(next: Next, v: nat, i: nat): (x: Option<nat>)
    requires Valid(next) && v < |next|
    ensures x.Some? ==> x.value < |next|
  {
    if i == 0 then Some(v)
    else
      var x := At(next, v, i - 1);
      if x.Some? then next[x.value] else None
  }

  ghost predicate OnCycle(next: Next, v: nat)
    requires Valid(next) && v < |next|
  {
    exists p: nat :: p > 0 && At(next, v, p) == Some(v)
  }

  lemma {:induction false} AtAdd(next: Next, v: nat, i: nat, j: nat)
    requires Valid(next) && v < |next|
    ensures At(next, v, i + j) == if At(next, v, i).Some? then At(next, At(next, v, i).value, j) else None
  {
    if j > 0 {
      AtAdd(next, v, i, j - 1);
    }
  }

  /** A chain that comes to where it was p steps before goes on so. */
  lemma Repeats(next: Next, v: nat, a: nat, p: nat, j: nat)
    requires Valid(next) && v < |next| && At(next, v, a).Some? && At(next, v, a + p) == At(next, v, a) && j >= a
    ensures At(next, v, j + p) == At(next, v, j)
  {
    AtAdd(next, v, a, j - a);
    AtAdd(next, v, a + p, j - a);
    assert a + p + (j - a) == j + p;
  }

  /** On a cycle, every step leads on. */
  lemma {:induction false} CycleGoesOn(next: Next, v: nat, p: nat, j: nat)
    requires Valid(next) && v < |next| && p > 0 && At(next, v, p) == Some(v)
    ensures At(next, v, j).Some?
    decreases j
  {
    if j >= p {
      CycleGoesOn(next, v, p, j - p);
      AtAdd(next, v, p, j - p);
    } else if At(next, v, j).None? {
      AtAdd(next, v, j, p - j);
    }
  }

  lemma {:induction false} CycleTimes(next: Next, v: nat, p: nat, m: nat)
    requires Valid(next) && v < |next| && At(next, v, p) == Some(v)
    ensures At(next, v, m * p) == Some(v)
  {
    if m > 0 {
      CycleTimes(next, v, p, m - 1);
      AtAdd(next, v, (m - 1) * p, p);
    }
  }

  /** Of a cycle, each leads to each. */
  lemma CycleBack(next: Next, v: nat, p: nat, i: nat) returns (j: nat)
    requires Valid(next) && v < |next| && p > 0 && At(next, v, p) == Some(v) && At(next, v, i).Some?
    ensures At(next, At(next, v, i).value, j) == Some(v)
    ensures OnCycle(next, At(next, v, i).value)
  {
    CycleTimes(next, v, p, i);
    assert i <= i * p;
    j := i * p - i;
    AtAdd(next, v, i, j);
    var w := At(next, v, i).value;
    CycleTimes(next, v, p, i + 1);
    AtAdd(next, v, i, (i + 1) * p - i);
    AtAdd(next, w, (i + 1) * p - i, i);
    assert At(next, w, (i + 1) * p) == Some(w);
  }

  /** Among the first n + 1 states of a chain of n, one comes twice. */
  lemma Pigeonhole(next: Next, v: nat) returns (a: nat, b: nat)
    requires Valid(next) && v < |next| && At(next, v, |next|).Some?
    ensures a < b <= |next| && At(next, v, a) == At(next, v, b) && At(next, v, a).Some?
  {
    AllDefined(next, v, |next|);
    var seen: map<nat, nat>, i := map[], 0;
    while i <= |next|
      invariant i <= |next| + 1 && |seen.Keys| == i
      invariant forall x :: x in seen ==> x < |next| && seen[x] < i && At(next, v, seen[x]) == Some(x)
    {
      var x := At(next, v, i).value;
      if x in seen {
        return seen[x], i;
      }
      seen := seen[x := i];
      i := i + 1;
    }
    Small(seen.Keys, |next|);
    assert false;
  }

  lemma {:induction false} AllDefined(next: Next, v: nat, n: nat)
    requires Valid(next) && v < |next| && At(next, v, n).Some?
    ensures forall i :: 0 <= i <= n ==> At(next, v, i).Some?
  {
    if n > 0 {
      AllDefined(next, v, n - 1);
    }
  }

  lemma {:induction false} Small(s: set<nat>, n: nat)
    requires forall x :: x in s ==> x < n
    ensures |s| <= n
  {
    if n > 0 {
      Small(s - {n - 1}, n - 1);
    } else {
      assert s == {};
    }
  }

  /** A chain still going after n steps is on its cycle, which n steps at most go around. */
  lemma LateOnCycle(next: Next, v: nat, m: nat) returns (p: nat)
    requires Valid(next) && v < |next| <= m && At(next, v, m).Some?
    ensures 0 < p <= |next| && At(next, v, m + p) == At(next, v, m)
  {
    AllDefined(next, v, m);
    var a, b := Pigeonhole(next, v);
    p := b - a;
    Repeats(next, v, a, p, m);
  }

  lemma AtNone(next: Next, s: nat)
    requires Valid(next) && s < |next|
    ensures At(next, s, 0) == Some(s)
  {
  }

  /** path is the first states of the chain from s. */
  ghost predicate Follows(next: Next, s: nat, path: seq<nat>)
    requires Valid(next) && s < |next|
  {
    forall i :: 0 <= i < |path| ==> At(next, s, i) == Some(path[i])
  }

  lemma FollowsStep(next: Next, s: nat, path: seq<nat>, n: nat)
    requires Valid(next) && s < |next| && Follows(next, s, path) && 0 < n < |path|
    ensures path[n - 1] < |next| && next[path[n - 1]] == Some(path[n])
  {
    assert At(next, s, n - 1) == Some(path[n - 1]) && At(next, s, n) == Some(path[n]);
  }

  lemma PathBelow(next: Next, s: nat, path: seq<nat>)
    requires Valid(next) && s < |next| && Follows(next, s, path)
    ensures forall i :: 0 <= i < |path| ==> path[i] < |next|
  {
    forall i | 0 <= i < |path|
      ensures path[i] < |next|
    {
      assert At(next, s, i) == Some(path[i]);
    }
  }

  /** A state that recurs before another that recurs after n does so after n itself. */
  lemma SharedPeriod(next: Next, s: nat, j: nat, mark: nat, n: nat)
    requires Valid(next) && s < |next| && j <= mark && At(next, s, mark).Some? && At(next, s, j).Some?
    requires At(next, s, mark + n) == At(next, s, mark) && OnCycle(next, At(next, s, j).value)
    ensures At(next, s, j + n) == At(next, s, j)
  {
    var x, y := At(next, s, j).value, At(next, s, mark).value;
    var p: nat :| p > 0 && At(next, x, p) == Some(x);
    AtAdd(next, s, j, mark - j);
    var k := CycleBack(next, x, p, mark - j);
    AtAdd(next, s, mark, n);
    AtAdd(next, y, k, n);
    AtAdd(next, y, n, k);
    AtAdd(next, s, j, n);
  }

  /** A step around a cycle of n is one of the first n. */
  lemma {:induction false} Reduced(next: Next, e: nat, n: nat, i: nat) returns (r: nat)
    requires Valid(next) && e < |next| && n > 0 && At(next, e, n) == Some(e)
    ensures r < n && At(next, e, r) == At(next, e, i)
    decreases i
  {
    if i < n {
      r := i;
    } else {
      r := Reduced(next, e, n, i - n);
      AtAdd(next, e, n, i - n);
    }
  }
}
