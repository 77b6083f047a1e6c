/** The stacks of a depth-first walk: sequences of indices that grow, and the sets they hold. */
module Stacks {
  /** s holds the indices of e, in order. */
  ghost predicate Stack(s: seq<nat>, e: set<nat>) {
    && (forall i, j :: 0 <= i < j < |s| ==> s[i] < s[j])
    && (forall x: nat :: x in s <==> x in e)
  }

  lemma StackPush(s: seq<nat>, e: set<nat>, t: nat)
    requires Stack(s, e) && forall x :: x in e ==> x < t
    ensures Stack(s + [t], e + {t})
  {
    assert forall i :: 0 <= i < |s| ==> s[i] in s;
  }

  /** Cutting a stack at i leaves what is below its ith. */
  lemma StackCut(s: seq<nat>, e: set<nat>, i: nat, f: set<nat>)
    requires Stack(s, e) && i < |s| && forall x: nat :: x in f <==> x in e && x < s[i]
    ensures Stack(s[..i], f)
  {
    forall x: nat
      ensures x in s[..i] <==> x in f
    {
      if x in f {
        var j :| 0 <= j < |s| && s[j] == x;
        assert j < i;
        assert s[..i][j] == x;
      }
      if x in s[..i] {
        var j :| 0 <= j < i && s[..i][j] == x;
        assert s[j] in s;
      }
    }
  }

  lemma StackPop(s: seq<nat>, e: set<nat>)
    requires Stack(s, e) && s != []
    ensures s[|s| - 1] in e && Stack(s[..|s| - 1], e - {s[|s| - 1]})
    ensures forall x: nat :: x in e ==> x <= s[|s| - 1]
  {
    assert forall i :: 0 <= i < |s| ==> s[i] in s;
    forall x: nat | x in e && x != s[|s| - 1]
      ensures x < s[|s| - 1]
    {
      var i :| 0 <= i < |s| && s[i] == x;
    }
    StackCut(s, e, |s| - 1, e - {s[|s| - 1]});
  }

  /** The second of a stack from its end is the greatest below its last. */
  lemma StackSecond(s: seq<nat>, e: set<nat>)
    requires Stack(s, e) && |s| > 1
    ensures s[|s| - 2] in e && s[|s| - 2] < s[|s| - 1]
    ensures forall q: nat :: q in e && q < s[|s| - 1] ==> q <= s[|s| - 2]
  {
    assert s[|s| - 2] in s;
    forall q: nat | q in e && q < s[|s| - 1]
      ensures q <= s[|s| - 2]
    {
      var i :| 0 <= i < |s| && s[i] == q;
    }
  }

  /** q is the greatest of the path, on, that is no greater than x. */
  ghost predicate Owner(on: set<nat>, q: nat, x: nat) {
    q in on && q <= x && forall r: nat :: r in on && r <= x ==> r <= q
  }

  lemma OwnerExists(on: set<nat>, x: nat)
    requires 0 in on
    ensures exists q: nat :: Owner(on, q, x)
  {
    if x in on {
      assert Owner(on, x, x);
    } else {
      OwnerExists(on, x - 1);
      var q: nat :| Owner(on, q, x - 1);
      assert Owner(on, q, x);
    }
  }

  lemma OwnerWithout(on: set<nat>, t: nat, q: nat, x: nat)
    requires x < t
    ensures Owner(on - {t}, q, x) == Owner(on, q, x)
  {
    assert forall r: nat :: r in on && r <= x ==> r in on - {t};
  }
}
