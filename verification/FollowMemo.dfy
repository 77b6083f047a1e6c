/** The resolutions kept of a document's Reference Objects, and the walk that finds one. */
module FollowMemo {
  import opened Wrappers
  import opened Chain
  import opened Follow
  import opened FollowPaths
  import Sequences

  ghost predicate Grown(a: map<nat, Resolution>, b: map<nat, Resolution>) {
    forall k :: k in a ==> k in b && b[k] == a[k]
  }

  /** r is what each of the chain from v past walked leads to, and so, with its description, the last of walked. */
  ghost predicate Ready(d: Refs, v: nat, walked: seq<nat>, r: Resolution)
    requires Sound(d) && v < |d.hops|
  {
    && Follows(Steps(d), v, walked)
    && (forall i :: 0 <= i < |walked| ==> walked[i] < |d.hops| && !d.hops[walked[i]].Target?)
    && (walked == [] ==> d.hops[v].Target? || r == Resolve(d, v, ""))
    && (walked != [] ==>
          var last := walked[|walked| - 1];
          last < |d.hops| && Resolve(d, last, "") == Described(d, last, r))
  }

  lemma ReadyBack(d: Refs, v: nat, walked: seq<nat>, r: Resolution)
    requires Sound(d) && v < |d.hops| && walked != [] && Ready(d, v, walked, r)
    ensures var last := walked[|walked| - 1];
      last < |d.hops| && Resolve(d, last, "") == Described(d, last, r)
      && Ready(d, v, walked[..|walked| - 1], Described(d, last, r))
  {
    hide Resolve;
    var n, last := |walked| - 1, walked[|walked| - 1];
    assert At(Steps(d), v, n) == Some(last);
    if n > 0 {
      var prev := walked[n - 1];
      assert At(Steps(d), v, n - 1) == Some(prev);
      DescribeStep(d, prev, last, d.hops[prev].at);
      ResolveUnnamed(d, last, "", d.hops[prev].at);
    }
  }

  predicate Has(walked: seq<nat>, on: Option<set<nat>>, i: nat) {
    if on.Some? then i in on.value else i in walked
  }

  method Minimum(cycle: seq<nat>) returns (w: nat)
    requires cycle != []
    ensures w in cycle && forall u :: u in cycle ==> w <= u
  {
    w := cycle[0];
    for i := 1 to |cycle|
      invariant w in cycle && forall j :: 0 <= j < i ==> w <= cycle[j]
    {
      if cycle[i] < w {
        w := cycle[i];
      }
    }
  }

  class References {
    const d: Refs
    var refs: map<nat, Resolution>

    constructor (d: Refs)
      requires Sound(d)
      ensures Valid() && this.d == d && refs == map[]
    {
      this.d := d;
      refs := map[];
    }

    /** What is kept of a Reference Object is where it leads. */
    ghost predicate Valid()
      reads this
    {
      && Sound(d)
      && forall k :: k in refs ==> k < |d.hops| && !d.hops[k].Target? && refs[k] == Resolve(d, k, "")
    }

    /** What other calls may do between two steps of this one: keep more. Callers know no more of it. */
    method OtherCalls()
      requires Valid()
      modifies this`refs
      ensures Valid() && Grown(old(refs), refs)
    {
    }

    method Load(k: nat) returns (r: Option<Resolution>)
      requires Valid()
      modifies this`refs
      ensures Valid() && Grown(old(refs), refs)
      ensures r == if k in refs then Some(refs[k]) else None
    {
      OtherCalls();
      r := if k in refs then Some(refs[k]) else None;
    }

    /** Keeps r for k, unless a resolution is kept, returning the one kept. */
    method LoadOrStore(k: nat, r: Resolution) returns (kept: Resolution)
      requires Valid() && k < |d.hops| && !d.hops[k].Target? && r == Resolve(d, k, "")
      modifies this`refs
      ensures Valid() && Grown(old(refs), refs) && k in refs && kept == r
    {
      OtherCalls();
      if k !in refs {
        refs := refs[k := r];
      }
      kept := refs[k];
    }

    /** Follows the Reference Objects from v to what is kept, the target, a failure or a cycle. */
    method Walk(v: nat) returns (walked: seq<nat>, r: Resolution)
      requires Valid() && v < |d.hops| && !d.hops[v].Target?
      modifies this`refs
      ensures Valid() && Grown(old(refs), refs) && Ready(d, v, walked, r)
    {
      hide Resolve, Loops, OnCycle, Least, Ready, Description, Walked, Steps, At;
      walked := [];
      var on: Option<set<nat>> := None;
      var i: nat, at: string := v, "";
      WalkedNone(d, v);
      while true
        invariant Valid() && Grown(old(refs), refs) && i < |d.hops| && Walked(d, v, walked, i, at)
        invariant forall j :: 0 <= j < |walked| ==> walked[j] < |d.hops|
        invariant forall j, k :: 0 <= j < k < |walked| ==> walked[j] != walked[k]
        invariant on.Some? ==> forall x :: x in on.value <==> x in walked
        decreases |d.hops| - |walked|
      {
        var known := Load(i);
        if known.Some? {
          r := known.value;
          WalkReady(d, v, walked, i, at, r);
          return;
        }
        if d.hops[i].Target? {
          r := Resolved(i, at, Description(d, i));
          TargetResolves(d, i, at);
          WalkReady(d, v, walked, i, at, r);
          return;
        }
        if Has(walked, on, i) {
          var j := Sequences.Place(walked, i);
          var first := Minimum(walked[j..]);
          r := Failed(Cycle(first));
          CycleReady(d, v, walked, i, at, j, first);
          return;
        }
        WalkedShort(walked, |d.hops|);
        WalkedStep(d, v, walked, i, at);
        walked := walked + [i];
        WalkedShort(walked, |d.hops|);
        if |walked| == 16 {
          on := Some(set x | x in walked);
        } else if on.Some? {
          on := Some(on.value + {i});
        }
        match d.hops[i]
        case Fails(e) =>
          r := Failed(e);
          return;
        case To(w, a) =>
          i, at := w, a;
      }
    }

    /** The resolution of v, found at src, whatever was kept before: that of the plain recursion. */
    method Follow(v: nat, src: string) returns (r: Resolution)
      requires Valid() && v < |d.hops|
      modifies this`refs
      ensures Valid() && Grown(old(refs), refs) && r == Resolve(d, v, src) && Leads(d, v, src, r)
    {
      hide Resolve, Loops, OnCycle, Least, Leads;
      ResolveLeads(d, v, src);
      if d.hops[v].Target? {
        TargetResolves(d, v, src);
        return Resolved(v, src, Description(d, v));
      }
      var walked: seq<nat>;
      walked, r := Walk(v);
      while walked != []
        invariant Valid() && Grown(old(refs), refs) && Ready(d, v, walked, r)
        decreases |walked|
      {
        var last := walked[|walked| - 1];
        ReadyBack(d, v, walked, r);
        r := LoadOrStore(last, Described(d, last, r));
        walked := walked[..|walked| - 1];
      }
      ResolveUnnamed(d, v, "", src);
    }
  }

  lemma TargetResolves(d: Refs, v: nat, at: string)
    requires Sound(d) && v < |d.hops| && d.hops[v].Target?
    ensures Resolve(d, v, at) == Resolved(v, at, Description(d, v))
  {
    assert At(Steps(d), v, 0) == Some(v) && At(Steps(d), v, 1).None?;
  }

  lemma FailResolves(d: Refs, v: nat, e: Error)
    requires Sound(d) && v < |d.hops| && d.hops[v] == Fails(e)
    ensures Resolve(d, v, "") == Failed(e)
  {
    assert At(Steps(d), v, 0) == Some(v) && At(Steps(d), v, 1).None?;
  }

  lemma FailReady(d: Refs, v: nat, walked: seq<nat>, e: Error)
    requires Sound(d) && v < |d.hops| && walked != [] && Follows(Steps(d), v, walked)
    requires forall j :: 0 <= j < |walked| ==> walked[j] < |d.hops| && !d.hops[walked[j]].Target?
    requires d.hops[walked[|walked| - 1]] == Fails(e)
    ensures Ready(d, v, walked, Failed(e))
  {
    hide Resolve;
    FailResolves(d, walked[|walked| - 1], e);
  }

  /** walked are the Reference Objects from v to i, which at names. */
  ghost predicate Walked(d: Refs, v: nat, walked: seq<nat>, i: nat, at: string)
    requires Sound(d) && v < |d.hops|
  {
    && i < |d.hops| && Follows(Steps(d), v, walked) && At(Steps(d), v, |walked|) == Some(i)
    && (forall j :: 0 <= j < |walked| ==> walked[j] < |d.hops| && d.hops[walked[j]].To?)
    && (walked == [] ==> i == v)
    && (walked != [] ==> d.hops[walked[|walked| - 1]] == To(i, at))
  }

  lemma WalkedNone(d: Refs, v: nat)
    requires Sound(d) && v < |d.hops|
    ensures Walked(d, v, [], v, "")
  {
  }

  /** i fails, or leads on. */
  lemma WalkedStep(d: Refs, v: nat, walked: seq<nat>, i: nat, at: string)
    requires Sound(d) && v < |d.hops| && Walked(d, v, walked, i, at) && !d.hops[i].Target?
    ensures d.hops[i].To? ==> d.hops[i].v < |d.hops| && Walked(d, v, walked + [i], d.hops[i].v, d.hops[i].at)
    ensures d.hops[i].Fails? ==> Ready(d, v, walked + [i], Failed(d.hops[i].error))
  {
    hide Resolve;
    if d.hops[i].Fails? {
      FailReady(d, v, walked + [i], d.hops[i].error);
    } else {
      AtAdd(Steps(d), v, |walked|, 1);
      AtNone(Steps(d), v);
    }
  }

  lemma WalkReady(d: Refs, v: nat, walked: seq<nat>, i: nat, at: string, r: Resolution)
    requires Sound(d) && v < |d.hops| && !d.hops[v].Target? && Walked(d, v, walked, i, at)
    requires r == Resolve(d, i, if d.hops[i].Target? then at else "")
    ensures Ready(d, v, walked, r)
  {
    hide Resolve;
    if walked != [] {
      DescribeStep(d, walked[|walked| - 1], i, at);
      if !d.hops[i].Target? {
        ResolveUnnamed(d, i, "", at);
      }
    }
  }

  lemma CycleReady(d: Refs, v: nat, walked: seq<nat>, i: nat, at: string, j: nat, first: nat)
    requires Sound(d) && v < |d.hops| && Walked(d, v, walked, i, at)
    requires forall a, b :: 0 <= a < b < |walked| ==> walked[a] != walked[b]
    requires j < |walked| && walked[j] == i
    requires first in walked[j..] && forall u :: u in walked[j..] ==> first <= u
    ensures Ready(d, v, walked, Failed(Cycle(first)))
  {
    hide OnCycle, Loops;
    var n := |walked| - 1;
    LeastOfCycle(Steps(d), v, walked, j, first);
    LeastUnique(Steps(d), v, first);
    LeastAlong(Steps(d), v, n);
    assert At(Steps(d), v, n) == Some(walked[n]);
  }

  lemma LeastUnique(next: Next, v: nat, w: nat)
    requires Valid(next) && v < |next| && Loops(next, v) && IsLeast(next, v, w)
    ensures w == Least(next, v)
  {
  }
}
