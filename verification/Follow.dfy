/** Following Reference Objects, each resolved once per document, to a target, a failure or a cycle. */
module Follow {
  import opened Wrappers
  import opened Chain

  /** Why a reference leads nowhere; of a cycle, the error has the least node. */
  datatype Error = Unresolved(ref: nat) | Bundle | Cycle(first: nat)

  /** Where a node leads: it is no Reference Object, cannot be followed, or leads to a node, named by a pointer. */
  datatype Hop = Target | Fails(error: Error) | To(v: nat, at: string)

  /** The nodes of the documents loaded, their descriptions, and whether they are of OpenAPI 3.1 or later. */
  datatype Refs = Refs(hops: seq<Hop>, descs: seq<Option<string>>, late: seq<bool>)

  datatype Resolution = Resolved(v: nat, at: string, desc: string) | Failed(error: Error)

  ghost predicate Sound(d: Refs) {
    && |d.hops| == |d.descs| == |d.late|
    && forall v :: 0 <= v < |d.hops| && d.hops[v].To? ==> d.hops[v].v < |d.hops|
  }

  ghost function Steps(d: Refs): (next: Next)
    requires Sound(d)
    ensures Valid(next) && |next| == |d.hops|
  {
    seq(|d.hops|, v requires 0 <= v < |d.hops| => if d.hops[v].To? then Some(d.hops[v].v) else None)
  }

  ghost predicate Loops(next: Next, v: nat)
    requires Valid(next) && v < |next|
  {
    forall i: nat :: At(next, v, i).Some?
  }

  ghost predicate Ends(next: Next, v: nat, i: nat)
    requires Valid(next) && v < |next|
  {
    At(next, v, i).Some? && At(next, v, i + 1).None?
  }

  lemma EndExists(next: Next, v: nat)
    requires Valid(next) && v < |next| && !Loops(next, v)
    ensures exists i: nat :: Ends(next, v, i)
  {
    var i: nat :| At(next, v, i).None?;
    while At(next, v, i).None?
      invariant At(next, v, i + 1).None? || At(next, v, i).None?
      invariant At(next, v, i).Some? ==> Ends(next, v, i)
      decreases i
    {
      assert At(next, v, 0).Some?;
      i := i - 1;
    }
    assert Ends(next, v, i);
  }

  /** How many steps the chain from v takes to its end. */
  ghost function Length(next: Next, v: nat): (n: nat)
    requires Valid(next) && v < |next| && !Loops(next, v)
    ensures Ends(next, v, n)
  {
    EndExists(next, v);
    var i: nat :| Ends(next, v, i);
    i
  }

  lemma LengthStep(next: Next, v: nat)
    requires Valid(next) && v < |next| && next[v].Some?
    ensures Loops(next, v) <==> Loops(next, next[v].value)
    ensures !Loops(next, v) ==> Length(next, next[v].value) < Length(next, v)
  {
    var w := next[v].value;
    forall i: nat
      ensures At(next, v, i + 1) == At(next, w, i)
    {
      assert At(next, v, 1) == Some(w) by {
        assert At(next, v, 0) == Some(v);
      }
      AtAdd(next, v, 1, i);
    }
    assert At(next, v, 0).Some?;
    if Loops(next, w) {
      forall i: nat
        ensures At(next, v, i).Some?
      {
        if i > 0 {
          assert At(next, v, (i - 1) + 1) == At(next, w, i - 1);
        }
      }
    } else {
      assert !Loops(next, v);
      var n, m := Length(next, v), Length(next, w);
      assert At(next, v, m + 1).Some? && At(next, v, m + 2) == At(next, w, m + 1);
      if n < m + 1 {
        AllDefined(next, v, m + 1);
        assert false;
      }
    }
  }

  /** w is the least node of the cycle the chain from v comes to. */
  ghost predicate IsLeast(next: Next, v: nat, w: nat)
    requires Valid(next) && v < |next|
  {
    && (exists i: nat :: At(next, v, i) == Some(w))
    && w < |next| && OnCycle(next, w)
    && forall i: nat :: At(next, v, i).Some? && OnCycle(next, At(next, v, i).value) ==> w <= At(next, v, i).value
  }

  lemma LeastExists(next: Next, v: nat)
    requires Valid(next) && v < |next| && Loops(next, v)
    ensures exists w: nat :: IsLeast(next, v, w)
  {
    var p := LateOnCycle(next, v, |next|);
    AtAdd(next, v, |next|, p);
    var i: nat, w: nat := |next|, At(next, v, |next|).value;
    while exists j: nat :: At(next, v, j).Some? && OnCycle(next, At(next, v, j).value) && At(next, v, j).value < w
      invariant At(next, v, i) == Some(w) && OnCycle(next, w)
      decreases w
    {
      i :| At(next, v, i).Some? && OnCycle(next, At(next, v, i).value) && At(next, v, i).value < w;
      w := At(next, v, i).value;
    }
    assert IsLeast(next, v, w);
  }

  ghost function Least(next: Next, v: nat): (w: nat)
    requires Valid(next) && v < |next| && Loops(next, v)
    ensures IsLeast(next, v, w)
  {
    LeastExists(next, v);
    var w: nat :| IsLeast(next, v, w);
    w
  }

  function Description(d: Refs, v: nat): string
    requires v < |d.descs|
  {
    if d.descs[v].Some? then d.descs[v].value else ""
  }

  /** A resolution as seen from v: with the description v has, if v has one and its edition (late) heeds it. */
  function Described(d: Refs, v: nat, r: Resolution): Resolution
    requires v < |d.descs| && v < |d.late|
  {
    if r.Resolved? && d.late[v] && d.descs[v].Some? then r.(desc := d.descs[v].value) else r
  }

  /** Where v, named by at, leads, followed with nothing kept. */
  ghost function Resolve(d: Refs, v: nat, at: string): Resolution
    requires Sound(d) && v < |d.hops|
    decreases if Loops(Steps(d), v) then 0 else Length(Steps(d), v)
  {
    if Loops(Steps(d), v) then Failed(Cycle(Least(Steps(d), v)))
    else
      match d.hops[v]
      case Target => Resolved(v, at, Description(d, v))
      case Fails(e) => Failed(e)
      case To(w, a) =>
        LengthStep(Steps(d), v);
        Described(d, v, Resolve(d, w, a))
  }

  lemma LoopsAlong(next: Next, v: nat, i: nat)
    requires Valid(next) && v < |next| && Loops(next, v)
    ensures At(next, v, i).Some? && Loops(next, At(next, v, i).value)
  {
    var w := At(next, v, i).value;
    forall j: nat
      ensures At(next, w, j).Some?
    {
      AtAdd(next, v, i, j);
    }
  }

  lemma CycleBeyond(next: Next, a: nat, p: nat, i: nat) returns (t: nat)
    requires Valid(next) && a < |next| && p > 0 && At(next, a, p) == Some(a)
    ensures i <= t && At(next, a, t) == Some(a)
  {
    CycleTimes(next, a, p, i);
    t := i * p;
    assert i <= t;
  }

  /** A node of the cycle is still to come from anywhere on the chain. */
  lemma CycleAhead(next: Next, v: nat, i: nat, j: nat, a: nat)
    requires Valid(next) && v < |next| && Loops(next, v) && At(next, v, i).Some?
    requires At(next, v, j) == Some(a) && OnCycle(next, a)
    ensures exists m: nat :: At(next, At(next, v, i).value, m) == Some(a)
  {
    var p: nat :| p > 0 && At(next, a, p) == Some(a);
    var t := CycleBeyond(next, a, p, i);
    hide At;
    AtAdd(next, v, j, t);
    AtAdd(next, v, i, j + t - i);
    assert At(next, At(next, v, i).value, j + t - i) == Some(a);
  }

  /** However a chain enters a cycle, it is named alike: by any node on the way. */
  lemma LeastAlong(next: Next, v: nat, i: nat)
    requires Valid(next) && v < |next| && Loops(next, v)
    ensures At(next, v, i).Some? && Loops(next, At(next, v, i).value)
    ensures Least(next, At(next, v, i).value) == Least(next, v)
  {
    hide OnCycle, Loops;
    LoopsAlong(next, v, i);
    var w := At(next, v, i).value;
    var a, b := Least(next, v), Least(next, w);
    var j: nat :| At(next, v, j) == Some(a);
    var k: nat :| At(next, w, k) == Some(b);
    AtAdd(next, v, i, k);
    CycleAhead(next, v, i, j, a);
    var m: nat :| At(next, w, m) == Some(a);
  }

  /** What the chain has before its cycle is not of it. */
  lemma BeforeCycle(next: Next, v: nat, path: seq<nat>, j: nat, i: nat)
    requires Valid(next) && v < |next| && Follows(next, v, path)
    requires forall a, b :: 0 <= a < b < |path| ==> path[a] != path[b]
    requires i < j < |path| && At(next, v, |path|) == Some(path[j]) && path[i] < |next|
    ensures !OnCycle(next, path[i])
  {
    hide At, OnCycle;
    assert At(next, v, j) == Some(path[j]) && At(next, v, i) == Some(path[i]);
    if OnCycle(next, path[i]) {
      SharedPeriod(next, v, i, j, |path| - j);
      assert false;
    }
  }

  /** What the chain has of its cycle, path has from j on. */
  lemma OfCycle(next: Next, v: nat, path: seq<nat>, j: nat, i: nat)
    requires Valid(next) && v < |next| && Follows(next, v, path)
    requires forall a, b :: 0 <= a < b < |path| ==> path[a] != path[b]
    requires j < |path| && At(next, v, |path|) == Some(path[j])
    requires At(next, v, i).Some? && OnCycle(next, At(next, v, i).value)
    ensures At(next, v, i).value in path[j..]
  {
    hide At, OnCycle;
    var p, y := |path| - j, path[j];
    assert At(next, v, j) == Some(y);
    AtAdd(next, v, j, p);
    if i < j {
      assert At(next, v, i) == Some(path[i]);
      BeforeCycle(next, v, path, j, i);
    } else {
      AtAdd(next, v, j, i - j);
      var r := Reduced(next, y, p, i - j);
      AtAdd(next, v, j, r);
      assert At(next, v, j + r) == Some(path[j + r]);
      assert path[j..][r] == path[j + r];
    }
  }

  /** path, all of it different, is the chain from v to a node it has at j: the cycle is from there on. */
  lemma LeastOfCycle(next: Next, v: nat, path: seq<nat>, j: nat, w: nat)
    requires Valid(next) && v < |next| && Follows(next, v, path)
    requires forall a, b :: 0 <= a < b < |path| ==> path[a] != path[b]
    requires j < |path| && At(next, v, |path|) == Some(path[j])
    requires w in path[j..] && forall u :: u in path[j..] ==> w <= u
    ensures IsLeast(next, v, w) && Loops(next, v)
  {
    hide At, OnCycle;
    var p, y := |path| - j, path[j];
    assert At(next, v, j) == Some(y);
    AtAdd(next, v, j, p);
    var k :| j <= k < |path| && path[k] == w;
    assert At(next, v, k) == Some(w);
    AtAdd(next, v, j, k - j);
    var back := CycleBack(next, y, p, k - j);
    forall i: nat | At(next, v, i).Some? && OnCycle(next, At(next, v, i).value)
      ensures w <= At(next, v, i).value
    {
      OfCycle(next, v, path, j, i);
    }
    LoopsOn(next, v, j, y, p);
  }

  lemma LoopsOn(next: Next, v: nat, j: nat, y: nat, p: nat)
    requires Valid(next) && v < |next| && At(next, v, j) == Some(y) && p > 0 && At(next, y, p) == Some(y)
    ensures Loops(next, v)
  {
    hide At;
    forall i: nat
      ensures At(next, v, i).Some?
    {
      CycleGoesOn(next, y, p, i);
      AtAdd(next, v, j, i);
      AllDefined(next, v, j + i);
    }
  }

  /** A Reference Object leads to the same whatever names it. */
  lemma ResolveUnnamed(d: Refs, v: nat, at: string, at': string)
    requires Sound(d) && v < |d.hops| && !d.hops[v].Target?
    ensures Resolve(d, v, at) == Resolve(d, v, at')
  {
  }

  /** What a Reference Object leads to, described, is what the one that leads to it does before its description. */
  lemma DescribeStep(d: Refs, v: nat, w: nat, a: string)
    requires Sound(d) && v < |d.hops| && d.hops[v] == To(w, a)
    ensures w < |d.hops| && Resolve(d, v, "") == Described(d, v, Resolve(d, w, a))
  {
    var next := Steps(d);
    LengthStep(next, v);
    if Loops(next, v) {
      assert At(next, v, 0) == Some(v) && At(next, v, 1) == Some(w);
      LeastAlong(next, v, 1);
    }
  }

  /** Two chains into one cycle fail alike. */
  lemma CycleNamedAlike(d: Refs, u: nat, v: nat, i: nat, j: nat)
    requires Sound(d) && u < |d.hops| && v < |d.hops| && Loops(Steps(d), u)
    requires At(Steps(d), u, i).Some? && At(Steps(d), u, i) == At(Steps(d), v, j)
    ensures Resolve(d, u, "") == Resolve(d, v, "") && Resolve(d, u, "").Failed?
  {
    hide OnCycle;
    var next := Steps(d);
    LeastAlong(next, u, i);
    var w := At(next, u, i).value;
    forall k: nat
      ensures At(next, v, k).Some?
    {
      AtAdd(next, v, j, k);
      AllDefined(next, v, j + k);
    }
    LeastAlong(next, v, j);
  }

  lemma WalkedShort(walked: seq<nat>, n: nat)
    requires (forall i :: 0 <= i < |walked| ==> walked[i] < n) && forall i, j :: 0 <= i < j < |walked| ==>
      walked[i] != walked[j]
    ensures |walked| <= n
  {
    ElementsCount(walked);
    Small(Elements(walked), n);
  }

  lemma {:induction false} ElementsCount(s: seq<nat>)
    requires forall i, j :: 0 <= i < j < |s| ==> s[i] != s[j]
    ensures |Elements(s)| == |s|
  {
    if s != [] {
      var n := |s| - 1;
      ElementsCount(s[..n]);
      assert s == s[..n] + [s[n]];
      assert Elements(s) == Elements(s[..n]) + {s[n]};
    }
  }

  function Elements(s: seq<nat>): set<nat> {
    set v | v in s
  }
}
