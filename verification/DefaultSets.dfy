/** The sets of default media types as the code finds them, each once, by Brent's cycle detection. */
module DefaultSets {
  import opened Wrappers
  import opened Chain
  import opened Defaults

  /** Given that the path comes back to its step mark, the step at which its cycle starts: it is the least such step. */
  method Entry(path: seq<nat>, mark: nat, ghost next: Next, ghost s: nat) returns (cycle: nat)
    requires Chain.Valid(next) && s < |next| && Follows(next, s, path)
    requires mark < |path| && At(next, s, |path|) == Some(path[mark])
    ensures cycle <= mark && OnCycle(next, path[cycle])
    ensures At(next, s, cycle + (|path| - mark)) == Some(path[cycle])
    ensures forall j :: 0 <= j < cycle ==> path[j] < |next| && !OnCycle(next, path[j])
  {
    var n := |path| - mark;
    cycle := 0;
    while cycle + n < |path| && path[cycle] != path[cycle + n]
      invariant cycle <= mark
      invariant forall j :: 0 <= j < cycle ==> path[j] < |next| && !OnCycle(next, path[j])
    {
      assert At(next, s, cycle) == Some(path[cycle]) && At(next, s, cycle + n) == Some(path[cycle + n]);
      if OnCycle(next, path[cycle]) {
        assert At(next, s, mark) == Some(path[mark]);
        SharedPeriod(next, s, cycle, mark, n);
        assert false;
      }
      cycle := cycle + 1;
    }
    assert At(next, s, cycle) == Some(path[cycle]);
    AtAdd(next, s, cycle, n);
  }

  /** While the chain has not come back to its step mark, its length is bounded, and so is where mark is. */
  lemma BrentBound(next: Next, s: nat, path: seq<nat>, mark: nat, k: nat)
    requires Chain.Valid(next) && s < |next| && Follows(next, s, path) && mark < |path|
    requires At(next, s, |path|) == Some(k) && k != path[mark]
    requires forall j :: mark < j < |path| ==> path[j] != path[mark]
    requires |path| - 1 - mark < mark + 2 && mark <= 2 * |next|
    ensures |path| <= 3 * |next| + 2 && (|path| - mark == mark + 2 ==> mark < |next|)
    ensures mark >= |next| ==> |path| < mark + |next|
  {
    if mark >= |next| {
      assert At(next, s, mark) == Some(path[mark]);
      var p := LateOnCycle(next, s, mark);
      if mark + p < |path| {
        assert false;
      }
    }
  }

  ghost predicate Grown(a: map<nat, set<Media>>, b: map<nat, set<Media>>) {
    forall k :: k in a ==> k in b && b[k] == a[k]
  }

  /** acc is a set of what the chain from s gives past path, whose last state gives its own with it. */
  ghost predicate Ready(c: Fields, s: nat, path: seq<nat>, acc: set<Media>)
    requires Sound(c) && s < |c.items|
  {
    && Follows(Steps(c), s, path)
    && (path == [] ==> Right(c, s, acc))
    && (path != [] ==> path[|path| - 1] < |c.items| && Right(c, path[|path| - 1], c.own[path[|path| - 1]] + acc))
  }

  /** acc is what the chain from s gives past path, which is before any cycle, where nothing was kept of it. */
  ghost predicate First(c: Fields, s: nat, path: seq<nat>, acc: set<Media>)
    requires Sound(c) && s < |c.items|
  {
    && Follows(Steps(c), s, path) && Apart(c, path)
    && (path == [] ==> acc == Meaning(c, s))
    && (path != [] ==> path[|path| - 1] < |c.items| && Meaning(c, path[|path| - 1]) == c.own[path[|path| - 1]] + acc)
  }

  ghost predicate Apart(c: Fields, path: seq<nat>)
    requires Sound(c)
  {
    forall i :: 0 <= i < |path| && path[i] < |c.items| ==> !OnCycle(Steps(c), path[i])
  }

  /** A chain that ends, at its end or at an item of an edition whose arrays are one: nothing of it is on a cycle. */
  lemma ReadyEnds(c: Fields, s: nat, path: seq<nat>, acc: set<Media>)
    requires Sound(c) && s < |c.items| && Follows(Steps(c), s, path) && path != []
    requires var last := path[|path| - 1];
      last < |c.items| &&
      if c.items[last].None? then acc == {}
      else c.items[last].value < |c.items| && c.late[c.items[last].value] && acc == c.whole[c.items[last].value]
    ensures Ready(c, s, path, acc) && First(c, s, path, acc)
  {
    hide Meaning, OnCycle, At, Right;
    var next, n := Steps(c), |path|;
    RightEnd(c, path[n - 1]);
    assert At(next, s, n - 1) == Some(path[n - 1]);
    AtAdd(next, s, n - 1, 1);
    AtStart(next, path[n - 1]);
    forall i | 0 <= i < n && path[i] < |c.items|
      ensures !OnCycle(next, path[i])
    {
      assert At(next, s, i) == Some(path[i]);
      AtAdd(next, s, i, n - i);
      CycleNever(next, path[i], n - i);
    }
  }

  lemma CycleNever(next: Next, v: nat, j: nat)
    requires Chain.Valid(next) && v < |next| && At(next, v, j).None?
    ensures !OnCycle(next, v)
  {
    if OnCycle(next, v) {
      var p: nat :| p > 0 && At(next, v, p) == Some(v);
      CycleGoesOn(next, v, p, j);
    }
  }

  /** A chain that comes to a state with a set acc. */
  lemma ReadyKnown(c: Fields, s: nat, path: seq<nat>, acc: set<Media>, k: nat)
    requires Sound(c) && s < |c.items| && Follows(Steps(c), s, path) && k < |c.items| && Right(c, k, acc)
    requires if path == [] then k == s
      else path[|path| - 1] < |c.items| && c.items[path[|path| - 1]] == Some(k) && !c.late[k]
    ensures Ready(c, s, path, acc)
  {
    hide Meaning, OnCycle, At, Right;
    if path != [] {
      RightStep(c, path[|path| - 1], acc);
      assert Gives(c, path[|path| - 1]) == c.own[path[|path| - 1]];
    }
  }

  lemma FirstKnown(c: Fields, s: nat, path: seq<nat>, acc: set<Media>, k: nat)
    requires Sound(c) && s < |c.items| && Follows(Steps(c), s, path) && k < |c.items| && acc == Meaning(c, k)
    requires Apart(c, path)
    requires if path == [] then k == s
      else path[|path| - 1] < |c.items| && c.items[path[|path| - 1]] == Some(k) && !c.late[k]
    ensures First(c, s, path, acc)
  {
    hide Meaning, OnCycle, At;
    if path != [] {
      MeaningStep(c, path[|path| - 1]);
    }
  }

  lemma ReadyBack(c: Fields, s: nat, path: seq<nat>, acc: set<Media>)
    requires Sound(c) && s < |c.items| && path != [] && Ready(c, s, path, acc)
    ensures var last := path[|path| - 1];
      && last < |c.items| && Right(c, last, c.own[last] + acc) && Ready(c, s, path[..|path| - 1], c.own[last] + acc)
  {
    hide Meaning, OnCycle, At, Right;
    LastStep(c, s, path);
    var n, last := |path| - 1, path[|path| - 1];
    ReadyKnown(c, s, path[..n], c.own[last] + acc, last);
  }

  lemma FirstBack(c: Fields, s: nat, path: seq<nat>, acc: set<Media>)
    requires Sound(c) && s < |c.items| && path != [] && First(c, s, path, acc)
    ensures var last := path[|path| - 1]; last < |c.items| && First(c, s, path[..|path| - 1], c.own[last] + acc)
  {
    hide Meaning, OnCycle, At;
    LastStep(c, s, path);
    var n, last := |path| - 1, path[|path| - 1];
    FirstKnown(c, s, path[..n], c.own[last] + acc, last);
  }

  /** The last state of a path is that of the items of the one before it. */
  lemma LastStep(c: Fields, s: nat, path: seq<nat>)
    requires Sound(c) && s < |c.items| && path != [] && Follows(Steps(c), s, path)
    ensures forall i :: 0 <= i < |path| ==> path[i] < |c.items|
    ensures Follows(Steps(c), s, path[..|path| - 1])
    ensures var n := |path| - 1;
      if n == 0 then path[n] == s else c.items[path[n - 1]] == Some(path[n]) && !c.late[path[n]]
  {
    hide At;
    PathBelow(Steps(c), s, path);
    AtNone(Steps(c), s);
    var n := |path| - 1;
    assert At(Steps(c), s, n) == Some(path[n]);
    if n > 0 {
      FollowsStep(Steps(c), s, path, n);
    }
  }

  /** What a cycle gives together, with the untyped default of its entry, is a set of each of its states, and that of
      its entry where nothing was kept. */
  lemma CycleSets(c: Fields, s: nat, path: seq<nat>, cycle: nat, mark: nat, own: set<Media>, j: nat)
    requires Sound(c) && s < |c.items| && Follows(Steps(c), s, path)
    requires cycle <= mark < |path| && cycle <= j < |path| && path[cycle] < |c.items| && OnCycle(Steps(c), path[cycle])
    requires At(Steps(c), s, cycle + (|path| - mark)) == Some(path[cycle])
    requires forall i :: 0 <= i < |path| ==> path[i] < |c.items|
    requires forall d :: d in own <==> exists i :: cycle <= i < |path| && d in c.own[path[i]]
    ensures Right(c, path[j], own + {c.untyped[path[cycle]]})
    ensures Meaning(c, path[cycle]) == own + {c.untyped[path[cycle]]}
  {
    hide OnCycle, At, Given;
    var next, e, n := Steps(c), path[cycle], |path| - mark;
    assert At(next, s, cycle) == Some(e) && At(next, s, j) == Some(path[j]);
    AtAdd(next, s, cycle, j - cycle);
    AtAdd(next, s, cycle, n);
    var back := CycleBack(next, e, n, j - cycle);
    assert AtCycle(c, path[j], back);
    forall d: Media
      ensures (Given(c, e, d) <==> d in own) && (Given(c, path[j], d) <==> d in own)
      ensures Entered(c, e, d) <==> d == c.untyped[e]
    {
      EnteredCycle(c, e, d);
      CycleGives(c, s, path, cycle, n, d);
      GivenAround(c, e, j - cycle, d);
    }
    assert GivenSet(c, path[j]) == own;
  }

  /** path has every state its cycle leads to. */
  lemma CycleHas(c: Fields, s: nat, path: seq<nat>, cycle: nat, mark: nat, i: nat, j: nat)
    requires Sound(c) && s < |c.items| && Follows(Steps(c), s, path)
    requires cycle <= mark < |path| && cycle <= i < |path| && path[cycle] < |c.items| && path[i] < |c.items|
    requires At(Steps(c), s, cycle + (|path| - mark)) == Some(path[cycle])
    ensures At(Steps(c), path[i], j).Some? && At(Steps(c), path[i], j).value in path[cycle..]
  {
    hide OnCycle, At;
    var next, e, n := Steps(c), path[cycle], |path| - mark;
    assert At(next, s, cycle) == Some(e) && At(next, s, i) == Some(path[i]);
    AtAdd(next, s, cycle, n);
    AtAdd(next, s, cycle, i - cycle);
    CycleGoesOn(next, e, n, i - cycle + j);
    AtAdd(next, e, i - cycle, j);
    var r := Reduced(next, e, n, i - cycle + j);
    AtAdd(next, s, cycle, r);
    assert At(next, s, cycle + r) == Some(path[cycle + r]);
    assert path[cycle..][r] == path[cycle + r];
  }

  lemma CycleGives(c: Fields, s: nat, path: seq<nat>, cycle: nat, n: nat, d: Media)
    requires Sound(c) && s < |c.items| && Follows(Steps(c), s, path)
    requires forall i :: 0 <= i < |path| ==> path[i] < |c.items|
    requires n > 0 && cycle + n <= |path| && At(Steps(c), s, cycle + n) == Some(path[cycle])
    ensures Given(c, path[cycle], d) <==> exists i :: cycle <= i < |path| && d in c.own[path[i]]
  {
    var next, e := Steps(c), path[cycle];
    assert At(next, s, cycle) == Some(e);
    AtAdd(next, s, cycle, n);
    if Given(c, e, d) {
      var i: nat :| At(next, e, i).Some? && d in Gives(c, At(next, e, i).value);
      var r := Reduced(next, e, n, i);
      AtAdd(next, s, cycle, r);
      assert At(next, s, cycle + r) == Some(path[cycle + r]);
      CycleGoesOn(next, e, n, r + 1);
      assert d in c.own[path[cycle + r]];
    }
    if i :| cycle <= i < |path| && d in c.own[path[i]] {
      assert At(next, s, i) == Some(path[i]);
      AtAdd(next, s, cycle, i - cycle);
    }
  }

  /** Nothing is kept of the chain from s. */
  ghost predicate Unkept(c: Fields, sets: map<nat, set<Media>>, s: nat)
    requires Sound(c) && s < |c.items|
  {
    forall i: nat :: At(Steps(c), s, i).Some? ==> At(Steps(c), s, i).value !in sets
  }

  /** Where a set is kept of a state of a cycle, the same one is of every state of it. */
  ghost predicate Uniform(c: Fields, sets: map<nat, set<Media>>)
    requires Sound(c)
  {
    forall k: nat, i: nat :: k in sets && k < |c.items| && OnCycle(Steps(c), k) && At(Steps(c), k, i).Some? ==>
      At(Steps(c), k, i).value in sets && sets[At(Steps(c), k, i).value] == sets[k]
  }

  /** Keeping the set of a state of no cycle changes nothing of that. */
  lemma UniformTail(c: Fields, sets: map<nat, set<Media>>, k: nat, s: set<Media>)
    requires Sound(c) && Uniform(c, sets) && k < |c.items| && !OnCycle(Steps(c), k)
    ensures Uniform(c, if k in sets then sets else sets[k := s])
  {
    hide At, OnCycle;
    var more := if k in sets then sets else sets[k := s];
    forall u: nat, i: nat | u in more && u < |c.items| && OnCycle(Steps(c), u) && At(Steps(c), u, i).Some?
      ensures At(Steps(c), u, i).value in more && more[At(Steps(c), u, i).value] == more[u]
    {
      assert u in sets;
      AroundOn(Steps(c), u, i);
    }
  }

  lemma AroundOn(next: Next, u: nat, i: nat)
    requires Chain.Valid(next) && u < |next| && OnCycle(next, u)
    ensures At(next, u, i).Some? && OnCycle(next, At(next, u, i).value)
    ensures exists j: nat :: At(next, At(next, u, i).value, j) == Some(u)
  {
    var p: nat :| p > 0 && At(next, u, p) == Some(u);
    CycleGoesOn(next, u, p, i);
    var j := CycleBack(next, u, p, i);
  }

  /** Nor does keeping one set of every state of a cycle of which none is kept. */
  lemma UniformCycle(c: Fields, sets: map<nat, set<Media>>, more: map<nat, set<Media>>, cycle: seq<nat>,
      acc: set<Media>)
    requires Sound(c) && Uniform(c, sets) && Grown(sets, more)
    requires forall k :: k in more <==> k in sets || k in cycle
    requires forall k :: k in cycle ==> more[k] == acc
    requires forall k: nat, i: nat :: k in cycle && k < |c.items| && At(Steps(c), k, i).Some? ==>
      At(Steps(c), k, i).value in cycle
    ensures Uniform(c, more)
  {
    hide At, OnCycle;
  }

  /** What leads to a state of which a set is kept, and is of its cycle, has one kept. */
  lemma KnownApart(c: Fields, sets: map<nat, set<Media>>, s: nat, path: seq<nat>, k: nat)
    requires Sound(c) && s < |c.items| && Follows(Steps(c), s, path) && Uniform(c, sets)
    requires At(Steps(c), s, |path|) == Some(k) && k < |c.items| && k in sets
    requires forall i :: 0 <= i < |path| ==> path[i] !in sets
    ensures Apart(c, path)
  {
    hide At, OnCycle;
    var next := Steps(c);
    forall i | 0 <= i < |path| && path[i] < |c.items|
      ensures !OnCycle(next, path[i])
    {
      assert At(next, s, i) == Some(path[i]);
      if OnCycle(next, path[i]) {
        AtAdd(next, s, i, |path| - i);
        AroundOn(next, path[i], |path| - i);
      }
    }
  }

  /** The sets kept of a document's states. Other calls keep sets too, between any two steps of this one, but where
      alone says that there are none. */
  class Sets {
    const c: Fields
    const alone: bool
    var sets: map<nat, set<Media>>

    constructor (c: Fields, alone: bool)
      requires Sound(c)
      ensures Valid() && this.c == c && this.alone == alone && sets == map[]
    {
      this.c, this.alone := c, alone;
      sets := map[];
    }

    /** Every set kept is a set of its state. */
    ghost predicate Valid()
      reads this
    {
      Sound(c) && forall k :: k in sets ==> k < |c.items| && Right(c, k, sets[k])
    }

    /** What other calls may do between two steps of this one: keep more sets. Callers know no more of it. */
    method OtherCalls()
      requires Valid()
      modifies this`sets
      ensures Valid() && Grown(old(sets), sets) && (alone ==> sets == old(sets))
    {
    }

    method SetOf(k: nat) returns (set_: Option<set<Media>>)
      requires Valid()
      modifies this`sets
      ensures Valid() && Grown(old(sets), sets) && (alone ==> sets == old(sets))
      ensures set_ == if k in sets then Some(sets[k]) else None
    {
      OtherCalls();
      set_ := if k in sets then Some(sets[k]) else None;
    }

    method KeepSet(k: nat, set_: set<Media>)
      requires Valid() && k < |c.items| && Right(c, k, set_)
      modifies this`sets
      ensures Valid() && Grown(old(sets), sets) && k in sets
      ensures alone ==> sets == if k in old(sets) then old(sets) else old(sets)[k := set_]
    {
      OtherCalls();
      if k !in sets {
        sets := sets[k := set_];
      }
    }

    /** Keeps what the cycle path enters at cycle gives for each of its states. */
    method KeepCycle(s: nat, path: seq<nat>, cycle: nat, mark: nat) returns (acc: set<Media>)
      requires Valid() && s < |c.items| && Follows(Steps(c), s, path)
      requires cycle <= mark < |path| && path[cycle] < |c.items| && OnCycle(Steps(c), path[cycle])
      requires At(Steps(c), s, cycle + (|path| - mark)) == Some(path[cycle])
      modifies this`sets
      ensures Valid() && Grown(old(sets), sets) && acc == Meaning(c, path[cycle]) && Right(c, path[cycle], acc)
      ensures forall i :: cycle <= i < |path| ==> path[i] in sets
      ensures alone && (forall i :: cycle <= i < |path| ==> path[i] !in old(sets)) ==>
        && (forall k :: k in sets <==> k in old(sets) || k in path[cycle..])
        && forall k :: k in path[cycle..] ==> sets[k] == acc
    {
      hide Meaning, OnCycle, At, Right;
      PathBelow(Steps(c), s, path);
      acc := {c.untyped[path[cycle]]};
      ghost var own: set<Media> := {};
      var i := cycle;
      while i < |path|
        invariant cycle <= i <= |path| && Valid() && sets == old(sets)
        invariant acc == own + {c.untyped[path[cycle]]}
        invariant forall d :: d in own <==> exists j :: cycle <= j < i && d in c.own[path[j]]
      {
        own := own + c.own[path[i]];
        acc := acc + c.own[path[i]];
        i := i + 1;
      }
      CycleSets(c, s, path, cycle, mark, own, cycle);
      i := cycle;
      while i < |path|
        invariant cycle <= i <= |path| && Valid() && Grown(old(sets), sets)
        invariant forall j :: cycle <= j < i ==> path[j] in sets
        invariant alone ==> forall k :: k in sets ==> k in old(sets) || (k in path[cycle..] && sets[k] == acc)
      {
        CycleSets(c, s, path, cycle, mark, own, i);
        assert path[cycle..][i - cycle] == path[i];
        KeepSet(path[i], acc);
        i := i + 1;
      }
      assert forall k :: k in path[cycle..] ==> exists j :: cycle <= j < |path| && path[j] == k;
    }

    /** The chain from s is back at its step mark: keeps the sets of its cycle, and leaves what leads to it. */
    method Looped(s: nat, path: seq<nat>, mark: nat) returns (rest: seq<nat>, acc: set<Media>)
      requires Valid() && s < |c.items| && Follows(Steps(c), s, path) && mark < |path|
      requires At(Steps(c), s, |path|) == Some(path[mark])
      modifies this`sets
      ensures Valid() && Grown(old(sets), sets) && Ready(c, s, rest, acc) && First(c, s, rest, acc)
      ensures alone && (forall i :: 0 <= i < |path| ==> path[i] !in old(sets)) ==>
        && (Uniform(c, old(sets)) ==> Uniform(c, sets))
        && (rest == [] ==> s in sets && sets[s] == acc)
    {
      hide Meaning, OnCycle, Right, At;
      var cycle := Entry(path, mark, Steps(c), s);
      ghost var before := sets;
      acc := KeepCycle(s, path, cycle, mark);
      PathBelow(Steps(c), s, path);
      rest := path[..cycle];
      LastStep(c, s, path[..cycle + 1]);
      ReadyKnown(c, s, rest, acc, path[cycle]);
      FirstKnown(c, s, rest, acc, path[cycle]);
      if alone && (forall i :: 0 <= i < |path| ==> path[i] !in before) {
        assert path[cycle..][0] == path[cycle];
        if Uniform(c, before) {
          forall k: nat, i: nat | k in path[cycle..] && k < |c.items| && At(Steps(c), k, i).Some?
            ensures At(Steps(c), k, i).value in path[cycle..]
          {
            var j :| cycle <= j < |path| && path[j] == k;
            CycleHas(c, s, path, cycle, mark, j, i);
          }
          UniformCycle(c, before, sets, path[cycle..], acc);
        }
      }
    }

    /** Follows the chain from s to a known set, its end or a cycle, whose sets it keeps. */
    method Follow(s: nat) returns (path: seq<nat>, acc: set<Media>)
      requires Valid() && s < |c.items|
      modifies this`sets
      ensures Valid() && Grown(old(sets), sets) && Ready(c, s, path, acc)
      ensures alone && s in old(sets) ==> path == [] && sets == old(sets) && acc == sets[s]
      ensures alone && Uniform(c, old(sets)) ==> Uniform(c, sets) && Apart(c, path)
      ensures alone && Unkept(c, old(sets), s) ==>
        First(c, s, path, acc) && (path == [] ==> s in sets && sets[s] == acc)
    {
      hide Meaning, OnCycle, Ready, Right, First, Apart, Uniform, At, Unkept;
      path, acc := [], {};
      var cur, mark, lap := Some(s), -1, 1;
      while cur.Some?
        invariant Valid() && Grown(old(sets), sets) && Follows(Steps(c), s, path) && acc == {}
        invariant alone ==> sets == old(sets) && forall j :: 0 <= j < |path| ==> path[j] !in sets
        invariant path == [] ==> cur == Some(s) && mark == -1 && lap == 1
        invariant path != [] ==> path[0] == s && path[|path| - 1] < |c.items| && cur == c.items[path[|path| - 1]]
        invariant path != [] ==>
          0 <= mark < |path| && mark <= 2 * |c.items| && lap == mark + 2 && |path| - 1 - mark < lap
        invariant forall j :: 0 <= mark < j < |path| ==> path[j] != path[mark]
        decreases 4 * |c.items| + 4 - |path|
      {
        var k := cur.value;
        if path != [] && c.late[k] { // an item, whose own array counts for it
          acc := c.whole[k];
          ReadyEnds(c, s, path, acc);
          FirstApart(c, s, path, acc);
          return;
        }
        NextAt(c, s, path, k);
        var known := SetOf(k);
        if known.Some? {
          acc := known.value;
          ReadyKnown(c, s, path, acc, k);
          if alone && Uniform(c, sets) {
            KnownApart(c, sets, s, path, k);
          }
          if alone && Unkept(c, sets, s) {
            NoneKnown(c, sets, s, path, k);
          }
          return;
        }
        if mark >= 0 && path[mark] == k {
          path, acc := Looped(s, path, mark);
          FirstApart(c, s, path, acc);
          return;
        }
        if mark >= 0 {
          BrentBound(Steps(c), s, path, mark, k);
        }
        path := path + [k];
        if mark < 0 || |path| - 1 - mark == lap {
          mark, lap := |path| - 1, 2 * lap;
        }
        cur := c.items[k];
      }
      ReadyEnds(c, s, path, acc);
      FirstApart(c, s, path, acc);
    }

    /** The set of the state s: what its chain gives, with the untyped default of the state its cycle was resolved from,
        if it comes to one. That state is the first the chain comes to where nothing was kept of it, and where no other
        calls run, it is the same for all of a cycle. */
    method Defaults(s: nat) returns (acc: set<Media>)
      requires Valid() && s < |c.items|
      modifies this`sets
      ensures Valid() && Grown(old(sets), sets) && Right(c, s, acc)
      ensures Agrees(c, s) ==> acc == Meaning(c, s)
      ensures alone && Uniform(c, old(sets)) ==> Uniform(c, sets)
      ensures alone && s in old(sets) ==> sets == old(sets) && acc == sets[s]
      ensures alone && Unkept(c, old(sets), s) ==> acc == Meaning(c, s)
      ensures alone && Unkept(c, old(sets), s) && OnCycle(Steps(c), s) ==> s in sets && sets[s] == acc
    {
      hide Meaning, OnCycle, At, Agrees, Right, Uniform, Unkept;
      var path: seq<nat>;
      path, acc := Follow(s);
      OnFirst(c, s, path);
      while path != []
        invariant Valid() && Grown(old(sets), sets) && Ready(c, s, path, acc)
        invariant alone && s in old(sets) ==> path == [] && sets == old(sets) && acc == sets[s]
        invariant alone && Uniform(c, old(sets)) ==> Uniform(c, sets) && Apart(c, path)
        invariant alone && Unkept(c, old(sets), s) ==> First(c, s, path, acc)
        invariant alone && Unkept(c, old(sets), s) && OnCycle(Steps(c), s) ==> path == [] && s in sets && sets[s] == acc
        decreases |path|
      {
        var last := path[|path| - 1];
        ReadyBack(c, s, path, acc);
        if alone && Unkept(c, old(sets), s) {
          FirstBack(c, s, path, acc);
        }
        acc := c.own[last] + acc;
        if alone && Uniform(c, sets) && Apart(c, path) {
          UniformTail(c, sets, last, acc);
        }
        KeepSet(last, acc);
        path := path[..|path| - 1];
      }
      if Agrees(c, s) {
        RightMeaning(c, s, acc);
      }
    }
  }

  /** The chain's next state after path. */
  lemma NextAt(c: Fields, s: nat, path: seq<nat>, k: nat)
    requires Sound(c) && s < |c.items| && Follows(Steps(c), s, path) && k < |c.items|
    requires if path == [] then k == s
      else path[|path| - 1] < |c.items| && c.items[path[|path| - 1]] == Some(k) && !c.late[k]
    ensures At(Steps(c), s, |path|) == Some(k) && Follows(Steps(c), s, path + [k])
  {
    hide At;
    AtNone(Steps(c), s);
    if path != [] {
      var n := |path| - 1;
      assert At(Steps(c), s, n) == Some(path[n]);
      AtAdd(Steps(c), s, n, 1);
      AtStart(Steps(c), path[n]);
    }
  }

  lemma NoneKnown(c: Fields, sets: map<nat, set<Media>>, s: nat, path: seq<nat>, k: nat)
    requires Sound(c) && s < |c.items| && Unkept(c, sets, s) && At(Steps(c), s, |path|) == Some(k)
    ensures k !in sets
  {
    assert At(Steps(c), s, |path|).value !in sets;
  }

  lemma FirstApart(c: Fields, s: nat, path: seq<nat>, acc: set<Media>)
    requires Sound(c) && s < |c.items| && First(c, s, path, acc)
    ensures Apart(c, path)
  {
  }

  /** A path with nothing on a cycle does not begin on one. */
  lemma OnFirst(c: Fields, s: nat, path: seq<nat>)
    requires Sound(c) && s < |c.items| && Follows(Steps(c), s, path)
    ensures Apart(c, path) && OnCycle(Steps(c), s) ==> path == []
  {
    if path != [] {
      assert At(Steps(c), s, 0) == Some(path[0]) && At(Steps(c), s, 0) == Some(s);
    }
  }

  /** Of a cycle's schemas, the one asked first decides the set of all, whatever their editions. */
  method FirstDecides(c: Fields, e: nat, w: nat, ghost i: nat) returns (a: set<Media>, b: set<Media>)
    requires Sound(c) && e < |c.items| && OnCycle(Steps(c), e) && At(Steps(c), e, i) == Some(w)
    ensures a == Meaning(c, e) && b == a
  {
    hide Meaning, Right;
    var sets := new Sets(c, true);
    a := sets.Defaults(e);
    assert sets.sets[w] == sets.sets[e];
    b := sets.Defaults(w);
  }

  /** Two calls at once, for the two schemas of a cycle of two editions, may each keep its own set of its own schema
      before the other does: the cycle then has two sets. */
  method CallsRace() returns (a: set<Media>, b: set<Media>)
    ensures a == {Text} && b == {Octet}
  {
    var c := Fields([{}, {}], [Text, Octet], [Some(1), Some(0)], [false, false], [{}, {}]);
    EditionsDiffer();
    MeaningRight(c, 0);
    MeaningRight(c, 1);
    hide Meaning, Right;
    var sets := new Sets(c, true);
    sets.KeepSet(0, {Text});
    sets.KeepSet(1, {Octet});
    a, b := sets.sets[0], sets.sets[1];
  }
}
