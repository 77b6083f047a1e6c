/** Default media types: the set of a state of a chain of array items, which may come back to itself. */
module Defaults {
  import opened Wrappers
  import opened Chain

  datatype Media = Text | Json | Octet

  /** By state: own is the set it gives by its types, untyped what it gives if nothing on its chain has a type, items
      the state that follows it, late whether its edition is 3.2, whose arrays are not followed, and whole the set it
      gives as such an array. */
  datatype Fields = Fields(own: seq<set<Media>>, untyped: seq<Media>, items: seq<Option<nat>>, late: seq<bool>,
                           whole: seq<set<Media>>)

  ghost predicate Sound(c: Fields) {
    && |c.own| == |c.untyped| == |c.items| == |c.late| == |c.whole|
    && Chain.Valid(c.items)
  }

  /** The chain ends before items of OpenAPI 3.2. */
  ghost function Steps(c: Fields): (next: Next)
    requires Sound(c)
    ensures Chain.Valid(next) && |next| == |c.items|
  {
    seq(|c.items|, v requires 0 <= v < |c.items| =>
      if c.items[v].Some? && c.late[c.items[v].value] then None else c.items[v])
  }

  ghost function Gives(c: Fields, v: nat): set<Media>
    requires Sound(c) && v < |c.items|
  {
    c.own[v] + (if c.items[v].Some? && c.late[c.items[v].value] then c.whole[c.items[v].value] else {})
  }

  /** The chain from v comes to its cycle with step i. */
  ghost predicate Enters(c: Fields, v: nat, i: nat)
    requires Sound(c) && v < |c.items|
  {
    && At(Steps(c), v, i).Some? && OnCycle(Steps(c), At(Steps(c), v, i).value)
    && forall j: nat :: j < i && At(Steps(c), v, j).Some? ==> !OnCycle(Steps(c), At(Steps(c), v, j).value)
  }

  ghost predicate Given(c: Fields, v: nat, d: Media)
    requires Sound(c) && v < |c.items|
  {
    exists i: nat :: At(Steps(c), v, i).Some? && d in Gives(c, At(Steps(c), v, i).value)
  }

  ghost predicate Entered(c: Fields, v: nat, d: Media)
    requires Sound(c) && v < |c.items|
  {
    exists i: nat :: Enters(c, v, i) && d == c.untyped[At(Steps(c), v, i).value]
  }

  /** What each state of the chain gives, and, of one that comes to a cycle, the untyped default of where it does. */
  ghost function Meaning(c: Fields, v: nat): set<Media>
    requires Sound(c) && v < |c.items|
  {
    set d: Media | Given(c, v, d) || Entered(c, v, d)
  }

  /** Step i of the chain from v is on its cycle. */
  ghost predicate AtCycle(c: Fields, v: nat, i: nat)
    requires Sound(c) && v < |c.items|
  {
    At(Steps(c), v, i).Some? && OnCycle(Steps(c), At(Steps(c), v, i).value)
  }

  ghost function GivenSet(c: Fields, v: nat): set<Media>
    requires Sound(c) && v < |c.items|
  {
    set d: Media | Given(c, v, d)
  }

  /** s is what the chain from v gives, with the untyped default of some state of the cycle it comes to, if it comes to
      one: of the state its cycle was resolved from. */
  ghost predicate Right(c: Fields, v: nat, s: set<Media>)
    requires Sound(c) && v < |c.items|
  {
    || (exists i: nat :: AtCycle(c, v, i) && s == GivenSet(c, v) + {c.untyped[At(Steps(c), v, i).value]})
    || (s == GivenSet(c, v) && forall i: nat :: !AtCycle(c, v, i))
  }

  /** The untyped default of each state of the cycle the chain from v comes to is the next one's, as when their edition
      is one, or given anyway. */
  ghost predicate Agrees(c: Fields, v: nat)
    requires Sound(c) && v < |c.items|
  {
    forall i: nat :: AtCycle(c, v, i) ==> Alike(c, v, At(Steps(c), v, i).value)
  }

  ghost predicate Alike(c: Fields, v: nat, u: nat)
    requires Sound(c) && v < |c.items| && u < |c.items|
  {
    Steps(c)[u].Some? ==> c.untyped[u] == c.untyped[Steps(c)[u].value] || Given(c, v, c.untyped[u])
  }

  /** Schemas of one edition have one untyped default. */
  lemma OneEditionAgrees(c: Fields, v: nat)
    requires Sound(c) && v < |c.items|
    requires forall i: nat :: At(Steps(c), v, i).Some? ==> c.untyped[At(Steps(c), v, i).value] == c.untyped[v]
    ensures Agrees(c, v)
  {
    hide OnCycle, At;
    forall i: nat | AtCycle(c, v, i)
      ensures Alike(c, v, At(Steps(c), v, i).value)
    {
      var u := At(Steps(c), v, i).value;
      if Steps(c)[u].Some? {
        AtAdd(Steps(c), v, i, 1);
        AtStart(Steps(c), u);
        assert At(Steps(c), v, i + 1) == Steps(c)[u];
      }
    }
  }

  lemma StepAt(next: Next, v: nat, i: nat)
    requires Chain.Valid(next) && v < |next| && next[v].Some?
    ensures At(next, v, i + 1) == At(next, next[v].value, i)
  {
    AtAdd(next, v, 1, i);
    assert At(next, v, 1) == next[v];
  }

  lemma GivenStep(c: Fields, v: nat, d: Media)
    requires Sound(c) && v < |c.items|
    ensures Given(c, v, d) <==> d in Gives(c, v) || (Steps(c)[v].Some? && Given(c, Steps(c)[v].value, d))
  {
    var next := Steps(c);
    if Given(c, v, d) {
      var i: nat :| At(next, v, i).Some? && d in Gives(c, At(next, v, i).value);
      if i > 0 {
        AllDefined(next, v, i);
        assert At(next, v, 1).Some? && At(next, v, 0) == Some(v);
        StepAt(next, v, i - 1);
      }
    }
    if d in Gives(c, v) {
      assert At(next, v, 0) == Some(v);
    }
    if next[v].Some? && Given(c, next[v].value, d) {
      var w := next[v].value;
      var i: nat :| At(next, w, i).Some? && d in Gives(c, At(next, w, i).value);
      StepAt(next, v, i);
    }
  }

  lemma EntersStep(c: Fields, v: nat, i: nat)
    requires Sound(c) && v < |c.items| && !OnCycle(Steps(c), v) && Steps(c)[v].Some?
    ensures Enters(c, v, i + 1) <==> Enters(c, Steps(c)[v].value, i)
  {
    hide OnCycle, At;
    var next, w := Steps(c), Steps(c)[v].value;
    StepAt(next, v, i);
    if Enters(c, v, i + 1) {
      forall j: nat | j < i && At(next, w, j).Some?
        ensures !OnCycle(next, At(next, w, j).value)
      {
        StepAt(next, v, j);
      }
    }
    if Enters(c, w, i) {
      AtStart(next, v);
      forall j: nat | j < i + 1 && At(next, v, j).Some?
        ensures !OnCycle(next, At(next, v, j).value)
      {
        if j > 0 {
          StepAt(next, v, j - 1);
        }
      }
    }
  }

  lemma AtStart(next: Next, v: nat)
    requires Chain.Valid(next) && v < |next|
    ensures At(next, v, 0) == Some(v) && At(next, v, 1) == next[v]
  {
  }

  /** A tail comes to its cycle where its next state does. */
  lemma EnteredStep(c: Fields, v: nat, d: Media)
    requires Sound(c) && v < |c.items| && !OnCycle(Steps(c), v)
    ensures Entered(c, v, d) <==> Steps(c)[v].Some? && Entered(c, Steps(c)[v].value, d)
  {
    hide OnCycle, At;
    var next := Steps(c);
    AtStart(next, v);
    if Entered(c, v, d) {
      var i: nat :| Enters(c, v, i) && d == c.untyped[At(next, v, i).value];
      assert i > 0;
      AllDefined(next, v, i);
      EntersStep(c, v, i - 1);
      StepAt(next, v, i - 1);
    }
    if next[v].Some? && Entered(c, next[v].value, d) {
      var w := next[v].value;
      var i: nat :| Enters(c, w, i) && d == c.untyped[At(next, w, i).value];
      EntersStep(c, v, i);
      StepAt(next, v, i);
    }
  }

  lemma EnteredCycle(c: Fields, v: nat, d: Media)
    requires Sound(c) && v < |c.items| && OnCycle(Steps(c), v)
    ensures Entered(c, v, d) <==> d == c.untyped[v]
  {
    assert At(Steps(c), v, 0) == Some(v);
    assert Enters(c, v, 0);
    forall i: nat | Enters(c, v, i)
      ensures i == 0
    {
    }
  }

  /** Around a cycle the same is given. */
  lemma GivenAround(c: Fields, v: nat, i: nat, d: Media)
    requires Sound(c) && v < |c.items| && OnCycle(Steps(c), v) && At(Steps(c), v, i).Some?
    ensures OnCycle(Steps(c), At(Steps(c), v, i).value)
    ensures Given(c, At(Steps(c), v, i).value, d) == Given(c, v, d)
  {
    var next := Steps(c);
    var p: nat :| p > 0 && At(next, v, p) == Some(v);
    var w := At(next, v, i).value;
    var j := CycleBack(next, v, p, i);
    if Given(c, w, d) {
      GivenAlong(c, v, i, d);
    } else if Given(c, v, d) {
      GivenAlong(c, w, j, d);
    }
  }

  lemma GivenAlong(c: Fields, v: nat, i: nat, d: Media)
    requires Sound(c) && v < |c.items| && At(Steps(c), v, i).Some? && Given(c, At(Steps(c), v, i).value, d)
    ensures Given(c, v, d)
  {
    var next, w := Steps(c), At(Steps(c), v, i).value;
    var j: nat :| At(next, w, j).Some? && d in Gives(c, At(next, w, j).value);
    AtAdd(next, v, i, j);
  }

  // The sets a state may have.

  /** Around a cycle, an untyped default that is not given stays as it is. */
  lemma {:induction false} UntypedAround(c: Fields, v: nat, i: nat, j: nat)
    requires Sound(c) && v < |c.items| && Agrees(c, v) && AtCycle(c, v, i)
    ensures AtCycle(c, v, i + j)
    ensures var d := c.untyped[At(Steps(c), v, i).value];
      d == c.untyped[At(Steps(c), v, i + j).value] || Given(c, v, d)
  {
    hide At, OnCycle, Given;
    if j > 0 {
      UntypedAround(c, v, i, j - 1);
      var u := At(Steps(c), v, i + j - 1).value;
      CycleOn(Steps(c), u);
      AtAdd(Steps(c), v, i + j - 1, 1);
      AtStart(Steps(c), u);
      assert Alike(c, v, u);
    }
  }

  /** A cycle's states lead to states of it. */
  lemma CycleOn(next: Next, u: nat)
    requires Chain.Valid(next) && u < |next| && OnCycle(next, u)
    ensures next[u].Some? && OnCycle(next, next[u].value)
  {
    var p: nat :| p > 0 && At(next, u, p) == Some(u);
    AllDefined(next, u, p);
    AtStart(next, u);
    assert At(next, u, 1).Some?;
    var j := CycleBack(next, u, p, 1);
  }

  /** From one state of the cycle a chain comes to, the chain comes to any other. */
  lemma CycleTo(c: Fields, v: nat, i: nat, k: nat) returns (j: nat)
    requires Sound(c) && v < |c.items| && AtCycle(c, v, i) && AtCycle(c, v, k)
    ensures At(Steps(c), v, i + j) == At(Steps(c), v, k)
  {
    var next, u := Steps(c), At(Steps(c), v, i).value;
    if i <= k {
      j := k - i;
    } else {
      var w := At(next, v, k).value;
      var p: nat :| p > 0 && At(next, w, p) == Some(w);
      AtAdd(next, v, k, i - k);
      j := CycleBack(next, w, p, i - k);
      AtAdd(next, v, i, j);
    }
  }

  /** A state has one set, whichever of its cycle was resolved first, exactly if the untyped defaults of the cycle
      agree. */
  lemma WhicheverFirst(c: Fields, v: nat)
    requires Sound(c) && v < |c.items|
    ensures Agrees(c, v) <==> forall s, t :: Right(c, v, s) && Right(c, v, t) ==> s == t
  {
    hide At, OnCycle, Given;
    if Agrees(c, v) {
      forall s, t | Right(c, v, s) && Right(c, v, t)
        ensures s == t
      {
        OneRight(c, v, s, t);
      }
    } else {
      var i: nat :| AtCycle(c, v, i) && !Alike(c, v, At(Steps(c), v, i).value);
      var u := At(Steps(c), v, i).value;
      CycleOn(Steps(c), u);
      AtAdd(Steps(c), v, i, 1);
      AtStart(Steps(c), u);
      var w := Steps(c)[u].value;
      assert AtCycle(c, v, i + 1);
      var s, t := GivenSet(c, v) + {c.untyped[u]}, GivenSet(c, v) + {c.untyped[w]};
      assert Right(c, v, s) && Right(c, v, t);
      assert c.untyped[u] in s && c.untyped[u] !in t;
    }
  }

  lemma OneRight(c: Fields, v: nat, s: set<Media>, t: set<Media>)
    requires Sound(c) && v < |c.items| && Agrees(c, v) && Right(c, v, s) && Right(c, v, t)
    ensures s == t
  {
    hide At, OnCycle, Given, Agrees;
    if exists i: nat :: AtCycle(c, v, i) {
      var i: nat :| AtCycle(c, v, i) && s == GivenSet(c, v) + {c.untyped[At(Steps(c), v, i).value]};
      var k: nat :| AtCycle(c, v, k) && t == GivenSet(c, v) + {c.untyped[At(Steps(c), v, k).value]};
      var j := CycleTo(c, v, i, k);
      UntypedAround(c, v, i, j);
      j := CycleTo(c, v, k, i);
      UntypedAround(c, v, k, j);
    }
  }

  /** A set of what a state's items come to, with what it gives itself, is one of its own. */
  lemma RightStep(c: Fields, v: nat, s: set<Media>)
    requires Sound(c) && v < |c.items| && Steps(c)[v].Some? && Right(c, Steps(c)[v].value, s)
    ensures Right(c, v, Gives(c, v) + s)
  {
    hide At, OnCycle, Given, Gives;
    var next, w := Steps(c), Steps(c)[v].value;
    forall d: Media
      ensures Given(c, v, d) <==> d in Gives(c, v) || Given(c, w, d)
    {
      GivenStep(c, v, d);
    }
    assert GivenSet(c, v) == Gives(c, v) + GivenSet(c, w);
    if i: nat :| AtCycle(c, w, i) && s == GivenSet(c, w) + {c.untyped[At(next, w, i).value]} {
      StepAt(next, v, i);
      assert AtCycle(c, v, i + 1);
    } else {
      forall i: nat
        ensures !AtCycle(c, v, i)
      {
        if AtCycle(c, v, i) {
          CycleNext(c, v, i);
        }
      }
    }
  }

  /** A chain that comes to a cycle does so from its second state on. */
  lemma CycleNext(c: Fields, v: nat, i: nat)
    requires Sound(c) && v < |c.items| && Steps(c)[v].Some? && AtCycle(c, v, i)
    ensures exists k: nat :: AtCycle(c, Steps(c)[v].value, k)
  {
    hide At, OnCycle;
    var next, u := Steps(c), At(Steps(c), v, i).value;
    CycleOn(next, u);
    AtAdd(next, v, i, 1);
    AtStart(next, u);
    StepAt(next, v, i);
    assert AtCycle(c, next[v].value, i);
  }

  /** The set of a state whose chain ends with it. */
  lemma RightEnd(c: Fields, v: nat)
    requires Sound(c) && v < |c.items| && Steps(c)[v].None?
    ensures Right(c, v, Gives(c, v)) && Meaning(c, v) == Gives(c, v)
  {
    hide Gives;
    var next := Steps(c);
    assert At(next, v, 0) == Some(v) && At(next, v, 1) == None;
    forall i: nat | i > 0
      ensures At(next, v, i).None?
    {
      AtAdd(next, v, 1, i - 1);
    }
    forall d: Media
      ensures Given(c, v, d) <==> d in Gives(c, v)
    {
      GivenStep(c, v, d);
    }
    assert !OnCycle(next, v);
  }

  /** A chain that comes to a cycle does so with some step. */
  lemma {:induction false} EntersExists(c: Fields, v: nat, i: nat)
    requires Sound(c) && v < |c.items| && AtCycle(c, v, i)
    ensures exists j: nat :: Enters(c, v, j)
  {
    hide At, OnCycle;
    if j: nat :| j < i && AtCycle(c, v, j) {
      EntersExists(c, v, j);
    } else {
      forall j: nat | j < i && At(Steps(c), v, j).Some?
        ensures !OnCycle(Steps(c), At(Steps(c), v, j).value)
      {
        assert !AtCycle(c, v, j);
      }
      assert Enters(c, v, i);
    }
  }

  /** What a chain gives, with the untyped default of where it comes to its cycle, is a set of its state. */
  lemma MeaningRight(c: Fields, v: nat)
    requires Sound(c) && v < |c.items|
    ensures Right(c, v, Meaning(c, v))
  {
    hide At, OnCycle, Given;
    if i: nat :| AtCycle(c, v, i) {
      EntersExists(c, v, i);
      var j: nat :| Enters(c, v, j);
      assert AtCycle(c, v, j);
      assert forall k: nat :: Enters(c, v, k) ==> k == j;
      assert Meaning(c, v) == GivenSet(c, v) + {c.untyped[At(Steps(c), v, j).value]};
    } else {
      assert forall k: nat :: Enters(c, v, k) ==> AtCycle(c, v, k);
      assert Meaning(c, v) == GivenSet(c, v);
    }
  }

  /** Where the untyped defaults agree, there is no other. */
  lemma RightMeaning(c: Fields, v: nat, s: set<Media>)
    requires Sound(c) && v < |c.items| && Agrees(c, v) && Right(c, v, s)
    ensures s == Meaning(c, v)
  {
    hide Right, Meaning, Agrees;
    MeaningRight(c, v);
    OneRight(c, v, s, Meaning(c, v));
  }

  /** Two schemas of different editions, each the items of the other, that are typed as arrays alone: the first may have
      the default of either. */
  lemma EditionsDiffer()
    ensures var c := Fields([{}, {}], [Text, Octet], [Some(1), Some(0)], [false, false], [{}, {}]);
      Sound(c) && Meaning(c, 0) == {Text} && Meaning(c, 1) == {Octet} && Right(c, 0, {Text}) && Right(c, 0, {Octet})
  {
    var c := Fields([{}, {}], [Text, Octet], [Some(1), Some(0)], [false, false], [{}, {}]);
    assert Steps(c) == [Some(1), Some(0)];
    assert At(Steps(c), 0, 0) == Some(0) && At(Steps(c), 0, 1) == Some(1) && At(Steps(c), 0, 2) == Some(0);
    assert At(Steps(c), 1, 0) == Some(1) && At(Steps(c), 1, 1) == Some(0) && At(Steps(c), 1, 2) == Some(1);
    assert OnCycle(Steps(c), 0) && OnCycle(Steps(c), 1);
    assert AtCycle(c, 0, 0) && AtCycle(c, 0, 1);
    forall v: nat, d: Media | v < 2
      ensures !Given(c, v, d)
    {
    }
    assert GivenSet(c, 0) == {};
    forall d: Media
      ensures (Entered(c, 0, d) <==> d == Text) && (Entered(c, 1, d) <==> d == Octet)
    {
      EnteredCycle(c, 0, d);
      EnteredCycle(c, 1, d);
    }
    assert Meaning(c, 0) == {Text} && Meaning(c, 1) == {Octet};
  }

  /** Before its cycle, a state's set is what it gives, with that of its items. */
  lemma MeaningStep(c: Fields, v: nat)
    requires Sound(c) && v < |c.items| && !OnCycle(Steps(c), v)
    ensures Meaning(c, v) == Gives(c, v) + (if Steps(c)[v].Some? then Meaning(c, Steps(c)[v].value) else {})
  {
    hide At, OnCycle, Given, Gives, Entered;
    var next := Steps(c);
    forall d: Media
      ensures d in Meaning(c, v) <==> d in Gives(c, v) || (next[v].Some? && d in Meaning(c, next[v].value))
    {
      GivenStep(c, v, d);
      EnteredStep(c, v, d);
    }
  }
}
