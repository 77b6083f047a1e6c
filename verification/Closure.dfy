/** The depth-first walk over the schemas that lead to a declaration, and why walking only those changes nothing. */
module Closure {
  import opened Wrappers
  import opened Reach
  import opened Schemas
  import opened Documents
  import Sequences

  function Elems(s: seq<nat>): set<nat> {
    set v | v in s
  }

  /** The members of s that are in keep, in order. */
  ghost function Of(s: seq<nat>, keep: set<nat>): seq<nat> {
    if s == [] then []
    else (if s[0] in keep then [s[0]] else []) + Of(s[1..], keep)
  }

  lemma OfCons(x: nat, s: seq<nat>, keep: set<nat>)
    ensures Of([x] + s, keep) == (if x in keep then [x] else []) + Of(s, keep)
  {
    Sequences.Rest(x, s);
  }

  lemma {:induction false} OfAppend(a: seq<nat>, b: seq<nat>, keep: set<nat>)
    ensures Of(a + b, keep) == Of(a, keep) + Of(b, keep)
  {
    if a == [] {
      Sequences.Nothing(b);
      Sequences.Nothing(Of(b, keep));
    } else {
      hide Of;
      Sequences.Whole(a);
      Sequences.Group([a[0]], a[1..], b);
      OfCons(a[0], a[1..], keep);
      OfCons(a[0], a[1..] + b, keep);
      OfAppend(a[1..], b, keep);
      Sequences.Group(if a[0] in keep then [a[0]] else [], Of(a[1..], keep), Of(b, keep));
    }
  }

  lemma {:induction false} OfOf(s: seq<nat>, big: set<nat>, small: set<nat>)
    requires small <= big
    ensures Of(Of(s, big), small) == Of(s, small)
  {
    if s != [] {
      OfAppend(if s[0] in big then [s[0]] else [], Of(s[1..], big), small);
      OfOf(s[1..], big, small);
    }
  }

  lemma {:induction false} OfMembers(s: seq<nat>, keep: set<nat>, v: nat)
    ensures v in Of(s, keep) <==> v in s && v in keep
  {
    if s != [] {
      OfMembers(s[1..], keep, v);
    }
  }

  ghost predicate Distinct(s: seq<nat>) {
    forall i, j :: 0 <= i < j < |s| ==> s[i] != s[j]
  }

  ghost predicate Within(s: seq<nat>, n: nat) {
    forall i :: 0 <= i < |s| ==> s[i] < n
  }

  lemma KidsWithin(kids: Adj, v: nat)
    requires WellFormed(kids) && v < |kids|
    ensures Within(kids[v], |kids|)
  {
    assert forall i :: 0 <= i < |kids[v]| ==> kids[v][i] in kids[v];
  }

  /** The recursive definition: each of list not seen before, and then, depth first, what it names, in order. */
  ghost function Preorder(kids: Adj, list: seq<nat>, seen: set<nat>): seq<nat>
    requires WellFormed(kids) && Within(list, |kids|)
    decreases Nodes(|kids|) - seen, |list|
  {
    if list == [] then []
    else if list[0] in seen then Preorder(kids, list[1..], seen)
    else
      var v := list[0];
      assert v in Nodes(|kids|) - seen;
      KidsWithin(kids, v);
      var sub := [v] + Preorder(kids, kids[v], seen + {v});
      assert sub[0] == v;
      sub + Preorder(kids, list[1..], seen + Elems(sub))
  }

  /** What a walk with a list of schemas pending, the next of them first, visits. */
  ghost function Visits(kids: Adj, pending: seq<nat>, seen: set<nat>): seq<nat>
    requires WellFormed(kids) && Within(pending, |kids|)
    decreases Nodes(|kids|) - seen, |pending|
  {
    if pending == [] then []
    else if pending[0] in seen then Visits(kids, pending[1..], seen)
    else
      var v := pending[0];
      assert v in Nodes(|kids|) - seen;
      KidsWithin(kids, v);
      [v] + Visits(kids, kids[v] + pending[1..], seen + {v})
  }

  lemma ElemsAppend(a: seq<nat>, b: seq<nat>)
    ensures Elems(a + b) == Elems(a) + Elems(b)
  {
  }

  /** Walking a before b is the preorder of a, and then b without what that visited. */
  lemma {:induction false} VisitsAppend(kids: Adj, a: seq<nat>, b: seq<nat>, seen: set<nat>)
    requires WellFormed(kids) && Within(a, |kids|) && Within(b, |kids|) && Within(a + b, |kids|)
    ensures Visits(kids, a + b, seen) ==
      Preorder(kids, a, seen) + Visits(kids, b, seen + Elems(Preorder(kids, a, seen)))
    decreases Nodes(|kids|) - seen, |a|
  {
    hide Elems;
    if a == [] {
      assert a + b == b;
      ElemsEmpty();
      assert seen + Elems([]) == seen;
    } else if a[0] in seen {
      assert (a + b)[1..] == a[1..] + b;
      VisitsAppend(kids, a[1..], b, seen);
    } else {
      var v, rest := a[0], a[1..] + b;
      assert v in Nodes(|kids|) - seen;
      KidsWithin(kids, v);
      assert (a + b)[1..] == rest;
      VisitsAppend(kids, kids[v], rest, seen + {v});
      var below := Preorder(kids, kids[v], seen + {v});
      ElemsOne(v, below);
      assert seen + {v} + Elems(below) == seen + Elems([v] + below);
      VisitsAppend(kids, a[1..], b, seen + Elems([v] + below));
      var after := Preorder(kids, a[1..], seen + Elems([v] + below));
      ElemsAppend([v] + below, after);
      assert seen + Elems([v] + below) + Elems(after) == seen + Elems([v] + below + after);
    }
  }

  lemma ElemsEmpty()
    ensures Elems([]) == {}
  {
  }

  lemma ElemsOne(v: nat, s: seq<nat>)
    ensures Elems([v] + s) == {v} + Elems(s)
  {
  }

  /** The walk visits in preorder. */
  lemma VisitsPreorder(kids: Adj, list: seq<nat>)
    requires WellFormed(kids) && Within(list, |kids|)
    ensures Visits(kids, list, {}) == Preorder(kids, list, {})
  {
    VisitsAppend(kids, list, [], {});
    assert list + [] == list;
  }

  /** It visits each once, and only what the list reaches. */
  lemma {:induction false} VisitsSound(kids: Adj, pending: seq<nat>, seen: set<nat>)
    requires WellFormed(kids) && Within(pending, |kids|)
    ensures Distinct(Visits(kids, pending, seen))
    ensures forall w :: w in Visits(kids, pending, seen) ==>
      w !in seen && w < |kids| && exists v :: v in pending && Reaches(kids, v, w)
    decreases Nodes(|kids|) - seen, |pending|
  {
    if pending == [] {
    } else if pending[0] in seen {
      VisitsSound(kids, pending[1..], seen);
      assert forall v :: v in pending[1..] ==> v in pending;
    } else {
      var v := pending[0];
      assert v in Nodes(|kids|) - seen;
      KidsWithin(kids, v);
      VisitsSound(kids, kids[v] + pending[1..], seen + {v});
      ReachesSelf(kids, v);
      assert v in pending;
      forall w | w in Visits(kids, kids[v] + pending[1..], seen + {v})
        ensures exists u :: u in pending && Reaches(kids, u, w)
      {
        var u :| u in kids[v] + pending[1..] && Reaches(kids, u, w);
        if u in kids[v] {
          ReachesEdge(kids, v, v, u);
          ReachesTrans(kids, v, u, w);
        } else {
          assert u in pending;
        }
      }
    }
  }

  /** With what it visits, what was seen is left with no unseen kid. */
  lemma {:induction false} VisitsComplete(kids: Adj, pending: seq<nat>, seen: set<nat>)
    requires WellFormed(kids) && Within(pending, |kids|)
    requires forall u, w :: u in seen && Edge(kids, u, w) ==> w in seen || w in pending
    ensures Closed(kids, seen + Elems(Visits(kids, pending, seen)))
    ensures forall v :: v in pending ==> v in seen + Elems(Visits(kids, pending, seen))
    decreases Nodes(|kids|) - seen, |pending|
  {
    if pending == [] {
    } else {
      var v := pending[0];
      assert forall u :: u in pending ==> u == v || u in pending[1..];
      if v in seen {
        VisitsComplete(kids, pending[1..], seen);
      } else {
        assert v in Nodes(|kids|) - seen;
        KidsWithin(kids, v);
        forall u, w | u in seen + {v} && Edge(kids, u, w)
          ensures w in seen + {v} || w in kids[v] + pending[1..]
        {
          assert pending == [v] + pending[1..];
        }
        VisitsComplete(kids, kids[v] + pending[1..], seen + {v});
        var rest := Visits(kids, kids[v] + pending[1..], seen + {v});
        assert seen + {v} + Elems(rest) == seen + Elems([v] + rest);
      }
    }
  }

  /** It visits all that the list reaches. */
  lemma VisitsAll(kids: Adj, list: seq<nat>, v: nat, w: nat)
    requires WellFormed(kids) && Within(list, |kids|) && v in list && Reaches(kids, v, w)
    ensures w in Visits(kids, list, {})
  {
    VisitsComplete(kids, list, {});
    ClosedHolds(kids, {} + Elems(Visits(kids, list, {})), v, w);
  }

  // Pruning.

  /** The schemas that lead to a declaration. */
  ghost function Leads(g: Graph): set<nat> {
    set v: nat | v < |g.own| && Declares(g, v)
  }

  ghost function Pruned(g: Graph): Adj {
    seq(|g.kids|, v requires 0 <= v < |g.kids| => Declaring(g, g.kids[v]))
  }

  lemma {:induction false} DeclaringOf(g: Graph, ks: seq<nat>)
    requires Within(ks, |g.own|)
    ensures Declaring(g, ks) == Of(ks, Leads(g))
  {
    if ks != [] {
      var n := |ks| - 1;
      DeclaringOf(g, ks[..n]);
      OfAppend(ks[..n], [ks[n]], Leads(g));
      assert ks[..n] + [ks[n]] == ks;
    }
  }

  lemma PrunedWellFormed(g: Graph)
    requires Valid(g)
    ensures WellFormed(Pruned(g)) && |Pruned(g)| == |g.kids|
  {
    forall u, w | 0 <= u < |g.kids| && w in Pruned(g)[u]
      ensures w < |g.kids|
    {
      KidsWithin(g.kids, u);
      DeclaringOf(g, g.kids[u]);
      OfMembers(g.kids[u], Leads(g), w);
    }
  }

  /** A schema that leads to no declaration names none that does. */
  lemma LeadsNowhere(g: Graph, v: nat)
    requires Valid(g) && v < |g.kids| && v !in Leads(g)
    ensures Of(g.kids[v], Leads(g)) == []
  {
    forall k | k in g.kids[v]
      ensures k !in Leads(g)
    {
      ReachesSelf(g.kids, v);
      ReachesEdge(g.kids, v, v, k);
      FromSubset(g.kids, v, k);
    }
    OfNone(g.kids[v], Leads(g));
  }

  lemma {:induction false} OfNone(s: seq<nat>, keep: set<nat>)
    requires forall k :: k in s ==> k !in keep
    ensures Of(s, keep) == []
  {
    if s != [] {
      assert s[0] in s;
      OfNone(s[1..], keep);
    }
  }

  /** Passing a schema that leads nowhere, whose kids do not either, changes nothing of those that lead somewhere. */
  lemma PassNowhere(kids: Adj, p: seq<nat>, seen: set<nat>, l: set<nat>) returns (q: seq<nat>, more: set<nat>)
    requires WellFormed(kids) && Within(p, |kids|) && p != [] && p[0] !in l && Of(kids[p[0]], l) == []
    ensures Within(q, |kids|) && Of(Visits(kids, p, seen), l) == Of(Visits(kids, q, more), l)
    ensures Of(q, l) == Of(p, l) && l * more == l * seen
    ensures seen <= more
    ensures Nodes(|kids|) - more < Nodes(|kids|) - seen || (more == seen && |q| < |p|)
  {
    if p[0] in seen {
      q, more := p[1..], seen;
    } else {
      assert p[0] in Nodes(|kids|) - seen;
      KidsWithin(kids, p[0]);
      q, more := kids[p[0]] + p[1..], seen + {p[0]};
      OfAppend(kids[p[0]], p[1..], l);
    }
  }

  lemma PrunedOf(g: Graph, v: nat)
    requires Valid(g) && v < |g.kids| && |Pruned(g)| == |g.kids|
    ensures Of(Pruned(g)[v], Leads(g)) == Of(g.kids[v], Leads(g))
  {
    KidsWithin(g.kids, v);
    DeclaringOf(g, g.kids[v]);
    OfOf(g.kids[v], Leads(g), Leads(g));
  }

  /** Walking the kept kids and walking all of them visits the same schemas that lead to a declaration, in the same
      order, from lists and seen sets that agree on those. */
  lemma {:induction false} PruningKeeps(g: Graph, p: seq<nat>, seen: set<nat>, p': seq<nat>, seen': set<nat>)
    requires Valid(g) && WellFormed(Pruned(g)) && |Pruned(g)| == |g.kids| && Within(p, |g.kids|) && Within(p', |g.kids|)
    requires Of(p, Leads(g)) == Of(p', Leads(g)) && Leads(g) * seen == Leads(g) * seen'
    ensures Of(Visits(g.kids, p, seen), Leads(g)) == Of(Visits(Pruned(g), p', seen'), Leads(g))
    decreases Nodes(|g.kids|) - seen, |p|, Nodes(|g.kids|) - seen', |p'|
  {
    hide Leads, Pruned;
    var l, kids := Leads(g), Pruned(g);
    if p != [] && p[0] !in l {
      LeadsNowhere(g, p[0]);
      var q, more := PassNowhere(g.kids, p, seen, l);
      PruningKeeps(g, q, more, p', seen');
    } else if p' != [] && p'[0] !in l {
      LeadsNowhere(g, p'[0]);
      PrunedOf(g, p'[0]);
      var q, more := PassNowhere(kids, p', seen', l);
      PruningKeeps(g, p, seen, q, more);
    } else if p != [] {
      var v := p[0];
      assert Of(p, l)[0] == v && Of(p', l)[0] == v;
      assert Of(p[1..], l) == Of(p, l)[1..] && Of(p'[1..], l) == Of(p', l)[1..];
      assert v in seen <==> v in l * seen;
      assert v in seen' <==> v in l * seen';
      if v in seen {
        PruningKeeps(g, p[1..], seen, p'[1..], seen');
      } else {
        PruningVisits(g, p, seen, p', seen');
        assert v in Nodes(|g.kids|) - seen;
        PruningKeeps(g, g.kids[v] + p[1..], seen + {v}, kids[v] + p'[1..], seen' + {v});
      }
    }
  }

  lemma PruningVisits(g: Graph, p: seq<nat>, seen: set<nat>, p': seq<nat>, seen': set<nat>)
    requires Valid(g) && WellFormed(Pruned(g)) && |Pruned(g)| == |g.kids| && Within(p, |g.kids|) && Within(p', |g.kids|)
    requires p != [] && p' != [] && p[0] == p'[0] && Of(p[1..], Leads(g)) == Of(p'[1..], Leads(g))
    requires Leads(g) * seen == Leads(g) * seen'
    ensures Within(g.kids[p[0]] + p[1..], |g.kids|) && Within(Pruned(g)[p[0]] + p'[1..], |g.kids|)
    ensures Of(g.kids[p[0]] + p[1..], Leads(g)) == Of(Pruned(g)[p[0]] + p'[1..], Leads(g))
    ensures Leads(g) * (seen + {p[0]}) == Leads(g) * (seen' + {p[0]})
  {
    hide Leads, Pruned;
    var v := p[0];
    KidsWithin(g.kids, v);
    KidsWithin(Pruned(g), v);
    PrunedOf(g, v);
    OfAppend(g.kids[v], p[1..], Leads(g));
    OfAppend(Pruned(g)[v], p'[1..], Leads(g));
    assert Leads(g) * (seen + {v}) == Leads(g) * seen + Leads(g) * {v};
    assert Leads(g) * (seen' + {v}) == Leads(g) * seen' + Leads(g) * {v};
  }

  // The walk itself.

  function Present(s: seq<Option<nat>>): seq<nat> {
    if s == [] then [] else (if s[0].Some? then [s[0].value] else []) + Present(s[1..])
  }

  /** A stack as the list pending, its top first. */
  ghost function Pending(stack: seq<Option<nat>>): seq<nat> {
    if stack == [] then []
    else
      var n := |stack| - 1;
      (if stack[n].Some? then [stack[n].value] else []) + Pending(stack[..n])
  }

  ghost predicate AllBelow(s: seq<Option<nat>>, n: nat) {
    forall i :: 0 <= i < |s| && s[i].Some? ==> s[i].value < n
  }

  lemma {:induction false} PendingBelow(stack: seq<Option<nat>>, n: nat)
    requires AllBelow(stack, n)
    ensures Within(Pending(stack), n)
  {
    if stack != [] {
      PendingBelow(stack[..|stack| - 1], n);
    }
  }

  lemma {:induction false} PresentBelow(s: seq<Option<nat>>, n: nat)
    requires AllBelow(s, n)
    ensures Within(Present(s), n)
  {
    if s != [] {
      PresentBelow(s[1..], n);
    }
  }

  /** Pushes s on stack, the last of it first. */
  method PushAll(stack: seq<Option<nat>>, s: seq<Option<nat>>, ghost n: nat) returns (t: seq<Option<nat>>)
    requires AllBelow(stack, n) && AllBelow(s, n)
    ensures AllBelow(t, n) && Pending(t) == Present(s) + Pending(stack)
  {
    t := stack;
    var i := |s|;
    assert Present(s[i..]) + Pending(stack) == Pending(stack);
    while i > 0
      invariant 0 <= i <= |s| && AllBelow(t, n) && Pending(t) == Present(s[i..]) + Pending(stack)
    {
      i := i - 1;
      assert s[i..][0] == s[i] && s[i..][1..] == s[i + 1..];
      assert (t + [s[i]])[..|t|] == t;
      t := t + [s[i]];
    }
    assert s[0..] == s;
  }

  function Kids(ks: seq<nat>): seq<Option<nat>> {
    seq(|ks|, i requires 0 <= i < |ks| => Some(ks[i]))
  }

  lemma {:induction false} KidsPresent(ks: seq<nat>)
    ensures Present(Kids(ks)) == ks
  {
    if ks != [] {
      assert Kids(ks)[1..] == Kids(ks[1..]);
      KidsPresent(ks[1..]);
    }
  }

  /** The schemas of s, absent ones left out, and those they reach that lead to a declaration, depth first, each once,
      but for those hidden, which say nothing but their $ref. */
  method Walk(d: Document, s: seq<Option<nat>>, hidden: set<nat>) returns (calls: seq<nat>)
    requires d.Valid() && AllBelow(s, |d.g.kids|)
    modifies d`shapes
    ensures d.Valid() && WellFormed(Pruned(d.g)) && |Pruned(d.g)| == |d.g.kids| && Within(Present(s), |d.g.kids|)
    ensures calls == Of(Visits(Pruned(d.g), Present(s), {}), Nodes(|d.g.kids|) - hidden)
  {
    hide Right, Declaring, Declares, Visits, Of, Pruned, WellFormed;
    ghost var n, kids := |d.g.kids|, Pruned(d.g);
    ghost var shown := Nodes(n) - hidden;
    PrunedWellFormed(d.g);
    PresentBelow(s, n);
    var stack := PushAll([], s, n);
    assert Pending(stack) == Present(s);
    ghost var total := Of(Visits(kids, Present(s), {}), shown);
    var seen: set<nat> := {};
    calls := [];
    PendingBelow(stack, n);
    while stack != []
      invariant d.Valid() && AllBelow(stack, n) && Within(Pending(stack), n)
      invariant calls + Of(Visits(kids, Pending(stack), seen), shown) == total
      decreases Nodes(n) - seen, |stack|
    {
      var top := stack[|stack| - 1];
      ghost var list := Pending(stack);
      stack := stack[..|stack| - 1];
      PendingBelow(stack, n);
      if top.Some? {
        var v := top.value;
        assert list == [v] + Pending(stack);
        VisitStep(kids, v, Pending(stack), seen, shown, calls, total);
        if v !in seen {
          assert v in Nodes(n) - seen;
          seen := seen + {v};
          if v !in hidden {
            calls := calls + [v];
          }
          var shape := d.ShapeOf(v);
          RightKids(d.g, v, shape);
          KidsPresent(shape.kids);
          stack := PushAll(stack, Kids(shape.kids), n);
          PendingBelow(stack, n);
        }
      } else {
        assert list == Pending(stack);
      }
    }
    VisitsNothing(kids, seen, shown);
  }

  lemma VisitsNothing(kids: Adj, seen: set<nat>, shown: set<nat>)
    requires WellFormed(kids)
    ensures Of(Visits(kids, [], seen), shown) == []
  {
  }

  lemma VisitStep(kids: Adj, v: nat, rest: seq<nat>, seen: set<nat>, shown: set<nat>, calls: seq<nat>, total: seq<nat>)
    requires WellFormed(kids) && v < |kids| && Within(rest, |kids|) && Within([v] + rest, |kids|)
    requires calls + Of(Visits(kids, [v] + rest, seen), shown) == total
    ensures v in seen ==> calls + Of(Visits(kids, rest, seen), shown) == total
    ensures Within(kids[v] + rest, |kids|)
    ensures v !in seen ==>
      (if v in shown then calls + [v] else calls) + Of(Visits(kids, kids[v] + rest, seen + {v}), shown) == total
  {
    hide Visits, Of;
    KidsWithin(kids, v);
    VisitsFirst(kids, v, rest, seen);
    if v !in seen {
      OfFirst(v, Visits(kids, kids[v] + rest, seen + {v}), shown, calls);
    }
  }

  lemma OfFirst(v: nat, below: seq<nat>, shown: set<nat>, calls: seq<nat>)
    ensures calls + Of([v] + below, shown) == (if v in shown then calls + [v] else calls) + Of(below, shown)
  {
    assert ([v] + below)[1..] == below;
  }

  lemma VisitsFirst(kids: Adj, v: nat, rest: seq<nat>, seen: set<nat>)
    requires WellFormed(kids) && v < |kids| && Within(rest, |kids|) && Within([v] + rest, |kids|)
    requires Within(kids[v] + rest, |kids|)
    ensures Visits(kids, [v] + rest, seen) ==
      if v in seen then Visits(kids, rest, seen) else [v] + Visits(kids, kids[v] + rest, seen + {v})
  {
    assert ([v] + rest)[1..] == rest;
  }

  lemma RightKids(g: Graph, v: nat, s: Shape)
    requires Schemas.Valid(g) && Right(g, v, s)
    ensures v < |g.kids| && s.kids == Pruned(g)[v] && AllBelow(Kids(s.kids), |g.kids|)
  {
    PrunedWellFormed(g);
    assert forall i :: 0 <= i < |s.kids| ==> s.kids[i] in Pruned(g)[v];
  }

  ghost function Declared(g: Graph): set<nat> {
    set v: nat | v < |g.own| && g.own[v].declares
  }

  /** Of the schemas that declare properties or items, the walk calls those a preorder of all that is reached has, each
      once, in its order. */
  lemma WalkCalls(g: Graph, list: seq<nat>, hidden: set<nat>, calls: seq<nat>)
    requires Schemas.Valid(g) && Within(list, |g.kids|) && hidden !! Declared(g)
    requires WellFormed(Pruned(g)) && |Pruned(g)| == |g.kids|
    requires calls == Of(Visits(Pruned(g), list, {}), Nodes(|g.kids|) - hidden)
    ensures Of(calls, Declared(g)) == Of(Preorder(g.kids, list, {}), Declared(g))
    ensures forall v, w :: v in list && Reaches(g.kids, v, w) && w in Declared(g) ==> w in calls
    ensures forall w :: w in calls ==> exists v :: v in list && Reaches(g.kids, v, w)
    ensures Distinct(calls)
  {
    var full, pruned := Visits(g.kids, list, {}), Visits(Pruned(g), list, {});
    DeclaredLeads(g);
    OfOf(pruned, Nodes(|g.kids|) - hidden, Declared(g));
    OfOf(full, Leads(g), Declared(g));
    OfOf(pruned, Leads(g), Declared(g));
    PruningKeeps(g, list, {}, list, {});
    VisitsPreorder(g.kids, list);
    forall v, w | v in list && Reaches(g.kids, v, w) && w in Declared(g)
      ensures w in calls
    {
      VisitsAll(g.kids, list, v, w);
      OfMembers(full, Declared(g), w);
      OfMembers(calls, Declared(g), w);
    }
    VisitsSound(Pruned(g), list, {});
    OfDistinct(pruned, Nodes(|g.kids|) - hidden);
    forall w | w in calls
      ensures exists v :: v in list && Reaches(g.kids, v, w)
    {
      OfMembers(pruned, Nodes(|g.kids|) - hidden, w);
      var v :| v in list && Reaches(Pruned(g), v, w);
      PrunedReaches(g, v, w);
    }
  }

  lemma DeclaredLeads(g: Graph)
    requires Schemas.Valid(g)
    ensures Declared(g) <= Leads(g)
  {
    forall v | v in Declared(g)
      ensures v in Leads(g)
    {
      ReachesSelf(g.kids, v);
    }
  }

  lemma {:induction false} OfDistinct(s: seq<nat>, keep: set<nat>)
    requires Distinct(s)
    ensures Distinct(Of(s, keep))
  {
    if s != [] {
      OfDistinct(s[1..], keep);
      if s[0] in keep {
        OfMembers(s[1..], keep, s[0]);
      }
    }
  }

  lemma PrunedReaches(g: Graph, v: nat, w: nat)
    requires Schemas.Valid(g) && |Pruned(g)| == |g.kids| && Reaches(Pruned(g), v, w)
    ensures Reaches(g.kids, v, w)
  {
    var p :| IsPath(Pruned(g), p) && p[0] == v && p[|p| - 1] == w;
    forall i, j | 0 <= i && j == i + 1 && j < |p|
      ensures Edge(g.kids, p[i], p[j])
    {
      assert Edge(Pruned(g), p[i], p[j]);
      KidsWithin(g.kids, p[i]);
      DeclaringOf(g, g.kids[p[i]]);
      OfMembers(g.kids[p[i]], Leads(g), p[j]);
    }
    assert IsPath(g.kids, p);
  }
}
