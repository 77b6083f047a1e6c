/** Summaries of sets of schemas: what a right summary is of all that is reached, and the merge of two. */
module Schemas {
  import opened Wrappers
  import opened Reach

  datatype JsonType = String | Number | Integer | Boolean | Object | Array | Null

  /** What one schema says itself: the types it allows, all of them when it has no type; the id of its items schema. */
  datatype Own = Own(types: set<JsonType>, typed: bool, encoded: bool, declares: bool, items: Option<nat>)

  /** What a set of schemas says together, and, of one schema, those it names that lead to a declaration. */
  datatype Shape = Shape(types: set<JsonType>, typed: bool, encoded: bool, declares: bool,
                         items: Option<nat>, several: bool, kids: seq<nat>)

  /** The schemas of the documents loaded: what each says itself, and those its $ref and allOf name, in
      document order. */
  datatype Graph = Graph(own: seq<Own>, kids: Adj)

  ghost predicate Valid(g: Graph) {
    && |g.own| == |g.kids|
    && WellFormed(g.kids)
    && forall v :: 0 <= v < |g.own| && g.own[v].items.Some? ==> g.own[v].declares
  }

  function Meet(s: Shape, t: Shape): Shape {
    var m := s.(types := s.types * t.types, typed := s.typed || t.typed, encoded := s.encoded || t.encoded,
                declares := s.declares || t.declares);
    if s.items.None? then m.(items := t.items, several := t.several)
    else if t.items.Some? && (t.items != s.items || t.several) then m.(several := true)
    else m
  }

  function OwnShape(o: Own): Shape {
    Shape(o.types, o.typed, o.encoded, o.declares, o.items, false, [])
  }

  ghost predicate Allows(g: Graph, r: set<nat>, t: JsonType) {
    forall v :: v in r && v < |g.own| ==> t in g.own[v].types
  }

  ghost predicate Differ(g: Graph, r: set<nat>) {
    exists u, v :: u in r && v in r && u < |g.own| && v < |g.own|
      && g.own[u].items.Some? && g.own[v].items.Some? && g.own[u].items != g.own[v].items
  }

  /** s is what the schemas of r say: the types all allow, whether any is typed, encoded or declaring, an items schema
      one of them declares if any does, and whether two of them declare different ones. */
  ghost predicate Says(g: Graph, s: Shape, r: set<nat>) {
    && (forall t :: t in s.types <==> Allows(g, r, t))
    && (s.typed <==> exists v :: v in r && v < |g.own| && g.own[v].typed)
    && (s.encoded <==> exists v :: v in r && v < |g.own| && g.own[v].encoded)
    && (s.declares <==> exists v :: v in r && v < |g.own| && g.own[v].declares)
    && (s.items.None? <==> forall v :: v in r && v < |g.own| ==> g.own[v].items.None?)
    && (s.items.Some? ==> exists v :: v in r && v < |g.own| && g.own[v].items == s.items)
    && (s.several <==> Differ(g, r))
  }

  lemma OwnSays(g: Graph, v: nat)
    requires v < |g.own|
    ensures Says(g, OwnShape(g.own[v]), {v})
  {
  }

  lemma AllowsBoth(g: Graph, a: set<nat>, b: set<nat>, t: JsonType)
    ensures Allows(g, a + b, t) <==> Allows(g, a, t) && Allows(g, b, t)
  {
  }

  lemma DifferMore(g: Graph, a: set<nat>, b: set<nat>)
    requires Differ(g, a)
    ensures Differ(g, a + b) && Differ(g, b + a)
  {
    var u, v :| u in a && v in a && u < |g.own| && v < |g.own|
      && g.own[u].items.Some? && g.own[v].items.Some? && g.own[u].items != g.own[v].items;
    assert u in a + b && v in a + b && u in b + a && v in b + a;
  }

  /** Two sets differ together if one does, or the items of one are none of the other's. */
  lemma MeetSeveral(g: Graph, s: Shape, a: set<nat>, t: Shape, b: set<nat>)
    requires Says(g, s, a) && Says(g, t, b)
    ensures Meet(s, t).several <==> Differ(g, a + b)
  {
    hide Allows;
    if Differ(g, a) {
      DifferMore(g, a, b);
    }
    if Differ(g, b) {
      DifferMore(g, b, a);
    }
  }

  lemma MeetSays(g: Graph, s: Shape, a: set<nat>, t: Shape, b: set<nat>)
    requires Says(g, s, a) && Says(g, t, b)
    ensures Says(g, Meet(s, t), a + b)
  {
    hide Allows, Differ;
    forall x
      ensures x in Meet(s, t).types <==> Allows(g, a + b, x)
    {
      AllowsBoth(g, a, b, x);
    }
    MeetSeveral(g, s, a, t, b);
  }

  ghost predicate Declares(g: Graph, v: nat) {
    exists w :: w in From(g.kids, v) && w < |g.own| && g.own[w].declares
  }

  /** Those of ks that lead to a declaration, in order. */
  ghost function Declaring(g: Graph, ks: seq<nat>): seq<nat> {
    if ks == [] then []
    else
      var rest := Declaring(g, ks[..|ks| - 1]);
      if Declares(g, ks[|ks| - 1]) then rest + [ks[|ks| - 1]] else rest
  }

  /** s is the right shape of v. */
  ghost predicate Right(g: Graph, v: nat, s: Shape) {
    && v < |g.own| == |g.kids|
    && Says(g, s, From(g.kids, v))
    && s.kids == Declaring(g, g.kids[v])
  }

  lemma RightDeclares(g: Graph, v: nat, s: Shape)
    requires Right(g, v, s)
    ensures s.declares <==> Declares(g, v)
  {
  }
}
