/** The shapes of a document's schemas, each computed once and published, while other calls publish theirs. */
module Documents {
  import opened Wrappers
  import opened Reach
  import opened Schemas
  import opened ShapeWalk
  import opened ShapePops
  import opened ShapeTrack
  import Sequences

  ghost predicate Grown(a: map<nat, Shape>, b: map<nat, Shape>) {
    forall v :: v in a ==> v in b && b[v] == a[v]
  }

  /** A schema entered and not published is open. */
  ghost predicate OpenOrPublished(shapes: map<nat, Shape>, w: Walk) {
    forall x :: 0 <= x < |w.nodes| ==> w.nodes[x].v in shapes || x in w.open
  }

  lemma LeafRight(g: Graph, k: nat)
    requires Schemas.Valid(g) && k < |g.own| && g.kids[k] == []
    ensures Right(g, k, OwnShape(g.own[k]))
  {
    hide Reaches;
    OwnSays(g, k);
    ReachesSelf(g.kids, k);
    FromIs(g.kids, k, {k});
  }

  /** A schema whose kids' shapes are all met speaks of all it reaches. */
  lemma SpokenRight(g: Graph, v: nat, s: Shape, acc: set<nat>, kept: seq<nat>)
    requires Schemas.Valid(g) && v < |g.own| && Spoken(g, v, s, acc) && kept == Declaring(g, g.kids[v])
    requires forall j :: 0 <= j < |g.kids[v]| ==> g.kids[v][j] in acc
    ensures Right(g, v, s.(kids := kept))
  {
    hide Reaches;
    forall u, k | u in acc && u < |g.kids| && k in g.kids[u]
      ensures k in acc
    {
      if u != v {
        assert Edge(g.kids, u, k);
      }
    }
    FromIs(g.kids, v, acc);
  }

  class Document {
    const g: Graph
    var shapes: map<nat, Shape>

    constructor (g: Graph)
      requires Schemas.Valid(g)
      ensures Valid() && this.g == g && shapes == map[]
    {
      this.g := g;
      shapes := map[];
    }

    /** Every shape published is right. */
    ghost predicate Valid()
      reads this
    {
      Schemas.Valid(g) && forall v :: v in shapes ==> Right(g, v, shapes[v])
    }

    /** What other calls may do between two steps of this one: publish more right shapes. Callers know no more of it. */
    method OtherCalls()
      requires Valid()
      modifies this`shapes
      ensures Valid() && Grown(old(shapes), shapes)
    {
    }

    method Load(v: nat) returns (s: Option<Shape>)
      requires Valid()
      modifies this`shapes
      ensures Valid() && Grown(old(shapes), shapes)
      ensures s == if v in shapes then Some(shapes[v]) else None
    {
      OtherCalls();
      s := if v in shapes then Some(shapes[v]) else None;
    }

    /** Offers s for v: the first shape offered stays, and is what every caller gets. */
    method Keep(v: nat, s: Shape) returns (kept: Shape)
      requires Valid() && Right(g, v, s)
      modifies this`shapes
      ensures Valid() && Grown(old(shapes), shapes) && v in shapes && kept == shapes[v]
    {
      OtherCalls();
      if v !in shapes {
        shapes := shapes[v := s];
      }
      kept := shapes[v];
    }

    /** The shape published of v in the end. Only if some kid of v with kids of its own has none does a walk find it. */
    method ShapeOf(v: nat) returns (r: Shape)
      requires Valid() && v < |g.own|
      modifies this`shapes
      ensures Valid() && Grown(old(shapes), shapes) && v in shapes && r == shapes[v]
    {
      hide Says, Reaches, From, Declares;
      var known := Load(v);
      if known.Some? {
        return known.value;
      }
      var s, kids, kept, i := OwnShape(g.own[v]), g.kids[v], 0, 0;
      ghost var acc := {v};
      OwnSpoken(g, v);
      assert kids[..0] == g.kids[v][..0];
      while i < |kids|
        invariant Valid() && Grown(old(shapes), shapes)
        invariant 0 <= kept <= i <= |kids| == |g.kids[v]|
        invariant forall j :: i <= j < |kids| ==> kids[j] == g.kids[v][j]
        invariant kids[..kept] == Declaring(g, g.kids[v][..i])
        invariant Spoken(g, v, s, acc)
        invariant forall j :: 0 <= j < i ==> g.kids[v][j] in acc
      {
        var k := kids[i];
        assert k in g.kids[v];
        var ks := Load(k);
        if ks.None? && |g.kids[k]| == 0 {
          LeafRight(g, k);
          var leaf := Keep(k, OwnShape(g.own[k]));
          ks := Some(leaf);
        }
        if ks.None? {
          r := Walk(v);
          return;
        }
        AbsorbSpoken(g, v, s, acc, k, ks.value);
        RightDeclares(g, k, ks.value);
        FromFacts(g.kids, k);
        s, acc := Meet(s, ks.value), acc + From(g.kids, k);
        assert g.kids[v][..i + 1][..i] == g.kids[v][..i];
        if ks.value.declares {
          ghost var before := kids[..kept];
          kids, kept := kids[kept := k], kept + 1;
          assert kids[..kept] == before + [k];
        }
        i := i + 1;
      }
      assert g.kids[v][..i] == g.kids[v];
      SpokenRight(g, v, s, acc, kids[..kept]);
      r := Keep(v, s.(kids := kids[..kept]));
    }

    /** What the schemas of the cycle on top of the walk say together. */
    method CycleSays(nodes: seq<Node>, cycle: seq<nat>, top: nat, ghost w: Walk) returns (cs: Shape)
      requires Valid() && Finished(g, w) && w.nodes == nodes && top == w.top && IsCycle(w, cycle)
      requires forall j :: 0 <= j < |cycle| ==> cycle[j] < |w.acc|
      ensures Says(g, cs, SpokenBy(w, cycle))
    {
      hide Says, Reaches, Declares, Declaring, Counted, AllCovered, Lowest, ReachedDown, ReachedUp;
      cs := nodes[top].s;
      assert Spoken(g, nodes[top].v, cs, w.acc[top]);
      assert w.acc[top] + SpokenBy(w, cycle[..0]) == w.acc[top];
      var j := 0;
      while j < |cycle|
        invariant j <= |cycle| && Says(g, cs, w.acc[top] + SpokenBy(w, cycle[..j]))
      {
        var m := cycle[j];
        assert m in cycle;
        assert Spoken(g, nodes[m].v, nodes[m].s, w.acc[m]);
        MeetSays(g, cs, w.acc[top] + SpokenBy(w, cycle[..j]), nodes[m].s, w.acc[m]);
        cs := Meet(cs, nodes[m].s);
        assert cycle[..j + 1][..j] == cycle[..j];
        assert w.acc[top] + SpokenBy(w, cycle[..j + 1]) == w.acc[top] + SpokenBy(w, cycle[..j]) + w.acc[m];
        j := j + 1;
      }
      assert cycle[..j] == cycle;
      SpokenByCycle(g, w, cycle);
      assert w.acc[top] + SpokenBy(w, cycle) == SpokenBy(w, cycle);
    }

    /** Publishes the shape of each schema of the cycle on top of the walk, returning that of the top. */
    method Complete(nodes: seq<Node>, cycle: seq<nat>, top: nat, ghost w: Walk) returns (done: Shape)
      requires Valid() && Finished(g, w) && Whole(w) && w.nodes == nodes && w.top == top && IsCycle(w, cycle)
      modifies this`shapes
      ensures Valid() && Grown(old(shapes), shapes) && top < |nodes| && nodes[top].v in shapes
      ensures done == shapes[nodes[top].v]
      ensures forall x :: x in Cycle(w) ==> x < |nodes| && nodes[x].v in shapes
    {
      hide Says, Reaches, Declares, Declaring, Right, Counted, Spoken, AllCovered, Lowest, ReachedDown, ReachedUp;
      SpokenByCycle(g, w, cycle);
      var cs := CycleSays(nodes, cycle, top, w);
      assert top in cycle;
      var j := 0;
      done := nodes[top].s;
      while j < |cycle|
        invariant Valid() && Grown(old(shapes), shapes) && j <= |cycle|
        invariant forall x :: 0 <= x < j ==> nodes[cycle[x]].v in shapes
        invariant top in cycle[..j] ==> nodes[top].v in shapes && done == shapes[nodes[top].v]
      {
        var m := cycle[j];
        assert m in cycle && cycle[..j + 1] == cycle[..j] + [m];
        CycleRight(g, w, SpokenBy(w, cycle), cs, m);
        var kept := Keep(nodes[m].v, Kept(nodes[m], cs));
        if m == top {
          done := kept;
        }
        j := j + 1;
      }
      assert cycle[..j] == cycle;
    }

    /** The top of the walk consumes the next schema it names: it takes what is known of it, or it is to enter it. */
    method NextKid(v: nat, nodes: seq<Node>, path: seq<nat>, open: seq<nat>, byNode: map<nat, nat>, top: nat,
        ghost w: Walk)
      returns (after: seq<Node>, next: Option<nat>, ghost a: Walk)
      requires Valid() && Tracks(g, v, path, open, None, w) && w.nodes == nodes && w.byNode == byNode && w.top == top
      requires top < |nodes| && nodes[top].next < |nodes[top].kids| && OpenOrPublished(shapes, w)
      modifies this`shapes
      ensures Valid() && Grown(old(shapes), shapes)
      ensures Tracks(g, v, path, open, next, a) && a.nodes == after && a.byNode == byNode && OpenOrPublished(shapes, a)
      ensures |after| == |nodes| && |after[top].kids| == |nodes[top].kids| && after[top].next == nodes[top].next + 1
    {
      hide Says, Reaches, Right, Walking, Structured, Linked, Tracks;
      TrackTop(g, v, path, open, w);
      var k := nodes[top].kids[nodes[top].next];
      after, next := nodes[top := Consume(nodes[top])], None;
      var ks := Load(k);
      if ks.None? && k !in byNode && |g.kids[k]| == 0 {
        LeafRight(g, k);
        var leaf := Keep(k, OwnShape(g.own[k]));
        ks := Some(leaf);
      }
      if ks.Some? {
        TrackAbsorb(g, v, path, open, w, k, ks.value);
        after, a := after[top := Absorb(after[top], k, ks.value)], Absorbed(g, Advanced(w), k, ks.value);
      } else if k in byNode { // open still: k and the top lead to each other
        TrackTake(g, v, path, open, w, k, byNode[k]);
        after, a := after[top := Lower(Append(after[top], k), byNode[k])], Taken(Advanced(w), k, byNode[k]);
      } else {
        TrackNext(g, v, path, open, w, k);
        next, a := Some(k), Advanced(w);
      }
    }

    /** The top of the walk, with nothing left, leaves its path: to merge with the cycle of the one below, or with its
        own cycle complete, whose shapes are published. */
    method LeaveTop(v: nat, nodes: seq<Node>, path: seq<nat>, open: seq<nat>, top: nat, ghost w: Walk)
      returns (done: Shape, after: seq<Node>, shorter: seq<nat>, rest: seq<nat>, ghost a: Walk)
      requires Valid() && Tracks(g, v, path, open, None, w) && w.nodes == nodes && w.top == top
      requires top < |nodes| && nodes[top].next == |nodes[top].kids| && OpenOrPublished(shapes, w)
      modifies this`shapes
      ensures Valid() && Grown(old(shapes), shapes)
      ensures |path| > 0 && shorter == path[..|path| - 1] && |after| == |nodes| && a.byNode == w.byNode
      ensures shorter == [] ==> v in shapes && done == shapes[v]
      ensures shorter != [] ==> Tracks(g, v, shorter, rest, None, a) && a.nodes == after && OpenOrPublished(shapes, a)
    {
      hide Says, Reaches, Right, Walking, Structured, Linked, Tracks;
      TrackTop(g, v, path, open, w);
      TrackBelow(g, v, path, open, w);
      shorter, after, rest, a := path[..|path| - 1], nodes, open, w;
      if nodes[top].low < top { // of a cycle with the one below
        done := nodes[top].s;
        var p := shorter[|shorter| - 1];
        TrackMerge(g, v, path, open, w, p);
        after := nodes[p := Lower(Append(nodes[p], nodes[p].kids[nodes[p].next - 1]), nodes[top].low)];
        a := Merged(w, p);
        return;
      }
      var i := Sequences.Place(open, top);
      CycleCut(w, open, i);
      done := Complete(nodes, open[i..], top, w);
      rest := open[..i];
      if shorter != [] {
        var p := shorter[|shorter| - 1];
        var k := nodes[p].kids[nodes[p].next - 1];
        TrackComplete(g, v, path, open, w, p, i, k, done);
        after, a := nodes[p := Absorb(nodes[p], k, done)], Absorbed(g, Completed(w, p), k, done);
      }
    }

    /** Finds the shape of v in one pass over what v reaches and has no shape, all of which have one then. */
    method Walk(v: nat) returns (done: Shape)
      requires Valid() && v < |g.own|
      modifies this`shapes
      ensures Valid() && Grown(old(shapes), shapes) && v in shapes && done == shapes[v]
    {
      hide Says, Reaches, Right, Walking, Structured, Linked, Tracks, Entered, OpenOrPublished;
      var nodes, path: seq<nat>, open: seq<nat>, byNode := [Fresh(g, v, 0)], [0], [0], map[v := 0];
      ghost var w := Entered(g, NOTHING, v);
      TrackStart(g, v);
      EnteredIs(g, shapes, NOTHING, v);
      TrackTop(g, v, path, open, w);
      var next: Option<nat> := None;
      while true
        invariant Valid() && Grown(old(shapes), shapes)
        invariant w.nodes == nodes && w.byNode == byNode && OpenOrPublished(shapes, w)
        invariant Tracks(g, v, path, open, next, w)
        decreases |g.kids| - |nodes|, |path|, if next.Some? then 0 else 1 + Left(nodes, path)
      {
        if next.Some? { // enter it
          var k, t := next.value, |nodes|;
          TrackRoom(g, v, path, open, k, w);
          TrackEnter(g, v, path, open, k, w, t, path + [t], open + [t]);
          EnteredIs(g, shapes, w, k);
          nodes, path, open, byNode, next := nodes + [Fresh(g, k, t)], path + [t], open + [t], byNode[k := t], None;
          w := Entered(g, w, k);
        }
        TrackTop(g, v, path, open, w);
        var top := path[|path| - 1];
        if nodes[top].next < |nodes[top].kids| {
          nodes, next, w := NextKid(v, nodes, path, open, byNode, top, w);
        } else {
          done, nodes, path, open, w := LeaveTop(v, nodes, path, open, top, w);
          if path == [] {
            return;
          }
        }
      }
    }
  }

  /** A schema entered is open. */
  lemma EnteredIs(g: Graph, shapes: map<nat, Shape>, w: Walk, k: nat)
    requires k < |g.own| == |g.kids| && (OpenOrPublished(shapes, w) || w.nodes == [])
    ensures var e := Entered(g, w, k);
      && e.nodes == w.nodes + [Fresh(g, k, |w.nodes|)] && e.byNode == w.byNode[k := |w.nodes|] && !e.pending
      && OpenOrPublished(shapes, e)
  {
  }

  ghost function Left(nodes: seq<Node>, path: seq<nat>): nat {
    if |path| > 0 && path[|path| - 1] < |nodes| then
      var n := nodes[path[|path| - 1]];
      if n.next <= |n.kids| then |n.kids| - n.next else 0
    else 0
  }
}
