/** The state of one walk for the shape of a schema, Tarjan's algorithm, and what every step of it keeps. */
module ShapeWalk {
  import opened Reach
  import opened Stacks
  import opened Schemas

  /** A schema entered. The first kept entries of kids, once those it names, have been overwritten in place with the
      ones it keeps; next are consumed, so kept never overtakes them. */
  datatype Node = Node(v: nat, s: Shape, kids: seq<nat>, kept: nat, next: nat, low: nat)

  /** nodes are in the order entered; on are the indices of the path, top the last, and open those not completed. acc
      says of which schemas each node's s speaks so far. pending: the last kid top consumed is not accounted for. */
  datatype Walk = Walk(nodes: seq<Node>, byNode: map<nat, nat>, acc: seq<set<nat>>,
                       on: set<nat>, open: set<nat>, top: nat, pending: bool)
  {
    /** How many of the schemas node x names are accounted for: the kid being walked is not. */
    ghost function Done(x: nat): int
      requires x < |nodes|
    {
      if x in on && (x != top || pending) then nodes[x].next - 1 else nodes[x].next
    }
  }

  ghost predicate Structured(g: Graph, w: Walk) {
    && |w.acc| == |w.nodes|
    && (forall x :: 0 <= x < |w.nodes| ==>
          w.nodes[x].v < |g.kids| && w.nodes[x].v in w.byNode && w.byNode[w.nodes[x].v] == x)
    && (forall v :: v in w.byNode ==> w.byNode[v] < |w.nodes| && w.nodes[w.byNode[v]].v == v)
    && (forall x :: x in w.open ==> x < |w.nodes|)
    && (forall x :: x in w.on ==> x in w.open && x <= w.top)
    && 0 in w.on && w.top in w.on
  }

  /** The kids past the done accounted for are still as named, and those before are kept in order if they declare. */
  ghost predicate Counted(g: Graph, n: Node, done: int, on: bool) {
    n.v < |g.kids| &&
    var ks := g.kids[n.v];
    && |n.kids| == |ks| && n.kept <= done <= n.next <= |ks|
    && (forall j :: done <= j < |ks| ==> n.kids[j] == ks[j])
    && (Declares(g, n.v) ==> n.kids[..n.kept] == Declaring(g, ks[..done]))
    && (!on ==> done == |ks|)
  }

  /** s speaks of acc: the schema itself, and whole sets of schemas that reach only each other. */
  ghost predicate Spoken(g: Graph, v: nat, s: Shape, acc: set<nat>) {
    && Says(g, s, acc)
    && v in acc && acc <= From(g.kids, v)
    && forall u, k :: u in acc && u != v && Edge(g.kids, u, k) ==> k in acc
  }

  /** A kid accounted for is spoken of, or open: no lower than low, and entered before what is above x on the path. */
  ghost predicate Covered(w: Walk, x: nat, k: nat)
    requires x < |w.nodes| == |w.acc|
  {
    || k in w.acc[x]
    || (k in w.byNode && w.byNode[k] in w.open && w.nodes[x].low <= w.byNode[k]
        && forall q: nat :: q in w.on && x < q ==> w.byNode[k] < q)
  }

  ghost predicate AllCovered(g: Graph, w: Walk, x: nat)
    requires x < |w.nodes| == |w.acc| && w.nodes[x].v < |g.kids|
  {
    var ks := g.kids[w.nodes[x].v];
    forall j :: 0 <= j < w.Done(x) && j < |ks| ==> Covered(w, x, ks[j])
  }

  ghost predicate Lowest(g: Graph, w: Walk, x: nat)
    requires Structured(g, w) && x < |w.nodes|
  {
    var n := w.nodes[x];
    && n.low <= x && n.low in w.open
    && Reaches(g.kids, n.v, w.nodes[n.low].v)
    && (x !in w.on ==> forall q: nat :: Owner(w.on, q, x) ==> w.nodes[q].low <= n.low)
  }

  /** The path reaches all that is open above it. */
  ghost predicate ReachedDown(g: Graph, w: Walk)
    requires Structured(g, w)
  {
    forall q: nat, x: nat :: q in w.on && x in w.open && q <= x ==> Reaches(g.kids, w.nodes[q].v, w.nodes[x].v)
  }

  /** What is open reaches its owner on the path. */
  ghost predicate ReachedUp(g: Graph, w: Walk)
    requires Structured(g, w)
  {
    forall q: nat, x: nat :: x in w.open && Owner(w.on, q, x) ==> Reaches(g.kids, w.nodes[x].v, w.nodes[q].v)
  }

  ghost predicate Walking(g: Graph, w: Walk) {
    && Valid(g)
    && Structured(g, w)
    && (forall x: nat :: x in w.open ==> Counted(g, w.nodes[x], w.Done(x), x in w.on))
    && (forall x: nat :: x in w.open ==> Spoken(g, w.nodes[x].v, w.nodes[x].s, w.acc[x]))
    && (forall x: nat :: x in w.open ==> AllCovered(g, w, x))
    && (forall x: nat :: x in w.open ==> Lowest(g, w, x))
    && ReachedDown(g, w)
    && ReachedUp(g, w)
    && (w.pending ==> w.nodes[w.top].next > 0)
  }

  /** What the top of the path consumed last. */
  ghost function Pending(g: Graph, w: Walk): nat
    requires Walking(g, w) && w.pending
  {
    g.kids[w.nodes[w.top].v][w.nodes[w.top].next - 1]
  }

  lemma PendingEdge(g: Graph, w: Walk)
    requires Walking(g, w) && w.pending
    ensures Edge(g.kids, w.nodes[w.top].v, Pending(g, w)) && Pending(g, w) < |g.own|
  {
    assert Counted(g, w.nodes[w.top], w.Done(w.top), true);
  }

  ghost function Entered(g: Graph, w: Walk, k: nat): Walk
    requires k < |g.own| == |g.kids|
  {
    var t := |w.nodes|;
    Walk(w.nodes + [Node(k, OwnShape(g.own[k]), g.kids[k], 0, 0, t)], w.byNode[k := t], w.acc + [{k}],
         w.on + {t}, w.open + {t}, t, false)
  }

  const NOTHING := Walk([], map[], [], {}, {}, 0, false)

  lemma OwnSpoken(g: Graph, k: nat)
    requires Valid(g) && k < |g.own|
    ensures Spoken(g, k, OwnShape(g.own[k]), {k})
  {
    OwnSays(g, k);
    FromFacts(g.kids, k);
  }

  lemma StartWalking(g: Graph, v: nat)
    requires Valid(g) && v < |g.own|
    ensures Walking(g, Entered(g, NOTHING, v))
  {
    hide Says, Reaches, From, Declares;
    var w := Entered(g, NOTHING, v);
    assert Structured(g, w);
    OwnSpoken(g, v);
    ReachesSelf(g.kids, v);
    assert g.kids[v][..0] == [] && w.nodes[0].kids[..0] == [];
  }

  function Append(n: Node, k: nat): Node
    requires n.kept < |n.kids|
  {
    n.(kids := n.kids[n.kept := k], kept := n.kept + 1)
  }

  /** a is a later state that has the nodes and stacks of w, the path perhaps shorter, each low perhaps lower. */
  ghost predicate After(w: Walk, a: Walk) {
    && |w.nodes| == |w.acc| == |a.nodes| == |a.acc|
    && a.byNode == w.byNode && a.open == w.open && a.on <= w.on
    && forall x :: 0 <= x < |w.nodes| ==>
         a.nodes[x].v == w.nodes[x].v && a.nodes[x].low <= w.nodes[x].low && w.acc[x] <= a.acc[x]
  }

  /** Coverage carries over, given it for the one kid newly accounted for, if any. */
  lemma KeepCovered(g: Graph, w: Walk, a: Walk, x: nat)
    requires After(w, a) && x < |w.nodes| && w.nodes[x].v < |g.kids| && AllCovered(g, w, x)
    requires w.Done(x) < a.Done(x) <= |g.kids[w.nodes[x].v]| ==>
               a.Done(x) == w.Done(x) + 1 && 0 <= w.Done(x) && Covered(a, x, g.kids[w.nodes[x].v][w.Done(x)])
    requires w.Done(x) < a.Done(x) ==> a.Done(x) <= |g.kids[w.nodes[x].v]|
    ensures AllCovered(g, a, x)
  {
    var ks := g.kids[w.nodes[x].v];
    forall j | 0 <= j < a.Done(x) && j < |ks|
      ensures Covered(a, x, ks[j])
    {
      if j < w.Done(x) {
        assert Covered(w, x, ks[j]);
      }
    }
  }

  lemma KeepLowest(g: Graph, w: Walk, a: Walk, x: nat)
    requires Structured(g, w) && Structured(g, a) && After(w, a) && a.on == w.on && x in w.open && Lowest(g, w, x)
    requires a.nodes[x].low == w.nodes[x].low
    ensures Lowest(g, a, x)
  {
    hide Reaches;
  }

  lemma KeepReached(g: Graph, w: Walk, a: Walk)
    requires Structured(g, w) && Structured(g, a) && After(w, a) && a.on == w.on && ReachedDown(g, w) && ReachedUp(g, w)
    ensures ReachedDown(g, a) && ReachedUp(g, a)
  {
    hide Reaches;
  }

  lemma KeepConnected(g: Graph, w: Walk, a: Walk)
    requires Structured(g, w) && Structured(g, a) && After(w, a) && a.on == w.on
    requires ReachedDown(g, w) && ReachedUp(g, w) && forall x: nat :: x in w.open ==> Lowest(g, w, x)
    requires forall x: nat :: x in a.open ==> a.nodes[x].low == w.nodes[x].low || Lowest(g, a, x)
    ensures ReachedDown(g, a) && ReachedUp(g, a) && forall x: nat :: x in a.open ==> Lowest(g, a, x)
  {
    hide Reaches, Owner, Lowest, ReachedDown, ReachedUp;
    KeepReached(g, w, a);
    forall x: nat | x in a.open
      ensures Lowest(g, a, x)
    {
      if a.nodes[x].low == w.nodes[x].low {
        KeepLowest(g, w, a, x);
      }
    }
  }

  // The top of the path consumes the next schema it names.

  function Consume(n: Node): Node {
    n.(next := n.next + 1)
  }

  ghost function Advanced(w: Walk): Walk
    requires w.top < |w.nodes|
  {
    w.(nodes := w.nodes[w.top := Consume(w.nodes[w.top])], pending := true)
  }

  lemma AdvanceWalking(g: Graph, w: Walk)
    requires Walking(g, w) && !w.pending && w.nodes[w.top].next < |g.kids[w.nodes[w.top].v]|
    ensures Walking(g, Advanced(w))
    ensures Pending(g, Advanced(w)) == w.nodes[w.top].kids[w.nodes[w.top].next]
  {
    hide Reaches, Declaring, Declares, AllCovered, Lowest, Spoken, ReachedDown, ReachedUp;
    assert Structured(g, Advanced(w));
    KeepConnected(g, w, Advanced(w));
    forall x: nat | x in w.open
      ensures AllCovered(g, Advanced(w), x)
    {
      KeepCovered(g, w, Advanced(w), x);
    }
  }

  // What it consumed has a published shape.

  function Absorb(n: Node, k: nat, ks: Shape): Node
    requires n.kept < |n.kids|
  {
    var m := n.(s := Meet(n.s, ks));
    if ks.declares then Append(m, k) else m
  }

  ghost function Absorbed(g: Graph, w: Walk, k: nat, ks: Shape): Walk
    requires w.top < |w.nodes| == |w.acc| && w.nodes[w.top].kept < |w.nodes[w.top].kids|
  {
    w.(nodes := w.nodes[w.top := Absorb(w.nodes[w.top], k, ks)],
       acc := w.acc[w.top := w.acc[w.top] + From(g.kids, k)], pending := false)
  }

  lemma AbsorbSpoken(g: Graph, v: nat, s: Shape, acc: set<nat>, k: nat, ks: Shape)
    requires Valid(g) && Edge(g.kids, v, k) && Spoken(g, v, s, acc) && Right(g, k, ks)
    ensures Spoken(g, v, Meet(s, ks), acc + From(g.kids, k))
  {
    hide Says;
    MeetSays(g, s, acc, ks, From(g.kids, k));
    ReachesSelf(g.kids, v);
    ReachesEdge(g.kids, v, v, k);
    FromSubset(g.kids, v, k);
    FromFacts(g.kids, k);
  }

  lemma AppendCounted(g: Graph, n: Node, done: int)
    requires Counted(g, n, done, true) && 0 <= done < n.next
    requires Declares(g, n.v) ==> Declares(g, g.kids[n.v][done])
    ensures Counted(g, Append(n, g.kids[n.v][done]), done + 1, true)
  {
    hide Declares;
    var ks, m := g.kids[n.v], Append(n, g.kids[n.v][done]);
    assert ks[..done + 1][..done] == ks[..done];
    assert m.kids[..m.kept] == n.kids[..n.kept] + [ks[done]];
  }

  lemma SkipCounted(g: Graph, n: Node, done: int)
    requires Counted(g, n, done, true) && 0 <= done < n.next && !Declares(g, g.kids[n.v][done])
    ensures Counted(g, n, done + 1, true)
  {
    hide Declares;
    var ks := g.kids[n.v];
    assert ks[..done + 1][..done] == ks[..done];
  }

  lemma AbsorbLocal(g: Graph, n: Node, done: int, acc: set<nat>, k: nat, ks: Shape)
    requires Valid(g) && Counted(g, n, done, true) && Spoken(g, n.v, n.s, acc)
    requires 0 <= done < n.next && k == g.kids[n.v][done] && Right(g, k, ks)
    ensures var m := Absorb(n, k, ks);
      Counted(g, m, done + 1, true) && Spoken(g, n.v, m.s, acc + From(g.kids, k))
  {
    hide Reaches, Declaring, Says;
    AbsorbSpoken(g, n.v, n.s, acc, k, ks);
    RightDeclares(g, k, ks);
    if ks.declares {
      AppendCounted(g, n.(s := Meet(n.s, ks)), done);
    } else {
      SkipCounted(g, n.(s := Meet(n.s, ks)), done);
    }
  }

  lemma AbsorbWalking(g: Graph, w: Walk, k: nat, ks: Shape)
    requires Walking(g, w) && w.pending && k == Pending(g, w) && Right(g, k, ks)
    requires w.top < |w.nodes| == |w.acc| && w.nodes[w.top].kept < |w.nodes[w.top].kids|
    ensures Walking(g, Absorbed(g, w, k, ks))
  {
    hide Reaches, Declaring, Lowest, Spoken, ReachedDown, ReachedUp, AllCovered, Right;
    var a, t := Absorbed(g, w, k, ks), w.top;
    assert Structured(g, a);
    KeepConnected(g, w, a);
    AbsorbLocal(g, w.nodes[t], w.Done(t), w.acc[t], k, ks);
    PendingEdge(g, w);
    FromFacts(g.kids, k);
    forall x: nat | x in w.open
      ensures AllCovered(g, a, x)
    {
      KeepCovered(g, w, a, x);
    }
  }

  // What it consumed is open: it leads back, so both say the same.

  lemma OpenReachesTop(g: Graph, w: Walk, m: nat)
    requires Structured(g, w) && ReachedDown(g, w) && ReachedUp(g, w) && m in w.open
    ensures Reaches(g.kids, w.nodes[m].v, w.nodes[w.top].v)
  {
    hide Reaches;
    OwnerExists(w.on, m);
    var q: nat :| Owner(w.on, q, m);
    ReachesTrans(g.kids, w.nodes[m].v, w.nodes[q].v, w.nodes[w.top].v);
  }

  lemma SameDeclares(g: Graph, u: nat, v: nat)
    requires Reaches(g.kids, u, v) && Reaches(g.kids, v, u)
    ensures Declares(g, u) == Declares(g, v)
  {
    FromEqual(g.kids, u, v);
  }

  function Lower(n: Node, low: nat): Node {
    n.(low := if low < n.low then low else n.low)
  }

  ghost function Taken(w: Walk, k: nat, m: nat): Walk
    requires w.top < |w.nodes| && w.nodes[w.top].kept < |w.nodes[w.top].kids|
  {
    w.(nodes := w.nodes[w.top := Lower(Append(w.nodes[w.top], k), m)], pending := false)
  }

  lemma TakeCounted(g: Graph, w: Walk, n: Node, done: int, m: nat)
    requires Structured(g, w) && ReachedDown(g, w) && ReachedUp(g, w) && n.v == w.nodes[w.top].v
    requires Counted(g, n, done, true) && 0 <= done < n.next
    requires m in w.open && g.kids[n.v][done] == w.nodes[m].v
    ensures Counted(g, Lower(Append(n, g.kids[n.v][done]), m), done + 1, true)
  {
    hide Reaches, Declaring, Declares, ReachedDown, ReachedUp;
    OpenReachesTop(g, w, m);
    ReachesSelf(g.kids, n.v);
    ReachesEdge(g.kids, n.v, n.v, g.kids[n.v][done]);
    SameDeclares(g, n.v, g.kids[n.v][done]);
    AppendCounted(g, n, done);
  }

  lemma TakeLowest(g: Graph, w: Walk, a: Walk, m: nat)
    requires Structured(g, w) && Structured(g, a) && After(w, a) && a.on == w.on && a.top == w.top
    requires Lowest(g, w, w.top) && m in w.open && Edge(g.kids, w.nodes[w.top].v, w.nodes[m].v)
    requires a.nodes[a.top].low == (if m < w.nodes[w.top].low then m else w.nodes[w.top].low)
    ensures Lowest(g, a, a.top)
  {
    hide Reaches;
    ReachesSelf(g.kids, w.nodes[w.top].v);
    ReachesEdge(g.kids, w.nodes[w.top].v, w.nodes[w.top].v, w.nodes[m].v);
  }

  lemma TakeWalking(g: Graph, w: Walk, k: nat, m: nat)
    requires Walking(g, w) && w.pending && k == Pending(g, w) && k in w.byNode && m == w.byNode[k] && m in w.open
    requires w.top < |w.nodes| && w.nodes[w.top].kept < |w.nodes[w.top].kids|
    ensures Walking(g, Taken(w, k, m))
  {
    hide Reaches, Declaring, Declares, Lowest, Spoken, ReachedDown, ReachedUp, AllCovered;
    var a, t := Taken(w, k, m), w.top;
    assert Structured(g, a);
    PendingEdge(g, w);
    TakeCounted(g, w, w.nodes[t], w.Done(t), m);
    TakeLowest(g, w, a, m);
    KeepConnected(g, w, a);
    forall x: nat | x in w.open
      ensures AllCovered(g, a, x)
    {
      KeepCovered(g, w, a, x);
    }
  }

  // What it consumed is new, and entered.

  lemma EnterKeeps(g: Graph, w: Walk, k: nat, x: nat)
    requires Valid(g) && k < |g.own| && k !in w.byNode && w.pending
    requires Structured(g, w) && Structured(g, Entered(g, w, k)) && x in w.open
    requires AllCovered(g, w, x) && Lowest(g, w, x)
    ensures AllCovered(g, Entered(g, w, k), x) && Lowest(g, Entered(g, w, k), x)
  {
    hide Reaches;
    var e := Entered(g, w, k);
    assert e.Done(x) == w.Done(x);
    assert forall q: nat :: Owner(e.on, q, x) ==> Owner(w.on, q, x);
    var ks := g.kids[w.nodes[x].v];
    forall j | 0 <= j < e.Done(x) && j < |ks|
      ensures Covered(e, x, ks[j])
    {
      assert Covered(w, x, ks[j]);
    }
  }

  lemma EnterReached(g: Graph, w: Walk, k: nat)
    requires Valid(g) && k < |g.own|
    requires Structured(g, w) && Structured(g, Entered(g, w, k)) && ReachedDown(g, w) && ReachedUp(g, w)
    requires Edge(g.kids, w.nodes[w.top].v, k)
    ensures ReachedDown(g, Entered(g, w, k)) && ReachedUp(g, Entered(g, w, k))
  {
    hide Reaches;
    var e, t := Entered(g, w, k), |w.nodes|;
    ReachesSelf(g.kids, k);
    forall q: nat | q in w.on
      ensures Reaches(g.kids, w.nodes[q].v, k)
    {
      ReachesEdge(g.kids, w.nodes[q].v, w.nodes[w.top].v, k);
    }
    forall q: nat, x: nat | x in e.open && Owner(e.on, q, x)
      ensures Reaches(g.kids, e.nodes[x].v, e.nodes[q].v)
    {
      if x != t {
        assert Owner(w.on, q, x);
      }
    }
  }

  lemma EnterWalking(g: Graph, w: Walk, k: nat)
    requires Walking(g, w) && w.pending && k == Pending(g, w) && k < |g.own| && k !in w.byNode
    ensures Walking(g, Entered(g, w, k))
  {
    hide Reaches, Declares, Lowest, Spoken, ReachedDown, ReachedUp, AllCovered;
    assert Structured(g, Entered(g, w, k));
    PendingEdge(g, w);
    EnterReached(g, w, k);
    OwnSpoken(g, k);
    EnterTop(g, w, k);
    forall x: nat | x in w.open
      ensures AllCovered(g, Entered(g, w, k), x) && Lowest(g, Entered(g, w, k), x)
    {
      EnterKeeps(g, w, k, x);
    }
  }

  lemma EnterTop(g: Graph, w: Walk, k: nat)
    requires Valid(g) && k < |g.own| && Structured(g, Entered(g, w, k))
    ensures var e, t := Entered(g, w, k), |w.nodes|;
      AllCovered(g, e, t) && Lowest(g, e, t) && Counted(g, e.nodes[t], e.Done(t), true)
  {
    hide Reaches, Declares;
    ReachesSelf(g.kids, k);
    assert g.kids[k][..0] == [];
  }
}
