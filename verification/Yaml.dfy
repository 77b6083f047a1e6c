/** YAML documents as JSON, each alias the value of the node it names, and what of a value a copy elsewhere keeps. */
module Yaml {
  import opened Wrappers
  import opened Ascii
  import opened JsonText
  import opened JsonPrint

  /** A node: a scalar, plain as a JSON scalar but a string, or as the string it spells; a sequence or a mapping, whose
      entries are keyed; or an alias of another node, off its number. */
  datatype Node =
    | Scalar(id: nat, spelled: Bytes, plain: Option<Bytes>)
    | Collection(id: nat, keyed: bool, entries: seq<Entry>)
    | Alias(to: nat)
  datatype Entry = Entry(key: Key, spelled: Bytes, value: Node)

  /** A key: none, in a sequence; the scalar spelled; an alias; or what cannot be one. */
  datatype Key = NoKey | Spelled | AliasKey(to: nat) | OtherKey

  /** How strings are written and read: quote writes one, decode reads it, and marks tells of one that it may be written
      with an escape. */
  datatype Strings = Strings(quote: Bytes -> Bytes, decode: Bytes -> Bytes, marks: Bytes -> bool)

  ghost predicate Sound(q: Strings) {
    && (forall s :: Quoted(q.quote(s)) && q.decode(q.quote(s)) == s)
    && (forall s :: !q.marks(s) ==> !Inside(q.quote(s), 1).value.1)
  }

  // What a document means.

  /** The nodes of a document aliases may name, by number. */
  type Nodes = map<nat, Node>

  function KeyText(e: Entry, nodes: Nodes): Option<Bytes> {
    match e.key
    case Spelled => Some(e.spelled)
    case AliasKey(to) => if to in nodes && nodes[to].Scalar? then Some(nodes[to].spelled) else None
    case _ => None
  }

  function ScalarValue(q: Strings, n: Node): Json
    requires n.Scalar?
  {
    Json.Scalar(if n.plain.Some? then n.plain.value else q.quote(n.spelled))
  }

  /** The value of a node, known being those of the nodes written before, and those known then: an alias is what the
      node it names is, if that is written, or a scalar; inside the node it names, it is nothing. */
  function Meaning(q: Strings, nodes: Nodes, n: Node, known: map<nat, Json>): Option<(Json, map<nat, Json>)>
    decreases n
  {
    match n
    case Scalar(id, _, _) => Some((ScalarValue(q, n), known[id := ScalarValue(q, n)]))
    case Collection(id, keyed, entries) =>
      var r := MeaningAll(q, nodes, entries, keyed, {}, known);
      if r.Some? then Some((Container(keyed, r.value.0), r.value.1[id := Container(keyed, r.value.0)])) else None
    case Alias(to) =>
      if to in known then Some((known[to], known))
      else if to in nodes && nodes[to].Scalar? then
        Some((ScalarValue(q, nodes[to]), known[nodes[to].id := ScalarValue(q, nodes[to])]))
      else None
  }

  function MeaningAll(q: Strings, nodes: Nodes, es: seq<Entry>, keyed: bool, names: set<Bytes>, 
      known: map<nat, Json>): Option<(seq<Member>, map<nat, Json>)>
    decreases es
  {
    if es == [] then Some(([], known))
    else
      var key := if keyed then KeyText(es[0], nodes) else Some([]);
      if key.None? || (keyed && key.value in names) then None
      else
        var v := Meaning(q, nodes, es[0].value, known);
        if v.None? then None
        else
          var r := MeaningAll(q, nodes, es[1..], keyed, names + {key.value}, v.value.1);
          if r.None? then None
          else Some(([Member(if keyed then q.quote(key.value) else [], v.value.0)] + r.value.0, r.value.1))
  }

  // What is kept of a value printed at i, its node at at.

  /** The strings that may be written with an escape. */
  function Marks(q: Strings, v: Json, i: nat): seq<nat>
    decreases v
  {
    match v
    case Scalar(text) => if text != [] && text[0] == QUOTE && q.marks(q.decode(text)) then [i] else []
    case Container(keyed, members) => MarksAll(q, members, i + 1, keyed)
  }

  /** Those of a member. */
  function MarksOf(q: Strings, m: Member, i: nat, keyed: bool): seq<nat>
    decreases m
  {
    (if keyed && q.marks(q.decode(m.name)) then [i] else []) + Marks(q, m.value, i + NameLength(m, keyed))
  }

  /** How much of a printed member and the byte after it is. */
  function MemberLength(m: Member, keyed: bool): nat {
    NameLength(m, keyed) + |Print(m.value)| + 1
  }

  function MarksAll(q: Strings, ms: seq<Member>, i: nat, keyed: bool): seq<nat>
    decreases ms
  {
    if ms == [] then [] else MarksOf(q, ms[0], i, keyed) + MarksAll(q, ms[1..], i + MemberLength(ms[0], keyed), keyed)
  }

  function Count(v: Json): (n: nat)
    ensures n > 0
    decreases v
  {
    if v.Container? then 1 + CountAll(v.members) else 1
  }

  function CountAll(ms: seq<Member>): nat
    decreases ms
  {
    if ms == [] then 0 else Count(ms[0].value) + CountAll(ms[1..])
  }

  predicate IsRef(q: Strings, m: Member) {
    q.decode(m.name) == REF && m.value.Scalar? && m.value.text != [] && m.value.text[0] == QUOTE
  }

  predicate BigRef(q: Strings, v: Json) {
    v.Container? && v.keyed && |v.members| > 16 && exists k :: 0 <= k < |v.members| && IsRef(q, v.members[k])
  }

  /** The objects of many members with a string $ref, each after those under it. */
  function Bigs(q: Strings, v: Json, at: nat): seq<nat>
    decreases v
  {
    (if v.Container? then BigsAll(q, v.members, at + 1) else []) + (if BigRef(q, v) then [at] else [])
  }

  function BigsAll(q: Strings, ms: seq<Member>, at: nat): seq<nat>
    decreases ms
  {
    if ms == [] then [] else Bigs(q, ms[0].value, at) + BigsAll(q, ms[1..], at + Count(ms[0].value))
  }

  // A copy elsewhere.

  function Shift(n: JsonText.Node, off: nat, to: nat): JsonText.Node {
    JsonText.Node(n.start + off, n.next + to, if n.name != 0 then n.name + off else 0)
  }

  function ShiftAll(ns: seq<JsonText.Node>, off: nat, to: nat): (rs: seq<JsonText.Node>)
    ensures |rs| == |ns|
  {
    seq(|ns|, k requires 0 <= k < |ns| => Shift(ns[k], off, to))
  }

  function Add(xs: seq<nat>, off: nat): (ys: seq<nat>)
    ensures |ys| == |xs|
  {
    seq(|xs|, k requires 0 <= k < |xs| => xs[k] + off)
  }

  lemma AddJoin(a: seq<nat>, b: seq<nat>, off: nat)
    ensures Add(a + b, off) == Add(a, off) + Add(b, off)
  {
  }

  lemma ShiftJoin(a: seq<JsonText.Node>, b: seq<JsonText.Node>, off: nat, to: nat)
    ensures ShiftAll(a + b, off, to) == ShiftAll(a, off, to) + ShiftAll(b, off, to)
  {
  }

  lemma {:induction false} SizeCount(v: Json, i: nat, name: nat)
    ensures Size(TreeOf(v, i, name)) == Count(v)
    decreases v
  {
    hide Print;
    if v.Container? {
      SizeCountAll(v.members, i + 1, v.keyed);
    } else {
      assert SizeAll([]) == 0;
    }
  }

  lemma {:induction false} SizeCountAll(ms: seq<Member>, i: nat, keyed: bool)
    ensures SizeAll(TreeOfAll(ms, i, keyed)) == CountAll(ms)
    decreases ms
  {
    hide Print, TreeOf, Size, Count;
    if ms != [] {
      var j := i + NameLength(ms[0], keyed);
      SizeCount(ms[0].value, j, if keyed then i else 0);
      SizeCountAll(ms[1..], j + |Print(ms[0].value)| + 1, keyed);
      assert TreeOfAll(ms, i, keyed)[1..] == TreeOfAll(ms[1..], j + |Print(ms[0].value)| + 1, keyed);
    }
  }

  /** The nodes of a value are those of it elsewhere, moved. */
  lemma {:induction false} NodesMove(v: Json, i: nat, name: nat, at: nat, off: nat, to: nat)
    ensures ShiftAll(Flatten(TreeOf(v, i, name), at), off, to) ==
      Flatten(TreeOf(v, i + off, if name != 0 then name + off else 0), at + to)
    decreases v
  {
    hide Print, FlattenAll, TreeOfAll, Size;
    var t, u := TreeOf(v, i, name), TreeOf(v, i + off, if name != 0 then name + off else 0);
    SizeCount(v, i, name);
    SizeCount(v, i + off, if name != 0 then name + off else 0);
    ShiftJoin([JsonText.Node(t.start, at + Size(t), t.name)], FlattenAll(t.kids, at + 1), off, to);
    if v.Container? {
      NodesMoveAll(v.members, i + 1, v.keyed, at + 1, off, to);
    } else {
      NoNodes(at + 1);
      NoNodes(at + 1 + to);
    }
  }

  lemma NoNodes(at: nat)
    ensures FlattenAll([], at) == []
  {
  }

  lemma NodesJoin(t: Tree, ts: seq<Tree>, at: nat, off: nat, to: nat)
    ensures FlattenAll([t] + ts, at) == Flatten(t, at) + FlattenAll(ts, at + Size(t))
    ensures ShiftAll(FlattenAll([t] + ts, at), off, to) ==
      ShiftAll(Flatten(t, at), off, to) + ShiftAll(FlattenAll(ts, at + Size(t)), off, to)
  {
    hide Flatten, Size, ShiftAll;
    assert ([t] + ts)[1..] == ts;
    ShiftJoin(Flatten(t, at), FlattenAll(ts, at + Size(t)), off, to);
  }

  lemma {:induction false} NodesMoveAll(ms: seq<Member>, i: nat, keyed: bool, at: nat, off: nat, to: nat)
    requires i > 0
    ensures ShiftAll(FlattenAll(TreeOfAll(ms, i, keyed), at), off, to) ==
      FlattenAll(TreeOfAll(ms, i + off, keyed), at + to)
    decreases ms
  {
    hide Print, TreeOf, Flatten, FlattenAll, Size, ShiftAll;
    if ms == [] {
      NoNodes(at);
      NoNodes(at + to);
    } else {
      var j := i + NameLength(ms[0], keyed);
      var next := j + |Print(ms[0].value)| + 1;
      var name := if keyed then i else 0;
      var moved := if name != 0 then name + off else 0;
      SizeCount(ms[0].value, j, name);
      SizeCount(ms[0].value, j + off, moved);
      NodesMove(ms[0].value, j, name, at, off, to);
      NodesMoveAll(ms[1..], next, keyed, at + Count(ms[0].value), off, to);
      NodesJoin(TreeOf(ms[0].value, j, name), TreeOfAll(ms[1..], next, keyed), at, off, to);
      NodesJoin(TreeOf(ms[0].value, j + off, moved), TreeOfAll(ms[1..], next + off, keyed), at + to, 0, 0);
    }
  }

  lemma {:induction false} MarksMove(q: Strings, v: Json, i: nat, off: nat)
    ensures Marks(q, v, i + off) == Add(Marks(q, v, i), off)
    decreases v
  {
    hide Print;
    if v.Container? {
      MarksMoveAll(q, v.members, i + 1, v.keyed, off);
    }
  }

  lemma {:induction false} MarksMoveAll(q: Strings, ms: seq<Member>, i: nat, keyed: bool, off: nat)
    ensures MarksAll(q, ms, i + off, keyed) == Add(MarksAll(q, ms, i, keyed), off)
    decreases ms
  {
    hide MemberLength, Marks;
    if ms != [] {
      var next := i + MemberLength(ms[0], keyed);
      MarksMove(q, ms[0].value, i + NameLength(ms[0], keyed), off);
      MarksMoveAll(q, ms[1..], next, keyed, off);
      AddJoin(MarksOf(q, ms[0], i, keyed), MarksAll(q, ms[1..], next, keyed), off);
      AddJoin(if keyed && q.marks(q.decode(ms[0].name)) then [i] else [],
        Marks(q, ms[0].value, i + NameLength(ms[0], keyed)), off);
    }
  }

  lemma {:induction false} BigsMove(q: Strings, v: Json, at: nat, to: nat)
    ensures Bigs(q, v, at + to) == Add(Bigs(q, v, at), to)
    decreases v
  {
    hide BigRef;
    if v.Container? {
      BigsMoveAll(q, v.members, at + 1, to);
      AddJoin(BigsAll(q, v.members, at + 1), if BigRef(q, v) then [at] else [], to);
    }
  }

  lemma {:induction false} BigsMoveAll(q: Strings, ms: seq<Member>, at: nat, to: nat)
    ensures BigsAll(q, ms, at + to) == Add(BigsAll(q, ms, at), to)
    decreases ms
  {
    hide Bigs, Count;
    if ms != [] {
      BigsMove(q, ms[0].value, at, to);
      BigsMoveAll(q, ms[1..], at + Count(ms[0].value), to);
      AddJoin(Bigs(q, ms[0].value, at), BigsAll(q, ms[1..], at + Count(ms[0].value)), to);
    }
  }
}
