/** A YAML document as a JSON text and its nodes: those that reading the text gives. */
module YamlTree {
  import opened Wrappers
  import opened Ascii
  import opened JsonText
  import opened JsonOrder
  import opened JsonPrint
  import opened Yaml
  import opened YamlBounds
  import opened YamlOutput
  import opened YamlWriter
  import JsonScan
  import opened JsonRefs
  import Sequences
  import YamlRefs
  import opened YamlAliases
  import opened YamlReadings
  import opened JsonTree

  /** Each string is written as quote writes it. */
  predicate SpeltAlike(q: Strings, v: Json)
    decreases v
  {
    match v
    case Scalar(text) => text != [] && text[0] == QUOTE ==> text == q.quote(q.decode(text))
    case Container(keyed, members) => AllSpeltAlike(q, members, keyed)
  }

  predicate AllSpeltAlike(q: Strings, ms: seq<Member>, keyed: bool)
    decreases ms
  {
    ms != [] ==>
      && SpeltAlike(q, ms[0].value) && (keyed ==> ms[0].name == q.quote(q.decode(ms[0].name)))
      && AllSpeltAlike(q, ms[1..], keyed)
  }

  ghost predicate AllGood(q: Strings, known: map<nat, Json>) {
    forall id :: id in known ==> Well(q.decode, known[id]) && SpeltAlike(q, known[id])
  }

  lemma ScalarGood(q: Strings, n: Yaml.Node)
    requires Sound(q) && n.Scalar? && Proper(n)
    ensures Well(q.decode, ScalarValue(q, n)) && SpeltAlike(q, ScalarValue(q, n))
  {
    if n.plain.None? {
      QuoteBack(q, n.spelled);
    }
  }

  /** What a node means is JSON. */
  lemma {:induction false} MeaningGood(q: Strings, nodes: Nodes, n: Yaml.Node, known: map<nat, Json>)
    requires Sound(q) && Numbered(nodes) && Proper(n) && AllGood(q, known) && Meaning(q, nodes, n, known).Some?
    ensures var m := Meaning(q, nodes, n, known).value; Well(q.decode, m.0) && SpeltAlike(q, m.0) && AllGood(q, m.1)
    decreases n
  {
    hide Sound, ScalarValue, MeaningAll, WellAll, AllSpeltAlike;
    match n
    case Scalar(_, _, _) =>
      ScalarGood(q, n);
    case Alias(to) =>
      if to !in known {
        ScalarGood(q, nodes[to]);
      }
    case Collection(id, keyed, entries) =>
      MembersGood(q, nodes, entries, keyed, {}, known);
  }

  lemma {:induction false} MembersGood(q: Strings, nodes: Nodes, es: seq<Entry>, keyed: bool, keys: set<Bytes>,
      known: map<nat, Json>)
    requires Sound(q) && Numbered(nodes) && ProperAll(es) && AllGood(q, known) &&
      MeaningAll(q, nodes, es, keyed, keys, known).Some?
    ensures var m := MeaningAll(q, nodes, es, keyed, keys, known).value;
      && AllSpeltAlike(q, m.0, keyed) && AllGood(q, m.1)
      && (if keyed then WellAll(q.decode, m.0, true, keys) else WellAll(q.decode, m.0, false, {}))
    decreases es
  {
    hide Sound, Meaning, Well, SpeltAlike, AllGood, Quoted;
    if es != [] {
      var key := if keyed then KeyText(es[0], nodes) else Option.Some([]);
      MeaningGood(q, nodes, es[0].value, known);
      var v := Meaning(q, nodes, es[0].value, known).value;
      QuoteBack(q, key.value);
      MembersGood(q, nodes, es[1..], keyed, keys + {key.value}, v.1);
      var r := MeaningAll(q, nodes, es[1..], keyed, keys + {key.value}, v.1).value;
      var m := Member(if keyed then q.quote(key.value) else [], v.0);
      assert ([m] + r.0)[1..] == r.0;
    }
  }

  // The strings recorded cover those written with an escape.

  lemma NameMarked(q: Strings, s: Bytes, d: nat, name: Bytes)
    requires Sound(q) && Has(s, d, name) && Quoted(name) && name == q.quote(q.decode(name)) && Escaped(s, d)
    ensures q.marks(q.decode(name))
  {
    InsideShift(name, s, d, 1);
  }

  lemma {:induction false} EscapesMarked(q: Strings, s: Bytes, v: Json, i: nat, name: nat)
    requires Sound(q) && Well(q.decode, v) && SpeltAlike(q, v) && Has(s, i, Print(v))
    ensures forall e :: e in Escapes(s, TreeOf(v, i, name)) ==> e in Marks(q, v, i)
    decreases v
  {
    hide Sound, Escaped, Inside, PrintAll, EscapesAll, MarksAll, TreeOfAll, WellAll, AllSpeltAlike;
    PrintStarts(q.decode, v);
    HasByte(s, i, Print(v), 0);
    match v
    case Scalar(text) =>
      if text[0] == QUOTE && Escaped(s, i) {
        QuotedScalar(text);
        NameMarked(q, s, i, text);
      }
    case Container(keyed, members) =>
      var open := [if keyed then OBJECT else ARRAY];
      assert s[i] == open[0];
      if members == [] {
        NothingEscapes(s, i + 1, keyed);
      } else {
        assert Print(v) == open + PrintAll(members, keyed);
        HasParts(s, i, open, PrintAll(members, keyed));
        MembersMarked(q, s, members, keyed, i + 1, {});
      }
  }

  lemma NothingEscapes(s: Bytes, i: nat, keyed: bool)
    ensures EscapesAll(s, TreeOfAll([], i, keyed), keyed) == []
  {
  }

  lemma QuotedScalar(text: Bytes)
    requires text != [] && text[0] == QUOTE && ScalarEnd(text, 0) == Option.Some(|text|)
    ensures Quoted(text)
  {
  }

  lemma {:induction false} MemberMarked(q: Strings, s: Bytes, m: Member, keyed: bool, i: nat, more: Bytes)
    requires Sound(q) && Well(q.decode, m.value) && SpeltAlike(q, m.value)
    requires keyed ==> Quoted(m.name) && m.name == q.quote(q.decode(m.name))
    requires Has(s, i, (if keyed then m.name + [COLON] else []) + (Print(m.value) + more))
    ensures var t := TreeOf(m.value, i + NameLength(m, keyed), if keyed then i else 0);
      && (forall e :: e in Escapes(s, t) ==> e in MarksOf(q, m, i, keyed))
      && (keyed ==> forall e :: e in Noted(s, i) ==> e in MarksOf(q, m, i, keyed))
    ensures Has(s, i + NameLength(m, keyed) + |Print(m.value)|, more)
    decreases m
  {
    hide Sound, Escaped, Print, Escapes, Marks, TreeOf, Well, SpeltAlike, Quoted;
    var name := if keyed then m.name + [COLON] else [];
    var j := i + NameLength(m, keyed);
    HasParts(s, i, name, Print(m.value) + more);
    HasParts(s, j, Print(m.value), more);
    EscapesMarked(q, s, m.value, j, if keyed then i else 0);
    if keyed && Escaped(s, i) {
      HasParts(s, i, m.name, [COLON]);
      NameMarked(q, s, i, m.name);
    }
  }

  lemma {:induction false} MembersMarked(q: Strings, s: Bytes, ms: seq<Member>, keyed: bool, i: nat, names: set<Bytes>)
    requires ms != [] && Sound(q) && WellAll(q.decode, ms, keyed, names) && AllSpeltAlike(q, ms, keyed) &&
      Has(s, i, PrintAll(ms, keyed))
    ensures forall e :: e in EscapesAll(s, TreeOfAll(ms, i, keyed), keyed) ==> e in MarksAll(q, ms, i, keyed)
    decreases ms
  {
    hide Sound, Noted, Print, Escapes, MarksOf, TreeOf, Well, SpeltAlike, PrintAll, After, Quoted, WellAll, Has;
    var m := ms[0];
    WellCons(q.decode, ms, keyed, names);
    PrintCons(ms, keyed);
    MemberMarked(q, s, m, keyed, i, After(ms, keyed));
    var t := TreeOf(m.value, i + NameLength(m, keyed), if keyed then i else 0);
    TreeName(m.value, i + NameLength(m, keyed), if keyed then i else 0);
    var next := i + MemberLength(m, keyed);
    var rest := TreeOfAll(ms[1..], next, keyed);
    if |ms| > 1 {
      AfterMore(ms, keyed);
      HasParts(s, next - 1, [COMMA], PrintAll(ms[1..], keyed));
      MembersMarked(q, s, ms[1..], keyed, next, if keyed then names + {q.decode(m.name)} else names);
    }
    assert TreeOfAll(ms, i, keyed) == [t] + rest;
    JsonScan.EscapesCons(s, t, rest, keyed);
  }

  // The objects recorded are those of many members with a string $ref.

  /** The value that is the ith, from the value itself on. */
  function Part(v: Json, i: nat): Json
    requires i < Count(v)
    decreases v
  {
    if i == 0 then v else PartAll(v.members, i - 1)
  }

  function PartAll(ms: seq<Member>, i: nat): Json
    requires i < CountAll(ms)
    decreases ms
  {
    if i < Count(ms[0].value) then Part(ms[0].value, i) else PartAll(ms[1..], i - Count(ms[0].value))
  }

  lemma ScalarSmall(q: Strings, v: Json)
    requires v.Scalar?
    ensures !BigRef(q, v)
  {
  }

  lemma {:induction false} BigsExact(q: Strings, v: Json, at: nat, x: nat)
    ensures x in Bigs(q, v, at) <==> at <= x < at + Count(v) && BigRef(q, Part(v, x - at))
    decreases v
  {
    hide BigRef;
    if v.Container? {
      BigsAllExact(q, v.members, at + 1, x);
    } else {
      ScalarSmall(q, v);
    }
  }

  lemma {:induction false} BigsAllExact(q: Strings, ms: seq<Member>, at: nat, x: nat)
    ensures x in BigsAll(q, ms, at) <==> at <= x < at + CountAll(ms) && BigRef(q, PartAll(ms, x - at))
    decreases ms
  {
    hide BigRef, Bigs;
    if ms != [] {
      BigsExact(q, ms[0].value, at, x);
      BigsAllExact(q, ms[1..], at + Count(ms[0].value), x);
    }
  }

  // The document.

  const MOST_ADDED: nat := 1_000_000

  /** How many nodes and bytes the aliases of a document of size bytes may add. */
  function Bounds(root: Yaml.Node, size: nat): Extent {
    Extent(if 100 * Own(root) < MOST_ADDED then 100 * Own(root) else MOST_ADDED, 100 * size)
  }

  /** Writes a document as its JSON text and nodes, if it means something within the bounds. They are what the root
      means, which in a document of well placed aliases is the one value it denotes, and what reading the text gives;
      the strings recorded are in order, and all that are written with an escape; and the objects recorded are those of
      many members with a string $ref, as reading the text records them. */
  method Write(q: Strings, root: Yaml.Node, doc: Nodes, size: nat)
      returns (ok: bool, text: Bytes, nodes: seq<JsonText.Node>, escapes: seq<nat>, bigs: seq<nat>)
    requires Sound(q) && Numbered(doc) && Proper(root)
    ensures ok <==> Fits(q, doc, root, map[], 1, Bounds(root, size))
    ensures ok ==> var v := Meaning(q, doc, root, map[]).value.0;
      && text == Print(v) && Parse(text, q.decode) == Option.Some(TreeOf(v, 0, 0)) &&
         nodes == Flatten(TreeOf(v, 0, 0), 0)
      && Rising(escapes, 0, |text|) && (forall e :: e in Escapes(text, TreeOf(v, 0, 0)) ==> e in escapes)
      && (forall x: nat :: x in bigs <==> 0 <= x < Count(v) && BigRef(q, Part(v, x)))
      && bigs == BigObjects(text, q.decode, TreeOf(v, 0, 0), 0)
    ensures Targets(doc) && WellPlaced(doc, root, {}) ==> (ok <==> Accepted(q, doc, root, size))
    ensures ok && Targets(doc) && WellPlaced(doc, root, {}) ==> ReadsAs(q, doc, root, text, nodes)
  {
    hide Accepted, ReadsAs, Denotes, WellPlaced, BigObjects, Sound, Proper, Meaning, Print, TreeOf, Flatten, Marks,
      Bigs, Parse,
      Well, SpeltAlike, Escapes, Levels, Printable, Fits, Own;
    var bounds := Bounds(root, size);
    var w := new Writer(q, doc, Named1(root), bounds.nodes, bounds.bytes);
    var levels: nat;
    levels, ok := w.Value(root, 1, 0);
    text, nodes, escapes, bigs := w.text, w.nodes, w.escapes, w.bigRefs;
    if Targets(doc) && WellPlaced(doc, root, {}) {
      AcceptedFits(q, doc, root, bounds, size);
    }
    if ok {
      FitsMeans(q, doc, root, bounds);
      ghost var v := Meaning(q, doc, root, map[]).value.0;
      MeaningGood(q, doc, root, map[]);
      FromNothing(q, w.Now(), v);
      Read(q, v);
      if Targets(doc) && WellPlaced(doc, root, {}) {
        ReadAgrees(q, doc, root, size, v);
      }
    }
  }

  lemma FitsMeans(q: Strings, doc: Nodes, root: Yaml.Node, room: Extent)
    requires Fits(q, doc, root, map[], 1, room)
    ensures Meaning(q, doc, root, map[]).Some? && Levels(Meaning(q, doc, root, map[]).value.0) <= MAX_DEPTH
  {
    hide Meaning, Levels, Added;
  }

  /** The text is read as what the document says, which is nothing else, and its nodes are no more than a hundred and
      one times the document's own. */
  ghost predicate ReadsAs(q: Strings, doc: Nodes, root: Yaml.Node, text: Bytes, nodes: seq<JsonText.Node>) {
    var t := Parse(text, q.decode);
    && t.Some? && Lies(text, t.value) && Agrees(q.decode, doc, root, Back(text, t.value))
    && Denotes(q, doc, root, Back(text, t.value)) && (forall v :: Denotes(q, doc, root, v) ==> text == Print(v))
    && |nodes| <= 101 * Own(root)
  }

  lemma ReadAgrees(q: Strings, doc: Nodes, root: Yaml.Node, size: nat, v: Json)
    requires Sound(q) && Targets(doc) && WellPlaced(doc, root, {}) && Accepted(q, doc, root, size)
    requires Meaning(q, doc, root, map[]).Some? && v == Meaning(q, doc, root, map[]).value.0
    requires Well(q.decode, v) && Levels(v) <= MAX_DEPTH
    ensures ReadsAs(q, doc, root, Print(v), Flatten(TreeOf(v, 0, 0), 0))
  {
    hide Denotes, WellPlaced, Sound, Meaning, Print, TreeOf, Flatten, Parse, Well, Levels, Agrees, Lies, Back, Own,
      Adds;
    MeaningExact(q, doc, root);
    assert Denotes(q, doc, root, v);
    PrintReads(q.decode, v);
    DenotedAgrees(q, doc, root, v);
    OwnBounds(q, doc, root, v);
    SizeCount(v, 0, 0);
  }

  lemma FromNothing(q: Strings, o: Output, v: Json)
    requires o == Wrote(q, Output([], [], [], []), v, 0)
    ensures o == Output(Print(v), Flatten(TreeOf(v, 0, 0), 0), Marks(q, v, 0), Bigs(q, v, 0))
  {
    hide Print, Flatten, TreeOf, Marks, Bigs;
    Sequences.Nothing(Print(v));
    Sequences.Nothing(Flatten(TreeOf(v, 0, 0), 0));
    Sequences.Nothing(Marks(q, v, 0));
    Sequences.Nothing(Bigs(q, v, 0));
  }

  /** What was written of a value is what reading it gives. */
  lemma Read(q: Strings, v: Json)
    requires Sound(q) && Well(q.decode, v) && SpeltAlike(q, v) && Levels(v) <= MAX_DEPTH
    ensures Parse(Print(v), q.decode) == Option.Some(TreeOf(v, 0, 0))
    ensures forall e :: e in Escapes(Print(v), TreeOf(v, 0, 0)) ==> e in Marks(q, v, 0)
    ensures forall x: nat :: x in Bigs(q, v, 0) <==> 0 <= x < Count(v) && BigRef(q, Part(v, x))
    ensures BigObjects(Print(v), q.decode, TreeOf(v, 0, 0), 0) == Bigs(q, v, 0)
  {
    hide BigObjects, Sound, Print, TreeOf, Marks, Bigs, Parse, Well, SpeltAlike, Escapes, Levels, Part, BigRef;
    PrintReads(q.decode, v);
    var text := Print(v);
    assert text[0..|text|] == text;
    EscapesMarked(q, text, v, 0, 0);
    YamlRefs.BigsRead(q, text, v, 0, 0, 0);
    forall x: nat ensures x in Bigs(q, v, 0) <==> 0 <= x < Count(v) && BigRef(q, Part(v, x)) {
      BigsExact(q, v, 0, x);
    }
  }
}
