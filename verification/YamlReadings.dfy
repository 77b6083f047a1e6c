/** What the text written of a YAML document reads as, node by node, and what its aliases add. */
module YamlReadings {
  import opened Wrappers
  import opened Ascii
  import opened JsonText
  import opened JsonPrint
  import opened Yaml
  import opened YamlBounds
  import opened YamlAliases

  /** The value read agrees with the node: a plain scalar is there as it is, any other as a string that decodes to what
      it spells, entries one by one in order, each under its own key, and an alias as the node it names. */
  ghost predicate Agrees(decode: Bytes -> Bytes, doc: Nodes, n: Yaml.Node, v: Json)
    decreases v, if n.Alias? then 1 else 0
  {
    match n
    case Scalar(_, spelled, plain) =>
      v.Scalar? &&
        if plain.Some? then v.text == plain.value
        else v.text != [] && v.text[0] == QUOTE && decode(v.text) == spelled
    case Collection(_, keyed, entries) =>
      && v.Container? && v.keyed == keyed && |v.members| == |entries|
      && forall i :: 0 <= i < |v.members| ==>
           && Agrees(decode, doc, entries[i].value, v.members[i].value)
           && (keyed ==> Keys(doc, entries[i], decode(v.members[i].name)))
    case Alias(to) => to in doc && !doc[to].Alias? && Agrees(decode, doc, doc[to], v)
  }

  lemma {:induction false} DenotedAgrees(q: Strings, doc: Nodes, n: Yaml.Node, v: Json)
    requires Sound(q) && Denotes(q, doc, n, v)
    ensures Agrees(q.decode, doc, n, v)
    decreases v, if n.Alias? then 1 else 0
  {
    hide DenotesAll, Distinct, Keys;
    match n
    case Scalar(_, spelled, plain) =>
      if plain.None? {
        assert Quoted(q.quote(spelled));
      }
    case Collection(_, keyed, entries) =>
      MembersCorrespond(q, doc, entries, keyed, v.members);
      forall i | 0 <= i < |v.members|
        ensures Agrees(q.decode, doc, entries[i].value, v.members[i].value)
      {
        DenotedAgrees(q, doc, entries[i].value, v.members[i].value);
      }
    case Alias(to) => DenotedAgrees(q, doc, doc[to], v);
  }

  lemma {:induction false} MembersCorrespond(q: Strings, doc: Nodes, es: seq<Entry>, keyed: bool, ms: seq<Member>)
    requires Sound(q) && DenotesAll(q, doc, es, keyed, ms)
    ensures |es| == |ms|
    ensures forall i :: 0 <= i < |ms| ==>
      Denotes(q, doc, es[i].value, ms[i].value) && (keyed ==> Keys(doc, es[i], q.decode(ms[i].name)))
    decreases |ms|
  {
    hide Denotes, Keys;
    if ms != [] {
      MembersCorrespond(q, doc, es[1..], keyed, ms[1..]);
      assert forall i :: 0 < i < |ms| ==> es[i] == es[1..][i - 1] && ms[i] == ms[1..][i - 1];
    }
  }

  // What aliases add.

  /** How many nodes and bytes of the text of a value its aliases are: each, those of the value it stands for, and a
      key, one and those of the name it is. */
  function Adds(n: Yaml.Node, v: Json): (r: Extent)
    ensures Room(r)
    decreases n
  {
    match n
    case Scalar(_, _, _) => NONE
    case Alias(_) => Extent(Count(v), |Print(v)|)
    case Collection(_, keyed, entries) => if v.Container? then AddsAll(entries, keyed, v.members) else NONE
  }

  function AddsAll(es: seq<Entry>, keyed: bool, ms: seq<Member>): (r: Extent)
    ensures Room(r)
    decreases es
  {
    if es == [] || ms == [] then NONE
    else
      var name := if keyed && es[0].key.AliasKey? then Extent(1, |ms[0].name|) else NONE;
      Plus(Plus(name, Adds(es[0].value, ms[0].value)), AddsAll(es[1..], keyed, ms[1..]))
  }

  lemma {:induction false} AddedIs(q: Strings, doc: Nodes, n: Yaml.Node, known: map<nat, Json>)
    requires Meaning(q, doc, n, known).Some?
    ensures Added(q, doc, n, known) == Adds(n, Meaning(q, doc, n, known).value.0)
    decreases n
  {
    hide MeaningAll, AddedAll, AddsAll, Print;
    if n.Collection? {
      AddedAllIs(q, doc, n.entries, n.keyed, {}, known);
    }
  }

  lemma {:induction false} AddedAllIs(q: Strings, doc: Nodes, es: seq<Entry>, keyed: bool, keys: set<Bytes>,
      known: map<nat, Json>)
    requires MeaningAll(q, doc, es, keyed, keys, known).Some?
    ensures AddedAll(q, doc, es, keyed, known) == AddsAll(es, keyed, MeaningAll(q, doc, es, keyed, keys, known).value.0)
    decreases es
  {
    hide Meaning, Added, Adds;
    if es != [] {
      MeaningFirst(q, doc, es, keyed, keys, known);
      var key := if keyed then KeyText(es[0], doc) else Option.Some([]);
      var v := Meaning(q, doc, es[0].value, known);
      var r := MeaningAll(q, doc, es[1..], keyed, keys + {key.value}, v.value.1).value.0;
      var m := Member(if keyed then q.quote(key.value) else [], v.value.0);
      AddedIs(q, doc, es[0].value, known);
      AddedAllIs(q, doc, es[1..], keyed, keys + {key.value}, v.value.1);
      assert ([m] + r)[0] == m && ([m] + r)[1..] == r;
    }
  }

  // How large a document is.

  /** The nodes of a document's text: each value, alias and key one. */
  function Own(n: Yaml.Node): nat
    decreases n
  {
    if n.Collection? then 1 + OwnAll(n.entries, n.keyed) else 1
  }

  function OwnAll(es: seq<Entry>, keyed: bool): nat
    decreases es
  {
    if es == [] then 0 else (if keyed then 1 else 0) + Own(es[0].value) + OwnAll(es[1..], keyed)
  }

  predicate AliasFree(n: Yaml.Node)
    decreases n
  {
    match n
    case Scalar(_, _, _) => true
    case Collection(_, _, entries) => AllFree(entries)
    case Alias(_) => false
  }

  predicate AllFree(es: seq<Entry>)
    decreases es
  {
    es == [] || (!es[0].key.AliasKey? && AliasFree(es[0].value) && AllFree(es[1..]))
  }

  /** How many members the objects of a value have. */
  function Labels(v: Json): nat
    decreases v
  {
    if v.Container? then LabelsAll(v.members, v.keyed) else 0
  }

  function LabelsAll(ms: seq<Member>, keyed: bool): nat
    decreases ms
  {
    if ms == [] then 0 else (if keyed then 1 else 0) + Labels(ms[0].value) + LabelsAll(ms[1..], keyed)
  }

  /** The values written are no more than the document's own nodes and what its aliases add. */
  lemma {:induction false} OwnBounds(q: Strings, doc: Nodes, n: Yaml.Node, v: Json)
    requires Denotes(q, doc, n, v)
    ensures Count(v) <= Own(n) + Adds(n, v).nodes
    decreases n
  {
    hide DenotesAll, Distinct, OwnAll, CountAll, AddsAll, Print;
    if n.Collection? {
      OwnBoundsAll(q, doc, n.entries, n.keyed, v.members);
    }
  }

  lemma {:induction false} OwnBoundsAll(q: Strings, doc: Nodes, es: seq<Entry>, keyed: bool, ms: seq<Member>)
    requires DenotesAll(q, doc, es, keyed, ms)
    ensures CountAll(ms) <= OwnAll(es, keyed) + AddsAll(es, keyed, ms).nodes
    decreases es
  {
    hide Denotes, Names, Own, Adds, Count;
    if es != [] {
      OwnBounds(q, doc, es[0].value, ms[0].value);
      OwnBoundsAll(q, doc, es[1..], keyed, ms[1..]);
    }
  }

  /** Without aliases, a document's own nodes are the values written and the names of their members. */
  lemma {:induction false} OwnCounts(q: Strings, doc: Nodes, n: Yaml.Node, v: Json)
    requires Denotes(q, doc, n, v) && AliasFree(n)
    ensures Own(n) == Count(v) + Labels(v) && Adds(n, v) == NONE
    decreases n
  {
    hide DenotesAll, Distinct, OwnAll, CountAll, LabelsAll, AddsAll, AllFree;
    if n.Collection? {
      OwnCountsAll(q, doc, n.entries, n.keyed, v.members);
    }
  }

  lemma {:induction false} OwnCountsAll(q: Strings, doc: Nodes, es: seq<Entry>, keyed: bool, ms: seq<Member>)
    requires DenotesAll(q, doc, es, keyed, ms) && AllFree(es)
    ensures AddsAll(es, keyed, ms) == NONE
    ensures OwnAll(es, keyed) == CountAll(ms) + LabelsAll(ms, keyed)
    decreases es
  {
    hide Denotes, Names, Own, OwnAll, Adds, AddsAll, Count, CountAll, Labels, LabelsAll, AliasFree, Plus;
    OwnStep(es, keyed, ms);
    if es != [] {
      FreeFirst(q, doc, es, keyed, ms);
      hide DenotesAll, AllFree;
      OwnCounts(q, doc, es[0].value, ms[0].value);
      OwnCountsAll(q, doc, es[1..], keyed, ms[1..]);
      PlusNone();
    }
  }

  lemma PlusNone()
    ensures Plus(Plus(NONE, NONE), NONE) == NONE
  {
  }

  lemma FreeFirst(q: Strings, doc: Nodes, es: seq<Entry>, keyed: bool, ms: seq<Member>)
    requires es != [] && DenotesAll(q, doc, es, keyed, ms) && AllFree(es)
    ensures ms != [] && Denotes(q, doc, es[0].value, ms[0].value) && DenotesAll(q, doc, es[1..], keyed, ms[1..])
    ensures !es[0].key.AliasKey? && AliasFree(es[0].value) && AllFree(es[1..])
  {
    hide Denotes, AliasFree;
  }

  lemma OwnStep(es: seq<Entry>, keyed: bool, ms: seq<Member>)
    requires es == [] <==> ms == []
    ensures es == [] ==>
      OwnAll(es, keyed) == CountAll(ms) == LabelsAll(ms, keyed) == 0 && AddsAll(es, keyed, ms) == NONE
    ensures es != [] ==>
      && OwnAll(es, keyed) == (if keyed then 1 else 0) + Own(es[0].value) + OwnAll(es[1..], keyed)
      && CountAll(ms) == Count(ms[0].value) + CountAll(ms[1..])
      && LabelsAll(ms, keyed) == (if keyed then 1 else 0) + Labels(ms[0].value) + LabelsAll(ms[1..], keyed)
    ensures es != [] ==>
      var name := if keyed && es[0].key.AliasKey? then Extent(1, |ms[0].name|) else NONE;
      AddsAll(es, keyed, ms) == Plus(Plus(name, Adds(es[0].value, ms[0].value)), AddsAll(es[1..], keyed, ms[1..]))
  {
    hide Own, Adds, Count, Labels, Plus;
  }

  // What is accepted.

  /** A million nodes more, and a hundred times what is the document's own, of nodes and of bytes. */
  predicate Within(added: Extent, own: nat, size: nat) {
    added.nodes <= 1_000_000 && added.nodes <= 100 * own && added.bytes <= 100 * size
  }

  /** A document is accepted if it denotes a value of no more than 1,000 levels, whose aliases are within the bounds. */
  ghost predicate Accepted(q: Strings, doc: Nodes, root: Yaml.Node, size: nat) {
    exists v :: Denotes(q, doc, root, v) && Levels(v) <= 1_000 && Within(Adds(root, v), Own(root), size)
  }

  lemma AcceptedFits(q: Strings, doc: Nodes, root: Yaml.Node, room: Extent, size: nat)
    requires Targets(doc) && WellPlaced(doc, root, {})
    requires room == Extent(if 100 * Own(root) < 1_000_000 then 100 * Own(root) else 1_000_000, 100 * size)
    ensures Fits(q, doc, root, map[], 1, room) <==> Accepted(q, doc, root, size)
  {
    hide Denotes, WellPlaced, Meaning, Levels, Added, Adds, Own;
    MeaningExact(q, doc, root);
    if Meaning(q, doc, root, map[]).Some? {
      var v := Meaning(q, doc, root, map[]).value.0;
      assert Denotes(q, doc, root, v);
      AddedIs(q, doc, root, map[]);
      var f := 1 + Levels(v) <= MAX_DEPTH + 1 && Room(Less(room, Adds(root, v)));
      assert Fits(q, doc, root, map[], 1, room) <==> f;
      assert f <==> Levels(v) <= 1000 && Within(Adds(root, v), Own(root), size);
      assert forall w :: Denotes(q, doc, root, w) ==> w == v;
    } else {
      if v :| Denotes(q, doc, root, v) && Levels(v) <= 1_000 && Within(Adds(root, v), Own(root), size) {
        assert exists w :: Denotes(q, doc, root, w);
      }
    }
  }
}
