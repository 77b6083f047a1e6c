/** What a YAML document denotes when each alias is read as the node it names, with nothing kept of what was written:
    just what it means to the writer. */
module YamlAliases {
  import opened Wrappers
  import opened Ascii
  import opened JsonPrint
  import opened Yaml

  /** v is what n denotes: an alias, what the node it names does. */
  ghost predicate Denotes(q: Strings, doc: Nodes, n: Node, v: Json)
    decreases v, if n.Alias? then 1 else 0
  {
    match n
    case Scalar(_, spelled, plain) => v == Json.Scalar(if plain.Some? then plain.value else q.quote(spelled))
    case Collection(_, keyed, entries) =>
      v.Container? && v.keyed == keyed && (keyed ==> Distinct(doc, entries)) &&
        DenotesAll(q, doc, entries, keyed, v.members)
    case Alias(to) => to in doc && !doc[to].Alias? && Denotes(q, doc, doc[to], v)
  }

  ghost predicate DenotesAll(q: Strings, doc: Nodes, es: seq<Entry>, keyed: bool, ms: seq<Member>)
    decreases ms, 0
  {
    if es == [] || ms == [] then es == [] && ms == []
    else
      && (if keyed then Names(q, doc, es[0], ms[0].name) else ms[0].name == [])
      && Denotes(q, doc, es[0].value, ms[0].value) && DenotesAll(q, doc, es[1..], keyed, ms[1..])
  }

  /** An entry is keyed by a string: its own, or that of the scalar its alias names. */
  predicate Keys(doc: Nodes, e: Entry, s: Bytes) {
    match e.key
    case Spelled => s == e.spelled
    case AliasKey(to) => to in doc && doc[to].Scalar? && s == doc[to].spelled
    case _ => false
  }

  ghost predicate Names(q: Strings, doc: Nodes, e: Entry, name: Bytes) {
    exists s :: Keys(doc, e, s) && name == q.quote(s)
  }

  /** No entry is keyed as another. */
  ghost predicate Distinct(doc: Nodes, es: seq<Entry>) {
    forall i, j, s :: 0 <= i < j < |es| ==> !(Keys(doc, es[i], s) && Keys(doc, es[j], s))
  }

  lemma KeyIs(doc: Nodes, e: Entry)
    ensures forall s :: Keys(doc, e, s) <==> KeyText(e, doc) == Some(s)
  {
  }

  // A document's aliases.

  function Ids(n: Node): set<nat>
    decreases n
  {
    match n
    case Scalar(id, _, _) => {id}
    case Collection(id, _, entries) => {id} + IdsAll(entries)
    case Alias(_) => {}
  }

  function IdsAll(es: seq<Entry>): set<nat>
    decreases es
  {
    if es == [] then {} else Ids(es[0].value) + IdsAll(es[1..])
  }

  /** As a document's text gives them: a node aliases name is where it says, and each alias names one of seen, those
      begun before it, or a scalar, which may be a key. */
  predicate WellPlaced(doc: Nodes, n: Node, seen: set<nat>)
    decreases n
  {
    match n
    case Scalar(id, _, _) => id in doc ==> doc[id] == n
    case Collection(id, _, entries) => (id in doc ==> doc[id] == n) && WellPlacedAll(doc, entries, seen + {id})
    case Alias(to) => to in doc && (to in seen || doc[to].Scalar?)
  }

  predicate WellPlacedAll(doc: Nodes, es: seq<Entry>, seen: set<nat>)
    decreases es
  {
    es == [] || (WellPlaced(doc, es[0].value, seen) && WellPlacedAll(doc, es[1..], seen + Ids(es[0].value)))
  }

  /** Aliases name no aliases, and a scalar by its number. */
  predicate Targets(doc: Nodes) {
    forall id :: id in doc ==> !doc[id].Alias? && (doc[id].Scalar? ==> doc[id].id == id)
  }

  // What is kept is what is denoted.

  ghost predicate Kept(q: Strings, doc: Nodes, known: map<nat, Json>) {
    forall id :: id in known && id in doc ==> Denotes(q, doc, doc[id], known[id])
  }

  /** What a node means it denotes. */
  lemma {:induction false} MeaningDenoted(q: Strings, doc: Nodes, n: Node, known: map<nat, Json>, seen: set<nat>)
    requires Targets(doc) && WellPlaced(doc, n, seen) && Kept(q, doc, known) && Meaning(q, doc, n, known).Some?
    ensures var (v, more) := Meaning(q, doc, n, known).value;
      Denotes(q, doc, n, v) && Kept(q, doc, more) && known.Keys + Ids(n) <= more.Keys
    decreases n
  {
    hide MeaningAll, WellPlacedAll, IdsAll, DenotesAll, KeyText, Distinct;
    if n.Collection? {
      MembersDenoted(q, doc, n.entries, n.keyed, {}, known, seen + {n.id});
    }
  }

  /** The keys of entries are none of names. */
  ghost predicate Apart(doc: Nodes, es: seq<Entry>, names: set<Bytes>) {
    forall i, s :: 0 <= i < |es| && Keys(doc, es[i], s) ==> s !in names
  }

  lemma NoKeys(doc: Nodes, names: set<Bytes>)
    ensures Distinct(doc, []) && Apart(doc, [], names)
  {
  }

  /** The first entry is keyed key, and those after it are apart from it and from names. */
  lemma KeysFirst(doc: Nodes, es: seq<Entry>, names: set<Bytes>, key: Bytes)
    requires es != [] && KeyText(es[0], doc) == Some(key)
    ensures Distinct(doc, es) && Apart(doc, es, names) <==>
      key !in names && Distinct(doc, es[1..]) && Apart(doc, es[1..], names + {key})
  {
    KeyIs(doc, es[0]);
    var more := es[1..];
    if Distinct(doc, es) && Apart(doc, es, names) {
      assert Keys(doc, es[0], key);
      forall i, s | 0 <= i < |more| && Keys(doc, more[i], s)
        ensures s !in names + {key}
      {
        assert more[i] == es[i + 1];
      }
      forall i, j, s | 0 <= i < j < |more|
        ensures !(Keys(doc, more[i], s) && Keys(doc, more[j], s))
      {
        assert more[i] == es[i + 1] && more[j] == es[j + 1];
      }
    }
    if key !in names && Distinct(doc, more) && Apart(doc, more, names + {key}) {
      forall i, s | 0 <= i < |es| && Keys(doc, es[i], s)
        ensures s !in names
      {
        assert i > 0 ==> es[i] == more[i - 1];
      }
      forall i, j, s | 0 <= i < j < |es|
        ensures !(Keys(doc, es[i], s) && Keys(doc, es[j], s))
      {
        assert es[j] == more[j - 1];
        assert i > 0 ==> es[i] == more[i - 1];
      }
    }
  }

  lemma {:induction false} MembersDenoted(q: Strings, doc: Nodes, es: seq<Entry>, keyed: bool, names: set<Bytes>,
      known: map<nat, Json>, seen: set<nat>)
    requires Targets(doc) && WellPlacedAll(doc, es, seen) && Kept(q, doc, known)
    requires MeaningAll(q, doc, es, keyed, names, known).Some?
    ensures var (ms, more) := MeaningAll(q, doc, es, keyed, names, known).value;
      && DenotesAll(q, doc, es, keyed, ms) && (keyed ==> Distinct(doc, es) && Apart(doc, es, names))
      && Kept(q, doc, more) && known.Keys + IdsAll(es) <= more.Keys
    decreases es
  {
    hide Meaning, WellPlaced, Ids, Denotes, KeyText, Kept, Keys, Distinct, Apart;
    if es == [] {
      NoKeys(doc, names);
    } else {
      var (v, more) := Meaning(q, doc, es[0].value, known).value;
      var key := if keyed then KeyText(es[0], doc).value else [];
      MeaningDenoted(q, doc, es[0].value, known, seen);
      MembersDenoted(q, doc, es[1..], keyed, names + {key}, more, seen + Ids(es[0].value));
      if keyed {
        KeyIs(doc, es[0]);
        KeysFirst(doc, es, names, key);
      }
    }
  }

  /** A node denotes one value at most. */
  lemma {:induction false} OneDenoted(q: Strings, doc: Nodes, n: Node, v: Json, w: Json)
    requires Denotes(q, doc, n, v) && Denotes(q, doc, n, w)
    ensures v == w
    decreases v, if n.Alias? then 1 else 0
  {
    hide DenotesAll, Distinct;
    match n
    case Scalar(_, _, _) =>
    case Collection(_, keyed, entries) => AllDenoted(q, doc, entries, keyed, v.members, w.members);
    case Alias(to) => OneDenoted(q, doc, doc[to], v, w);
  }

  lemma {:induction false} AllDenoted(q: Strings, doc: Nodes, es: seq<Entry>, keyed: bool, ms: seq<Member>,
      os: seq<Member>)
    requires DenotesAll(q, doc, es, keyed, ms) && DenotesAll(q, doc, es, keyed, os)
    ensures ms == os
    decreases ms, 0
  {
    hide Denotes, KeyText;
    if ms != [] {
      OneDenoted(q, doc, es[0].value, ms[0].value, os[0].value);
      AllDenoted(q, doc, es[1..], keyed, ms[1..], os[1..]);
      assert ms == [ms[0]] + ms[1..] && os == [os[0]] + os[1..];
    }
  }

  /** The nodes of open denote nothing, or what has more than c values. */
  ghost predicate Around(q: Strings, doc: Nodes, open: set<nat>, c: nat) {
    forall id, w :: id in open && id in doc && Denotes(q, doc, doc[id], w) ==> Count(w) > c
  }

  /** What a node denotes it means, where the nodes it is in are open: none of their values is in itself. */
  lemma {:induction false} DenotedMeans(q: Strings, doc: Nodes, n: Node, v: Json, known: map<nat, Json>,
      seen: set<nat>, open: set<nat>)
    requires Targets(doc) && WellPlaced(doc, n, seen) && Kept(q, doc, known) && Denotes(q, doc, n, v)
    requires seen <= known.Keys + open && Around(q, doc, open, Count(v))
    ensures Meaning(q, doc, n, known).Some?
    decreases n
  {
    hide MeaningAll, WellPlacedAll, DenotesAll, KeyText, Distinct, Kept;
    if n.Collection? {
      forall id, w | id in open + {n.id} && id in doc && Denotes(q, doc, doc[id], w)
        ensures Count(w) > CountAll(v.members)
      {
        if id in open {
          assert Count(w) > Count(v);
        } else {
          OneDenoted(q, doc, n, v, w);
        }
      }
      MembersMean(q, doc, n.entries, n.keyed, v.members, {}, known, seen + {n.id}, open + {n.id});
    }
  }

  lemma {:induction false} MembersMean(q: Strings, doc: Nodes, es: seq<Entry>, keyed: bool, ms: seq<Member>,
      names: set<Bytes>, known: map<nat, Json>, seen: set<nat>, open: set<nat>)
    requires Targets(doc) && WellPlacedAll(doc, es, seen) && Kept(q, doc, known) && DenotesAll(q, doc, es, keyed, ms)
    requires keyed ==> Distinct(doc, es) && Apart(doc, es, names)
    requires seen <= known.Keys + open && Around(q, doc, open, CountAll(ms))
    ensures MeaningAll(q, doc, es, keyed, names, known).Some?
    decreases es
  {
    hide Meaning, WellPlaced, Ids, Denotes, KeyText, Kept, Count, Keys, Distinct, Apart;
    if es != [] {
      KeyIs(doc, es[0]);
      var key := if keyed then KeyText(es[0], doc).value else [];
      if keyed {
        KeysFirst(doc, es, names, key);
      }
      DenotedMeans(q, doc, es[0].value, ms[0].value, known, seen, open);
      MeaningDenoted(q, doc, es[0].value, known, seen);
      var more := Meaning(q, doc, es[0].value, known).value.1;
      MembersMean(q, doc, es[1..], keyed, ms[1..], names + {key}, more, seen + Ids(es[0].value), open);
    }
  }

  /** A document means something exactly if it denotes a value, each alias that of the node it names, and means that
      one. */
  lemma MeaningExact(q: Strings, doc: Nodes, root: Node)
    requires Targets(doc) && WellPlaced(doc, root, {})
    ensures Meaning(q, doc, root, map[]).Some? <==> exists v :: Denotes(q, doc, root, v)
    ensures Meaning(q, doc, root, map[]).Some? ==>
      forall v :: Denotes(q, doc, root, v) <==> v == Meaning(q, doc, root, map[]).value.0
  {
    hide Meaning, Denotes, WellPlaced;
    if Meaning(q, doc, root, map[]).Some? {
      MeaningDenoted(q, doc, root, map[], {});
      var m := Meaning(q, doc, root, map[]).value.0;
      assert Denotes(q, doc, root, m);
      forall v | Denotes(q, doc, root, v) ensures v == m {
        OneDenoted(q, doc, root, v, m);
      }
    } else if v :| Denotes(q, doc, root, v) {
      DenotedMeans(q, doc, root, v, map[], {}, {});
    }
  }
}
