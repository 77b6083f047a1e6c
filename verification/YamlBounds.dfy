/** What the writer of a YAML document accepts: what means something, nests within the limit, and whose aliases add no
    more than its bounds allow. */
module YamlBounds {
  import opened Wrappers
  import opened Ascii
  import opened JsonText
  import opened JsonPrint
  import opened Yaml

  /** How many nodes and bytes aliases add, or may. */
  datatype Extent = Extent(nodes: int, bytes: int)

  const NONE := Extent(0, 0)

  function Plus(a: Extent, b: Extent): Extent {
    Extent(a.nodes + b.nodes, a.bytes + b.bytes)
  }

  function Less(a: Extent, b: Extent): Extent {
    Extent(a.nodes - b.nodes, a.bytes - b.bytes)
  }

  predicate Room(e: Extent) {
    e.nodes >= 0 && e.bytes >= 0
  }

  /** What an alias that is a key adds: the string it spells. */
  function AddedKey(q: Strings, doc: Nodes, e: Entry): (r: Extent)
    ensures Room(r)
  {
    if e.key.AliasKey? && KeyText(e, doc).Some? then Extent(1, |q.quote(KeyText(e, doc).value)|) else NONE
  }

  /** What the aliases of a node add: each, the nodes and the bytes of its value. */
  function Added(q: Strings, doc: Nodes, n: Yaml.Node, known: map<nat, Json>): (r: Extent)
    ensures Room(r)
    decreases n
  {
    match n
    case Scalar(_, _, _) => NONE
    case Collection(_, keyed, entries) => AddedAll(q, doc, entries, keyed, known)
    case Alias(_) =>
      var m := Meaning(q, doc, n, known);
      if m.Some? then Extent(Count(m.value.0), |Print(m.value.0)|) else NONE
  }

  function AddedAll(q: Strings, doc: Nodes, es: seq<Entry>, keyed: bool, known: map<nat, Json>): (r: Extent)
    ensures Room(r)
    decreases es
  {
    if es == [] then NONE
    else
      var m := Meaning(q, doc, es[0].value, known);
      var first := Plus(if keyed then AddedKey(q, doc, es[0]) else NONE, Added(q, doc, es[0].value, known));
      Plus(first, if m.Some? then AddedAll(q, doc, es[1..], keyed, m.value.1) else NONE)
  }

  /** A node, depth levels deep, is accepted where aliases may add so much. */
  predicate Fits(q: Strings, doc: Nodes, n: Yaml.Node, known: map<nat, Json>, depth: nat, room: Extent) {
    var m := Meaning(q, doc, n, known);
    m.Some? && depth + Levels(m.value.0) <= MAX_DEPTH + 1 && Room(Less(room, Added(q, doc, n, known)))
  }

  /** So are the entries of a container depth levels deep, none of a mapping's keyed as one before. */
  predicate FitsAll(q: Strings, doc: Nodes, es: seq<Entry>, keyed: bool, keys: set<Bytes>, known: map<nat, Json>,
      depth: nat, room: Extent) {
    var m := MeaningAll(q, doc, es, keyed, keys, known);
    m.Some? && depth + LevelsAll(m.value.0) <= MAX_DEPTH && Room(Less(room, AddedAll(q, doc, es, keyed, known)))
  }

  /** The room left for an entry's value, its key spelled. */
  function RoomFor(q: Strings, doc: Nodes, e: Entry, keyed: bool, room: Extent): Extent {
    if keyed then Less(room, AddedKey(q, doc, e)) else room
  }

  lemma MeaningFirst(q: Strings, doc: Nodes, es: seq<Entry>, keyed: bool, keys: set<Bytes>, known: map<nat, Json>)
    requires es != []
    ensures var key := if keyed then KeyText(es[0], doc) else Some([]);
      var v := Meaning(q, doc, es[0].value, known);
      MeaningAll(q, doc, es, keyed, keys, known) ==
        if key.None? || (keyed && key.value in keys) || v.None? then None
        else
          var r := MeaningAll(q, doc, es[1..], keyed, keys + {key.value}, v.value.1);
          if r.None? then None
          else Some(([Member(if keyed then q.quote(key.value) else [], v.value.0)] + r.value.0, r.value.1))
  {
    hide Meaning, KeyText;
  }

  lemma AddedFirst(q: Strings, doc: Nodes, es: seq<Entry>, keyed: bool, known: map<nat, Json>, room: Extent)
    requires es != [] && Meaning(q, doc, es[0].value, known).Some?
    ensures Less(room, AddedAll(q, doc, es, keyed, known)) ==
      Less(Less(RoomFor(q, doc, es[0], keyed, room), Added(q, doc, es[0].value, known)),
           AddedAll(q, doc, es[1..], keyed, Meaning(q, doc, es[0].value, known).value.1))
  {
    hide Meaning, Added, AddedKey;
  }

  /** Entries fit if the first does, and those after it in the room it leaves. */
  lemma FitsFirst(q: Strings, doc: Nodes, es: seq<Entry>, keyed: bool, keys: set<Bytes>, known: map<nat, Json>,
      depth: nat, room: Extent)
    requires es != []
    ensures var key := if keyed then KeyText(es[0], doc) else Some([]);
      var (left, v) := (RoomFor(q, doc, es[0], keyed, room), Meaning(q, doc, es[0].value, known));
      FitsAll(q, doc, es, keyed, keys, known, depth, room) <==>
        (key.Some? && !(keyed && key.value in keys) && Room(left) &&
         Fits(q, doc, es[0].value, known, depth + 1, left) &&
         FitsAll(q, doc, es[1..], keyed, keys + {key.value}, v.value.1, depth,
           Less(left, Added(q, doc, es[0].value, known))))
  {
    hide Meaning, MeaningAll, KeyText, Levels, LevelsAll, Added, AddedAll, AddedKey;
    var key := if keyed then KeyText(es[0], doc) else Some([]);
    var v := Meaning(q, doc, es[0].value, known);
    MeaningFirst(q, doc, es, keyed, keys, known);
    if key.Some? && !(keyed && key.value in keys) && v.Some? {
      AddedFirst(q, doc, es, keyed, known, room);
      var r := MeaningAll(q, doc, es[1..], keyed, keys + {key.value}, v.value.1);
      if r.Some? {
        LevelsAfter(Member(if keyed then q.quote(key.value) else [], v.value.0), r.value.0);
      }
    }
  }

  lemma LevelsAfter(m: Member, ms: seq<Member>)
    ensures LevelsAll([m] + ms) == if Levels(m.value) > LevelsAll(ms) then Levels(m.value) else LevelsAll(ms)
  {
    hide Levels;
    assert ([m] + ms)[0] == m && ([m] + ms)[1..] == ms;
  }

  lemma FitsNext(q: Strings, doc: Nodes, es: seq<Entry>, i: nat, keyed: bool, keys: set<Bytes>,
      known: map<nat, Json>, depth: nat, room: Extent)
    requires i < |es|
    ensures var key := if keyed then KeyText(es[i], doc) else Some([]);
      var (left, v) := (RoomFor(q, doc, es[i], keyed, room), Meaning(q, doc, es[i].value, known));
      FitsAll(q, doc, es[i..], keyed, keys, known, depth, room) <==>
        (key.Some? && !(keyed && key.value in keys) && Room(left) &&
         Fits(q, doc, es[i].value, known, depth + 1, left) &&
         FitsAll(q, doc, es[i + 1..], keyed, keys + {key.value}, v.value.1, depth,
           Less(left, Added(q, doc, es[i].value, known))))
  {
    hide *;
    FitsFirst(q, doc, es[i..], keyed, keys, known, depth, room);
    assert es[i..][0] == es[i] && es[i..][1..] == es[i + 1..];
  }

  /** Where the value of an item was written, the rest fits as those after it do in the room left. */
  lemma ItemFits(q: Strings, doc: Nodes, es: seq<Entry>, i: nat, keys: set<Bytes>, known: map<nat, Json>, depth: nat,
      room: Extent, left: Extent)
    requires i < |es| && Room(room) && Fits(q, doc, es[i].value, known, depth + 1, room)
    requires left == Less(room, Added(q, doc, es[i].value, known))
    ensures Meaning(q, doc, es[i].value, known).Some?
    ensures var more := Meaning(q, doc, es[i].value, known).value.1;
      && (FitsAll(q, doc, es[i..], false, keys, known, depth, room) <==>
          FitsAll(q, doc, es[i + 1..], false, keys + {[]}, more, depth, left))
      && Less(room, AddedAll(q, doc, es[i..], false, known)) == Less(left, AddedAll(q, doc, es[i + 1..], false, more))
  {
    hide Meaning, FitsAll, Added, AddedAll, Levels, Less;
    FitsNext(q, doc, es, i, false, keys, known, depth, room);
    AddedNext(q, doc, es, i, false, known, room);
  }

  lemma FitsNone(q: Strings, doc: Nodes, keyed: bool, keys: set<Bytes>, known: map<nat, Json>, depth: nat, room: Extent)
    requires depth <= MAX_DEPTH && Room(room)
    ensures FitsAll(q, doc, [], keyed, keys, known, depth, room)
  {
  }

  /** A container fits if its entries do, and adds what they add. */
  lemma FitsContainer(q: Strings, doc: Nodes, id: nat, keyed: bool, es: seq<Entry>, known: map<nat, Json>,
      depth: nat, room: Extent)
    ensures Fits(q, doc, Collection(id, keyed, es), known, depth, room) <==>
      FitsAll(q, doc, es, keyed, {}, known, depth, room)
    ensures Added(q, doc, Collection(id, keyed, es), known) == AddedAll(q, doc, es, keyed, known)
  {
    hide MeaningAll, LevelsAll, AddedAll;
  }

  lemma FitsScalar(q: Strings, doc: Nodes, n: Yaml.Node, known: map<nat, Json>, depth: nat, room: Extent)
    requires n.Scalar? && depth <= MAX_DEPTH && Room(room)
    ensures Fits(q, doc, n, known, depth, room) && Less(room, Added(q, doc, n, known)) == room
  {
  }

  lemma TooDeep(q: Strings, doc: Nodes, n: Yaml.Node, known: map<nat, Json>, depth: nat, room: Extent)
    requires depth > MAX_DEPTH
    ensures !Fits(q, doc, n, known, depth, room)
  {
    hide Meaning, Added;
  }

  /** What is left once all entries are written. */
  lemma AddedNext(q: Strings, doc: Nodes, es: seq<Entry>, i: nat, keyed: bool, known: map<nat, Json>, room: Extent)
    requires i < |es| && Meaning(q, doc, es[i].value, known).Some?
    ensures Less(room, AddedAll(q, doc, es[i..], keyed, known)) ==
      Less(Less(RoomFor(q, doc, es[i], keyed, room), Added(q, doc, es[i].value, known)),
           AddedAll(q, doc, es[i + 1..], keyed, Meaning(q, doc, es[i].value, known).value.1))
  {
    hide *;
    assert es[i..][0] == es[i] && es[i..][1..] == es[i + 1..];
    AddedFirst(q, doc, es[i..], keyed, known, room);
  }
}
