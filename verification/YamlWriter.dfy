/** The writer of a YAML document as JSON text and its nodes, which writes what an alias names again by copying it. */
module YamlWriter {
  import opened Wrappers
  import opened Ascii
  import opened JsonText
  import opened JsonOrder
  import opened JsonPrint
  import opened Yaml
  import opened YamlBounds
  import opened YamlOutput
  import JsonScan
  import Sequences

  /** Where a node aliases name was written: its nodes, its text, its objects with a string $ref, and how it nests. */
  datatype Written = Written(first: nat, start: nat, firstRef: nat, next: nat, end: nat, nextRef: nat, levels: nat)

  /** How many of xs, in order, are less than x. */
  function Below(xs: seq<nat>, x: nat): (i: nat)
    ensures i <= |xs|
  {
    if xs == [] || xs[0] >= x then 0 else 1 + Below(xs[1..], x)
  }

  lemma {:induction false} BelowIs(xs: seq<nat>, x: nat, i: nat)
    requires i <= |xs| && (forall k :: 0 <= k < i ==> xs[k] < x) && (i < |xs| ==> xs[i] >= x)
    ensures Below(xs, x) == i
  {
    if i > 0 {
      BelowIs(xs[1..], x, i - 1);
    }
  }

  lemma {:induction false} BelowBounds(xs: seq<nat>, x: nat)
    ensures forall k :: 0 <= k < Below(xs, x) ==> xs[k] < x
    ensures Below(xs, x) < |xs| ==> xs[Below(xs, x)] >= x
  {
    if xs != [] && xs[0] < x {
      BelowBounds(xs[1..], x);
      assert forall k :: 0 < k < |xs| ==> xs[k] == xs[1..][k - 1];
    }
  }

  lemma BelowMore(xs: seq<nat>, ys: seq<nat>, x: nat)
    requires forall k :: 0 <= k < |ys| ==> ys[k] >= x
    ensures Below(xs + ys, x) == Below(xs, x)
  {
    BelowBounds(xs, x);
    BelowIs(xs + ys, x, Below(xs, x));
  }

  /** What is kept of a value written is true of what is written. */
  ghost predicate Recorded(q: Strings, o: Output, w: Written, v: Json) {
    && w.start <= w.end <= |o.text| && o.text[w.start..w.end] == Print(v)
    && w.first < w.next <= |o.nodes| &&
       o.nodes[w.first..w.next] == Flatten(TreeOf(v, w.start, o.nodes[w.first].name), w.first)
    && w.firstRef <= w.nextRef <= |o.bigs| && o.bigs[w.firstRef..w.nextRef] == Bigs(q, v, w.first)
    && Below(o.escapes, w.start) <= Below(o.escapes, w.end)
    && o.escapes[Below(o.escapes, w.start)..Below(o.escapes, w.end)] == Marks(q, v, w.start)
    && w.levels == Levels(v)
  }

  predicate Ordered(o: Output) {
    Rising(o.escapes, 0, |o.text|)
  }

  /** More is written, after what is. */
  ghost predicate Grows(o: Output, p: Output) {
    && o.text <= p.text && o.nodes <= p.nodes && o.bigs <= p.bigs && o.escapes <= p.escapes
    && forall k :: |o.escapes| <= k < |p.escapes| ==> p.escapes[k] >= |o.text|
  }

  lemma RecordedGrows(q: Strings, o: Output, p: Output, w: Written, v: Json)
    requires Recorded(q, o, w, v) && Grows(o, p)
    ensures Recorded(q, p, w, v)
  {
    hide Print, Levels, Flatten, TreeOf, Bigs, Marks, Below;
    var more := p.escapes[|o.escapes|..];
    assert p.escapes == o.escapes + more;
    BelowMore(o.escapes, more, w.start);
    BelowMore(o.escapes, more, w.end);
    assert p.text[w.start..w.end] == o.text[w.start..w.end];
    assert p.nodes[w.first..w.next] == o.nodes[w.first..w.next];
    assert p.bigs[w.firstRef..w.nextRef] == o.bigs[w.firstRef..w.nextRef];
    var i, j := Below(o.escapes, w.start), Below(o.escapes, w.end);
    assert p.escapes[i..j] == o.escapes[i..j];
  }

  /** A node not kept of may change. */
  lemma RecordedElsewhere(q: Strings, o: Output, at: nat, n: JsonText.Node, w: Written, v: Json)
    requires Recorded(q, o, w, v) && at < |o.nodes| && (at < w.first || w.next <= at)
    ensures Recorded(q, o.(nodes := o.nodes[at := n]), w, v)
  {
    hide Print, Levels, Flatten, TreeOf, Bigs, Marks, Below;
    assert o.nodes[at := n][w.first..w.next] == o.nodes[w.first..w.next];
  }

  lemma WroteGrows(q: Strings, o: Output, v: Json, name: nat)
    requires Ordered(o) && Printable(v)
    ensures Grows(o, Wrote(q, o, v, name)) && Ordered(Wrote(q, o, v, name))
  {
    hide Print, Flatten, TreeOf, Bigs, Marks;
    MarksRise(q, v, |o.text|);
    RisingJoin(o.escapes, Marks(q, v, |o.text|), 0, |o.text|, |o.text|, |o.text| + |Print(v)|);
  }

  /** What is written can be kept. */
  lemma WroteRecords(q: Strings, o: Output, v: Json, name: nat)
    requires Ordered(o) && Printable(v)
    ensures var p := Wrote(q, o, v, name);
      Recorded(q, p, Written(|o.nodes|, |o.text|, |o.bigs|, |p.nodes|, |p.text|, |p.bigs|, Levels(v)), v)
  {
    hide Print, Levels, Bigs, Marks, Below, TreeOf;
    var p := Wrote(q, o, v, name);
    MarksRise(q, v, |o.text|);
    BelowIs(p.escapes, |o.text|, |o.escapes|);
    BelowIs(p.escapes, |p.text|, |p.escapes|);
    assert p.text[|o.text|..|p.text|] == Print(v);
    assert p.nodes[|o.nodes|..|p.nodes|] == Flatten(TreeOf(v, |o.text|, name), |o.nodes|);
    assert p.nodes[|o.nodes|] == Flatten(TreeOf(v, |o.text|, name), |o.nodes|)[0];
    TreeName(v, |o.text|, name);
    assert p.bigs[|o.bigs|..|p.bigs|] == Bigs(q, v, |o.nodes|);
    assert p.escapes[|o.escapes|..|p.escapes|] == Marks(q, v, |o.text|);
  }

  /** A container is its bracket, its members, and the bracket that closes it. */
  lemma ContainerWrote(q: Strings, o: Output, ms: seq<Member>, keyed: bool, name: nat, pending: JsonText.Node)
    ensures var v := Container(keyed, ms);
      var p := WroteAll(q, Opening(o, keyed, pending), ms, keyed);
      Output(p.text + [Close(keyed)], p.nodes[|o.nodes| := JsonText.Node(|o.text|, |p.nodes|, name)], p.escapes,
             p.bigs + if BigRef(q, v) then [|o.nodes|] else []) == Wrote(q, o, v, name)
  {
    hide Listed, TreeOfAll, FlattenAll, Bigs, MarksAll, BigsAll, PrintAll;
    var v := Container(keyed, ms);
    var t := TreeOf(v, |o.text|, name);
    var p := WroteAll(q, Opening(o, keyed, pending), ms, keyed);
    var open := if keyed then OBJECT else ARRAY;
    if ms == [] {
      ListedNone(keyed);
    } else {
      ListedPrints(ms, keyed);
    }
    assert p.text + [Close(keyed)] == o.text + ([open] + (Listed(ms, keyed) + [Close(keyed)]));
    SizeCountAll(ms, |o.text| + 1, keyed);
    SizeCount(v, |o.text|, name);
    var kids := FlattenAll(t.kids, |o.nodes| + 1);
    assert p.nodes == o.nodes + [pending] + kids;
    assert Flatten(t, |o.nodes|) == [JsonText.Node(|o.text|, |p.nodes|, name)] + kids;
    BigsOf(q, v, |o.nodes|);
    Sequences.Group(o.bigs, BigsAll(q, ms, |o.nodes| + 1), if BigRef(q, v) then [|o.nodes|] else []);
  }

  lemma BigsOf(q: Strings, v: Json, at: nat)
    requires v.Container?
    ensures Bigs(q, v, at) == BigsAll(q, v.members, at + 1) + (if BigRef(q, v) then [at] else [])
  {
  }

  /** The start of a container. */
  function Opening(o: Output, keyed: bool, pending: JsonText.Node): Output {
    Output(o.text + [if keyed then OBJECT else ARRAY], o.nodes + [pending], o.escapes, o.bigs)
  }

  lemma Renamed(v: Json, i: nat, name: nat, other: nat, at: nat)
    ensures var ns := Flatten(TreeOf(v, i, name), at);
      ns[0 := ns[0].(name := other)] == Flatten(TreeOf(v, i, other), at)
  {
    hide Print, TreeOfAll, FlattenAll;
    SizeCount(v, i, name);
    SizeCount(v, i, other);
  }

  /** A copy of what was written, moved, is what writing it again would write. */
  lemma CopyWrote(q: Strings, o: Output, w: Written, v: Json, name: nat)
    requires Recorded(q, o, w, v)
    ensures var (off, at) := (|o.text| - w.start, |o.nodes|);
      var all := o.nodes + ShiftAll(o.nodes[w.first..w.next], off, at - w.first);
      var (i, j) := (Below(o.escapes, w.start), Below(o.escapes, w.end));
      Output(o.text + o.text[w.start..w.end], all[at := all[at].(name := name)],
             o.escapes + Add(o.escapes[i..j], off), o.bigs + Add(o.bigs[w.firstRef..w.nextRef], at - w.first)) ==
               Wrote(q, o, v, name)
  {
    hide Print, TreeOf, Flatten, Marks, Bigs, Levels, Below;
    var off, at := |o.text| - w.start, |o.nodes|;
    var was := o.nodes[w.first].name;
    NodesMove(v, w.start, was, w.first, off, at - w.first);
    var copy := ShiftAll(o.nodes[w.first..w.next], off, at - w.first);
    var now := if was != 0 then was + off else 0;
    assert copy == Flatten(TreeOf(v, |o.text|, now), at);
    Renamed(v, |o.text|, now, name, at);
    assert (o.nodes + copy)[at := copy[0].(name := name)] == o.nodes + copy[0 := copy[0].(name := name)];
    MarksMove(q, v, w.start, off);
    BigsMove(q, v, w.first, at - w.first);
  }

  // The writer.

  /** The nodes aliases in n name, as values. */
  function Named1(n: Yaml.Node): set<nat>
    decreases n
  {
    match n
    case Scalar(_, _, _) => {}
    case Collection(_, _, entries) => NamedAll(entries)
    case Alias(to) => {to}
  }

  function NamedAll(es: seq<Entry>): set<nat>
    decreases es
  {
    if es == [] then {} else Named1(es[0].value) + NamedAll(es[1..])
  }

  /** A plain scalar is JSON's, and no string. */
  predicate Proper(n: Yaml.Node)
    decreases n
  {
    match n
    case Scalar(_, _, plain) =>
      plain.Some? ==>
        var text := plain.value;
        text != [] && !Opens(text[0]) && text[0] != QUOTE && ScalarEnd(text, 0) == Option.Some(|text|)
    case Collection(_, _, entries) => ProperAll(entries)
    case Alias(_) => true
  }

  predicate ProperAll(es: seq<Entry>)
    decreases es
  {
    es != [] ==> Proper(es[0].value) && ProperAll(es[1..])
  }

  /** The scalars of a document are at their numbers. */
  predicate Numbered(nodes: Nodes) {
    forall id :: id in nodes && nodes[id].Scalar? ==> nodes[id].id == id && Proper(nodes[id])
  }

  class Writer {
    const q: Strings
    const doc: Nodes
    const named: set<nat>
    const maxAdded: int
    const maxBytes: int
    var text: Bytes
    var nodes: seq<JsonText.Node>
    var escapes: seq<nat>
    var bigRefs: seq<nat>
    var names: seq<Bytes>
    var written: map<nat, Written>
    var added: int
    var addedBytes: int
    ghost var known: map<nat, Json>

    constructor (q: Strings, doc: Nodes, named: set<nat>, maxAdded: int, maxBytes: int)
      ensures this.q == q && this.doc == doc && this.named == named && Now() == Output([], [], [], [])
      ensures written == map[] && known == map[] && names == [] && Left() == Extent(maxAdded, maxBytes)
    {
      this.q, this.doc, this.named, this.maxAdded, this.maxBytes := q, doc, named, maxAdded, maxBytes;
      text, nodes, escapes, bigRefs, names, written, added, addedBytes := [], [], [], [], [], map[], 0, 0;
      known := map[];
    }

    ghost function Now(): Output
      reads this
    {
      Output(text, nodes, escapes, bigRefs)
    }

    /** What aliases may still add. */
    ghost function Left(): Extent
      reads this
    {
      Extent(maxAdded - added, maxBytes - addedBytes)
    }

    /** What is kept is of each node named that was written, and true; what is known can be printed. */
    ghost predicate Valid()
      reads this
    {
      && Ordered(Now())
      && (forall id :: id in written ==> id in named && id in known && Recorded(q, Now(), written[id], known[id]))
      && (forall id :: id in known && id in named ==> id in written)
      && (forall id :: id in known ==> Printable(known[id]))
    }

    /** No node kept of is at. */
    ghost predicate Clear(at: nat)
      reads this
    {
      forall id :: id in written ==> at < written[id].first || written[id].next <= at
    }

    /** Extends the text by the quoted s, and notes the offset of strings that q marks. */
    method Quote(s: Bytes)
      modifies this`text, this`escapes
      ensures text == old(text) + q.quote(s)
      ensures escapes == old(escapes) + if q.marks(s) then [|old(text)|] else []
    {
      var at := |text|;
      text := text + q.quote(s);
      if q.marks(s) {
        escapes := escapes + [at];
      }
    }

    /** Counts what an alias adds; whether it may. */
    method Count(nodes: nat, bytes: nat) returns (ok: bool)
      modifies this`added, this`addedBytes
      ensures Left() == Less(old(Left()), Extent(nodes, bytes)) && (ok <==> Room(Left()))
    {
      added, addedBytes := added + nodes, addedBytes + bytes;
      ok := added <= maxAdded && addedBytes <= maxBytes;
    }

    /** Keeps what was written from o on as v. */
    method Keep(id: nat, levels: nat, ghost o: Output, ghost v: Json, name: nat, first: nat, start: nat, firstRef: nat)
      requires Ordered(o) && Printable(v) && Now() == Wrote(q, o, v, name) && levels == Levels(v)
      requires first == |o.nodes| && start == |o.text| && firstRef == |o.bigs|
      requires Valid()
      modifies this`written, this`known
      ensures known == old(known)[id := v] && Valid()
      ensures var w := Written(first, start, firstRef, |nodes|, |text|, |bigRefs|, levels);
        written == if id in named then old(written)[id := w] else old(written)
    {
      hide Wrote, Recorded, Printable, Ordered;
      WroteRecords(q, o, v, name);
      if id in named {
        written := written[id := Written(first, start, firstRef, |nodes|, |text|, |bigRefs|, levels)];
      }
      known := known[id := v];
    }

    /** What is kept after more is written is what was kept, and nodes after those. */
    twostate predicate KeptAfter(at: nat)
      reads this
    {
      forall id :: id in written ==> (id in old(written) && written[id] == old(written[id])) || written[id].first >= at
    }

    /** Copies nodes, moved. */
    method CopyNodes(w: Written, off: nat, to: nat)
      requires w.first <= w.next <= |nodes|
      modifies this`nodes
      ensures nodes == old(nodes) + ShiftAll(old(nodes)[w.first..w.next], off, to)
    {
      ghost var copy := ShiftAll(nodes[w.first..w.next], off, to);
      for k := w.first to w.next
        invariant nodes == old(nodes) + copy[..k - w.first]
      {
        var m := nodes[k];
        assert m == old(nodes)[w.first..w.next][k - w.first];
        nodes := nodes + [JsonText.Node(m.start + off, m.next + to, if m.name != 0 then m.name + off else 0)];
      }
      assert copy[..w.next - w.first] == copy;
    }

    /** Copies what is recorded of objects, moved. */
    method CopyRefs(w: Written, to: nat)
      requires w.firstRef <= w.nextRef <= |bigRefs|
      modifies this`bigRefs
      ensures bigRefs == old(bigRefs) + Add(old(bigRefs)[w.firstRef..w.nextRef], to)
    {
      for k := w.firstRef to w.nextRef
        invariant bigRefs == old(bigRefs) + Add(old(bigRefs)[w.firstRef..k], to)
      {
        assert old(bigRefs)[w.firstRef..k + 1] == old(bigRefs)[w.firstRef..k] + [old(bigRefs)[k]];
        bigRefs := bigRefs + [bigRefs[k] + to];
      }
    }

    /** Repeats w, the value of v, at the end, under name. */
    method Copy(w: Written, name: nat, ghost v: Json)
      requires Recorded(q, Now(), w, v)
      modifies this`text, this`nodes, this`escapes, this`bigRefs
      ensures Now() == Wrote(q, old(Now()), v, name)
    {
      hide Recorded, Wrote;
      ghost var o := Now();
      InRange(q, o, w, v);
      CopyWrote(q, o, w, v, name);
      hide *;
      var off, at := |text| - w.start, |nodes|;
      text := text + text[w.start..w.end];
      CopyNodes(w, off, at - w.first);
      CopyRefs(w, at - w.first);
      Rename(at, name);
      var i, j := Below(escapes, w.start), Below(escapes, w.end);
      escapes := escapes + Add(escapes[i..j], off);
    }

    method Rename(at: nat, name: nat)
      requires at < |nodes|
      modifies this`nodes
      ensures nodes == old(nodes)[at := old(nodes)[at].(name := name)]
    {
      nodes := nodes[at := nodes[at].(name := name)];
    }

    lemma InRange(q: Strings, o: Output, w: Written, v: Json)
      requires Recorded(q, o, w, v)
      ensures w.start <= w.end <= |o.text| && w.first < w.next <= |o.nodes| && w.firstRef <= w.nextRef <= |o.bigs|
      ensures Below(o.escapes, w.start) <= Below(o.escapes, w.end)
    {
    }

    /** More written, what is kept of is as it was. */
    lemma ValidGrows(o: Output)
      requires Ordered(Now()) && Grows(o, Now())
      requires forall id :: id in written ==> id in named && id in known && Recorded(q, o, written[id], known[id])
      requires forall id :: id in known && id in named ==> id in written
      requires forall id :: id in known ==> Printable(known[id])
      ensures Valid()
    {
      hide Recorded, Grows;
      forall id | id in written ensures Recorded(q, Now(), written[id], known[id]) {
        RecordedGrows(q, o, Now(), written[id], known[id]);
      }
    }

    /** Writes punctuation. */
    method Byte(c: byte)
      requires Valid()
      modifies this`text
      ensures text == old(text) + [c] && Valid()
    {
      hide Recorded, Printable;
      ghost var o := Now();
      text := text + [c];
      RisingMore(o.escapes, 0, |o.text|, 0, |text|);
      ValidGrows(o);
    }

    /** Writes a scalar as a value. */
    method Scalar(n: Yaml.Node, name: nat)
      requires Valid() && n.Scalar? && Proper(n) && Sound(q)
      modifies this
      ensures Valid() && KeptAfter(old(|nodes|)) && names == old(names) &&
        known == old(known)[n.id := ScalarValue(q, n)]
      ensures Now() == Wrote(q, old(Now()), ScalarValue(q, n), name) && Printable(ScalarValue(q, n))
      ensures n.id in named ==> n.id in written
      ensures Left() == old(Left())
    {
      hide Recorded, Grows, Ordered, Wrote, Printable, Proper, Sound, Levels;
      ghost var o, v := Now(), ScalarValue(q, n);
      var first, start, firstRef := |nodes|, |text|, |bigRefs|;
      ScalarWrote(q, o, n, name);
      nodes := nodes + [JsonText.Node(start, 0, name)];
      if n.plain.Some? {
        text := text + n.plain.value;
      } else {
        Quote(n.spelled);
      }
      nodes := nodes[first := nodes[first].(next := |nodes|)];
      assert nodes == o.nodes + [JsonText.Node(start, first + 1, name)];
      assert escapes == o.escapes + if n.plain.None? && q.marks(n.spelled) then [|o.text|] else [];
      assert Now() == Wrote(q, o, v, name);
      WroteGrows(q, o, v, name);
      ValidGrows(o);
      Keep(n.id, 1, o, v, name, first, start, firstRef);
    }

    /** Whether a mapping has no key before that is key; it is kept among those. */
    method Distinct(key: Bytes, base: nat, seen: Option<set<Bytes>>) returns (ok: bool, now: Option<set<Bytes>>)
      requires base <= |names|
      modifies this`names
      ensures old(Valid()) ==> Valid()
      ensures ok <==> key !in JsonScan.NamesIn(old(names), base, seen)
      ensures base <= |names| && names[..base] == old(names[..base])
      ensures ok ==> JsonScan.NamesIn(names, base, now) == JsonScan.NamesIn(old(names), base, seen) + {key}
      ensures ok ==>
        (now.Some? <==> seen.Some? || |old(names)| - base == MANY) &&
        (now.None? ==> |names| == |old(names)| + 1)
    {
      now := seen;
      if now.None? && |names| - base == MANY {
        now := Some(set s | s in names[base..]);
      }
      if key in (if now.Some? then now.value else set s | s in names[base..]) {
        return false, now;
      }
      if now.Some? {
        now := Some(now.value + {key});
      } else {
        ghost var was := names;
        names := names + [key];
        assert names[base..] == was[base..] + [key];
      }
      return true, now;
    }

    /** Leaves the names kept before a mapping's. */
    method Forget(base: nat)
      requires base <= |names|
      modifies this`names
      ensures names == old(names)[..base] && (old(Valid()) ==> Valid())
    {
      names := names[..base];
    }

    /** Writes a key, up to its value. */
    method Spell(key: Bytes, alias: bool, first: bool) returns (ok: bool, at: nat)
      requires Sound(q) && Valid() && Room(Left())
      modifies this`text, this`escapes, this`added, this`addedBytes
      ensures var left := if alias then Less(old(Left()), Extent(1, |q.quote(key)|)) else old(Left());
        (ok <==> Room(left)) && (ok ==> Left() == left)
      ensures ok ==> Valid() && at == old(|text|) + if first then 0 else 1
      ensures ok ==> forall v :: Now() == Keyed(q, old(Now()), first, Member(q.quote(key), v), true)
    {
      hide Sound, Quoted, Valid, Keyed;
      ghost var before := Now();
      if !first {
        Byte(COMMA);
      }
      at, ok := |text|, true;
      ghost var o := Now();
      ghost var marks := if q.marks(key) then [at] else [];
      KeptNow();
      Quote(key);
      if alias {
        ok := Count(1, |text| - at);
        if !ok {
          return;
        }
      }
      text := text + [COLON];
      Spelled(o, q.quote(key), marks);
      forall v ensures Now() == Keyed(q, before, first, Member(q.quote(key), v), true) {
        KeyedIs(q, before, first, key, v);
      }
    }

    lemma KeptNow()
      requires Valid()
      ensures Ordered(Now()) && Kept(Now())
    {
    }

    /** What is kept was true of o. */
    ghost predicate Kept(o: Output)
      reads this
    {
      && (forall id :: id in written ==> id in named && id in known && Recorded(q, o, written[id], known[id]))
      && (forall id :: id in known && id in named ==> id in written)
      && (forall id :: id in known ==> Printable(known[id]))
    }

    lemma Spelled(o: Output, quoted: Bytes, marks: seq<nat>)
      requires Ordered(o) && Kept(o) && (marks == [] || marks == [|o.text|])
      requires Now() == Output(o.text + quoted + [COLON], o.nodes, o.escapes + marks, o.bigs)
      ensures Valid()
    {
      hide Recorded, Printable;
      var t := quoted + [COLON];
      Sequences.Group(o.text, quoted, [COLON]);
      KeyGrows(o, Now(), t, marks);
      ValidGrows(o);
    }

    /** The key of an entry is that of none before. */
    predicate NewKey(e: Entry, names: seq<Bytes>, base: nat, seen: Option<set<Bytes>>)
      requires base <= |names|
    {
      KeyText(e, doc).Some? && KeyText(e, doc).value !in JsonScan.NamesIn(names, base, seen)
    }

    /** Resolves and writes a mapping's key, which no key before is, up to its value. */
    method Key(e: Entry, base: nat, seen: Option<set<Bytes>>, first: bool)
      returns (ok: bool, key: Bytes, now: Option<set<Bytes>>, at: nat)
      requires Sound(q) && base <= |names| && Valid() && Room(Left())
      modifies this`text, this`escapes, this`names, this`added, this`addedBytes
      ensures var left := RoomFor(q, doc, e, true, old(Left()));
        && (ok <==> NewKey(e, old(names), base, seen) && Room(left))
        && (ok ==> Left() == left)
      ensures ok ==> Valid() && KeyText(e, doc) == Some(key) && key !in JsonScan.NamesIn(old(names), base, seen)
      ensures ok ==> base <= |names| && names[..base] == old(names[..base])
      ensures ok ==> JsonScan.NamesIn(names, base, now) == JsonScan.NamesIn(old(names), base, seen) + {key}
      ensures ok ==>
        (now.Some? <==> seen.Some? || |old(names)| - base == MANY) &&
        (now.None? ==> |names| == |old(names)| + 1)
      ensures ok ==> at == old(|text|) + if first then 0 else 1
      ensures ok ==> forall v :: Now() == Keyed(q, old(Now()), first, Member(q.quote(key), v), true)
    {
      hide JsonScan.NamesIn, Sound, Valid, Keyed;
      ok, key, now, at := false, [], seen, 0;
      var found := KeyText(e, doc);
      if found.None? {
        return;
      }
      key := found.value;
      ok, now := Distinct(key, base, seen);
      if ok {
        ok, at := Spell(key, e.key.AliasKey?, first);
      }
    }

    /** What is written is v, which n means, wherever it is. */
    twostate predicate Means(v: Json, depth: nat, name: nat, levels: nat)
      reads this
    {
      && Now() == Wrote(q, old(Now()), v, name) && levels == Levels(v) && depth + levels <= MAX_DEPTH + 1 &&
         Printable(v)
      && Valid() && KeptAfter(old(|nodes|)) && names == old(names)
    }

    /** A node whose members are being written. */
    ghost predicate Pending(o: Output, node: JsonText.Node)
      reads this
    {
      Now() == o.(nodes := o.nodes + [node]) && Valid() && forall id :: id in written ==> written[id].next <= |o.nodes|
    }

    /** The members written of a container, each known. */
    twostate predicate During(o: Output, node: JsonText.Node, es: seq<Entry>, keyed: bool, i: nat, done: seq<Member>,
        keys: set<Bytes>, levels: nat, depth: nat)
      requires i <= |es|
      reads this
    {
      && MeaningAll(q, doc, es, keyed, {}, old(known)) == Then(done, MeaningAll(q, doc, es[i..], keyed, keys, known))
      && Now() == WroteAll(q, Opening(o, keyed, node), done, keyed)
      && PrintableAll(done, keyed) && levels == 1 + LevelsAll(done) && depth + levels <= MAX_DEPTH + 1
      && Valid() && KeptAfter(|o.nodes| + 1)
    }

    /** Entries, the first i written, fit where those left do in the room left. */
    twostate predicate Fitting(es: seq<Entry>, keyed: bool, i: nat, keys: set<Bytes>, depth: nat)
      requires i <= |es|
      reads this
    {
      && Room(Left())
      && (FitsAll(q, doc, es, keyed, {}, old(known), depth, old(Left())) <==>
          FitsAll(q, doc, es[i..], keyed, keys, known, depth, Left()))
      && Less(old(Left()), AddedAll(q, doc, es, keyed, old(known))) ==
         Less(Left(), AddedAll(q, doc, es[i..], keyed, known))
    }

    /** The entries fit, if ok, and what they add is counted. */
    twostate predicate Counted(es: seq<Entry>, keyed: bool, depth: nat, ok: bool)
      reads this
    {
      && (ok <==> FitsAll(q, doc, es, keyed, {}, old(known), depth, old(Left())))
      && (ok ==> Left() == Less(old(Left()), AddedAll(q, doc, es, keyed, old(known))) && Room(Left()))
    }

    /** The members written, and the bracket, and what is noted of the container. */
    twostate predicate Ends(o: Output, node: JsonText.Node, es: seq<Entry>, keyed: bool, levels: nat, depth: nat)
      reads this
    {
      var m := MeaningAll(q, doc, es, keyed, {}, old(known));
      && m.Some? && m.value.1 == known && Now() == Closed(q, o, m.value.0, keyed, node)
      && PrintableAll(m.value.0, keyed) && levels == 1 + LevelsAll(m.value.0) && depth + levels <= MAX_DEPTH + 1
      && Valid() && KeptAfter(|o.nodes| + 1) && names == old(names)
    }

    /** Writes a sequence, depth levels deep. */
    method Sequence(es: seq<Entry>, depth: nat, ghost o: Output, ghost node: JsonText.Node)
        returns (levels: nat, ok: bool)
      requires Sound(q) && Numbered(doc) && ProperAll(es) && NamedAll(es) <= named && depth <= MAX_DEPTH &&
        Pending(o, node)
      requires Room(Left())
      modifies this
      ensures Counted(es, false, depth, ok)
      ensures ok ==> Ends(o, node, es, false, levels, depth)
      decreases es, 0
    {
      hide Recorded, Wrote, WroteAll, Ordered, Printable, PrintableAll, Sound, Levels, LevelsAll, Meaning,
        MeaningAll, Fits, FitsAll, Added, AddedAll, Proper, Named1, ProperAll, NamedAll, BigRef, Valid, Less, Room;
      ghost var done, keys: set<Bytes>, part := [], {}, Opening(o, false, node);
      Byte(ARRAY);
      WroteNone(q, part, false);
      ThenNone(MeaningAll(q, doc, es, false, {}, known));
      assert es[0..] == es;
      Nil(false);
      levels := 1;
      for i := 0 to |es|
        invariant During(o, node, es, false, i, done, keys, levels, depth) && names == old(names) && |done| == i
        invariant Fitting(es, false, i, keys, depth)
      {
        ghost var before := Now();
        if i > 0 {
          Byte(COMMA);
        }
        Within(es, i);
        MeaningNext(q, doc, es, i, false, keys, known);
        FitsNext(q, doc, es, i, false, keys, known, depth, Left());
        ghost var was, left := known, Left();
        ghost var m := Member([], if Meaning(q, doc, es[i].value, known).Some?
          then Meaning(q, doc, es[i].value, known).value.0 else Json.Scalar([]));
        CommaKeyed(q, before, done == [], m);
        assert before.text + [] == before.text;
        assert Now() == Keyed(q, before, done == [], m, false);
        WroteLonger(q, part, done, false);
        var nested: nat;
        nested, ok := Value(es[i].value, depth + 1, 0);
        if !ok {
          return;
        }
        ItemFits(q, doc, es, i, keys, was, depth, left, Left());
        WroteMore(q, part, done, m, false);
        Grown(done, m, false);
        ThenMore(done, m, MeaningAll(q, doc, es[i + 1..], false, keys + {[]}, known));
        levels := if nested + 1 > levels then nested + 1 else levels;
        done, keys := done + [m], keys + {[]};
      }
      ThenAll(q, doc, es, false, keys, known, done);
      AllFit(es, false, keys, depth);
      Byte(ARRAY + 2);
      NoBig(q, done);
      ok := true;
    }

    /** Nothing left fits, and adds nothing. */
    lemma AllFit(es: seq<Entry>, keyed: bool, keys: set<Bytes>, depth: nat)
      requires depth <= MAX_DEPTH && Room(Left())
      ensures FitsAll(q, doc, es[|es|..], keyed, keys, known, depth, Left())
      ensures AddedAll(q, doc, es[|es|..], keyed, known) == YamlBounds.NONE
      ensures Less(Left(), AddedAll(q, doc, es[|es|..], keyed, known)) == Left()
    {
      hide FitsAll;
      assert es[|es|..] == [];
      FitsNone(q, doc, keyed, keys, known, depth, Left());
    }

    /** What an entry means, as a member. */
    ghost function MemberOf(e: Entry, key: Bytes, before: map<nat, Json>): Member {
      var m := Meaning(q, doc, e.value, before);
      Member(q.quote(key), if m.Some? then m.value.0 else Json.Scalar([]))
    }

    /** Writes a mapping's entry: its key, which no key before is, and its value. */
    method Pair(e: Entry, base: nat, seen: Option<set<Bytes>>, first: bool, depth: nat)
      returns (ok: bool, key: Bytes, now: Option<set<Bytes>>, nested: nat)
      requires Sound(q) && Numbered(doc) && Proper(e.value) && Named1(e.value) <= named && base <= |names| && Valid()
      requires Room(Left())
      modifies this
      ensures var left := RoomFor(q, doc, e, true, old(Left()));
        && (ok <==> NewKey(e, old(names), base, seen) && Room(left) && Fits(q, doc, e.value, old(known), depth, left))
        && (ok ==> Left() == Less(left, Added(q, doc, e.value, old(known))) && Room(Left()))
      ensures ok ==> Valid() && KeyText(e, doc) == Some(key) && key !in JsonScan.NamesIn(old(names), base, seen)
      ensures ok ==> base <= |names| && names[..base] == old(names[..base])
      ensures ok ==> JsonScan.NamesIn(names, base, now) == JsonScan.NamesIn(old(names), base, seen) + {key}
      ensures ok ==>
        (now.Some? <==> seen.Some? || |old(names)| - base == MANY) &&
        (now.None? ==> |names| == |old(names)| + 1)
      ensures ok ==> Meaning(q, doc, e.value, old(known)).Some? && known == Meaning(q, doc, e.value, old(known)).value.1
      ensures ok ==> var m := MemberOf(e, key, old(known));
        && Now() == Wrote(q, Keyed(q, old(Now()), first, m, true), m.value, |old(text)| + if first then 0 else 1)
        && nested == Levels(m.value) && depth + nested <= MAX_DEPTH + 1 && Printable(m.value)
      ensures ok ==> KeptAfter(old(|nodes|))
      decreases e
    {
      hide Recorded, Wrote, Ordered, Printable, Sound, Levels, Meaning, Proper, Named1, Valid, Keyed,
        JsonScan.NamesIn, Fits, Added;
      nested := 0;
      ghost var o := Now();
      var at: nat;
      ok, key, now, at := Key(e, base, seen, first);
      if !ok {
        return;
      }
      assert Now() == Keyed(q, o, first, MemberOf(e, key, known), true);
      KeyedNodes(q, o, first, MemberOf(e, key, known));
      nested, ok := Value(e.value, depth, at);
    }

    /** Writes the entries of a mapping, and says of them what RefKnown asks: many, and ref. */
    method Entries(es: seq<Entry>, depth: nat, ghost o: Output, ghost node: JsonText.Node)
        returns (levels: nat, ok: bool, many: bool, ref: int)
      requires Sound(q) && Numbered(doc) && ProperAll(es) && NamedAll(es) <= named && depth <= MAX_DEPTH && Valid()
      requires Now() == Opening(o, true, node) && forall id :: id in written ==> written[id].next <= |o.nodes|
      requires Room(Left())
      modifies this
      ensures Counted(es, true, depth, ok)
      ensures ok ==> var m := MeaningAll(q, doc, es, true, {}, old(known));
        && m.Some? && m.value.1 == known && Now() == WroteAll(q, Opening(o, true, node), m.value.0, true)
        && PrintableAll(m.value.0, true) && levels == 1 + LevelsAll(m.value.0) && depth + levels <= MAX_DEPTH + 1
        && RefKnown(q, Now(), m.value.0, ref) && (many <==> |m.value.0| > MANY)
      ensures ok ==> Valid() && KeptAfter(|o.nodes| + 1) && names == old(names)
      decreases es, 0
    {
      hide Recorded, Wrote, WroteAll, Ordered, Printable, PrintableAll, Sound, Levels, LevelsAll, Meaning,
        MeaningAll, Fits, FitsAll, Added, AddedAll, Proper, Named1, ProperAll, NamedAll, Valid, RefKnown, Keyed,
        JsonScan.NamesIn, Less, Room;
      ghost var done, part := [], Opening(o, true, node);
      var base, seen := |names|, None;
      ref, many := -1, false;
      WroteNone(q, part, true);
      ThenNone(MeaningAll(q, doc, es, true, {}, known));
      assert es[0..] == es;
      Nil(true);
      NoKeys(names);
      RefNone(q, Now());
      levels := 1;
      for i := 0 to |es|
        invariant base == |old(names)| <= |names| && names[..base] == old(names) && |done| == i
        invariant During(o, node, es, true, i, done, JsonScan.NamesIn(names, base, seen), levels, depth)
        invariant Fitting(es, true, i, JsonScan.NamesIn(names, base, seen), depth)
        invariant if seen.Some? then i > MANY else i <= MANY && |names| == base + i
        invariant RefKnown(q, Now(), done, ref) && InKeys(q, done, JsonScan.NamesIn(names, base, seen))
      {
        ghost var before, keys, was, left := Now(), JsonScan.NamesIn(names, base, seen), known, Left();
        var next := |nodes|;
        Within(es, i);
        MeaningNext(q, doc, es, i, true, keys, known);
        FitsNext(q, doc, es, i, true, keys, known, depth, left);
        WroteLonger(q, part, done, true);
        var key: Bytes, nested: nat;
        ok, key, seen, nested := Pair(es[i], base, seen, i == 0, depth + 1);
        if !ok {
          return;
        }
        ghost var m := MemberOf(es[i], key, was);
        AddedNext(q, doc, es, i, true, was, left);
        WroteMore(q, part, done, m, true);
        Grown(done, m, true);
        ThenMore(done, m, MeaningAll(q, doc, es[i + 1..], true, keys + {key}, known));
        QuoteBack(q, key);
        RefMore(q, before, done, m, ref, keys, |before.text| + if i == 0 then 0 else 1);
        if key == REF {
          ref := next;
        }
        levels := if nested + 1 > levels then nested + 1 else levels;
        done := done + [m];
      }
      ThenAll(q, doc, es, true, JsonScan.NamesIn(names, base, seen), known, done);
      AllFit(es, true, JsonScan.NamesIn(names, base, seen), depth);
      Forget(base);
      many, ok := seen.Some?, true;
    }

    /** The same for a mapping, at that depth; all of its keys become strings. */
    method Mapping(es: seq<Entry>, depth: nat, ghost o: Output, ghost node: JsonText.Node)
        returns (levels: nat, ok: bool)
      requires Sound(q) && Numbered(doc) && ProperAll(es) && NamedAll(es) <= named && depth <= MAX_DEPTH &&
        Pending(o, node)
      requires Room(Left())
      modifies this
      ensures Counted(es, true, depth, ok)
      ensures ok ==> Ends(o, node, es, true, levels, depth)
      decreases es, 1
    {
      hide Recorded, Wrote, WroteAll, Ordered, Printable, PrintableAll, Sound, Levels, LevelsAll, Meaning,
        MeaningAll, Fits, FitsAll, Added, AddedAll, Proper, Named1, ProperAll, NamedAll, BigRef, Valid;
      var self := |nodes| - 1;
      Byte(OBJECT);
      var many: bool, ref: int;
      levels, ok, many, ref := Entries(es, depth, o, node);
      if !ok {
        return;
      }
      ghost var ms := MeaningAll(q, doc, es, true, {}, old(known)).value.0;
      ghost var all := WroteAll(q, Opening(o, true, node), ms, true);
      BigIs(q, Now(), ms, ref);
      Byte(OBJECT + 2);
      assert ref >= 0 ==> text[nodes[ref].start] == all.text[all.nodes[ref].start];
      if many && ref >= 0 && text[nodes[ref].start] == QUOTE {
        Note(self);
      }
      assert all.bigs + [] == all.bigs;
    }

    /** Records an object of many members with a string $ref. */
    method Note(self: nat)
      requires Valid()
      modifies this`bigRefs
      ensures bigRefs == old(bigRefs) + [self] && Valid()
    {
      hide Recorded, Printable;
      ghost var o := Now();
      bigRefs := bigRefs + [self];
      ValidGrows(o);
    }

    /** Writes the value of an alias to the node to: by a copy if it has been written, for the first time if it is a
        scalar that has not, as when it served for a key; an alias within to is refused. */
    method Alias(to: nat, depth: nat, name: nat) returns (levels: nat, ok: bool)
      requires Valid() && Sound(q) && Numbered(doc) && to in named && depth <= MAX_DEPTH && Room(Left())
      modifies this
      ensures ok <==> Fits(q, doc, Yaml.Alias(to), old(known), depth, old(Left()))
      ensures ok ==> Left() == Less(old(Left()), Added(q, doc, Yaml.Alias(to), old(known))) && Room(Left())
      ensures ok ==>
        Meaning(q, doc, Yaml.Alias(to), old(known)).Some? &&
        Meaning(q, doc, Yaml.Alias(to), old(known)).value.1 == known
      ensures ok ==> Means(Meaning(q, doc, Yaml.Alias(to), old(known)).value.0, depth, name, levels)
    {
      hide Recorded, Wrote, Ordered, Printable, Sound, Levels, Proper;
      levels, ok := 1, true;
      var key := to !in written && to in doc && doc[to].Scalar?;
      if key {
        ghost var o := Now();
        Scalar(doc[to], name);
        ScalarWrote(q, o, doc[to], name);
      } else if to !in written {
        return levels, false;
      } else {
        LevelsKept(q, Now(), written[to], known[to]);
        if depth + written[to].levels > MAX_DEPTH + 1 {
          return levels, false;
        }
      }
      var w := written[to];
      InRange(q, Now(), w, known[to]);
      LevelsKept(q, Now(), w, known[to]);
      ok := Count(w.next - w.first, w.end - w.start);
      if !ok || key {
        return;
      }
      ghost var o, v := Now(), known[to];
      WroteGrows(q, o, v, name);
      Copy(w, name, v);
      ValidGrows(o);
      levels := w.levels;
    }

    /** Sets where what is not under a container starts. */
    method SetNext(at: nat)
      requires Valid() && Clear(at) && at < |nodes|
      modifies this`nodes
      ensures nodes == old(nodes)[at := old(nodes)[at].(next := |nodes|)] && Valid()
    {
      hide Recorded, Printable;
      ghost var o, n := Now(), nodes[at].(next := |nodes|);
      forall id | id in written ensures Recorded(q, o.(nodes := o.nodes[at := n]), written[id], known[id]) {
        RecordedElsewhere(q, o, at, n, written[id], known[id]);
      }
      nodes := nodes[at := nodes[at].(next := |nodes|)];
    }

    /** Begins a container's node. */
    method Begin(node: JsonText.Node)
      requires Valid()
      modifies this`nodes
      ensures Pending(old(Now()), node) && Clear(old(|nodes|))
    {
      hide Recorded, Printable;
      ghost var o := Now();
      forall id | id in written ensures written[id].next <= |o.nodes| {
        InRange(q, o, written[id], known[id]);
      }
      nodes := nodes + [node];
      ValidGrows(o);
    }

    /** Writes n at that depth, under the name at name where it has one, and tells the levels of what it wrote. */
    method Value(n: Yaml.Node, depth: nat, name: nat) returns (levels: nat, ok: bool)
      requires Valid() && Sound(q) && Numbered(doc) && Proper(n) && Named1(n) <= named && Room(Left())
      modifies this
      ensures ok <==> Fits(q, doc, n, old(known), depth, old(Left()))
      ensures ok ==> Left() == Less(old(Left()), Added(q, doc, n, old(known))) && Room(Left())
      ensures ok ==> Meaning(q, doc, n, old(known)).Some? && Meaning(q, doc, n, old(known)).value.1 == known
      ensures ok ==> Means(Meaning(q, doc, n, old(known)).value.0, depth, name, levels)
      decreases n
    {
      hide Fits, Added;
      levels, ok := 1, depth <= MAX_DEPTH;
      if !ok {
        TooDeep(q, doc, n, known, depth, Left());
        return;
      }
      match n
      case Alias(to) =>
        levels, ok := Alias(to, depth, name);
      case Scalar(_, _, _) =>
        hide Recorded, Wrote, Ordered, Printable, Sound, Proper;
        ghost var o := Now();
        FitsScalar(q, doc, n, known, depth, Left());
        Scalar(n, name);
        ScalarWrote(q, o, n, name);
      case Collection(id, keyed, entries) =>
        levels, ok := Container(id, keyed, entries, depth, name);
    }

    method Container(id: nat, keyed: bool, entries: seq<Entry>, depth: nat, name: nat) returns (levels: nat, ok: bool)
      requires Valid() && Sound(q) && Numbered(doc) && ProperAll(entries) && NamedAll(entries) <= named &&
        depth <= MAX_DEPTH
      requires Room(Left())
      modifies this
      ensures var n := Yaml.Collection(id, keyed, entries);
        && (ok <==> Fits(q, doc, n, old(known), depth, old(Left())))
        && (ok ==> Left() == Less(old(Left()), Added(q, doc, n, old(known))) && Room(Left()))
      ensures var m := Meaning(q, doc, Yaml.Collection(id, keyed, entries), old(known));
        ok ==> m.Some? && m.value.1 == known && Means(m.value.0, depth, name, levels)
      decreases entries, 2
    {
      hide Recorded, Wrote, WroteAll, Ordered, PrintableAll, Sound, LevelsAll, MeaningAll, Valid, ProperAll,
        NamedAll, BigRef, Fits, FitsAll, Added, AddedAll;
      ghost var o, node := Now(), JsonText.Node(|text|, 0, name);
      var first, start, firstRef := |nodes|, |text|, |bigRefs|;
      KeptNow();
      FitsContainer(q, doc, id, keyed, entries, known, depth, Left());
      Begin(JsonText.Node(|text|, 0, name));
      if keyed {
        levels, ok := Mapping(entries, depth, o, node);
      } else {
        levels, ok := Sequence(entries, depth, o, node);
      }
      if !ok {
        return;
      }
      ghost var ms := MeaningAll(q, doc, entries, keyed, {}, old(known)).value.0;
      ContainerWrote(q, o, ms, keyed, name, node);
      ClosedNode(q, o, ms, keyed, node);
      SetNext(first);
      Keep(id, levels, o, Json.Container(keyed, ms), name, first, start, firstRef);
    }
  }

  lemma LevelsKept(q: Strings, o: Output, w: Written, v: Json)
    requires Recorded(q, o, w, v)
    ensures w.levels == Levels(v) && w.next - w.first == Count(v) && w.end - w.start == |Print(v)|
  {
    hide Print, Levels, Bigs, Marks, TreeOf, Count;
    SizeCount(v, w.start, o.nodes[w.first].name);
  }

  lemma ClosedNode(q: Strings, o: Output, ms: seq<Member>, keyed: bool, node: JsonText.Node)
    ensures var p := Closed(q, o, ms, keyed, node); |o.nodes| < |p.nodes| && p.nodes[|o.nodes|] == node
  {
  }

  /** Members before, and those to come. */
  function Then(done: seq<Member>, r: Option<(seq<Member>, map<nat, Json>)>): Option<(seq<Member>, map<nat, Json>)> {
    if r.Some? then Some((done + r.value.0, r.value.1)) else None
  }

  lemma ThenNone(r: Option<(seq<Member>, map<nat, Json>)>)
    ensures Then([], r) == r
  {
    if r.Some? {
      assert [] + r.value.0 == r.value.0;
    }
  }

  lemma ThenMore(done: seq<Member>, m: Member, r: Option<(seq<Member>, map<nat, Json>)>)
    ensures Then(done, if r.Some? then Some(([m] + r.value.0, r.value.1)) else None) == Then(done + [m], r)
  {
    if r.Some? {
      assert done + ([m] + r.value.0) == done + [m] + r.value.0;
    }
  }

  lemma ThenAll(q: Strings, doc: Nodes, es: seq<Entry>, keyed: bool, keys: set<Bytes>, known: map<nat, Json>,
      done: seq<Member>)
    ensures Then(done, MeaningAll(q, doc, es[|es|..], keyed, keys, known)) == Some((done, known))
  {
    assert es[|es|..] == [] && done + [] == done;
  }

  lemma WroteNone(q: Strings, o: Output, keyed: bool)
    ensures WroteAll(q, o, [], keyed) == o
  {
    NoNodes(|o.nodes|);
  }

  lemma WroteLonger(q: Strings, o: Output, ms: seq<Member>, keyed: bool)
    ensures o.nodes <= WroteAll(q, o, ms, keyed).nodes && o.text <= WroteAll(q, o, ms, keyed).text
  {
  }

  lemma KeyedIs(q: Strings, o: Output, first: bool, key: Bytes, v: Json)
    requires Sound(q)
    ensures var comma := if first then [] else [COMMA];
      Keyed(q, o, first, Member(q.quote(key), v), true) ==
        Output(o.text + comma + q.quote(key) + [COLON], o.nodes,
               o.escapes + if q.marks(key) then [|o.text + comma|] else [], o.bigs)
  {
    hide Sound;
    QuoteBack(q, key);
    Sequences.Group(o.text + if first then [] else [COMMA], q.quote(key), [COLON]);
  }

  lemma CommaKeyed(q: Strings, o: Output, first: bool, m: Member)
    ensures Keyed(q, o, first, m, false) == o.(text := o.text + if first then [] else [COMMA])
  {
  }

  /** The next entry's meaning. */
  lemma MeaningNext(q: Strings, doc: Nodes, es: seq<Entry>, i: nat, keyed: bool, keys: set<Bytes>,
      known: map<nat, Json>)
    requires i < |es|
    ensures var key := if keyed then KeyText(es[i], doc) else Some([]);
      var v := Meaning(q, doc, es[i].value, known);
      MeaningAll(q, doc, es[i..], keyed, keys, known) ==
        if key.None? || (keyed && key.value in keys) || v.None? then None
        else
          var r := MeaningAll(q, doc, es[i + 1..], keyed, keys + {key.value}, v.value.1);
          if r.None? then None
          else Some(([Member(if keyed then q.quote(key.value) else [], v.value.0)] + r.value.0, r.value.1))
  {
    hide *;
    MeaningFirst(q, doc, es[i..], keyed, keys, known);
    assert es[i..][0] == es[i] && es[i..][1..] == es[i + 1..];
  }

  lemma {:induction false} Within(es: seq<Entry>, i: nat)
    requires i < |es|
    ensures Named1(es[i].value) <= NamedAll(es) && (ProperAll(es) ==> Proper(es[i].value))
    decreases |es|
  {
    hide Proper, Named1;
    if i > 0 {
      Within(es[1..], i - 1);
    }
  }

  lemma {:induction false} Grown(ms: seq<Member>, m: Member, keyed: bool)
    ensures LevelsAll(ms + [m]) == if Levels(m.value) > LevelsAll(ms) then Levels(m.value) else LevelsAll(ms)
    ensures PrintableAll(ms + [m], keyed) <==> PrintableAll(ms, keyed) && Printable(m.value)
    decreases |ms|
  {
    hide Levels, Printable;
    if ms == [] {
      assert [] + [m] == [m] && [m][1..] == [] && LevelsAll([m][1..]) == 0 && PrintableAll([m][1..], keyed);
    } else {
      assert (ms + [m])[1..] == ms[1..] + [m];
      Grown(ms[1..], m, keyed);
    }
  }

  lemma Nil(keyed: bool)
    ensures LevelsAll([]) == 0 && PrintableAll([], keyed)
  {
  }

  lemma NoKeys(names: seq<Bytes>)
    ensures JsonScan.NamesIn(names, |names|, None) == {} && names[..|names|] == names
  {
  }

  /** Where the value of a $ref member is, if there is one: whether it is a string. */
  ghost predicate RefKnown(q: Strings, o: Output, done: seq<Member>, ref: int) {
    && (ref < 0 ==> forall k :: 0 <= k < |done| ==> q.decode(done[k].name) != REF)
    && (ref >= 0 ==> ref < |o.nodes| && o.nodes[ref].start < |o.text|)
    && (ref >= 0 ==> (o.text[o.nodes[ref].start] == QUOTE <==> exists k :: 0 <= k < |done| && IsRef(q, done[k])))
  }

  ghost predicate InKeys(q: Strings, done: seq<Member>, keys: set<Bytes>) {
    forall k :: 0 <= k < |done| ==> q.decode(done[k].name) in keys
  }

  lemma RefNone(q: Strings, o: Output)
    ensures RefKnown(q, o, [], -1) && InKeys(q, [], {})
  {
  }

  lemma PrintFirst(v: Json)
    requires Printable(v)
    ensures Print(v) != [] && (v.Scalar? ==> v.text != []) &&
      (Print(v)[0] == QUOTE <==> v.Scalar? && v.text[0] == QUOTE)
  {
  }

  /** A member more, whose key is none of those before. */
  lemma RefMore(q: Strings, o: Output, done: seq<Member>, m: Member, ref: int, keys: set<Bytes>, at: nat)
    requires RefKnown(q, o, done, ref) && InKeys(q, done, keys) && q.decode(m.name) !in keys && Printable(m.value)
    ensures var p := Keyed(q, o, done == [], m, true);
      RefKnown(q, Wrote(q, p, m.value, at), done + [m], if q.decode(m.name) == REF then |o.nodes| else ref)
    ensures InKeys(q, done + [m], keys + {q.decode(m.name)})
  {
    hide Print, Flatten, Marks, Bigs, Printable;
    PrintFirst(m.value);
    var p := Keyed(q, o, done == [], m, true);
    var w, all := Wrote(q, p, m.value, at), done + [m];
    assert all[|done|] == m && forall k :: 0 <= k < |done| ==> all[k] == done[k];
    assert o.text <= p.text <= w.text && o.nodes <= w.nodes;
    if q.decode(m.name) == REF {
      assert w.nodes[|o.nodes|] == Flatten(TreeOf(m.value, |p.text|, at), |o.nodes|)[0];
      FlattenFirst(TreeOf(m.value, |p.text|, at), |o.nodes|);
      assert w.text[|p.text|] == Print(m.value)[0];
      assert IsRef(q, m) <==> Print(m.value)[0] == QUOTE;
      if k :| 0 <= k < |all| && IsRef(q, all[k]) {
        assert k == |done|;
      }
    } else {
      if k :| 0 <= k < |all| && IsRef(q, all[k]) {
        assert IsRef(q, done[k]);
      }
      if k :| 0 <= k < |done| && IsRef(q, done[k]) {
        assert IsRef(q, all[k]);
      }
    }
  }

  lemma BigIs(q: Strings, o: Output, ms: seq<Member>, ref: int)
    requires RefKnown(q, o, ms, ref)
    ensures BigRef(q, Container(true, ms)) <==> |ms| > MANY && ref >= 0 && o.text[o.nodes[ref].start] == QUOTE
    ensures ref >= 0 ==> ref < |o.nodes| && o.nodes[ref].start < |o.text|
  {
    if k :| 0 <= k < |ms| && IsRef(q, ms[k]) {
      assert q.decode(ms[k].name) == REF;
    }
  }

  lemma KeyedNodes(q: Strings, o: Output, first: bool, m: Member)
    ensures Keyed(q, o, first, m, true).nodes == o.nodes
  {
  }

  lemma FlattenFirst(t: Tree, at: nat)
    ensures Flatten(t, at)[0].start == t.start
  {
  }

  lemma NoBig(q: Strings, ms: seq<Member>)
    ensures !BigRef(q, Container(false, ms))
  {
  }

  function Closed(q: Strings, o: Output, ms: seq<Member>, keyed: bool, node: JsonText.Node): Output {
    var p := WroteAll(q, Opening(o, keyed, node), ms, keyed);
    Output(p.text + [Close(keyed)], p.nodes, p.escapes, p.bigs + if BigRef(q, Container(keyed, ms)) then [|o.nodes|]
      else [])
  }

  lemma KeyGrows(o: Output, p: Output, t: Bytes, marks: seq<nat>)
    requires Ordered(o) && t != [] && (marks == [] || marks == [|o.text|])
    ensures p == Output(o.text + t, o.nodes, o.escapes + marks, o.bigs) ==> Grows(o, p) && Ordered(p)
  {
  }

  lemma QuoteBack(q: Strings, s: Bytes)
    requires Sound(q)
    ensures q.decode(q.quote(s)) == s && Quoted(q.quote(s))
  {
  }

  lemma ScalarWrote(q: Strings, o: Output, n: Yaml.Node, name: nat)
    requires n.Scalar? && Proper(n) && Sound(q)
    ensures var v := ScalarValue(q, n);
      && Printable(v) && Levels(v) == 1
      && Wrote(q, o, v, name) == Output(o.text + v.text, o.nodes + [JsonText.Node(|o.text|, |o.nodes| + 1, name)],
           o.escapes + (if n.plain.None? && q.marks(n.spelled) then [|o.text|] else []), o.bigs)
  {
    var v := ScalarValue(q, n);
    NoNodes(|o.nodes| + 1);
    SizeCount(v, |o.text|, name);
    assert Flatten(TreeOf(v, |o.text|, name), |o.nodes|) == [JsonText.Node(|o.text|, |o.nodes| + 1, name)];
    assert Quoted(q.quote(n.spelled)) && q.decode(q.quote(n.spelled)) == n.spelled;
  }
}
