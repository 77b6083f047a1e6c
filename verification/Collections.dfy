/** Swagger collection parameters: nested arrays joined from the inside out, and written as they are read. */
module Collections {
  import opened Ascii

  const MAX_DEPTH: nat := 1000

  /** A parameter's value, as JSON data; an object's members without their names. */
  datatype Value = Null | Scalar(text: Bytes) | List(items: seq<Value>) | Object(members: seq<Value>)

  /** How a level of Items serializes its array. */
  datatype Format = Csv | Ssv | Tsv | Pipes | Multi | Unknown

  /** How an undescribed level does, and those under a level. */
  function FormatOf(formats: seq<Format>): Format {
    if formats == [] then Csv else formats[0]
  }

  function ItemFormats(formats: seq<Format>): seq<Format> {
    if formats == [] then [] else formats[1..]
  }

  function Delimiter(f: Format): Bytes {
    match f
    case Csv => [COMMA]
    case Ssv => [SPACE]
    case Tsv => [9]
    case Pipes => [124]
    case Multi => [38]
    case Unknown => []
  }

  /** Section 2.3 of RFC 6570 calls v defined: an array with an item, an object with a defined member, any scalar. */
  predicate Defined(v: Value) {
    match v
    case Null => false
    case Scalar(_) => true
    case List(items) => items != []
    case Object(members) => exists i :: 0 <= i < |members| && Defined(members[i])
  }

  function Joined(xs: seq<Bytes>, sep: Bytes): Bytes {
    if xs == [] then [] else if |xs| == 1 then xs[0] else xs[0] + sep + Joined(xs[1..], sep)
  }

  // The recursive definition.

  /** A collection's values, joined from the inside out, but those of a multi level, which are its own; scalars and
      delimiters as text gives and between spells them. */
  function Values(v: Value, formats: seq<Format>, text: Bytes -> Bytes, between: Format -> Bytes): seq<Bytes>
    decreases v
  {
    match v
    case Null => []
    case Object(_) => []
    case Scalar(s) => [text(s)]
    case List(items) =>
      if items == [] then []
      else
        var xs := AllValues(items, ItemFormats(formats), text, between);
        if FormatOf(formats) == Multi then xs else [Joined(xs, between(FormatOf(formats)))]
  }

  function AllValues(vs: seq<Value>, formats: seq<Format>, text: Bytes -> Bytes, between: Format -> Bytes): seq<Bytes>
    decreases vs
  {
    if vs == [] then [] else Values(vs[0], formats, text, between) + AllValues(vs[1..], formats, text, between)
  }

  /** What can be serialized: no object with anything defined, no format unknown. */
  predicate Legal(v: Value, formats: seq<Format>)
    decreases v
  {
    match v
    case Null => true
    case Scalar(_) => true
    case Object(_) => !Defined(v)
    case List(items) =>
      items == [] ||
        (FormatOf(formats) != Unknown && forall i :: 0 <= i < |items| ==> Legal(items[i], ItemFormats(formats)))
  }

  function Levels(v: Value): (n: nat)
    ensures n > 0
    decreases v
  {
    match v
    case List(items) => 1 + LevelsAll(items)
    case Object(members) => 1 + LevelsAll(members)
    case _ => 1
  }

  function LevelsAll(vs: seq<Value>): nat
    decreases vs
  {
    if vs == [] then 0 else if Levels(vs[0]) > LevelsAll(vs[1..]) then Levels(vs[0]) else LevelsAll(vs[1..])
  }

  /** Only the outermost level is multi. */
  predicate MultiOutermost(formats: seq<Format>) {
    forall i :: 1 <= i < |formats| ==> formats[i] != Multi
  }

  // What values one after another come to.

  /** Values, the first after one separator, the others each after another. */
  function Out(first: Bytes, sep: Bytes, xs: seq<Bytes>): Bytes
    decreases |xs|
  {
    if xs == [] then [] else first + xs[0] + Out(sep, sep, xs[1..])
  }

  lemma {:induction false} OutMore(first: Bytes, sep: Bytes, xs: seq<Bytes>, ys: seq<Bytes>)
    ensures Out(first, sep, xs + ys) == Out(first, sep, xs) + Out(if xs == [] then first else sep, sep, ys)
    decreases |xs|
  {
    if xs == [] {
      assert xs + ys == ys;
    } else {
      assert (xs + ys)[1..] == xs[1..] + ys;
      OutMore(sep, sep, xs[1..], ys);
      assert first + xs[0] + (Out(sep, sep, xs[1..]) + Out(sep, sep, ys)) ==
        first + xs[0] + Out(sep, sep, xs[1..]) + Out(sep, sep, ys);
    }
  }

  lemma {:induction false} OutJoined(first: Bytes, sep: Bytes, xs: seq<Bytes>)
    requires xs != []
    ensures Out(first, sep, xs) == first + Joined(xs, sep)
    decreases |xs|
  {
    if |xs| == 1 {
      assert Out(sep, sep, xs[1..]) == [];
    } else {
      OutJoined(sep, sep, xs[1..]);
      assert first + xs[0] + (sep + Joined(xs[1..], sep)) == first + (xs[0] + sep + Joined(xs[1..], sep));
    }
  }

  lemma NothingJoined(sep: Bytes)
    ensures Joined([], sep) == []
  {
  }

  lemma OutOne(first: Bytes, sep: Bytes, x: Bytes)
    ensures Out(first, sep, [x]) == first + x
  {
    OutJoined(first, sep, [x]);
  }

  lemma {:induction false} AllValuesAppend(vs: seq<Value>, v: Value, formats: seq<Format>, text: Bytes -> Bytes,
      between: Format -> Bytes)
    ensures AllValues(vs + [v], formats, text, between) ==
      AllValues(vs, formats, text, between) + Values(v, formats, text, between)
    decreases |vs|
  {
    if vs == [] {
      assert [v][1..] == [] && [] + [v] == [v] && AllValues([], formats, text, between) == [];
    } else {
      assert (vs + [v])[1..] == vs[1..] + [v];
      AllValuesAppend(vs[1..], v, formats, text, between);
    }
  }

  lemma {:induction false} LevelsOf(vs: seq<Value>, i: nat)
    requires i < |vs|
    ensures Levels(vs[i]) <= LevelsAll(vs)
    decreases |vs|
  {
    if i > 0 {
      LevelsOf(vs[1..], i - 1);
    }
  }

  lemma {:induction false} AllValuesSplit(vs: seq<Value>, i: nat, formats: seq<Format>, text: Bytes -> Bytes,
      between: Format -> Bytes)
    requires i <= |vs|
    ensures AllValues(vs, formats, text, between) ==
      AllValues(vs[..i], formats, text, between) + AllValues(vs[i..], formats, text, between)
    decreases i
  {
    hide Values;
    if i == 0 {
      assert vs[..0] == [] && vs[0..] == vs && AllValues([], formats, text, between) == [];
    } else {
      AllValuesSplit(vs, i - 1, formats, text, between);
      AllValuesAppend(vs[..i - 1], vs[i - 1], formats, text, between);
      assert vs[..i] == vs[..i - 1] + [vs[i - 1]] && vs[i - 1..][1..] == vs[i..] && vs[i - 1..][0] == vs[i - 1];
      var a, x, c := AllValues(vs[..i - 1], formats, text, between), Values(vs[i - 1], formats, text, between),
        AllValues(vs[i..], formats, text, between);
      assert a + (x + c) == a + x + c;
    }
  }

  /** A collection given, be it defined or not: an array of something, or a scalar. */
  predicate Given(v: Value) {
    v.Scalar? || (v.List? && v.items != [])
  }

  /** It, or its values, can be written as depth levels deep. */
  predicate Allowed(v: Value, formats: seq<Format>, depth: nat) {
    Legal(v, formats) && depth + Levels(v) <= 1_000 + 1
  }

  predicate AllAllowed(vs: seq<Value>, formats: seq<Format>, depth: nat) {
    forall i :: 0 <= i < |vs| ==> Allowed(vs[i], formats, depth)
  }

  lemma {:induction false} LevelsMost(vs: seq<Value>, n: nat)
    requires forall i :: 0 <= i < |vs| ==> Levels(vs[i]) <= n
    ensures LevelsAll(vs) <= n
    decreases |vs|
  {
    if vs != [] {
      LevelsMost(vs[1..], n);
    }
  }

  /** An array can be written if its items can, a level deeper. */
  lemma ListAllowed(items: seq<Value>, formats: seq<Format>, depth: nat)
    ensures Allowed(List(items), formats, depth) <==>
      depth <= MAX_DEPTH &&
        (items == [] || (FormatOf(formats) != Unknown && AllAllowed(items, ItemFormats(formats), depth + 1)))
  {
    if items == [] {
      assert LevelsAll(items) == 0;
    } else if Legal(List(items), formats) {
      forall i | 0 <= i < |items| ensures Levels(items[i]) <= LevelsAll(items) {
        LevelsOf(items, i);
      }
      if AllAllowed(items, ItemFormats(formats), depth + 1) && depth <= MAX_DEPTH {
        forall i | 0 <= i < |items| ensures Levels(items[i]) <= MAX_DEPTH - depth {
          assert Allowed(items[i], ItemFormats(formats), depth + 1);
        }
        LevelsMost(items, MAX_DEPTH - depth);
      }
    }
  }

  /** An object can be written if its members can, a level deeper, and none is defined. */
  lemma ObjectAllowed(members: seq<Value>, formats: seq<Format>, depth: nat)
    ensures Allowed(Object(members), formats, depth) <==>
      depth <= MAX_DEPTH && forall i :: 0 <= i < |members| ==> Allowed(members[i], [], depth + 1) && !Given(members[i])
  {
    forall i | 0 <= i < |members|
      ensures Levels(members[i]) <= LevelsAll(members)
      ensures !Defined(members[i]) <==> Legal(members[i], []) && !Given(members[i])
    {
      LevelsOf(members, i);
      if members[i].List? && members[i].items == [] {
        assert Legal(members[i], []);
      }
    }
    if depth <= MAX_DEPTH && forall i :: 0 <= i < |members| ==> Allowed(members[i], [], depth + 1) {
      forall i | 0 <= i < |members| ensures Levels(members[i]) <= MAX_DEPTH - depth {
        assert Allowed(members[i], [], depth + 1);
      }
      LevelsMost(members, MAX_DEPTH - depth);
    }
  }

  lemma GivenValues(v: Value, formats: seq<Format>, text: Bytes -> Bytes, between: Format -> Bytes)
    requires FormatOf(formats) != Multi
    ensures Given(v) <==> Values(v, formats, text, between) != []
  {
  }
}
