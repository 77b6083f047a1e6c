/** Collection parameters as their readers take them apart, level by level, at the separators of Swagger 2.0. */
module CollectionReads {
  import opened Ascii
  import opened Collections
  import opened CollectionWriter
  import Delimiters

  /** The separator of a format. */
  function Sign(f: Format): (d: byte) {
    match f
    case Csv => 44
    case Ssv => 32
    case Tsv => 9
    case Pipes => 124
    case Multi => 38
    case Unknown => 0
  }

  /** A collection as deep as its formats say, nothing of it undefined. */
  ghost predicate Uniform(v: Value, formats: seq<Format>)
    decreases v
  {
    if formats == [] then v.Scalar?
    else v.List? && v.items != [] && forall i :: 0 <= i < |v.items| ==> Uniform(v.items[i], formats[1..])
  }

  /** None of its scalars has any of signs. */
  ghost predicate Free(v: Value, text: Bytes -> Bytes, signs: set<byte>)
    decreases v
  {
    match v
    case Scalar(s) => forall c :: c in signs ==> c !in text(s)
    case List(items) => forall i :: 0 <= i < |items| ==> Free(items[i], text, signs)
    case _ => true
  }

  /** Its scalars, as text spells them. */
  function Spelled(v: Value, text: Bytes -> Bytes): Value
    decreases v
  {
    match v
    case Scalar(s) => Scalar(text(s))
    case List(items) => List(seq(|items|, i requires 0 <= i < |items| => Spelled(items[i], text)))
    case _ => v
  }

  /** What a reader makes of s: a list of what is between the outermost level's signs, each read by the levels under. */
  function Unjoin(s: Bytes, formats: seq<Format>): Value
    decreases |formats|
  {
    if formats == [] then Scalar(s)
    else
      var parts := Delimiters.Split(s, [Sign(formats[0])]);
      List(seq(|parts|, i requires 0 <= i < |parts| => Unjoin(parts[i], formats[1..])))
  }

  lemma {:induction false} SplitJoined(xs: seq<Bytes>, c: byte)
    requires xs != [] && forall x :: x in xs ==> c !in x
    ensures Delimiters.Split(Joined(xs, [c]), [c]) == xs
    decreases |xs|
  {
    assert xs[0] in xs;
    if |xs| == 1 {
      SplitLast(xs[0], c);
    } else {
      var rest := Joined(xs[1..], [c]);
      assert forall x :: x in xs[1..] ==> x in xs;
      SplitJoined(xs[1..], c);
      SplitFirst(xs[0], c, rest);
    }
  }

  lemma NotAt(x: Bytes, c: byte, rest: Bytes, j: nat)
    requires c !in x && j < |x|
    ensures !Delimiters.Occurs(x + rest, [c], j)
  {
    if Delimiters.Occurs(x + rest, [c], j) {
      Delimiters.OccursAt(x + rest, [c], j, 0);
    }
  }

  lemma SplitLast(x: Bytes, c: byte)
    requires c !in x
    ensures Delimiters.Split(x, [c]) == [x]
  {
    forall j | 0 <= j <= |x|
      ensures !Delimiters.Occurs(x, [c], j)
    {
      if j < |x| {
        NotAt(x, c, [], j);
        assert x + [] == x;
      }
    }
    Delimiters.FindNone(x, [c]);
  }

  lemma SplitFirst(x: Bytes, c: byte, rest: Bytes)
    requires c !in x
    ensures Delimiters.Split(x + [c] + rest, [c]) == [x] + Delimiters.Split(rest, [c])
  {
    var s := x + [c] + rest;
    assert s == x + ([c] + rest) && s[|x|..|x| + 1] == [c];
    forall j | 0 <= j < |x|
      ensures !Delimiters.Occurs(s, [c], j)
    {
      NotAt(x, c, [c] + rest, j);
    }
    Delimiters.FindIs(s, [c], |x|);
    assert s[..|x|] == x && s[|x| + 1..] == rest;
  }

  lemma {:induction false} JoinedFree(xs: seq<Bytes>, d: byte, c: byte)
    requires (forall x :: x in xs ==> c !in x) && c != d
    ensures c !in Joined(xs, [d])
    decreases |xs|
  {
    if xs != [] {
      assert xs[0] in xs && forall x :: x in xs[1..] ==> x in xs;
      JoinedFree(xs[1..], d, c);
    }
  }

  ghost predicate Apart(formats: seq<Format>) {
    && (forall i :: 0 <= i < |formats| ==> formats[i] != Multi && formats[i] != Unknown)
    && forall i, j :: 0 <= i < j < |formats| ==> formats[i] != formats[j]
  }

  ghost function Signs(formats: seq<Format>): set<byte> {
    set f | f in formats :: Sign(f)
  }

  /** A collection is read back by splitting at its formats' signs, if those are different and none of its scalars has
      one. */
  lemma {:induction false} JoinedReads(v: Value, formats: seq<Format>, text: Bytes -> Bytes, between: Format -> Bytes,
      signs: set<byte>)
    requires Uniform(v, formats) && Apart(formats) && Free(v, text, signs) && Signs(formats) <= signs
    requires forall f :: f in formats ==> between(f) == Delimiter(f)
    ensures |Values(v, formats, text, between)| == 1
    ensures var x := Values(v, formats, text, between)[0];
      Unjoin(x, formats) == Spelled(v, text) && forall c :: c in signs - Signs(formats) ==> c !in x
    decreases v
  {
    if formats != [] {
      var inner := formats[1..];
      assert formats[0] in formats && forall f :: f in inner ==> f in formats;
      assert Apart(inner) && Signs(inner) <= Signs(formats);
      SignOnce(formats);
      var xs := ItemsRead(v.items, inner, text, between, signs);
      var d := Sign(formats[0]);
      hide Uniform, Free;
      assert between(formats[0]) == [d];
      SplitJoined(xs, d);
      UnjoinJoined(v, xs, formats, text);
      forall c | c in signs - Signs(formats)
        ensures c !in Joined(xs, [d])
      {
        JoinedFree(xs, d, c);
      }
    }
  }

  lemma UnjoinJoined(v: Value, xs: seq<Bytes>, formats: seq<Format>, text: Bytes -> Bytes)
    requires v.List? && formats != [] && |xs| == |v.items|
    requires Delimiters.Split(Joined(xs, [Sign(formats[0])]), [Sign(formats[0])]) == xs
    requires forall i :: 0 <= i < |xs| ==> Unjoin(xs[i], formats[1..]) == Spelled(v.items[i], text)
    ensures Unjoin(Joined(xs, [Sign(formats[0])]), formats) == Spelled(v, text)
  {
    hide Delimiters.Split, Joined;
  }

  lemma SignOnce(formats: seq<Format>)
    requires formats != [] && Apart(formats)
    ensures Sign(formats[0]) in Signs(formats) && Sign(formats[0]) !in Signs(formats[1..])
    ensures Signs(formats) == {Sign(formats[0])} + Signs(formats[1..])
  {
    var more := formats[1..];
    assert formats == [formats[0]] + more;
    forall f | f in more
      ensures f != formats[0] && f != Multi && f != Unknown
    {
      var i :| 0 <= i < |more| && more[i] == f;
      assert formats[i + 1] == f;
    }
  }

  lemma {:induction false} ItemsRead(vs: seq<Value>, formats: seq<Format>, text: Bytes -> Bytes,
      between: Format -> Bytes,
      signs: set<byte>) returns (xs: seq<Bytes>)
    requires (forall i :: 0 <= i < |vs| ==> Uniform(vs[i], formats) && Free(vs[i], text, signs))
    requires Apart(formats) && Signs(formats) <= signs && forall f :: f in formats ==> between(f) == Delimiter(f)
    ensures xs == AllValues(vs, formats, text, between) && |xs| == |vs|
    ensures forall i :: 0 <= i < |vs| ==> Unjoin(xs[i], formats) == Spelled(vs[i], text)
    ensures forall x, c :: x in xs && c in signs - Signs(formats) ==> c !in x
    decreases vs
  {
    hide Uniform, Free, Values, Unjoin, Spelled, Signs, Apart;
    xs := [];
    if vs != [] {
      JoinedReads(vs[0], formats, text, between, signs);
      var x := Values(vs[0], formats, text, between)[0];
      assert Values(vs[0], formats, text, between) == [x];
      xs := ItemsRead(vs[1..], formats, text, between, signs);
      assert forall i :: 0 < i < |vs| ==> vs[i] == vs[1..][i - 1];
      xs := [x] + xs;
    }
  }

  // Parameters repeated.

  const AMPERSAND: byte := 38

  function Pairs(name: Bytes, xs: seq<Bytes>): (ps: seq<Bytes>)
    ensures |ps| == |xs| && forall i :: 0 <= i < |xs| ==> ps[i] == name + [61] + xs[i]
  {
    seq(|xs|, i requires 0 <= i < |xs| => name + [61] + xs[i])
  }

  lemma {:induction false} PairsRead(name: Bytes, xs: seq<Bytes>)
    requires xs != [] && AMPERSAND !in name && forall x :: x in xs ==> AMPERSAND !in x
    ensures Delimiters.Split(name + [61] + Joined(xs, [AMPERSAND] + (name + [61])), [AMPERSAND]) == Pairs(name, xs)
    decreases |xs|
  {
    var x := name + [61] + xs[0];
    assert xs[0] in xs && AMPERSAND !in x;
    if |xs| == 1 {
      SplitLast(x, AMPERSAND);
    } else {
      var rest := name + [61] + Joined(xs[1..], [AMPERSAND] + (name + [61]));
      assert forall x :: x in xs[1..] ==> x in xs;
      PairsRead(name, xs[1..]);
      SplitFirst(x, AMPERSAND, rest);
      assert name + [61] + Joined(xs, [AMPERSAND] + (name + [61])) == x + [AMPERSAND] + rest;
      assert Pairs(name, xs) == [x] + Pairs(name, xs[1..]);
    }
  }

  /** A query parameter of format multi is written as one pair for each item, each read back by the levels under. */
  lemma MultiReads(w: Writer, items: seq<Value>, formats: seq<Format>, signs: set<byte>) returns (xs: seq<Bytes>)
    requires w.query && items != [] && formats != [] && formats[0] == Multi && AMPERSAND !in w.name &&
      AMPERSAND in signs
    requires Apart(formats[1..]) && Signs(formats[1..]) <= signs && AMPERSAND !in Signs(formats[1..])
    requires forall i :: 0 <= i < |items| ==> Uniform(items[i], formats[1..]) && Free(items[i], w.escape, signs)
    requires forall f :: f in formats[1..] ==> w.Between(f) == Delimiter(f)
    ensures xs == w.Vals(List(items), formats) && |xs| == |items|
    ensures w.Start(false) + Joined(xs, w.Again()) == w.lead + (w.name + [61] + Joined(xs, w.Again()))
    ensures Delimiters.Split(w.name + [61] + Joined(xs, w.Again()), [AMPERSAND]) == Pairs(w.name, xs)
    ensures forall i :: 0 <= i < |items| ==> Unjoin(xs[i], formats[1..]) == Spelled(items[i], w.escape)
  {
    hide Uniform, Free, Unjoin, Spelled, Apart, Signs;
    xs := ItemsRead(items, formats[1..], w.escape, w.Betweens(), signs);
    assert w.Again() == [AMPERSAND] + (w.name + [61]);
    PairsRead(w.name, xs);
  }

  // One list.

  function Scalars(ts: seq<Bytes>): (vs: seq<Value>)
    ensures |vs| == |ts| && forall i :: 0 <= i < |ts| ==> vs[i] == Scalar(ts[i])
  {
    seq(|ts|, i requires 0 <= i < |ts| => Scalar(ts[i]))
  }

  function Escaped(ts: seq<Bytes>, escape: Bytes -> Bytes): (xs: seq<Bytes>)
    ensures |xs| == |ts| && forall i :: 0 <= i < |ts| ==> xs[i] == escape(ts[i])
  {
    seq(|ts|, i requires 0 <= i < |ts| => escape(ts[i]))
  }

  lemma {:induction false} ScalarsGive(w: Writer, ts: seq<Bytes>, formats: seq<Format>)
    ensures w.AllVals(Scalars(ts), formats) == Escaped(ts, w.escape)
    decreases |ts|
  {
    if ts == [] {
      assert Escaped(ts, w.escape) == [];
    } else {
      ScalarsGive(w, ts[1..], formats);
      assert w.Vals(Scalars(ts)[0], formats) == [w.escape(ts[0])];
      assert Scalars(ts)[1..] == Scalars(ts[1..]);
      assert Escaped(ts, w.escape) == [w.escape(ts[0])] + Escaped(ts[1..], w.escape);
    }
  }

  /** A list of scalars is written as its items, escaped, with the sign of its format between, which is escaped as well
      unless it is a comma, that of a list of no format; or, of format multi, as so many values of the parameter. */
  lemma ListGives(w: Writer, ts: seq<Bytes>, f: Format)
    requires ts != [] && f != Unknown
    ensures w.Vals(List(Scalars(ts)), [f]) ==
      var xs := Escaped(ts, w.escape);
      match f
      case Multi => xs
      case Csv => [Joined(xs, Of(","))]
      case Ssv => [Joined(xs, w.escape(Of(" ")))]
      case Tsv => [Joined(xs, w.escape(Of("\t")))]
      case Pipes => [Joined(xs, w.escape(Of("|")))]
      case _ => []
    ensures w.Vals(List(Scalars(ts)), []) == w.Vals(List(Scalars(ts)), [Csv])
    ensures w.Again() == Of("&") + if w.query then w.name + Of("=") else []
    ensures w.Start(true) == w.lead + if w.query then w.name + (if w.nameOnly then [] else Of("=")) else []
    ensures w.Start(false) == w.lead + if w.query then w.name + Of("=") else []
  {
    hide Joined, Escaped;
    Spelt();
    ListVals(w, ts, [f]);
    ListVals(w, ts, []);
    ListVals(w, ts, [Csv]);
  }

  lemma ListVals(w: Writer, ts: seq<Bytes>, formats: seq<Format>)
    requires ts != [] && |formats| <= 1
    ensures var (xs, f) := (Escaped(ts, w.escape), FormatOf(formats));
      w.Vals(List(Scalars(ts)), formats) == if f == Multi then xs else [Joined(xs, w.Between(f))]
  {
    hide AllValues, Joined, Escaped;
    ScalarsGive(w, ts, ItemFormats(formats));
    assert w.AllVals(Scalars(ts), ItemFormats(formats)) == Escaped(ts, w.escape);
  }

  lemma Spelt()
    ensures Of(",") == [44] && Of(" ") == [32] && Of("\t") == [9] && Of("|") == [124]
    ensures Of("&") == [38] && Of("=") == [61]
  {
  }
}
