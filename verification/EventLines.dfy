/** What the lines of server-sent events say, by how they are written: whatever a field's name, with a colon or without,
    with the space after it or without. */
module EventLines {
  import opened Wrappers
  import opened Ascii
  import opened Framing
  import opened EventStream

  /** A line: a field's name, a colon if one is written, a space after it if that is, and a value. Without a name it is
      a comment. */
  datatype Line = Line(name: Bytes, colon: bool, space: bool, value: Bytes)

  function Text(l: Line): Bytes {
    l.name + (if l.colon then [58] else []) + (if l.space then [32] else []) + l.value
  }

  /** No line end is in it, and it is what its parts say: the colon is the first, and only one space can be left out of
      a value. */
  predicate Proper(l: Line) {
    && (forall i :: 0 <= i < |l.name| ==> l.name[i] !in {10, 13, 58})
    && (forall i :: 0 <= i < |l.value| ==> l.value[i] !in {10, 13})
    && (!l.colon ==> l.name != [] && !l.space && l.value == [])
    && (l.colon && !l.space && l.value != [] ==> l.value[0] != 32)
  }

  /** Every line that is not empty is one, in one way. */
  lemma LineOf(s: Bytes) returns (l: Line)
    requires s != [] && forall i :: 0 <= i < |s| ==> s[i] !in {10, 13}
    ensures Proper(l) && Text(l) == s
  {
    var i := Index(s, COLON);
    if i == |s| {
      l := Line(s, false, false, []);
      assert s + [] + [] + [] == s;
    } else {
      var rest := s[i + 1..];
      var space := rest != [] && rest[0] == 32;
      l := Line(s[..i], true, space, if space then rest[1..] else rest);
      Cut(s, i, l);
    }
  }

  lemma Cut(s: Bytes, i: nat, l: Line)
    requires i < |s| && s[i] == 58 && l.colon && l.name == s[..i]
    requires s[i + 1..] == (if l.space then [32] else []) + l.value
    ensures Text(l) == s
  {
    assert s == s[..i] + [58] + s[i + 1..];
    Whole(l.name, if l.space then [32] else [], l.value, s[i + 1..]);
  }

  lemma Whole(name: Bytes, a: Bytes, b: Bytes, rest: Bytes)
    requires rest == a + b
    ensures name + [58] + a + b == name + [58] + rest
  {
  }

  lemma OneWay(l: Line, m: Line)
    requires Proper(l) && Proper(m) && Text(l) == Text(m)
    ensures l == m
  {
    Read(l);
    Read(m);
    assert l.colon ==> Text(l)[|l.name| + 1..] == (if l.space then [32] else []) + l.value;
    assert m.colon ==> Text(m)[|m.name| + 1..] == (if m.space then [32] else []) + m.value;
  }

  /** What is read of a line is what is written in it. */
  lemma Read(l: Line)
    requires Proper(l)
    ensures Text(l) != [] && Index(Text(l), COLON) == |l.name|
    ensures Text(l)[..|l.name|] == l.name && FieldValue(Text(l)) == l.value
  {
    var s := Text(l);
    IndexIs(s, COLON, |l.name|);
    if l.colon {
      assert s[|l.name| + 1..] == (if l.space then [32] else []) + l.value;
    }
  }

  // The fields.

  predicate Has(l: Line, name: string)
    requires forall i :: 0 <= i < |name| ==> name[i] as int < 128
  {
    l.name == Of(name)
  }

  predicate Data(l: Line) {
    Has(l, "data")
  }

  predicate Type(l: Line) {
    Has(l, "event")
  }

  /** An id with a NUL byte is none. */
  predicate Id(l: Line) {
    Has(l, "id") && forall i :: 0 <= i < |l.value| ==> l.value[i] != 0
  }

  /** So is a time to retry after that is not decimal digits. */
  predicate Retry(l: Line) {
    Has(l, "retry") && l.value != [] && forall i :: 0 <= i < |l.value| ==> 48 <= l.value[i] <= 57
  }

  /** The data lines' values, each after the first on a line of its own. */
  function DataOf(decode: Bytes -> Bytes, ls: seq<Line>): Option<Bytes> {
    if ls == [] then None
    else
      var before, last := DataOf(decode, ls[..|ls| - 1]), ls[|ls| - 1];
      if !Data(last) then before
      else if before.None? then Some(decode(last.value))
      else Some(before.value + [10] + decode(last.value))
  }

  /** r is digits v, its leading zeros dropped. */
  predicate Spells(v: Bytes, r: Bytes) {
    AllDigits(v) && AllDigits(r) && Number(r) == Number(v) && (r == [48] || (r != [] && r[0] != 48))
  }

  /** The fields of lines: of data, all values; of event, id and retry the last that counts. Other lines say nothing. */
  ghost predicate Mean(decode: Bytes -> Bytes, ls: seq<Line>, e: Fields) {
    e.data == DataOf(decode, ls) && TypeIs(decode, ls, e.typ) && IdIs(decode, ls, e.id) && RetryIs(ls, e.retry)
  }

  ghost predicate TypeIs(decode: Bytes -> Bytes, ls: seq<Line>, typ: Option<Bytes>) {
    && (typ.None? <==> forall k :: 0 <= k < |ls| ==> !Type(ls[k]))
    && forall k :: 0 <= k < |ls| && Type(ls[k]) && (forall j :: k < j < |ls| ==> !Type(ls[j])) ==>
         typ == Some(decode(ls[k].value))
  }

  ghost predicate IdIs(decode: Bytes -> Bytes, ls: seq<Line>, id: Option<Bytes>) {
    && (id.None? <==> forall k :: 0 <= k < |ls| ==> !Id(ls[k]))
    && forall k :: 0 <= k < |ls| && Id(ls[k]) && (forall j :: k < j < |ls| ==> !Id(ls[j])) ==>
         id == Some(decode(ls[k].value))
  }

  ghost predicate RetryIs(ls: seq<Line>, retry: Option<Bytes>) {
    && (retry.None? <==> forall k :: 0 <= k < |ls| ==> !Retry(ls[k]))
    && forall k :: 0 <= k < |ls| && Retry(ls[k]) && (forall j :: k < j < |ls| ==> !Retry(ls[j])) ==>
         retry.Some? && Spells(ls[k].value, retry.value)
  }

  lemma Known()
    ensures DATA == Of("data") && EVENT == Of("event") && ID == Of("id") && RETRY == Of("retry")
  {
  }

  lemma {:induction false} Trimmed(v: Bytes)
    requires AllDigits(v) && v != []
    ensures Spells(v, if TrimZeros(v) == [] then [48] else TrimZeros(v))
  {
    NumberTrim(v, []);
    if TrimZeros(v) == [] {
      assert Number([48]) == 10 * Number([48][..0]);
      assert TrimZeros(v) + [] == [];
    } else {
      assert TrimZeros(v) + [] == TrimZeros(v);
      TrimStarts(v);
    }
    assert v + [] == v;
  }

  /** What one line makes of the fields. */
  lemma Said(decode: Bytes -> Bytes, e: Fields, l: Line)
    requires Proper(l)
    ensures var f := Field(decode, e, Text(l));
      && f.data == (if !Data(l) then e.data
                    else Some((if e.data.Some? then e.data.value + [10] else []) + decode(l.value)))
      && f.typ == (if Type(l) then Some(decode(l.value)) else e.typ)
      && f.id == (if Id(l) then Some(decode(l.value)) else e.id)
      && (if Retry(l) then f.retry.Some? && Spells(l.value, f.retry.value) else f.retry == e.retry)
  {
    hide Spells, FieldValue, TrimZeros;
    Known();
    Read(l);
    if AllDigits(l.value) && l.value != [] {
      Trimmed(l.value);
    }
  }

  function Texts(ls: seq<Line>): (ts: seq<Bytes>)
    ensures |ts| == |ls| && forall i :: 0 <= i < |ls| ==> ts[i] == Text(ls[i])
  {
    seq(|ls|, i requires 0 <= i < |ls| => Text(ls[i]))
  }

  /** What lines make of the fields is what they mean. */
  lemma {:induction false} LinesMean(decode: Bytes -> Bytes, ls: seq<Line>)
    requires forall i :: 0 <= i < |ls| ==> Proper(ls[i])
    ensures Mean(decode, ls, Apply(decode, UNSET, Texts(ls)))
    decreases |ls|
  {
    hide Field, Text, Data, Type, Id, Retry, Spells, Proper, Mean, Apply;
    if ls == [] {
      ApplyCons(decode, UNSET, [], []);
      NoneMean(decode);
    } else {
      var n := |ls| - 1;
      var before, last := ls[..n], ls[n];
      var e := Apply(decode, UNSET, Texts(before));
      LinesMean(decode, before);
      Said(decode, e, last);
      ApplyAppend(decode, UNSET, Texts(before), [Text(last)]);
      ApplyCons(decode, e, Text(last), []);
      ApplyCons(decode, Field(decode, e, Text(last)), [], []);
      assert [Text(last)] + [] == [Text(last)] && Texts(ls) == Texts(before) + [Text(last)];
      MeanMore(decode, before, last, e, Field(decode, e, Text(last)));
      assert before + [last] == ls;
    }
  }

  lemma NoneMean(decode: Bytes -> Bytes)
    ensures Mean(decode, [], UNSET)
  {
  }

  lemma MeanMore(decode: Bytes -> Bytes, ls: seq<Line>, l: Line, e: Fields, f: Fields)
    requires Mean(decode, ls, e)
    requires f.data == (if !Data(l) then e.data
                        else Some((if e.data.Some? then e.data.value + [10] else []) + decode(l.value)))
    requires f.typ == (if Type(l) then Some(decode(l.value)) else e.typ)
    requires f.id == (if Id(l) then Some(decode(l.value)) else e.id)
    requires if Retry(l) then f.retry.Some? && Spells(l.value, f.retry.value) else f.retry == e.retry
    ensures Mean(decode, ls + [l], f)
  {
    hide Data, Type, Id, Retry, Spells, TypeIs, IdIs, RetryIs;
    assert (ls + [l])[..|ls|] == ls && (ls + [l])[|ls|] == l;
    assert [] + decode(l.value) == decode(l.value);
    TypeMore(decode, ls, l, e.typ);
    IdMore(decode, ls, l, e.id);
    RetryMore(ls, l, e.retry, f.retry);
  }

  lemma TypeMore(decode: Bytes -> Bytes, ls: seq<Line>, l: Line, typ: Option<Bytes>)
    requires TypeIs(decode, ls, typ)
    ensures TypeIs(decode, ls + [l], if Type(l) then Some(decode(l.value)) else typ)
  {
    hide Type;
    assert (ls + [l])[|ls|] == l && forall k :: 0 <= k < |ls| ==> (ls + [l])[k] == ls[k];
  }

  lemma IdMore(decode: Bytes -> Bytes, ls: seq<Line>, l: Line, id: Option<Bytes>)
    requires IdIs(decode, ls, id)
    ensures IdIs(decode, ls + [l], if Id(l) then Some(decode(l.value)) else id)
  {
    hide Id;
    assert (ls + [l])[|ls|] == l && forall k :: 0 <= k < |ls| ==> (ls + [l])[k] == ls[k];
  }

  lemma RetryMore(ls: seq<Line>, l: Line, retry: Option<Bytes>, after: Option<Bytes>)
    requires RetryIs(ls, retry) && if Retry(l) then after.Some? && Spells(l.value, after.value) else after == retry
    ensures RetryIs(ls + [l], after)
  {
    hide Retry, Spells;
    assert (ls + [l])[|ls|] == l && forall k :: 0 <= k < |ls| ==> (ls + [l])[k] == ls[k];
  }
}
