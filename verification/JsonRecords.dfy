/** JSON text sequences of JSON texts as the grammar writes them, over many lines or one: which are read,
    and as what. */
module JsonRecords {
  import opened Wrappers
  import opened Ascii
  import opened Framing
  import opened JsonScalars
  import opened JsonGrammar
  import opened JsonSequence
  import JsonNumbers
  import Sequences

  // What is lexed of a JSON text.

  /** No line of s may end a record that was lexed to l, and m is lexed then. */
  predicate Through(l: Lexed, s: Bytes, m: Lexed) {
    Stop(l, s) == |s| && LexAll(l, s) == m
  }

  lemma ThroughJoin(l: Lexed, a: Bytes, m: Lexed, b: Bytes, n: Lexed)
    requires Through(l, a, m) && Through(m, b, n)
    ensures Through(l, a + b, n)
  {
    hide Stop, LexAll;
    StopSplit(l, a, b);
    LexSplit(l, a, b);
  }

  lemma ThroughNone(l: Lexed)
    ensures Through(l, [], l)
  {
  }

  lemma ThroughByte(l: Lexed, c: byte)
    requires c != RS && c != LF
    ensures Through(l, [c], Lex(l, c))
  {
    hide Lex;
    assert [c][1..] == [];
    ThroughNone(Lex(l, c));
  }

  lemma {:induction false} SpacesThrough(l: Lexed, a: Bytes)
    requires Spaces(a) && !l.quoted && (l.depth > 0 || !l.begun || LF !in a)
    ensures Through(l, a, l)
    decreases |a|
  {
    if a == [] {
      ThroughNone(l);
    } else {
      assert a[0] in a;
      SpacesThrough(l, a[1..]);
    }
  }

  /** Bytes outside strings that are none of JSON's own, not all of none. */
  lemma {:induction false} WordThrough(l: Lexed, s: Bytes)
    requires !l.quoted && forall i :: 0 <= i < |s| ==> s[i] > 32 && s[i] !in {34, 91, 93, 123, 125}
    ensures Through(l, s, if s == [] then l else l.(begun := true))
    decreases |s|
  {
    if s == [] {
      ThroughNone(l);
    } else {
      WordThrough(l.(begun := true), s[1..]);
      ThroughByte(l, s[0]);
      ThroughJoin(l, [s[0]], l.(begun := true), s[1..], l.(begun := true));
      assert s == [s[0]] + s[1..];
    }
  }

  lemma CharThrough(l: Lexed, c: Char)
    requires CharGood(c) && l.quoted && !l.escape
    ensures Through(l, CharText(c), l)
  {
    hide Stop, LexAll;
    match c
    case Plain(b) => ThroughByte(l, b);
    case Short(b) =>
      ShortOnes(b);
      EscapeThrough(l, b);
    case Long(hex) =>
      EscapeThrough(l, 117);
      PlainThrough(l, hex);
      ThroughJoin(l, [92, 117], l, hex, l);
  }

  lemma EscapeThrough(l: Lexed, b: byte)
    requires l.quoted && !l.escape && b >= 32
    ensures Through(l, [92, b], l)
  {
    hide Stop, LexAll;
    ThroughByte(l, 92);
    ThroughByte(l.(escape := true), b);
    ThroughJoin(l, [92], l.(escape := true), [b], l);
    assert [92] + [b] == [92, b];
  }

  lemma {:induction false} PlainThrough(l: Lexed, s: Bytes)
    requires l.quoted && !l.escape && forall i :: 0 <= i < |s| ==> s[i] >= 32 && s[i] != 34 && s[i] != 92
    ensures Through(l, s, l)
    decreases |s|
  {
    if s == [] {
      ThroughNone(l);
    } else {
      PlainThrough(l, s[1..]);
    }
  }

  lemma {:induction false} CharsThrough(l: Lexed, cs: seq<Char>)
    requires CharsGood(cs) && l.quoted && !l.escape
    ensures Through(l, CharsText(cs), l)
    decreases |cs|
  {
    hide Through, CharGood, CharText;
    if cs == [] {
      ThroughNone(l);
    } else {
      CharThrough(l, cs[0]);
      CharsThrough(l, cs[1..]);
      ThroughJoin(l, CharText(cs[0]), l, CharsText(cs[1..]), l);
    }
  }

  lemma StringThrough(l: Lexed, text: Bytes)
    requires IsString(text) && !l.quoted && !l.escape
    ensures Through(l, text, l.(begun := true))
  {
    hide Through, CharsGood, CharsText;
    var cs :| CharsGood(cs) && text == [34] + CharsText(cs) + [34];
    var q := l.(quoted := true, begun := true);
    ThroughByte(l, 34);
    CharsThrough(q, cs);
    ThroughByte(q, 34);
    ThroughJoin(l, [34], q, CharsText(cs), q);
    ThroughJoin(l, [34] + CharsText(cs), q, [34], l.(begun := true));
  }

  predicate NumberByte(c: byte) {
    c in {43, 45, 46, 69, 101} || 48 <= c <= 57
  }

  lemma NumberBytes(text: Bytes)
    requires IsNumber(text)
    ensures text != [] && (text[0] == 45 || 48 <= text[0] <= 57)
    ensures forall i :: 0 <= i < |text| ==> NumberByte(text[i])
  {
    hide JsonNumbers.Exponential;
    var p :| JsonNumbers.Json(p) && text == JsonNumbers.Text(p);
    JsonNumbers.JsonNumber(p);
    ExponentBytes(p.exp);
    FourParts(p.sign, p.whole, if p.point then [46] + p.frac else [], p.exp);
  }

  lemma FourParts(a: Bytes, b: Bytes, c: Bytes, d: Bytes)
    requires forall i :: 0 <= i < |a| ==> NumberByte(a[i])
    requires forall i :: 0 <= i < |b| ==> NumberByte(b[i])
    requires forall i :: 0 <= i < |c| ==> NumberByte(c[i])
    requires forall i :: 0 <= i < |d| ==> NumberByte(d[i])
    ensures var s := a + b + c + d; forall i :: 0 <= i < |s| ==> NumberByte(s[i])
  {
    hide NumberByte;
  }

  lemma ExponentBytes(e: Bytes)
    requires JsonNumbers.Exponential(e)
    ensures forall i :: 0 <= i < |e| ==> NumberByte(e[i])
  {
    if e != [] {
      assert e == [e[0]] + e[1..] && e[1..] == [e[1]] + e[2..];
    }
  }

  lemma ScalarThrough(l: Lexed, text: Bytes)
    requires IsScalar(text) && !l.quoted && !l.escape
    ensures Through(l, text, l.(begun := true))
  {
    hide Through, IsString, IsNumber;
    if IsString(text) {
      StringThrough(l, text);
    } else if IsNumber(text) {
      NumberBytes(text);
      WordThrough(l, text);
    } else {
      WordThrough(l, text);
    }
  }

  /** However many lines a value is written over, none ends before it. */
  lemma {:induction false} ValueThrough(l: Lexed, v: Value)
    requires Good(v) && !l.quoted && !l.escape && l.depth >= 0
    ensures Through(l, Text(v), l.(begun := true))
    decreases v, 0
  {
    hide Through, IsScalar, MemberGood, MembersText, Spaces;
    match v
    case Scalar(text) => ScalarThrough(l, text);
    case Container(keyed, blank, ms) =>
      var open, close := if keyed then 123 else 91, if keyed then 125 else 93;
      var m := l.(depth := l.depth + 1, begun := true);
      ThroughByte(l, open);
      if ms == [] {
        SpacesThrough(m, blank);
        ThroughByte(m, close);
        ThroughJoin(l, [open], m, blank, m);
        ThroughJoin(l, [open] + blank, m, [close], l.(begun := true));
      } else {
        GoodMembers(v);
        MembersThrough(m, ms, keyed);
        ThroughJoin(l, [open], m, MembersText(ms, keyed), l.(begun := true));
      }
  }

  lemma StartThrough(l: Lexed, m: Member, keyed: bool)
    requires MemberGood(m, keyed) && !l.quoted && !l.escape && l.depth > 0 && l.begun
    ensures Through(l, MemberStart(m, keyed), l)
  {
    hide Through, IsString, Spaces;
    SpacesThrough(l, m.before);
    if keyed {
      StringThrough(l, m.name);
      SpacesThrough(l, m.mid);
      ThroughByte(l, 58);
      SpacesThrough(l, m.past);
      ThroughJoin(l, m.name, l, m.mid, l);
      ThroughJoin(l, m.name + m.mid, l, [58], l);
      ThroughJoin(l, m.name + m.mid + [58], l, m.past, l);
      ThroughJoin(l, m.before, l, m.name + m.mid + [58] + m.past, l);
    } else {
      Sequences.Nothing(m.before);
    }
  }

  lemma {:induction false} MembersThrough(l: Lexed, ms: seq<Member>, keyed: bool)
    requires ms != [] && GoodAll(ms, keyed) && !l.quoted && !l.escape && l.depth > 0 && l.begun
    ensures Through(l, MembersText(ms, keyed), l.(depth := l.depth - 1))
    decreases ms, 1
  {
    hide Through, Good, Text, MembersText, MemberStart, Tail;
    var (m, tail) := (ms[0], Tail(ms, keyed));
    var end := l.(depth := l.depth - 1);
    StartThrough(l, m, keyed);
    ValueThrough(l, m.value);
    SpacesThrough(l, m.after);
    TailThrough(l, ms, keyed);
    MembersTextIs(ms, keyed);
    ThroughJoin(l, m.after, l, tail, end);
    ThroughJoin(l, Text(m.value), l, m.after + tail, end);
    ThroughJoin(l, MemberStart(m, keyed), l, Text(m.value) + (m.after + tail), end);
  }

  lemma {:induction false} TailThrough(l: Lexed, ms: seq<Member>, keyed: bool)
    requires ms != [] && GoodAll(ms, keyed) && !l.quoted && !l.escape && l.depth > 0 && l.begun
    ensures Through(l, Tail(ms, keyed), l.(depth := l.depth - 1))
    decreases ms, 0
  {
    hide Through, Good, MembersText, MemberGood;
    if |ms| == 1 {
      ThroughByte(l, if keyed then 125 else 93);
    } else {
      ThroughByte(l, 44);
      MembersThrough(l, ms[1..], keyed);
      ThroughJoin(l, [44], l, MembersText(ms[1..], keyed), l.(depth := l.depth - 1));
    }
  }

  // Records.

  /** A record: space, a value and space after it, and what else there is before the next RS. */
  datatype Part = Part(lead: Bytes, value: Value, trail: Bytes, junk: Bytes)

  function PartText(p: Part): Bytes {
    p.lead + Text(p.value) + p.trail + p.junk
  }

  /** What is not JSON text is on lines after those of the value, and more than space. */
  ghost predicate PartGood(p: Part) {
    && Spaces(p.lead) && Good(p.value) && Spaces(p.trail)
    && RS !in p.junk && (p.junk != [] ==> LF in p.trail && !Spaces(p.junk))
  }

  /** The record's data: up to the first line end after its value, where there is one. */
  function Data(p: Part): Bytes {
    p.lead + Text(p.value) + p.trail[..if Index(p.trail, LF) < |p.trail| then Index(p.trail, LF) + 1 else |p.trail|]
  }

  /** A number or literal with nothing after it may have been cut; what is anything else is an item. */
  ghost predicate MayGoOn(p: Part) {
    p.trail == [] && p.value.Scalar? && (IsNumber(p.value.text) || IsLiteral(p.value.text))
  }

  /** What is read of a part, the last of a sequence that ends so or not: no more where the bound is exceeded, and no
      record that the source failed in. */
  ghost function PartReadings(p: Part, last: bool, bound: nat, end: End): (rs: seq<Reading>)
    ensures rs != []
  {
    var item := if MayGoOn(p) then Cut else Item(Data(p));
    if |Data(p)| > bound then [Over]
    else if LF !in p.trail then [if last && end != EOF then Stopped(end) else item]
    else if |PartText(p)| > bound then [item, Over]
    else if last && end != EOF then [item, Stopped(end)]
    else [item] + if p.junk != [] then [Outside] else []
  }

  ghost function PartsReadings(ps: seq<Part>, bound: nat, end: End): seq<Reading> {
    if ps == [] then [Stopped(end)]
    else
      var rs := PartReadings(ps[0], |ps| == 1, bound, end);
      if Last(rs[|rs| - 1]) then rs else rs + PartsReadings(ps[1..], bound, end)
  }

  ghost function SequenceReadings(before: Bytes, ps: seq<Part>, bound: nat, end: End): seq<Reading> {
    if |before| > bound then [Over]
    else if ps == [] && end != EOF then [Stopped(end)]
    else (if before != [] then [Outside] else []) + PartsReadings(ps, bound, end)
  }

  function PartsText(ps: seq<Part>): Bytes {
    if ps == [] then [] else [30] + PartText(ps[0]) + PartsText(ps[1..])
  }

  /** s is JSON texts, each after an RS, and what is before the first. */
  ghost predicate IsSequence(s: Bytes, before: Bytes, ps: seq<Part>) {
    RS !in before && (forall p :: p in ps ==> PartGood(p)) && s == before + PartsText(ps)
  }

  // What is judged of one.

  lemma {:induction false} TrimSpaces(a: Bytes, d: Bytes)
    requires Spaces(a) && d != [] && !White(d[0])
    ensures TrimLeft(a + d) == d
    decreases |a|
  {
    if a == [] {
      assert a + d == d;
    } else {
      assert (a + d)[1..] == a[1..] + d;
      TrimSpaces(a[1..], d);
    }
  }

  /** Of what is valid, space before it or not: a number or literal that may go on is one that starts as they do and
      ends in no space. */
  lemma JudgedAs(valid: Bytes -> bool, a: Bytes, d: Bytes)
    requires Spaces(a) && d != [] && d[0] !in {9, 10, 13, 32} && valid(d)
    ensures Judged(valid, a + d) ==
      if (d[0] in {45, 116, 102, 110} || 48 <= d[0] <= 57) && d[|d| - 1] !in {9, 10, 13, 32} then Cut else Item(a + d)
  {
    TrimSpaces(a, d);
    assert (a + d)[|a + d| - 1] == d[|d| - 1];
  }

  /** Just a number or literal, after space or not, is taken for one that may go on. */
  lemma CutIs(valid: Bytes -> bool, d: Bytes)
    requires forall x :: valid(x) <==> IsJson(x)
    ensures Judged(valid, d) == Cut <==> exists a, t :: Spaces(a) && (IsNumber(t) || IsLiteral(t)) && d == a + t
  {
    hide IsJson, Text, Good;
    if Judged(valid, d) == Cut {
      var a, t := Trimmed(d);
      assert IsJson(t);
      OnlyScalar(t);
      assert d == a + t;
    }
    if a, t :| Spaces(a) && (IsNumber(t) || IsLiteral(t)) && d == a + t {
      WordJson(t);
      WordEnds(t);
      JudgedAs(valid, a, t);
    }
  }

  lemma {:induction false} Trimmed(d: Bytes) returns (a: Bytes, t: Bytes)
    ensures t == TrimLeft(d) && d == a + t && Spaces(a) && (t != [] ==> !White(t[0]))
    decreases |d|
  {
    if d != [] && White(d[0]) {
      a, t := Trimmed(d[1..]);
      a := [d[0]] + a;
    } else {
      a, t := [], d;
    }
  }

  lemma WordJson(t: Bytes)
    requires IsNumber(t) || IsLiteral(t)
    ensures IsJson(t)
  {
    hide Spaces, IsNumber;
    NoSpaces();
    assert Good(Value.Scalar(t));
    assert t == [] + Text(Value.Scalar(t)) + [];
    assert Writes(t, [], Value.Scalar(t), []);
  }

  lemma NoSpaces()
    ensures Spaces([])
  {
  }

  lemma WordEnds(t: Bytes)
    requires IsNumber(t) || IsLiteral(t)
    ensures t != [] && (t[0] in {45, 116, 102, 110} || 48 <= t[0] <= 57) && t[|t| - 1] !in {9, 10, 13, 32}
  {
    hide IsNumber;
    if IsNumber(t) {
      NumberBytes(t);
      assert NumberByte(t[|t| - 1]);
    }
  }

  lemma OnlyScalar(t: Bytes)
    requires IsJson(t) && t != [] && !White(t[0])
    requires (t[0] == MINUS || Digit(t[0]) || t[0] == 116 || t[0] == 102 || t[0] == 110) && !White(t[|t| - 1])
    ensures IsNumber(t) || IsLiteral(t)
  {
    hide IsNumber, Text, Good;
    var a, v, b :| Writes(t, a, v, b);
    TextStarts(v);
    Outermost(a, Text(v), b);
    assert a == [] && b == [];
    assert t == Text(v);
    ScalarKind(v);
  }

  lemma Outermost(a: Bytes, x: Bytes, b: Bytes)
    requires x != []
    ensures var t := a + x + b; (a != [] ==> t[0] == a[0]) && (b != [] ==> t[|t| - 1] == b[|b| - 1])
  {
  }

  lemma ScalarKind(v: Value)
    requires Good(v) && Text(v) != [] && Text(v)[0] !in {34, 91, 123}
    ensures v.Scalar? && (IsNumber(Text(v)) || IsLiteral(Text(v)))
  {
    hide IsNumber, MembersText, CharsText, CharsGood;
  }

  // What is read of them.

  lemma TextLexed(p: Part)
    requires Spaces(p.lead) && Good(p.value)
    ensures Through(FRESH, p.lead + Text(p.value), FRESH.(begun := true))
  {
    hide Through, Good, Text, Spaces;
    SpacesThrough(FRESH, p.lead);
    ValueThrough(FRESH, p.value);
    ThroughJoin(FRESH, p.lead, FRESH, Text(p.value), FRESH.(begun := true));
  }

  lemma {:induction false} TrailStops(l: Lexed, b: Bytes, rest: Bytes)
    requires Spaces(b) && !l.quoted && l.begun && l.depth == 0 && (rest == [] || rest[0] == RS || LF in b)
    ensures Stop(l, b + rest) == Index(b, LF)
    decreases |b|
  {
    if b == [] {
      assert b + rest == rest;
    } else {
      assert (b + rest)[0] == b[0] && (b + rest)[1..] == b[1..] + rest;
      if b[0] != LF {
        assert LF in b ==> LF in b[1..];
        TrailStops(l, b[1..], rest);
      }
    }
  }

  lemma IndexSome(b: Bytes, c: byte)
    ensures Index(b, c) < |b| <==> c in b
  {
  }

  lemma JsonPart(p: Part, trail: Bytes)
    requires Spaces(p.lead) && Good(p.value) && Spaces(trail)
    ensures IsJson(p.lead + Text(p.value) + trail) && IsJson(Text(p.value) + trail)
  {
    hide Good, Text, Spaces;
    NoSpaces();
    assert Writes(p.lead + Text(p.value) + trail, p.lead, p.value, trail);
    assert [] + Text(p.value) + trail == Text(p.value) + trail;
    assert Writes(Text(p.value) + trail, [], p.value, trail);
  }

  /** The trail of the record's data. */
  function Trail(p: Part): (b: Bytes)
    ensures Data(p) == p.lead + Text(p.value) + b && b <= p.trail
    ensures Spaces(p.trail) ==> Spaces(b) && Spaces(p.trail[|b|..])
    ensures LF in p.trail <==> b != [] && b[|b| - 1] == LF
    ensures LF !in p.trail ==> b == p.trail
    ensures b == [] <==> p.trail == []
  {
    IndexSome(p.trail, LF);
    p.trail[..if Index(p.trail, LF) < |p.trail| then Index(p.trail, LF) + 1 else |p.trail|]
  }

  /** The record that starts with a part is its data, ended by LF, or by RS or the end. */
  lemma RecordOf(valid: Bytes -> bool, p: Part, t: Bytes)
    requires PartGood(p) && (t == [] || t[0] == RS) && forall x :: IsJson(x) ==> valid(x)
    ensures var s, n := PartText(p) + t, |Data(p)|;
      && n <= |PartText(p)| && s[..n] == Data(p) && s[n..] == p.trail[|Trail(p)|..] + p.junk + t
      && Record(valid, s) == (n, if LF in p.trail then Some(LF) else if t == [] then None else Some(RS))
  {
    hide Stop, Good, Text, Spaces, IsJson, Trail;
    var (x, b) := (p.lead + Text(p.value), Trail(p));
    var s := PartText(p) + t;
    StopAt(p, t);
    IndexSome(p.trail, LF);
    DataFirst(x, b, p.trail, p.junk, t);
    JsonPart(p, b);
    StopIs(FRESH, s);
    if LF !in p.trail {
      assert p.junk == [] && s == x + p.trail + t;
      IndexIs(s, RS, |x + p.trail|);
    }
  }

  lemma StopAt(p: Part, t: Bytes)
    requires PartGood(p) && (t == [] || t[0] == RS)
    ensures Stop(FRESH, PartText(p) + t) == |p.lead + Text(p.value)| + Index(p.trail, LF)
  {
    hide Stop, LexAll, Good, Text, Spaces;
    var x, rest := p.lead + Text(p.value), p.junk + t;
    assert PartText(p) + t == x + (p.trail + rest);
    TextLexed(p);
    StopSplit(FRESH, x, p.trail + rest);
    JunkNone(p, t);
    TrailStops(LexAll(FRESH, x), p.trail, rest);
  }

  lemma JunkNone(p: Part, t: Bytes)
    requires (p.junk != [] ==> LF in p.trail) && (t == [] || t[0] == RS)
    ensures var rest := p.junk + t; rest == [] || rest[0] == RS || LF in p.trail
  {
  }

  lemma DataFirst(x: Bytes, b: Bytes, trail: Bytes, junk: Bytes, t: Bytes)
    requires b <= trail
    ensures var s, n := x + trail + junk + t, |x + b|;
      n <= |x + trail + junk| && s[..n] == x + b && s[n..] == trail[|b|..] + junk + t
  {
    assert trail == b + trail[|b|..];
    assert x + trail + junk + t == (x + b) + (trail[|b|..] + junk + t);
  }

  /** It is judged as a part says. */
  lemma PartJudged(valid: Bytes -> bool, p: Part)
    requires PartGood(p) && forall x :: IsJson(x) ==> valid(x)
    ensures Judged(valid, Data(p)) == if MayGoOn(p) then Cut else Item(Data(p))
  {
    hide Good, Text, Spaces, IsJson, Trail, IsNumber, IsLiteral, Judged;
    var b := Trail(p);
    var d := Text(p.value) + b;
    JsonPart(p, b);
    Sequences.Group(p.lead, Text(p.value), b);
    TextStarts(p.value);
    assert d[0] == Text(p.value)[0];
    BlackStart(d[0]);
    JudgedAs(valid, p.lead, d);
    if p.trail == [] {
      assert d == Text(p.value);
      KindIs(p.value);
    } else {
      assert d[|d| - 1] == b[|b| - 1];
      LastSpace(b);
    }
  }

  lemma BlackStart(c: byte)
    requires !White(c)
    ensures c !in {9, 10, 13, 32}
  {
  }

  lemma LastSpace(b: Bytes)
    requires Spaces(b) && b != []
    ensures b[|b| - 1] in {9, 10, 13, 32}
  {
  }

  lemma KindIs(v: Value)
    requires Good(v) && Text(v) != []
    ensures var d := Text(v);
      (v.Scalar? && (IsNumber(v.text) || IsLiteral(v.text))) <==>
      (d[0] in {45, 116, 102, 110} || 48 <= d[0] <= 57) && d[|d| - 1] !in {9, 10, 13, 32}
  {
    hide IsNumber, MembersText, CharsText, CharsGood, MemberGood;
    var d := Text(v);
    if v.Scalar? && (IsNumber(v.text) || IsLiteral(v.text)) {
      WordEnds(v.text);
    } else if d[0] !in {34, 91, 123} {
      ScalarKind(v);
    }
  }

  // Reading one after another.

  lemma Ended(valid: Bytes -> bool, bound: nat, end: End)
    ensures Readings(valid, bound, end, State(true, false, 0, [])) == [Stopped(end)]
  {
    hide NextRecord;
    var s := State(true, false, 0, []);
    assert Stop(FRESH, []) == 0 && Record(valid, []) == (0, None);
    ReadingsOf(valid, bound, end, s);
    NextStarted(valid, bound, end, s);
    NextRecordOf(valid, bound, end, []);
  }

  /** Past a record's line end, the rest of its part is skipped, or is data outside a record, or too long. */
  lemma RestRead(valid: Bytes -> bool, bound: nat, end: End, used: nat, rest: Bytes, t: Bytes)
    requires used <= bound && RS !in rest && (t == [] || t[0] == RS)
    ensures Readings(valid, bound, end, State(true, true, used, rest + t)) ==
      if used + |rest| > bound then [Over]
      else if t == [] && end != EOF then [Stopped(end)]
      else
        (if Blank(rest) then [] else [Outside]) +
          if t == [] then [Stopped(EOF)] else Readings(valid, bound, end, State(true, false, 0, t[1..]))
  {
    hide NextRecord, Blank, Readings;
    var s := State(true, true, used, rest + t);
    FirstIs(s.rest, RS, false, |rest|);
    FramesIs(s.rest, RS, false, bound - used);
    ReadingsOf(valid, bound, end, s);
    if t == [] {
      assert rest + t == rest;
      Ended(valid, bound, end);
    } else {
      var next := State(true, false, 0, t[1..]);
      assert s.rest[..|rest|] == rest && s.rest[|rest| + 1..] == t[1..];
      ReadingsOf(valid, bound, end, next);
      NextStarted(valid, bound, end, next);
    }
  }

  lemma RestBlank(a: Bytes, junk: Bytes)
    requires Spaces(a) && RS !in junk && (junk != [] ==> !Spaces(junk))
    ensures Blank(a + junk) <==> junk == []
    ensures RS !in a + junk
  {
    if junk != [] {
      var i :| 0 <= i < |junk| && junk[i] !in {9, 10, 13, 32};
      assert (a + junk)[|a| + i] == junk[i];
    }
  }

  /** The record a part starts with, and where the reader is past it. */
  lemma PartNext(valid: Bytes -> bool, p: Part, bound: nat, end: End, t: Bytes)
    requires PartGood(p) && (t == [] || t[0] == RS) && forall x :: IsJson(x) ==> valid(x)
    ensures var (r, next) := NextRecord(valid, bound, end, PartText(p) + t);
      && r == (if |Data(p)| > bound then Over
               else if LF !in p.trail && t == [] && end != EOF then Stopped(end)
               else if MayGoOn(p) then Cut else Item(Data(p)))
      && next == if LF in p.trail then State(true, true, |Data(p)|, p.trail[|Trail(p)|..] + p.junk + t)
                 else State(true, false, 0, if t == [] then [] else t[1..])
  {
    hide Record, Judged, IsJson, MayGoOn, NextRecord, Spaces, Good, Trail, Text, Data, PartText;
    var s, n := PartText(p) + t, |Data(p)|;
    RecordOf(valid, p, t);
    PartJudged(valid, p);
    NextRecordOf(valid, bound, end, s);
    DataSome(p);
    if LF !in p.trail {
      NothingPast(p, t);
      PastOne(s, n, t);
    }
  }

  lemma NothingPast(p: Part, t: Bytes)
    requires LF !in p.trail && p.junk == []
    ensures p.trail[|Trail(p)|..] + p.junk + t == t
  {
  }

  lemma PastOne(s: Bytes, n: nat, t: Bytes)
    requires n <= |s| && s[n..] == t
    ensures t != [] ==> n < |s| && s[n + 1..] == t[1..]
  {
  }

  /** What is read of a part, and on. */
  lemma PartRead(valid: Bytes -> bool, p: Part, bound: nat, end: End, t: Bytes)
    requires PartGood(p) && (t == [] || t[0] == RS) && forall x :: IsJson(x) ==> valid(x)
    ensures var rs := PartReadings(p, t == [], bound, end);
      Readings(valid, bound, end, State(true, false, 0, PartText(p) + t)) ==
        if Last(rs[|rs| - 1]) then rs
        else rs + if t == [] then [Stopped(end)] else Readings(valid, bound, end, State(true, false, 0, t[1..]))
  {
    hide Record, Judged, IsJson, PartText, MayGoOn, Readings, NextRecord, Spaces, Good, Trail, Data, Blank;
    var s := State(true, false, 0, PartText(p) + t);
    PartNext(valid, p, bound, end, t);
    ReadingsOf(valid, bound, end, s);
    NextStarted(valid, bound, end, s);
    if |Data(p)| <= bound {
      if LF in p.trail {
        var rest := p.trail[|Trail(p)|..] + p.junk;
        TrailRest(p);
        RestBlank(p.trail[|Trail(p)|..], p.junk);
        DataRest(p);
        RestRead(valid, bound, end, |Data(p)|, rest, t);
      } else if t == [] {
        Ended(valid, bound, end);
      }
    }
  }

  lemma TrailRest(p: Part)
    requires Spaces(p.trail)
    ensures Spaces(p.trail[|Trail(p)|..])
  {
    hide Spaces;
  }

  lemma DataSome(p: Part)
    requires Good(p.value)
    ensures Data(p) != []
  {
    hide Text, Good;
    TextStarts(p.value);
  }

  lemma DataRest(p: Part)
    ensures |Data(p)| + |p.trail[|Trail(p)|..] + p.junk| == |PartText(p)|
  {
    hide Text;
  }

  lemma {:induction false} PartsRead(valid: Bytes -> bool, ps: seq<Part>, bound: nat, end: End)
    requires ps != [] && (forall p :: p in ps ==> PartGood(p)) && forall x :: IsJson(x) ==> valid(x)
    ensures Readings(valid, bound, end, State(true, false, 0, PartsText(ps)[1..])) == PartsReadings(ps, bound, end)
    decreases |ps|
  {
    hide PartGood, IsJson, PartText, PartReadings, Readings;
    var t := PartsText(ps[1..]);
    PartsFirst(ps);
    PartRead(valid, ps[0], bound, end, t);
    if t == [] {
      assert ps[1..] == [];
    } else {
      PartsRead(valid, ps[1..], bound, end);
    }
  }

  lemma PartsFirst(ps: seq<Part>)
    requires ps != []
    ensures ps[0] in ps && forall p :: p in ps[1..] ==> p in ps
    ensures var t := PartsText(ps[1..]);
      PartsText(ps)[1..] == PartText(ps[0]) + t && (t == [] <==> |ps| == 1) && (t != [] ==> t[0] == RS)
  {
    hide PartText;
    assert PartsText(ps) == [30] + (PartText(ps[0]) + PartsText(ps[1..]));
  }

  /** Of a sequence of JSON texts each is read, as an item or as one that may have been cut, and what is
      before the first RS or after a text's line is data outside a record; up to what is too long, or to
      where the source failed. */
  lemma SequenceRead(valid: Bytes -> bool, before: Bytes, ps: seq<Part>, bound: nat, end: End)
    requires RS !in before
    requires (forall p :: p in ps ==> PartGood(p)) && forall x :: IsJson(x) ==> valid(x)
    ensures Readings(valid, bound, end, State(false, false, 0, before + PartsText(ps))) ==
      SequenceReadings(before, ps, bound, end)
  {
    hide PartGood, IsJson, PartText, PartReadings, Readings, NextRecord;
    var t := PartsText(ps);
    var s := State(false, false, 0, before + t);
    FirstIs(s.rest, RS, false, |before|);
    FramesIs(s.rest, RS, false, bound);
    ReadingsOf(valid, bound, end, s);
    if ps == [] {
      assert before + t == before;
      Ended(valid, bound, end);
    } else {
      var next := State(true, false, 0, t[1..]);
      assert s.rest[..|before|] == before && s.rest[|before| + 1..] == t[1..];
      PartsRead(valid, ps, bound, end);
      ReadingsOf(valid, bound, end, next);
      NextStarted(valid, bound, end, next);
    }
  }

  /** Values printed one by one, over whatever lines, are read back. */
  lemma ValuesRead(valid: Bytes -> bool, vs: seq<Value>, bound: nat)
    requires forall v :: v in vs ==> Good(v) && |Text(v)| < bound
    ensures var ds := seq(|vs|, i requires 0 <= i < |vs| => Text(vs[i]));
      Readings(valid, bound, EOF, State(false, false, 0, Print(ds))) == Printed(ds)
  {
    hide Good, Text, Stop, Print, Printed, Readings, LexAll;
    var ds := seq(|vs|, i requires 0 <= i < |vs| => Text(vs[i]));
    forall d | d in ds
      ensures Stop(FRESH, d) == |d| && |d| < bound
    {
      var i :| 0 <= i < |ds| && ds[i] == d;
      assert vs[i] in vs;
      ValueThrough(FRESH, vs[i]);
    }
    PrintReads(valid, ds, bound);
  }

  /** However a source cuts a text, its records are those of the text: of JSON texts, what they say. */
  method Read(chunks: seq<Bytes>, end: End, valid: Bytes -> bool, bound: nat) returns (rs: seq<Reading>)
    requires forall i :: 0 <= i < |chunks| ==> chunks[i] != []
    ensures rs == Readings(valid, bound, end, State(false, false, 0, Join(chunks)))
    ensures (forall x :: IsJson(x) ==> valid(x)) ==>
      forall before, ps :: IsSequence(Join(chunks), before, ps) ==> rs == SequenceReadings(before, ps, bound, end)
  {
    hide IsJson, PartGood, PartsText, Readings, SequenceReadings;
    var wire := new FrameReader(chunks, end);
    var r := new RecordReader(wire, valid, bound);
    rs := r.All();
    if forall x :: IsJson(x) ==> valid(x) {
      forall before, ps | IsSequence(Join(chunks), before, ps)
        ensures rs == SequenceReadings(before, ps, bound, end)
      {
        SequenceRead(valid, before, ps, bound, end);
      }
    }
  }
}
