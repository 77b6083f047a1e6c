/** Printing events as a stream, and reading the stream back. */
module EventPrint {
  import opened Wrappers
  import opened Ascii
  import opened Framing
  import opened EventStream

  const MILLISECOND: int := 1_000_000
  const MAX_DURATION: int := 0x7FFF_FFFF_FFFF_FFFF

  /** An event to send or received; retry is a duration in nanoseconds. */
  datatype Message = Message(data: Option<Bytes>, event: Bytes, id: Bytes, idSet: bool, retry: int, retrySet: bool)

  predicate OneLine(s: Bytes) {
    forall i :: 0 <= i < |s| ==> s[i] != CR && s[i] != LF
  }

  /** m survives being printed: its event and id are of one line, its id has no NUL byte, its retry no part
      millisecond. */
  predicate Encodable(m: Message) {
    && OneLine(m.event)
    && (m.idSet ==> OneLine(m.id) && forall i :: 0 <= i < |m.id| ==> m.id[i] != 0)
    && (m.retrySet ==> m.retry >= 0 && m.retry % 1_000_000 == 0)
  }

  /** The lines of a text, the last perhaps empty, ended by CR LF, LF or CR. */
  function Split(s: Bytes): (ls: seq<Bytes>)
    ensures ls != []
  {
    FirstBounds(s, LF, true);
    var i := First(s, LF, true);
    if i == |s| then [s]
    else [s[..i]] + Split(PastEnd(s, i))
  }

  function JoinLF(ls: seq<Bytes>): Bytes
    requires ls != []
  {
    if |ls| == 1 then ls[0] else ls[0] + [LF] + JoinLF(ls[1..])
  }

  function Line(name: Bytes, value: Bytes): Bytes {
    name + [COLON, SPACE] + value
  }

  /** Lines as a stream has them. */
  function Text(ls: seq<Bytes>): Bytes {
    if ls == [] then [] else ls[0] + [LF] + Text(ls[1..])
  }

  function DataLines(ls: seq<Bytes>): seq<Bytes> {
    if ls == [] then [] else [Line(DATA, ls[0])] + DataLines(ls[1..])
  }

  function Decimal(n: nat): Bytes {
    if n < 10 then [48 + n as byte] else Decimal(n / 10) + [48 + (n % 10) as byte]
  }

  /** The lines of an event, clean being the replacement of malformed UTF-8, before the empty line that ends it. */
  function EventLines(clean: Bytes -> Bytes, m: Message): seq<Bytes> {
    (if m.data.Some? then DataLines(Split(clean(m.data.value))) else [])
    + (if m.event != [] then [Line(EVENT, clean(m.event))] else [])
    + (if m.idSet then [Line(ID, clean(m.id))] else [])
    + (if m.retrySet && m.retry >= 0 then [Line(RETRY, Decimal(m.retry / 1_000_000))] else [])
  }

  // Printing.

  lemma {:induction false} TextAppend(a: seq<Bytes>, b: seq<Bytes>)
    ensures Text(a + b) == Text(a) + Text(b)
  {
    if a == [] {
      assert a + b == b;
    } else {
      assert (a + b)[1..] == a[1..] + b;
      TextAppend(a[1..], b);
    }
  }

  lemma TextMore(b: Bytes, ls: seq<Bytes>, line: Bytes)
    ensures b + Text(ls + [line]) == b + Text(ls) + line + [LF]
  {
    TextAppend(ls, [line]);
    assert Text([line]) == line + [LF] + Text([]);
    assert b + (Text(ls) + (line + [LF])) == b + Text(ls) + line + [LF];
  }

  lemma SplitStep(s: Bytes)
    ensures var i := First(s, LF, true);
      i <= |s| && Split(s) == (if i == |s| then [s[..i]] else [s[..i]] + Split(PastEnd(s, i)))
  {
    FirstBounds(s, LF, true);
    assert s[..|s|] == s;
  }

  lemma {:induction false} DataLinesAppend(a: seq<Bytes>, b: seq<Bytes>)
    ensures DataLines(a + b) == DataLines(a) + DataLines(b)
  {
    if a == [] {
      assert a + b == b;
    } else {
      assert (a + b)[1..] == a[1..] + b;
      DataLinesAppend(a[1..], b);
    }
  }

  /** Extends b by the lines of s, each under the field name data. */
  method AppendData(b: Bytes, s: Bytes) returns (t: Bytes)
    ensures t == b + Text(DataLines(Split(s)))
  {
    hide Split, First, Text, Line, PastEnd;
    var rest := s;
    t := b;
    ghost var ls: seq<Bytes> := [];
    TextEmpty();
    while true
      invariant t == b + Text(DataLines(ls)) && ls + Split(rest) == Split(s)
      decreases |rest|
    {
      var i := 0;
      while i < |rest| && rest[i] != CR && rest[i] != LF
        invariant i <= |rest| && forall j :: 0 <= j < i ==> !Ends(rest[j], LF, true)
      {
        i := i + 1;
      }
      FirstIs(rest, LF, true, i);
      SplitStep(rest);
      TextMore(b, DataLines(ls), Line(DATA, rest[..i]));
      DataLinesAppend(ls, [rest[..i]]);
      assert DataLines([rest[..i]]) == [Line(DATA, rest[..i])];
      ls := ls + [rest[..i]];
      t := t + Line(DATA, rest[..i]) + [LF];
      if i == |rest| {
        return;
      }
      EndShortens(rest, i);
      if rest[i] == CR && i + 1 < |rest| && rest[i + 1] == LF {
        i := i + 1;
      }
      rest := rest[i + 1..];
    }
  }

  lemma TextEmpty()
    ensures Text([]) == []
  {
  }

  lemma EndShortens(s: Bytes, i: nat)
    requires i < |s|
    ensures PastEnd(s, i) == s[(if s[i] == CR && i + 1 < |s| && s[i + 1] == LF then i + 1 else i) + 1..]
  {
  }

  lemma LinesAre(clean: Bytes -> Bytes, m: Message, ls: seq<Bytes>)
    requires Encodable(m)
    requires ls == (if m.data.Some? then DataLines(Split(clean(m.data.value))) else [])
      + (if m.event != [] then [Line(EVENT, clean(m.event))] else [])
      + (if m.idSet then [Line(ID, clean(m.id))] else [])
      + (if m.retrySet then [Line(RETRY, Decimal(m.retry / MILLISECOND))] else [])
    ensures ls == EventLines(clean, m)
  {
  }

  /** Extends b by the lines of m and the empty one that ends it; none if m is not encodable. */
  method AppendEvent(b: Bytes, m: Message, clean: Bytes -> Bytes) returns (t: Option<Bytes>)
    ensures t == if Encodable(m) then Some(b + Text(EventLines(clean, m) + [[]])) else None
  {
    hide Line, Split, OneLine, Text, Decimal, DataLines, EventLines, Index;
    if !OneLine(m.event) {
      return None;
    }
    if m.idSet && !(OneLine(m.id) && Index(m.id, 0) == |m.id|) {
      return None;
    }
    if m.retrySet && (m.retry < 0 || m.retry % MILLISECOND != 0) {
      return None;
    }
    var out := b;
    ghost var ls: seq<Bytes> := [];
    TextEmpty();
    if m.data.Some? {
      out := AppendData(out, clean(m.data.value));
      ls := DataLines(Split(clean(m.data.value)));
    }
    assert out == b + Text(ls);
    if m.event != [] {
      TextMore(b, ls, Line(EVENT, clean(m.event)));
      out, ls := out + Line(EVENT, clean(m.event)) + [LF], ls + [Line(EVENT, clean(m.event))];
    }
    assert out == b + Text(ls);
    if m.idSet {
      TextMore(b, ls, Line(ID, clean(m.id)));
      out, ls := out + Line(ID, clean(m.id)) + [LF], ls + [Line(ID, clean(m.id))];
    }
    assert out == b + Text(ls);
    if m.retrySet {
      TextMore(b, ls, Line(RETRY, Decimal(m.retry / MILLISECOND)));
      out := out + Line(RETRY, Decimal(m.retry / MILLISECOND)) + [LF];
      ls := ls + [Line(RETRY, Decimal(m.retry / MILLISECOND))];
    }
    assert out == b + Text(ls);
    LinesAre(clean, m, ls);
    TextMore(b, ls, []);
    assert out + [LF] == b + Text(ls) + [] + [LF] == b + Text(ls + [[]]);
    assert Encodable(m);
    return Some(out + [LF]);
  }

  // Reading back.

  /** The fields a stream has of an event: its data with each line break an LF. */
  function FieldsOf(m: Message): Fields {
    Fields(if m.data.Some? then Some(JoinLF(Split(m.data.value))) else None,
           if m.event != [] then Some(m.event) else None,
           if m.idSet then Some(m.id) else None,
           if m.retrySet && m.retry >= 0 then Some(Decimal(m.retry / MILLISECOND)) else None)
  }

  /** It is valid UTF-8, as neither printing nor reading replaces anything of it. */
  ghost predicate Clean(clean: Bytes -> Bytes, decode: Bytes -> Bytes, m: Message) {
    && (m.data.Some? ==> clean(m.data.value) == m.data.value && forall l :: l in Split(m.data.value) ==> decode(l) == l)
    && clean(m.event) == m.event == decode(m.event)
    && clean(m.id) == m.id == decode(m.id)
  }

  lemma {:induction false} SplitOneLine(s: Bytes)
    ensures forall l :: l in Split(s) ==> OneLine(l)
    decreases |s|
  {
    SplitStep(s);
    FirstBounds(s, LF, true);
    var i := First(s, LF, true);
    if i < |s| {
      EndShortens(s, i);
      SplitOneLine(PastEnd(s, i));
    }
  }

  lemma {:induction false} DecimalDigits(n: nat)
    ensures Decimal(n) != [] && AllDigits(Decimal(n)) && (n > 0 ==> Decimal(n)[0] != 48)
  {
    if n >= 10 {
      DecimalDigits(n / 10);
    }
  }

  lemma DecimalTrimmed(n: nat)
    ensures (if TrimZeros(Decimal(n)) == [] then [48] else TrimZeros(Decimal(n))) == Decimal(n)
  {
    DecimalDigits(n);
    if n == 0 {
      assert TrimZeros([48]) == TrimZeros([]);
    }
  }

  lemma FieldOfLine(name: Bytes, v: Bytes)
    requires forall i :: 0 <= i < |name| ==> name[i] != COLON
    ensures Index(Line(name, v), COLON) == |name| && Line(name, v)[..|name|] == name && FieldValue(Line(name, v)) == v
  {
    var l := Line(name, v);
    IndexIs(l, COLON, |name|);
    assert l[|name| + 1..] == [SPACE] + v;
  }

  lemma NamesPlain()
    ensures forall i :: 0 <= i < |DATA| ==> DATA[i] != COLON
    ensures forall i :: 0 <= i < |EVENT| ==> EVENT[i] != COLON
    ensures forall i :: 0 <= i < |ID| ==> ID[i] != COLON
    ensures forall i :: 0 <= i < |RETRY| ==> RETRY[i] != COLON
    ensures DATA != EVENT && DATA != ID && DATA != RETRY && EVENT != ID && EVENT != RETRY && ID != RETRY
  {
    assert |DATA| == 4 && |ID| == 2 && DATA[0] == 100 && EVENT[0] == 101 && RETRY[0] == 114;
  }

  // Parsing what was printed.

  lemma DataField(decode: Bytes -> Bytes, e: Fields, v: Bytes)
    requires decode(v) == v
    ensures Field(decode, e, Line(DATA, v)) == e.(data := Some((if e.data.Some? then e.data.value + [LF] else []) + v))
  {
    hide Line;
    NamesPlain();
    FieldOfLine(DATA, v);
  }

  /** Data lines join what they hold to the data before, an LF between. */
  lemma {:induction false} ApplyData(decode: Bytes -> Bytes, e: Fields, ls: seq<Bytes>)
    requires ls != [] && forall l :: l in ls ==> decode(l) == l
    ensures Apply(decode, e, DataLines(ls)) ==
      e.(data := Some((if e.data.Some? then e.data.value + [LF] else []) + JoinLF(ls)))
    decreases |ls|
  {
    hide Line, Field, Apply;
    assert ls[0] in ls;
    DataField(decode, e, ls[0]);
    var before := if e.data.Some? then e.data.value + [LF] else [];
    var f := e.(data := Some(before + ls[0]));
    ApplyCons(decode, e, Line(DATA, ls[0]), DataLines(ls[1..]));
    ApplyCons(decode, f, [], []);
    if |ls| == 1 {
      assert DataLines(ls[1..]) == [];
    } else {
      assert forall l :: l in ls[1..] ==> l in ls;
      ApplyData(decode, f, ls[1..]);
      Rejoined(before, ls[0], JoinLF(ls[1..]));
    }
  }

  lemma Rejoined(a: Bytes, b: Bytes, c: Bytes)
    ensures a + (b + [LF] + c) == a + b + [LF] + c
  {
  }

  lemma ApplyOne(decode: Bytes -> Bytes, e: Fields, name: Bytes, v: Bytes)
    requires forall i :: 0 <= i < |name| ==> name[i] != COLON
    ensures Apply(decode, e, [Line(name, v)]) == Field(decode, e, Line(name, v))
  {
    hide Line, Field;
    assert [Line(name, v)][1..] == [];
  }

  lemma ApplyEvent(decode: Bytes -> Bytes, e: Fields, v: Bytes)
    requires decode(v) == v
    ensures Apply(decode, e, [Line(EVENT, v)]) == e.(typ := Some(v))
  {
    hide Line;
    NamesPlain();
    ApplyOne(decode, e, EVENT, v);
    FieldOfLine(EVENT, v);
  }

  lemma ApplyId(decode: Bytes -> Bytes, e: Fields, v: Bytes)
    requires decode(v) == v && forall i :: 0 <= i < |v| ==> v[i] != 0
    ensures Apply(decode, e, [Line(ID, v)]) == e.(id := Some(v))
  {
    hide Line;
    NamesPlain();
    ApplyOne(decode, e, ID, v);
    FieldOfLine(ID, v);
  }

  lemma ApplyRetry(decode: Bytes -> Bytes, e: Fields, n: nat)
    ensures Apply(decode, e, [Line(RETRY, Decimal(n))]) == e.(retry := Some(Decimal(n)))
  {
    hide Line, Decimal;
    NamesPlain();
    ApplyOne(decode, e, RETRY, Decimal(n));
    FieldOfLine(RETRY, Decimal(n));
    DecimalDigits(n);
    DecimalTrimmed(n);
  }

  /** The lines of an event set its fields. */
  lemma EventApplies(clean: Bytes -> Bytes, decode: Bytes -> Bytes, m: Message)
    requires Encodable(m) && Clean(clean, decode, m)
    ensures Apply(decode, UNSET, EventLines(clean, m)) == FieldsOf(m)
  {
    hide Line, Decimal, Field, Split, Apply;
    var data := if m.data.Some? then DataLines(Split(m.data.value)) else [];
    var event := if m.event != [] then [Line(EVENT, m.event)] else [];
    var id := if m.idSet then [Line(ID, m.id)] else [];
    var retry := if m.retrySet && m.retry >= 0 then [Line(RETRY, Decimal(m.retry / MILLISECOND))] else [];
    var f := FieldsOf(m);
    ApplyAppend(decode, UNSET, data + event + id, retry);
    ApplyAppend(decode, UNSET, data + event, id);
    ApplyAppend(decode, UNSET, data, event);
    ApplyNothing(decode, UNSET);
    ApplyNothing(decode, Fields(f.data, None, None, None));
    ApplyNothing(decode, Fields(f.data, f.typ, None, None));
    ApplyNothing(decode, Fields(f.data, f.typ, f.id, None));
    if m.data.Some? {
      ApplyData(decode, UNSET, Split(m.data.value));
      assert [] + JoinLF(Split(m.data.value)) == JoinLF(Split(m.data.value));
    }
    ApplyEvent(decode, Fields(f.data, None, None, None), m.event);
    if m.idSet {
      ApplyId(decode, Fields(f.data, f.typ, None, None), m.id);
    }
    if m.retrySet {
      ApplyRetry(decode, Fields(f.data, f.typ, f.id, None), m.retry / MILLISECOND);
    }
  }

  lemma ApplyNothing(decode: Bytes -> Bytes, e: Fields)
    ensures Apply(decode, e, []) == e
  {
  }

  lemma {:induction false} DataLinesPlain(ls: seq<Bytes>)
    requires forall l :: l in ls ==> OneLine(l)
    ensures forall i :: 0 <= i < |DataLines(ls)| ==> OneLine(DataLines(ls)[i]) && DataLines(ls)[i] != []
    decreases |ls|
  {
    if ls != [] {
      assert ls[0] in ls;
      assert forall l :: l in ls[1..] ==> l in ls;
      DataLinesPlain(ls[1..]);
      LinePlain(DATA, ls[0]);
    }
  }

  lemma LinePlain(name: Bytes, v: Bytes)
    requires OneLine(name) && OneLine(v)
    ensures OneLine(Line(name, v)) && Line(name, v) != []
  {
  }

  /** An event's lines are lines. */
  lemma EventPlain(clean: Bytes -> Bytes, decode: Bytes -> Bytes, m: Message)
    requires Encodable(m) && Clean(clean, decode, m)
    ensures forall i :: 0 <= i < |EventLines(clean, m)| ==>
      OneLine(EventLines(clean, m)[i]) && EventLines(clean, m)[i] != []
  {
    hide Line, Split, Decimal;
    if m.data.Some? {
      SplitOneLine(m.data.value);
      DataLinesPlain(Split(m.data.value));
    }
    LinePlain(EVENT, m.event);
    if m.idSet {
      LinePlain(ID, m.id);
    }
    if m.retrySet {
      DecimalDigits(m.retry / MILLISECOND);
      LinePlain(RETRY, Decimal(m.retry / MILLISECOND));
    }
  }

  /** The stream of a list of events. */
  function Stream(clean: Bytes -> Bytes, ms: seq<Message>): Bytes {
    if ms == [] then [] else Text(EventLines(clean, ms[0]) + [[]]) + Stream(clean, ms[1..])
  }

  /** What of a list of events a reader has: in order those that set a field, up to the first longer than the bound, and
      whether one is. */
  function Received(clean: Bytes -> Bytes, ms: seq<Message>, bound: int): (seq<Fields>, bool) {
    if ms == [] then ([], false)
    else if |Text(EventLines(clean, ms[0]))| > bound then ([], true)
    else
      var (es, over) := Received(clean, ms[1..], bound);
      ((if IsSet(FieldsOf(ms[0])) then [FieldsOf(ms[0])] else []) + es, over)
  }

  /** A line is read, unless it is too long. */
  lemma LineRead(line: Bytes, tail: Bytes, started: bool, left: nat)
    requires OneLine(line) && (started || !(BOM <= line))
    ensures NextLine(line + [LF] + tail, started, left) == if |line| > left then TooLong else Found(line, LF)
    ensures After(line + [LF] + tail) == tail
  {
    var r := line + [LF] + tail;
    FirstIs(r, LF, true, |line|);
    assert r[..|line|] == line && r[|line| + 1..] == tail;
    FramesIs(r, LF, true, left);
    FramesIs(r, LF, true, left + 3);
  }

  /** A block's next line is read, unless it makes the block too long. */
  lemma BlockLine(decode: Bytes -> Bytes, line: Bytes, tail: Bytes, started: bool, charge: bool, used: nat,
      bound: int, e: Fields)
    requires OneLine(line) && (started || !(BOM <= line)) && used <= bound
    ensures Block(decode, line + [LF] + tail, started, false, charge, used, bound, e) ==
      (if line == [] then
         if IsSet(e) then Event(e, tail, false) else Block(decode, tail, true, false, false, 0, bound, e)
       else if used + |line| + 1 > bound then Over
       else Block(decode, tail, true, false, true, used + |line| + 1, bound, Field(decode, e, line)))
  {
    hide Field, NextLine, After;
    LineRead(line, tail, started, bound - used);
  }

  /** The lines of a block, none of them empty, and the empty line after them: too long exactly if they are. */
  lemma {:induction false} BlockLines(decode: Bytes -> Bytes, ls: seq<Bytes>, tail: Bytes, started: bool,
      charge: bool, used: nat, bound: int, e: Fields)
    requires forall i :: 0 <= i < |ls| ==> OneLine(ls[i]) && ls[i] != []
    requires used <= bound && (started || ls == [] || !(BOM <= ls[0]))
    ensures Block(decode, Text(ls) + ([LF] + tail), started, false, charge, used, bound, e) ==
      (if used + |Text(ls)| > bound then Over
       else if IsSet(Apply(decode, e, ls)) then Event(Apply(decode, e, ls), tail, false)
       else Block(decode, tail, true, false, false, 0, bound, Apply(decode, e, ls)))
    decreases |ls|
  {
    hide Block, Field, OneLine;
    if ls == [] {
      EmptyLine();
      BlockLine(decode, [], tail, started, charge, used, bound, e);
      assert Text(ls) + ([LF] + tail) == [] + [LF] + tail;
    } else {
      BlockLine(decode, ls[0], Text(ls[1..]) + ([LF] + tail), started, charge, used, bound, e);
      assert Text(ls) + ([LF] + tail) == ls[0] + [LF] + (Text(ls[1..]) + ([LF] + tail));
      if used + |ls[0]| + 1 <= bound {
        BlockLines(decode, ls[1..], tail, true, true, used + |ls[0]| + 1, bound, Field(decode, e, ls[0]));
      }
    }
  }

  lemma EmptyLine()
    ensures OneLine([])
  {
  }

  lemma LinesEnded(ls: seq<Bytes>, tail: Bytes)
    ensures Text(ls + [[]]) + tail == Text(ls) + ([LF] + tail)
  {
    TextMore([], ls, []);
    assert [] + Text(ls + [[]]) == Text(ls + [[]]) && [] + Text(ls) == Text(ls);
    assert Text(ls) + [] + [LF] + tail == Text(ls) + ([LF] + tail);
  }

  lemma StartsPlain(clean: Bytes -> Bytes, m: Message)
    ensures EventLines(clean, m) == [] || !(BOM <= EventLines(clean, m)[0])
  {
    hide Decimal, Split;
    var ls := EventLines(clean, m);
    if ls != [] {
      assert |ls[0]| > 0;
      assert ls[0][0] != 0xEF;
    }
  }

  /** One event of a stream, read back. */
  lemma EventReads(clean: Bytes -> Bytes, decode: Bytes -> Bytes, m: Message, tail: Bytes, started: bool, bound: nat)
    requires Encodable(m) && Clean(clean, decode, m)
    ensures Block(decode, Text(EventLines(clean, m) + [[]]) + tail, started, false, false, 0, bound, UNSET) ==
      (if |Text(EventLines(clean, m))| > bound then Over
       else if IsSet(FieldsOf(m)) then Event(FieldsOf(m), tail, false)
       else Block(decode, tail, true, false, false, 0, bound, UNSET))
  {
    hide Block, EventLines, FieldsOf, Encodable, Clean, Text, OneLine;
    EventPlain(clean, decode, m);
    EventApplies(clean, decode, m);
    StartsPlain(clean, m);
    LinesEnded(EventLines(clean, m), tail);
    BlockLines(decode, EventLines(clean, m), tail, started, false, 0, bound, UNSET);
    if !IsSet(FieldsOf(m)) {
      NothingSet(FieldsOf(m));
    }
  }

  lemma BlocksFrom(decode: Bytes -> Bytes, a: Bytes, b: Bytes, started: bool, bound: int)
    requires Block(decode, a, started, false, false, 0, bound, UNSET) ==
      Block(decode, b, true, false, false, 0, bound, UNSET)
    ensures Blocks(decode, a, started, false, bound) == Blocks(decode, b, true, false, bound)
  {
    hide Block;
  }

  lemma BlocksNone(decode: Bytes -> Bytes, started: bool, bound: nat)
    ensures Blocks(decode, [], started, false, bound) == ([], false)
  {
    FramesIs([], LF, true, bound);
    FramesIs([], LF, true, bound + 3);
  }

  /** Printing events and reading the stream gives them back, whatever the events and the bound. */
  lemma {:induction false} StreamReads(clean: Bytes -> Bytes, decode: Bytes -> Bytes, ms: seq<Message>,
      started: bool, bound: nat)
    requires forall m :: m in ms ==> Encodable(m) && Clean(clean, decode, m)
    ensures Blocks(decode, Stream(clean, ms), started, false, bound) == Received(clean, ms, bound)
    decreases |ms|
  {
    hide Block, EventLines, Encodable, Clean, FieldsOf, Text;
    if ms == [] {
      BlocksNone(decode, started, bound);
    } else {
      var m, tail := ms[0], Stream(clean, ms[1..]);
      assert m in ms && forall x :: x in ms[1..] ==> x in ms;
      StreamReads(clean, decode, ms[1..], true, bound);
      EventReads(clean, decode, m, tail, started, bound);
      assert Stream(clean, ms) == Text(EventLines(clean, m) + [[]]) + tail;
      BlockShorter(decode, Stream(clean, ms), started, false, false, 0, bound, UNSET);
      if |Text(EventLines(clean, m))| <= bound && !IsSet(FieldsOf(m)) {
        BlocksFrom(decode, Stream(clean, ms), tail, started, bound);
        assert [] + Received(clean, ms[1..], bound).0 == Received(clean, ms[1..], bound).0;
      } else if |Text(EventLines(clean, m))| > bound {
        assert Blocks(decode, Stream(clean, ms), started, false, bound) == ([], true);
      } else {
        assert Blocks(decode, Stream(clean, ms), started, false, bound).0 ==
          [FieldsOf(m)] + Blocks(decode, tail, true, false, bound).0;
      }
    }
  }

  // The events themselves.

  /** The event fields are, unless they are to retry after more than a duration holds. */
  function ValueOf(e: Fields): Option<Message> {
    var data, event, id := e.data, if e.typ.Some? then e.typ.value else [], if e.id.Some? then e.id.value else [];
    if e.retry.None? then Some(Message(data, event, id, e.id.Some?, 0, false))
    else if !AllDigits(e.retry.value) || Number(e.retry.value) > MAX_DURATION / MILLISECOND then None
    else Some(Message(data, event, id, e.id.Some?, Number(e.retry.value) * MILLISECOND, true))
  }

  lemma {:induction false} NumberDecimal(n: nat)
    ensures AllDigits(Decimal(n)) && Number(Decimal(n)) == n
  {
    DecimalDigits(n);
    var s := Decimal(n);
    if n >= 10 {
      NumberDecimal(n / 10);
      assert s[..|s| - 1] == Decimal(n / 10);
    } else {
      assert s[..0] == [];
    }
  }

  /** An event read back is the one sent, but that its data's line breaks are LF, and what is not set is empty. */
  lemma EventReturns(m: Message)
    requires Encodable(m) && m.retry <= MAX_DURATION
    ensures ValueOf(FieldsOf(m)) == Some(m.(
      data := if m.data.Some? then Some(JoinLF(Split(m.data.value))) else None,
      id := if m.idSet then m.id else [],
      retry := if m.retrySet then m.retry else 0))
  {
    hide Decimal, Split, JoinLF, Number;
    if m.retrySet {
      NumberDecimal(m.retry / MILLISECOND);
    }
  }
}
