/** JSON text sequences (section 2 of RFC 7464), one record at a time from a buffered reader. */
module JsonSequence {
  import opened Wrappers
  import opened Ascii
  import opened Framing

  predicate Blank(s: Bytes) {
    forall i :: 0 <= i < |s| ==> White(s[i])
  }

  function TrimLeft(s: Bytes): Bytes {
    if s != [] && White(s[0]) then TrimLeft(s[1..]) else s
  }

  /** What is known of the JSON text read so far. */
  datatype Lexed = Lexed(depth: int, quoted: bool, escape: bool, begun: bool)

  const FRESH := Lexed(0, false, false, false)

  function Lex(l: Lexed, c: byte): Lexed {
    if l.quoted then
      if l.escape then l.(escape := false)
      else if c == BACKSLASH then l.(escape := true)
      else if c == QUOTE then l.(quoted := false)
      else l
    else if c == QUOTE then l.(quoted := true, begun := true)
    else if c == 123 || c == 91 then l.(depth := l.depth + 1, begun := true)
    else if c == 125 || c == 93 then l.(depth := l.depth - 1, begun := true)
    else if White(c) then l
    else l.(begun := true)
  }

  function LexAll(l: Lexed, s: Bytes): Lexed
    decreases |s|
  {
    if s == [] then l else LexAll(Lex(l, s[0]), s[1..])
  }

  /** A line ends outside a top-level value, after one began. */
  predicate Breaks(l: Lexed, c: byte) {
    c == LF && !l.quoted && l.begun && l.depth <= 0
  }

  /** The offset of the first byte of s that may end a record, or the length of s. */
  function Stop(l: Lexed, s: Bytes): (i: nat)
    ensures i <= |s|
    decreases |s|
  {
    if s == [] || s[0] == RS || Breaks(l, s[0]) then 0 else 1 + Stop(Lex(l, s[0]), s[1..])
  }

  /** How long the record that s starts with is, and what ends it: the first line that is JSON text, where it is the
      first that may be, or what is before an RS. */
  function Record(valid: Bytes -> bool, s: Bytes): (nat, Option<byte>) {
    var i := Stop(FRESH, s);
    if i < |s| && s[i] != RS && valid(s[..i + 1]) then (i + 1, Some(LF))
    else ByRS(s)
  }

  function ByRS(s: Bytes): (nat, Option<byte>) {
    (Index(s, RS), if Index(s, RS) < |s| then Some(RS) else None)
  }

  /** It is a number or literal that may go on. */
  predicate Truncated(valid: Bytes -> bool, data: Bytes) {
    var t := TrimLeft(data);
    && t != []
    && (t[0] == MINUS || Digit(t[0]) || t[0] == 116 || t[0] == 102 || t[0] == 110)
    && !White(data[|data| - 1])
    && valid(t)
  }

  /** Where a reader is: tail says that it ended a record of used bytes at its LF, not at its RS. */
  datatype State = State(started: bool, tail: bool, used: int, rest: Bytes)

  /** A record, or what is none: data outside records, or a scalar that may go on; or the end of reading. */
  datatype Reading = Item(data: Bytes) | Outside | Cut | Over | Stopped(end: End)

  predicate Last(r: Reading) {
    r.Over? || r.Stopped?
  }

  function Judged(valid: Bytes -> bool, data: Bytes): Reading {
    if Truncated(valid, data) then Cut else Item(data)
  }

  /** The next record of rest, which follows an RS. */
  function NextRecord(valid: Bytes -> bool, bound: int, end: End, rest: Bytes): (Reading, State)
    decreases |rest|
  {
    RecordBounds(valid, rest);
    var (n, sep) := Record(valid, rest);
    var next := if sep == Some(RS) then State(true, false, 0, rest[n + 1..])
                else State(true, sep == Some(LF), if sep == Some(LF) then n else 0, rest[n..]);
    if n > bound then (Over, next)
    else if sep.None? && end != EOF then (Stopped(end), next)
    else if n > 0 then (Judged(valid, rest[..n]), next)
    else if sep.None? then (Stopped(EOF), next)
    else NextRecord(valid, bound, end, rest[1..])
  }

  predicate Strays(started: bool, data: Bytes) {
    if started then !Blank(data) else data != []
  }

  /** The next record, or what is none, and where the reader is then. */
  function Next(valid: Bytes -> bool, bound: int, end: End, s: State): (Reading, State) {
    if s.started && !s.tail then NextRecord(valid, bound, end, s.rest)
    else
      FirstBounds(s.rest, RS, false);
      match Frames(s.rest, RS, false, bound - s.used)
      case TooLong => (Over, s)
      case Found(data, _) =>
        var next := State(true, false, 0, s.rest[|data| + 1..]);
        if Strays(s.started, data) then (Outside, next) else NextRecord(valid, bound, end, next.rest)
      case Unended(data) =>
        (if end != EOF then Stopped(end) else if Strays(s.started, data) then Outside else Stopped(EOF),
         State(true, false, 0, []))
  }

  /** The same, past the RS that ends the record read. */
  function Normal(s: State): State {
    if s.tail && s.rest != [] && s.rest[0] == RS then State(s.started, false, 0, s.rest[1..]) else s
  }

  predicate Sound(bound: int, s: State) {
    (s.tail ==> s.started) && 0 <= s.used <= bound && (!s.tail ==> s.used == 0)
  }

  // What bytes say of their records.

  lemma {:induction false} StopSplit(l: Lexed, p: Bytes, t: Bytes)
    ensures Stop(l, p + t) == if Stop(l, p) < |p| then Stop(l, p) else |p| + Stop(LexAll(l, p), t)
    decreases |p|
  {
    hide Lex, Breaks;
    if p == [] {
      assert p + t == t;
    } else {
      assert (p + t)[1..] == p[1..] + t;
      StopSplit(Lex(l, p[0]), p[1..], t);
    }
  }

  lemma {:induction false} LexSplit(l: Lexed, p: Bytes, t: Bytes)
    ensures LexAll(l, p + t) == LexAll(LexAll(l, p), t)
    decreases |p|
  {
    hide Lex;
    if p == [] {
      assert p + t == t;
    } else {
      assert (p + t)[1..] == p[1..] + t;
      LexSplit(Lex(l, p[0]), p[1..], t);
    }
  }

  lemma {:induction false} StopIs(l: Lexed, s: Bytes)
    ensures Stop(l, s) < |s| ==> s[Stop(l, s)] == RS || s[Stop(l, s)] == LF
    ensures forall j :: 0 <= j < Stop(l, s) ==> s[j] != RS
    decreases |s|
  {
    if s != [] && s[0] != RS && !Breaks(l, s[0]) {
      StopIs(Lex(l, s[0]), s[1..]);
      assert forall j :: 0 < j < |s| ==> s[j] == s[1..][j - 1];
    }
  }

  lemma RecordBounds(valid: Bytes -> bool, s: Bytes)
    ensures var (n, sep) := Record(valid, s);
      && n <= |s| && (sep.None? ==> n == |s|) && (sep == Some(LF) ==> n > 0 && s[n - 1] == LF)
      && (sep == Some(RS) ==> n < |s| && s[n] == RS) && (sep.None? || sep == Some(RS) || sep == Some(LF))
  {
    StopIs(FRESH, s);
  }

  /** A buffered line's record is that line, however it ends. */
  lemma LineRecord(valid: Bytes -> bool, s: Bytes, i: nat)
    requires i < |s| && s[i] == RS && RS !in s[..i] && (LF !in s[..i] || Index(s[..i], LF) == i - 1)
    ensures Record(valid, s) == (i, Some(RS)) || (Record(valid, s) == (i, Some(LF)) && i > 0)
  {
    IndexIs(s, RS, i);
    StopIs(FRESH, s);
    var n := Stop(FRESH, s);
    if n < i {
      assert s[n] == s[..i][n];
    }
  }

  /** Whether the RS of a record is read past with it makes no difference. */
  lemma NormalNext(valid: Bytes -> bool, bound: int, end: End, s: State)
    requires Sound(bound, s)
    ensures Next(valid, bound, end, Normal(s)) == Next(valid, bound, end, s)
  {
    if Normal(s) != s {
      FramesIs(s.rest, RS, false, bound - s.used);
      assert First(s.rest, RS, false) == 0;
    }
  }

  lemma {:induction false} NextRecordShorter(valid: Bytes -> bool, bound: int, end: End, rest: Bytes)
    ensures var (r, next) := NextRecord(valid, bound, end, rest);
      !Last(r) ==> |next.rest| < |rest| && Sound(bound, next) && next.started
    decreases |rest|
  {
    hide Record, Truncated;
    RecordBounds(valid, rest);
    var (n, sep) := Record(valid, rest);
    if n == 0 && sep.Some? {
      NextRecordShorter(valid, bound, end, rest[1..]);
    }
  }

  lemma NextShorter(valid: Bytes -> bool, bound: int, end: End, s: State)
    requires Sound(bound, s)
    ensures var (r, next) := Next(valid, bound, end, s);
      !Last(r) ==> |Normal(next).rest| < |Normal(s).rest| && Sound(bound, next) && Sound(bound, Normal(next))
  {
    hide NextRecord;
    NormalNext(valid, bound, end, s);
    NextRecordShorter(valid, bound, end, Normal(s).rest);
    FirstBounds(Normal(s).rest, RS, false);
    if !Normal(s).started || Normal(s).tail {
      match Frames(Normal(s).rest, RS, false, bound - Normal(s).used)
      case Found(data, _) =>
        NextRecordShorter(valid, bound, end, Normal(s).rest[|data| + 1..]);
      case _ =>
    }
  }

  /** All that is read from a state on, up to the end. */
  function Readings(valid: Bytes -> bool, bound: int, end: End, s: State): seq<Reading>
    requires Sound(bound, s)
    decreases |Normal(s).rest|
  {
    NextShorter(valid, bound, end, s);
    var (r, next) := Next(valid, bound, end, s);
    [r] + if Last(r) then [] else Readings(valid, bound, end, next)
  }

  // The reader.

  /** Reads what is buffered of a record: where in p it may end, and what was lexed before. */
  method Scan(p: Bytes, lexed: Lexed, invalid: bool) returns (n: nat, end: Option<byte>, l: Lexed)
    ensures n <= |p|
    ensures end == (if invalid then ByRS(p).1 else if Stop(lexed, p) < |p| then Some(p[Stop(lexed, p)]) else None)
    ensures n == (if invalid then Index(p, RS) else if end == Some(LF) then Stop(lexed, p) + 1 else Stop(lexed, p))
    ensures !invalid && end.None? ==> l == LexAll(lexed, p)
  {
    hide Lex, Breaks, LexAll;
    l := lexed;
    var i := 0;
    LexNone(lexed);
    while i < |p|
      invariant i <= |p| && l == LexAll(lexed, p[..i])
      invariant invalid ==> Index(p, RS) == i + Index(p[i..], RS)
      invariant !invalid ==> Stop(lexed, p) == i + Stop(l, p[i..])
    {
      var c, before := p[i], l;
      assert p[i..][0] == c && p[i..][1..] == p[i + 1..];
      if c == RS {
        return i, Some(RS), l;
      }
      l := Lex(l, c);
      LexOne(lexed, p, i);
      if !invalid && c == LF && !l.quoted && l.begun && l.depth <= 0 {
        BreaksIs(before);
        return i + 1, Some(LF), l;
      }
      BreaksIs(before);
      assert !invalid ==> !Breaks(before, c);
      i := i + 1;
    }
    assert p[..i] == p;
    assert Stop(l, p[i..]) == 0 && Index(p[i..], RS) == 0;
    return |p|, None, l;
  }

  lemma LexNone(l: Lexed)
    ensures LexAll(l, []) == l
  {
  }

  lemma LexOne(l: Lexed, p: Bytes, i: nat)
    requires i < |p|
    ensures LexAll(l, p[..i + 1]) == Lex(LexAll(l, p[..i]), p[i])
  {
    assert p[..i + 1] == p[..i] + [p[i]];
    LexSplit(l, p[..i], [p[i]]);
    assert [p[i]][1..] == [];
  }

  lemma BreaksIs(l: Lexed)
    ensures Breaks(l, LF) <==> var after := Lex(l, LF); !after.quoted && after.begun && after.depth <= 0
    ensures forall c :: Breaks(l, c) ==> c == LF
  {
  }

  /** Where a piece p read after scratch may end the record, and t is ahead. */
  lemma PieceIs(valid: Bytes -> bool, all: Bytes, scratch: Bytes, p: Bytes, t: Bytes, l: Lexed, invalid: bool,
      n: nat, end: Option<byte>)
    requires all == scratch + (p + t) && n <= |p| && (invalid ==> Record(valid, all) == ByRS(all))
    requires !invalid ==> l == LexAll(FRESH, scratch) && Stop(FRESH, scratch) == |scratch|
    requires forall j :: 0 <= j < |scratch| ==> scratch[j] != RS
    requires end == (if invalid then ByRS(p).1 else if Stop(l, p) < |p| then Some(p[Stop(l, p)]) else None)
    requires n == (if invalid then Index(p, RS) else if end == Some(LF) then Stop(l, p) + 1 else Stop(l, p))
    ensures Record(valid, all).0 >= |scratch| + n
    ensures end == Some(RS) ==> Record(valid, all) == (|scratch| + n, Some(RS))
    ensures end == Some(LF) ==>
      Record(valid, all) == if valid(scratch + p[..n]) then (|scratch| + n, Some(LF)) else ByRS(all)
    ensures forall j :: 0 <= j < |scratch| + n ==> (scratch + p[..n])[j] != RS
    ensures end.None? ==> n == |p| && (!invalid ==> Stop(FRESH, scratch + p) == |scratch + p|)
    ensures end.Some? ==> end == Some(RS) || (end == Some(LF) && n > 0 && !invalid)
  {
    hide LexAll, Stop;
    StopIs(l, p);
    if !invalid {
      StopSplit(FRESH, scratch, p + t);
      StopSplit(l, p, t);
      StopSplit(FRESH, scratch, p);
      assert end == Some(LF) ==> all[..|scratch| + n] == scratch + p[..n];
    }
    assert forall j :: 0 <= j < |scratch| + n ==> all[j] == (scratch + p[..n])[j];
    if end == Some(RS) {
      IndexIs(all, RS, |scratch| + n);
    }
  }

  /** The frame read of all, and what is left, are its record: the RS after a line may be read past with it. */
  ghost predicate Reads(valid: Bytes -> bool, all: Bytes, bound: int, frame: Frame, rest: Bytes) {
    var (n, sep) := Record(valid, all);
    match frame
    case TooLong => n > bound
    case Unended(data) => n <= bound && sep.None? && data == all && rest == []
    case Found(data, ending) =>
      && n <= bound && n <= |all| && data == all[..n]
      && if ending == RS then n < |all| && all[n] == RS && sep.Some? &&
         rest == all[n + 1..] else sep == Some(ending) && rest == all[n..]
  }

  /** The reader of one sequence's records: it has read what is before the first RS, it ended a record of used bytes at
      its LF. */
  class RecordReader {
    const valid: Bytes -> bool
    const bound: nat
    const wire: FrameReader
    var started: bool
    var tail: bool
    var used: int

    constructor (wire: FrameReader, valid: Bytes -> bool, bound: nat)
      ensures this.wire == wire && this.valid == valid && this.bound == bound
      ensures !started && !tail && used == 0
    {
      this.wire, this.valid, this.bound := wire, valid, bound;
      started, tail, used := false, false, 0;
    }

    ghost function Now(): State
      reads this, wire
      requires wire.Valid()
    {
      State(started, tail, used, wire.Rest())
    }

    /** Reads a buffered record of one line, which needs no scan. */
    method Quick() returns (frame: Option<Frame>)
      requires wire.Valid() && wire.lo < |wire.buf|
      modifies wire`lo
      ensures wire.Valid()
      ensures frame.Some? ==> Reads(valid, old(wire.Rest()), bound, frame.value, wire.Rest()) && !frame.value.Unended?
      ensures frame.None? ==> wire.lo == old(wire.lo)
    {
      hide Record, Join;
      var p := wire.buf[wire.lo..];
      ghost var all := wire.Rest();
      var i := Index(p, RS);
      if i < |p| {
        var lf := Index(p[..i], LF);
        if lf == i || lf == i - 1 {
          assert forall j :: 0 <= j <= i ==> all[j] == p[j];
          assert all[..i] == p[..i];
          LineRecord(valid, all, i);
          if i > bound {
            return Some(TooLong);
          }
          BufferLeft(wire.buf, wire.lo, Join(wire.chunks), i + 1);
          wire.lo := wire.lo + i + 1;
          return Some(Found(p[..i], RS));
        }
      }
      return None;
    }

    /** Reads what is buffered, after scratch: it ends the record, or makes it too long, or is all of it so far. */
    method Piece(scratch: Bytes, lexed: Lexed, bad: bool, ghost all: Bytes)
      returns (frame: Option<Frame>, longer: Bytes, l: Lexed, invalid: bool)
      requires wire.Valid() && wire.lo < |wire.buf| && all == scratch + wire.Rest() && |scratch| <= bound
      requires Scanned(valid, all, scratch, lexed, bad)
      modifies wire`lo
      ensures wire.Valid() && wire.lo <= |wire.buf|
      ensures frame.Some? ==> Reads(valid, all, bound, frame.value, wire.Rest())
      ensures frame.None? ==> all == longer + wire.Rest() && |longer| <= bound && wire.lo > old(wire.lo)
      ensures frame.None? ==> longer != [] && Scanned(valid, all, longer, l, invalid)
    {
      hide LexAll, Stop, Record, Join, Index;
      var p := wire.buf[wire.lo..];
      ghost var ahead := Join(wire.chunks);
      var n: nat, end: Option<byte>;
      n, end, l := Scan(p, lexed, bad);
      PieceIs(valid, all, scratch, p, ahead, lexed, bad, n, end);
      invalid := bad;
      longer := scratch + p[..n];
      if |scratch| + n > bound {
        return Some(TooLong), longer, l, invalid;
      }
      wire.lo := wire.lo + n + (if end == Some(RS) then 1 else 0);
      PieceLeft(all, scratch, wire.buf, wire.lo, p, ahead, n, end == Some(RS));
      if end == Some(RS) || (end.Some? && !invalid && valid(longer)) {
        return Some(Found(longer, end.value)), longer, l, invalid;
      }
      if end.Some? {
        invalid := true;
      } else if !invalid {
        LexSplit(FRESH, scratch, p);
        assert p[..n] == p;
      }
      return None, longer, l, invalid;
    }

    /** Reads a record up to its RS, or to the LF of its first line where it is JSON text then. */
    method JsonRecord() returns (frame: Frame)
      requires wire.Valid()
      modifies wire
      ensures wire.Valid() && Reads(valid, old(wire.Rest()), bound, frame, wire.Rest())
    {
      hide Record, Join, Scanned;
      var scratch: Bytes := [];
      var l, invalid := FRESH, false;
      ghost var all := wire.Rest();
      Start(valid, all);
      while true
        invariant wire.Valid() && all == scratch + wire.Rest() && |scratch| <= bound
        invariant Scanned(valid, all, scratch, l, invalid)
        decreases |wire.chunks|, |wire.buf| - wire.lo
      {
        var ended := wire.Fill();
        if ended {
          assert scratch == all;
          Whole(valid, all, l, invalid);
          return Unended(scratch);
        }
        if scratch == [] {
          assert all == wire.Rest();
          var quick := Quick();
          if quick.Some? {
            return quick.value;
          }
        }
        var found: Option<Frame>;
        found, scratch, l, invalid := Piece(scratch, l, invalid, all);
        if found.Some? {
          return found.value;
        }
      }
    }

    /** What is before the first RS, or what follows the LF a record ended at: bad, or the end, or neither. */
    method Between() returns (r: Option<Reading>)
      requires wire.Valid() && Sound(bound, Now()) && (!started || tail)
      modifies this, wire
      ensures wire.Valid()
      ensures r.Some? ==> r.value == Next(valid, bound, wire.end, old(Now())).0
      ensures r.Some? && !Last(r.value) ==> Now() == Next(valid, bound, wire.end, old(Now())).1
      ensures r.None? ==> started && !tail && used == 0
      ensures r.None? ==> Next(valid, bound, wire.end, old(Now())) == NextRecord(valid, bound, wire.end, wire.Rest())
    {
      hide NextRecord, Blank, Join;
      ghost var all := wire.Rest();
      var frame := wire.Until(RS, false, bound - used);
      FramesIs(all, RS, false, bound - used);
      if frame.TooLong? {
        return Some(Over);
      }
      if frame.Unended? && wire.end != EOF {
        return Some(Stopped(wire.end));
      }
      var bad := Strays(started, frame.data);
      started, tail, used := true, false, 0;
      assert frame.Found? ==> wire.Rest() == all[|frame.data| + 1..];
      if bad {
        return Some(Outside);
      }
      return if frame.Unended? then Some(Stopped(EOF)) else None;
    }

    /** The next record, or what is none, or the end: as Next says, whatever pieces the source delivers, but that it may
        have read past the RS of a record that Next ends at its LF. */
    method NextItem() returns (r: Reading)
      requires wire.Valid() && Sound(bound, Now())
      modifies this, wire
      ensures wire.Valid() && r == Next(valid, bound, wire.end, old(Now())).0
      ensures !Last(r) ==> Sound(bound, Now()) && Normal(Now()) == Normal(Next(valid, bound, wire.end, old(Now())).1)
    {
      hide Record, Truncated, Join, NextRecord, Next;
      ghost var all := Now();
      NextShorter(valid, bound, wire.end, all);
      ghost var next := Next(valid, bound, wire.end, all);
      if !started || tail {
        var between := Between();
        if between.Some? {
          return between.value;
        }
      } else {
        NextStarted(valid, bound, wire.end, all);
      }
      while true
        invariant wire.Valid() && started && !tail && used == 0
        invariant NextRecord(valid, bound, wire.end, wire.Rest()) == next
        decreases |wire.Rest()|
      {
        ghost var rest := wire.Rest();
        var frame := JsonRecord();
        RecordBounds(valid, rest);
        NextRecordIs(valid, bound, wire.end, rest, frame, wire.Rest());
        if frame.TooLong? {
          return Over;
        }
        if frame.Unended? && wire.end != EOF {
          return Stopped(wire.end);
        }
        if frame.Found? && frame.sep == LF {
          tail, used := true, |frame.data|;
        }
        if frame.data != [] {
          return Judged(valid, frame.data);
        }
        if frame.Unended? {
          return Stopped(EOF);
        }
      }
    }

    /** All that is read, up to the end: what the bytes say, however they come. */
    method All() returns (rs: seq<Reading>)
      requires wire.Valid() && Sound(bound, Now())
      modifies this, wire
      ensures rs == Readings(valid, bound, wire.end, old(Now()))
    {
      hide Next, Normal, Readings;
      rs := [];
      ghost var all := Readings(valid, bound, wire.end, Now());
      while true
        invariant wire.Valid() && Sound(bound, Now())
        invariant all == rs + Readings(valid, bound, wire.end, Now())
        decreases |Normal(Now()).rest|
      {
        ghost var before, was := Now(), rs;
        NextShorter(valid, bound, wire.end, before);
        ReadingsOf(valid, bound, wire.end, before);
        var r := NextItem();
        rs := rs + [r];
        if Last(r) {
          return;
        }
        ReadingsAlike(valid, bound, wire.end, Now(), Next(valid, bound, wire.end, before).1);
        assert was + ([r] + Readings(valid, bound, wire.end, Now())) == rs + Readings(valid, bound, wire.end, Now());
      }
    }
  }

  lemma NextStarted(valid: Bytes -> bool, bound: int, end: End, s: State)
    requires s.started && !s.tail
    ensures Next(valid, bound, end, s) == NextRecord(valid, bound, end, s.rest)
  {
  }

  lemma ReadingsAlike(valid: Bytes -> bool, bound: int, end: End, s: State, t: State)
    requires Sound(bound, s) && Sound(bound, t) && Normal(s) == Normal(t)
    ensures Readings(valid, bound, end, s) == Readings(valid, bound, end, t)
  {
    hide Next;
    NormalNext(valid, bound, end, s);
    NormalNext(valid, bound, end, t);
  }

  lemma ReadingsOf(valid: Bytes -> bool, bound: int, end: End, s: State)
    requires Sound(bound, s)
    ensures var (r, next) := Next(valid, bound, end, s);
      (!Last(r) ==> Sound(bound, next)) &&
        Readings(valid, bound, end, s) == [r] + if Last(r) then [] else Readings(valid, bound, end, next)
  {
    hide Next;
    NextShorter(valid, bound, end, s);
  }

  /** What a frame read makes of the next record. */
  lemma NextRecordIs(valid: Bytes -> bool, bound: int, end: End, all: Bytes, frame: Frame, rest: Bytes)
    requires Reads(valid, all, bound, frame, rest)
    ensures frame.TooLong? ==> NextRecord(valid, bound, end, all).0 == Over
    ensures frame.Unended? && end != EOF ==> NextRecord(valid, bound, end, all).0 == Stopped(end)
    ensures frame.Unended? && end == EOF && frame.data == [] ==> NextRecord(valid, bound, end, all).0 == Stopped(EOF)
    ensures frame.Unended? && end == EOF && frame.data != [] ==>
      NextRecord(valid, bound, end, all) == (Judged(valid, frame.data), State(true, false, 0, rest))
    ensures frame.Found? ==> frame.sep == RS || (frame.sep == LF && frame.data != [])
    ensures frame.Found? && frame.data == [] ==>
      |rest| < |all| && NextRecord(valid, bound, end, all) == NextRecord(valid, bound, end, rest)
    ensures frame.Found? && frame.data != [] ==>
      && NextRecord(valid, bound, end, all).0 == Judged(valid, frame.data)
      && Normal(NextRecord(valid, bound, end, all).1) ==
         Normal(if frame.sep == RS then State(true, false, 0, rest) else State(true, true, |frame.data|, rest))
  {
    hide Record, Truncated, NextRecord, Normal;
    RecordBounds(valid, all);
    NextRecordOf(valid, bound, end, all);
    var (n, sep) := Record(valid, all);
    if frame.Unended? {
      assert all[..|all|] == all && all[|all|..] == [];
    } else if frame.Found? && frame.sep == RS && sep == Some(LF) {
      assert all[n..][1..] == all[n + 1..];
      NormalTail(n, all[n..]);
    }
  }

  lemma NormalTail(n: nat, rest: Bytes)
    requires rest != [] && rest[0] == RS
    ensures Normal(State(true, true, n, rest)) == State(true, false, 0, rest[1..]) ==
      Normal(State(true, false, 0, rest[1..]))
  {
  }

  lemma NextRecordOf(valid: Bytes -> bool, bound: int, end: End, rest: Bytes)
    ensures var (n, sep) := Record(valid, rest);
      n <= |rest| && (sep == Some(RS) ==> n < |rest|) && (n == 0 && sep.Some? ==> rest != []) &&
      NextRecord(valid, bound, end, rest) ==
        (var next := if sep == Some(RS) then State(true, false, 0, rest[n + 1..])
                     else State(true, sep == Some(LF), if sep == Some(LF) then n else 0, rest[n..]);
         if n > bound then (Over, next)
         else if sep.None? && end != EOF then (Stopped(end), next)
         else if n > 0 then (Judged(valid, rest[..n]), next)
         else if sep.None? then (Stopped(EOF), next)
         else NextRecord(valid, bound, end, rest[1..]))
  {
    hide Record, Judged;
    RecordBounds(valid, rest);
  }

  /** What is read so far of a record: lexed, unless a line of it was not JSON text where it might have been. */
  ghost predicate Scanned(valid: Bytes -> bool, all: Bytes, scratch: Bytes, l: Lexed, invalid: bool) {
    && (forall j :: 0 <= j < |scratch| ==> scratch[j] != RS)
    && (invalid ==> Record(valid, all) == ByRS(all))
    && (!invalid ==> l == LexAll(FRESH, scratch) && Stop(FRESH, scratch) == |scratch|)
  }

  lemma Start(valid: Bytes -> bool, all: Bytes)
    ensures Scanned(valid, all, [], FRESH, false)
  {
  }

  lemma Whole(valid: Bytes -> bool, all: Bytes, l: Lexed, invalid: bool)
    requires Scanned(valid, all, all, l, invalid)
    ensures Record(valid, all) == (|all|, None)
  {
    IndexIs(all, RS, |all|);
  }

  lemma BufferLeft(buf: Bytes, lo: nat, t: Bytes, n: nat)
    requires lo + n <= |buf|
    ensures (buf[lo..] + t)[n..] == buf[lo + n..] + t
  {
  }

  lemma PieceLeft(all: Bytes, scratch: Bytes, buf: Bytes, lo: nat, p: Bytes, t: Bytes, n: nat, past: bool)
    requires all == scratch + (p + t) && n <= |p| <= |buf| && p == buf[|buf| - |p|..] && (past ==> n < |p|)
    requires lo == |buf| - |p| + n + (if past then 1 else 0)
    ensures all[..|scratch| + n] == scratch + p[..n]
    ensures all == scratch + p[..n] + (if past then [p[n]] else []) + (buf[lo..] + t)
    ensures buf[lo..] + t == all[|scratch| + n + (if past then 1 else 0)..]
    ensures past ==> all[|scratch| + n] == p[n]
  {
  }

  // Reading back what was printed.

  function Print(ds: seq<Bytes>): Bytes {
    if ds == [] then [] else [RS] + ds[0] + [LF] + Print(ds[1..])
  }

  /** Each item with the line end printed after it, and the end. */
  function Printed(ds: seq<Bytes>): seq<Reading> {
    if ds == [] then [Stopped(EOF)] else [Item(ds[0] + [LF])] + Printed(ds[1..])
  }

  lemma StopLine(l: Lexed, t: Bytes)
    requires t == [] || t[0] == RS
    ensures Stop(l, [LF] + t) == if Breaks(l, LF) then 0 else 1
  {
    hide Lex;
    assert ([LF] + t)[1..] == t;
  }

  /** An item none of whose lines ends outside a value is a record with its line end, be it JSON text or not. */
  lemma ItemRecord(valid: Bytes -> bool, d: Bytes, t: Bytes)
    requires Stop(FRESH, d) == |d| && (t == [] || t[0] == RS)
    ensures var (n, sep) := Record(valid, d + [LF] + t);
      n == |d| + 1 && (sep == Some(LF) || sep == (if t == [] then None else Some(RS)))
  {
    hide Stop, LexAll;
    var s := d + [LF] + t;
    assert s == d + ([LF] + t);
    StopIs(FRESH, d);
    StopSplit(FRESH, d, [LF] + t);
    StopLine(LexAll(FRESH, d), t);
    IndexIs(s, RS, |d| + 1);
  }

  lemma EndReads(valid: Bytes -> bool, bound: nat, s: State)
    requires s.rest == [] && s.started && Sound(bound, s)
    ensures Readings(valid, bound, EOF, s) == [Stopped(EOF)]
  {
    assert Stop(FRESH, []) == 0 && Record(valid, []) == (0, None);
    FramesIs([], RS, false, bound - s.used);
  }

  lemma ItemNext(valid: Bytes -> bool, d: Bytes, t: Bytes, bound: nat) returns (next: State)
    requires Stop(FRESH, d) == |d| && |d| < bound && (t == [] || t[0] == RS)
    ensures Next(valid, bound, EOF, State(true, false, 0, d + [LF] + t)) == (Item(d + [LF]), next)
    ensures Sound(bound, next) && next.started
    ensures if t == [] then next.rest == [] else Normal(next) == State(true, false, 0, t[1..])
  {
    hide Stop, Record, NextRecord;
    var s := d + [LF] + t;
    ItemRecord(valid, d, t);
    NextRecordOf(valid, bound, EOF, s);
    next := NextRecord(valid, bound, EOF, s).1;
    assert s[..|d| + 1] == d + [LF] && s[|d| + 1..] == t;
    if t != [] {
      assert s[|d| + 2..] == t[1..];
    }
  }

  lemma PrintFirst(ds: seq<Bytes>)
    requires ds != []
    ensures Print(ds)[1..] == ds[0] + [LF] + Print(ds[1..])
    ensures Print(ds[1..]) == [] <==> |ds| == 1
    ensures Print(ds[1..]) != [] ==> Print(ds[1..])[0] == RS
  {
    PrintStarts(ds);
    PrintStarts(ds[1..]);
  }

  lemma PrintStarts(ds: seq<Bytes>)
    ensures Print(ds) == [] <==> ds == []
    ensures ds != [] ==> Print(ds)[0] == RS && Print(ds)[1..] == ds[0] + [LF] + Print(ds[1..])
  {
    if ds != [] {
      var t := Print(ds[1..]);
      assert Print(ds) == [RS] + ds[0] + [LF] + t;
      FirstOff(ds[0], t);
    }
  }

  lemma FirstOff(d: Bytes, t: Bytes)
    ensures var s := [RS] + d + [LF] + t; s[0] == RS && s[1..] == d + [LF] + t
  {
    assert [RS] + d + [LF] + t == [RS] + (d + [LF] + t);
  }

  lemma {:induction false} ItemsRead(valid: Bytes -> bool, ds: seq<Bytes>, bound: nat)
    requires ds != [] && forall d :: d in ds ==> Stop(FRESH, d) == |d| && |d| < bound
    ensures Readings(valid, bound, EOF, State(true, false, 0, Print(ds)[1..])) == Printed(ds)
    decreases |ds|
  {
    hide Stop, Next, Readings, Print;
    assert ds[0] in ds && forall d :: d in ds[1..] ==> d in ds;
    var t := Print(ds[1..]);
    var s := State(true, false, 0, ds[0] + [LF] + t);
    PrintFirst(ds);
    var next := ItemNext(valid, ds[0], t, bound);
    ReadingsOf(valid, bound, EOF, s);
    if t == [] {
      EndReads(valid, bound, next);
      assert ds[1..] == [];
    } else {
      ItemsRead(valid, ds[1..], bound);
      ReadingsAlike(valid, bound, EOF, next, State(true, false, 0, t[1..]));
    }
  }

  /** Printing items as a sequence and reading it gives each back. */
  lemma PrintReads(valid: Bytes -> bool, ds: seq<Bytes>, bound: nat)
    requires forall d :: d in ds ==> Stop(FRESH, d) == |d| && |d| < bound
    ensures Readings(valid, bound, EOF, State(false, false, 0, Print(ds))) == Printed(ds)
  {
    hide NextRecord, Stop;
    var s := State(false, false, 0, Print(ds));
    FramesIs(Print(ds), RS, false, bound);
    if ds != [] {
      ItemsRead(valid, ds, bound);
      ReadingsOf(valid, bound, EOF, s);
      ReadingsOf(valid, bound, EOF, State(true, false, 0, Print(ds)[1..]));
      assert First(Print(ds), RS, false) == 0;
    }
  }
}
