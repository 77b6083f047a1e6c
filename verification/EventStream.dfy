/** Server-sent events: one block at a time from a buffered reader, and as a whole text means them. */
module EventStream {
  import opened Wrappers
  import opened Ascii
  import opened Framing

  const BOM: Bytes := [0xEF, 0xBB, 0xBF]
  const DATA: Bytes := [100, 97, 116, 97]
  const EVENT: Bytes := [101, 118, 101, 110, 116]
  const ID: Bytes := [105, 100]
  const RETRY: Bytes := [114, 101, 116, 114, 121]

  /** The fields a block sets; retry is decimal text. */
  datatype Fields = Fields(data: Option<Bytes>, typ: Option<Bytes>, id: Option<Bytes>, retry: Option<Bytes>)

  const UNSET := Fields(None, None, None, None)

  predicate IsSet(e: Fields) {
    e.data.Some? || e.typ.Some? || e.id.Some? || e.retry.Some?
  }

  lemma NothingSet(e: Fields)
    requires !IsSet(e)
    ensures e == UNSET
  {
  }

  function FieldValue(line: Bytes): Bytes {
    var i := Index(line, COLON);
    var v := if i < |line| then line[i + 1..] else [];
    if v != [] && v[0] == SPACE then v[1..] else v
  }

  /** What a line makes of the fields, decode being the replacement of malformed UTF-8. */
  function Field(decode: Bytes -> Bytes, e: Fields, line: Bytes): Fields {
    var name, v := line[..Index(line, COLON)], FieldValue(line);
    if name == DATA then e.(data := Some((if e.data.Some? then e.data.value + [LF] else []) + decode(v)))
    else if name == EVENT then e.(typ := Some(decode(v)))
    else if name == ID then if Index(v, 0) == |v| then e.(id := Some(decode(v))) else e
    else if name == RETRY && v != [] && AllDigits(v) then
      e.(retry := Some(if TrimZeros(v) == [] then [48] else TrimZeros(v)))
    else e
  }

  /** What lines, none of them empty, make of the fields. */
  function Apply(decode: Bytes -> Bytes, e: Fields, ls: seq<Bytes>): Fields
    decreases |ls|
  {
    if ls == [] then e else Apply(decode, Field(decode, e, ls[0]), ls[1..])
  }

  lemma {:induction false} ApplyAppend(decode: Bytes -> Bytes, e: Fields, a: seq<Bytes>, b: seq<Bytes>)
    ensures Apply(decode, e, a + b) == Apply(decode, Apply(decode, e, a), b)
    decreases |a|
  {
    hide Field;
    if a == [] {
      assert a + b == b;
    } else {
      assert (a + b)[1..] == a[1..] + b;
      ApplyAppend(decode, Field(decode, e, a[0]), a[1..], b);
    }
  }

  lemma ApplyCons(decode: Bytes -> Bytes, e: Fields, l: Bytes, ls: seq<Bytes>)
    ensures Apply(decode, e, [l] + ls) == Apply(decode, Field(decode, e, l), ls)
    ensures Apply(decode, e, []) == e
  {
    hide Field;
    assert ([l] + ls)[1..] == ls;
  }

  // The meaning of a whole text.

  /** What is after the line end at i: CR LF, LF or CR. */
  function PastEnd(t: Bytes, i: nat): Bytes
    requires i < |t|
  {
    if t[i] == CR && i + 1 < |t| && t[i + 1] == LF then t[i + 2..] else t[i + 1..]
  }

  /** The lines of t that are ended. */
  function Lines(t: Bytes): seq<Bytes> {
    FirstBounds(t, LF, true);
    var i := First(t, LF, true);
    if i == |t| then []
    else [t[..i]] + Lines(PastEnd(t, i))
  }

  function TrimBOM(s: Bytes): Bytes {
    if BOM <= s then s[3..] else s
  }

  /** The first block the lines make, from fields already set, and the lines after it: an empty line ends a block, and a
      block that sets nothing is none. */
  function ParseOne(decode: Bytes -> Bytes, ls: seq<Bytes>, e: Fields): Option<(Fields, seq<Bytes>)>
    decreases |ls|
  {
    if ls == [] then None
    else if ls[0] != [] then ParseOne(decode, ls[1..], Field(decode, e, ls[0]))
    else if IsSet(e) then Some((e, ls[1..]))
    else ParseOne(decode, ls[1..], e)
  }

  lemma {:induction false} ParseOneShorter(decode: Bytes -> Bytes, ls: seq<Bytes>, e: Fields)
    ensures ParseOne(decode, ls, e).Some? ==> |ParseOne(decode, ls, e).value.1| < |ls|
    decreases |ls|
  {
    if ls != [] {
      ParseOneShorter(decode, ls[1..], e);
      ParseOneShorter(decode, ls[1..], Field(decode, e, ls[0]));
    }
  }

  /** The events of a text's lines; a block left unended is none. */
  function Parse(decode: Bytes -> Bytes, ls: seq<Bytes>): seq<Fields>
    decreases |ls|
  {
    ParseOneShorter(decode, ls, UNSET);
    var p := ParseOne(decode, ls, UNSET);
    if p.None? then [] else [p.value.0] + Parse(decode, p.value.1)
  }

  // One block at a time.

  /** What is left of a text once a CR was read: without the LF it goes with. */
  function Drop(rest: Bytes, cr: bool): Bytes {
    if cr && rest != [] && rest[0] == LF then rest[1..] else rest
  }

  /** What is left after the first line of r. */
  function After(r: Bytes): Bytes {
    var i := First(r, LF, true);
    if i < |r| then r[i + 1..] else []
  }

  /** A line as the bound takes it: a byte order mark that begins the stream is outside it. */
  function TrimFrame(frame: Frame, started: bool, left: int): Frame {
    if started || frame.TooLong? then frame
    else if |TrimBOM(frame.data)| > left then TooLong
    else if frame.Found? then Found(TrimBOM(frame.data), frame.sep)
    else Unended(TrimBOM(frame.data))
  }

  function Used(rest: Bytes, cr: bool, charge: bool, used: int): int {
    if cr && rest != [] && rest[0] == LF && charge then used + 1 else used
  }

  function NextLine(r: Bytes, started: bool, left: int): Frame {
    TrimFrame(Frames(r, LF, true, left + (if started then 0 else 3)), started, left)
  }

  lemma LineShortens(r: Bytes, started: bool, left: int)
    ensures NextLine(r, started, left).Found? ==> |After(r)| < |r|
  {
    FirstBounds(r, LF, true);
  }

  datatype Outcome = Event(e: Fields, rest: Bytes, cr: bool) | Stop | Over

  /** The next block of what is still to be read: cr says that a CR was just read, and charge, whether its LF counts;
      used bytes of the bound are. */
  function Block(decode: Bytes -> Bytes, rest: Bytes, started: bool, cr: bool, charge: bool, used: int, bound: int,
      e: Fields): Outcome
    decreases |rest|
  {
    var r, u := Drop(rest, cr), Used(rest, cr, charge, used);
    if cr && rest == [] then Stop
    else if u > bound then Over
    else
      LineShortens(r, started, bound - u);
      match NextLine(r, started, bound - u)
      case TooLong => Over
      case Unended(_) => Stop
      case Found(line, sep) =>
        if line != [] then
          if u + |line| + 1 > bound then Over
          else Block(decode, After(r), true, sep == CR, true, u + |line| + 1, bound, Field(decode, e, line))
        else if IsSet(e) then Event(e, After(r), sep == CR)
        else Block(decode, After(r), true, sep == CR, false, 0, bound, e)
  }

  lemma {:induction false} BlockShorter(decode: Bytes -> Bytes, rest: Bytes, started: bool, cr: bool, charge: bool,
      used: int, bound: int, e: Fields)
    ensures var o := Block(decode, rest, started, cr, charge, used, bound, e);
      o.Event? ==> |o.rest| < |rest|
    decreases |rest|
  {
    hide Field, NextLine, After;
    var r, u := Drop(rest, cr), Used(rest, cr, charge, used);
    LineShortens(r, started, bound - u);
    match NextLine(r, started, bound - u)
    case Found(line, sep) =>
      if line != [] {
        BlockShorter(decode, After(r), true, sep == CR, true, u + |line| + 1, bound, Field(decode, e, line));
      } else {
        BlockShorter(decode, After(r), true, sep == CR, false, 0, bound, e);
      }
    case _ =>
  }

  /** All blocks of what is still to be read, and whether one is too long. */
  function Blocks(decode: Bytes -> Bytes, rest: Bytes, started: bool, cr: bool, bound: int): (seq<Fields>, bool)
    decreases |rest|
  {
    BlockShorter(decode, rest, started, cr, false, 0, bound, UNSET);
    match Block(decode, rest, started, cr, false, 0, bound, UNSET)
    case Event(e, after, sep) =>
      var (es, over) := Blocks(decode, after, true, sep, bound);
      ([e] + es, over)
    case Stop => ([], false)
    case Over => ([], true)
  }

  // The reader.

  lemma AfterIs(r: Bytes, bound: int, rest: Bytes)
    ensures var f := Frames(r, LF, true, bound);
      f.Found? && r == f.data + [f.sep] + rest ==> rest == After(r) && |rest| < |r|
  {
    FirstBounds(r, LF, true);
    FramesIs(r, LF, true, bound);
  }

  /** The reader of one stream's events: whether it has read a line, and whether the last ended with a CR, whose LF is
      still to be read past, and counts unless the line was empty. */
  class EventReader {
    const decode: Bytes -> Bytes
    const bound: nat
    const wire: FrameReader
    var started: bool
    var afterCR: bool
    var chargeLF: bool

    constructor (wire: FrameReader, decode: Bytes -> Bytes, bound: nat)
      ensures this.wire == wire && this.decode == decode && this.bound == bound
      ensures !started && !afterCR && !chargeLF
    {
      this.wire, this.decode, this.bound := wire, decode, bound;
      started, afterCR, chargeLF := false, false, false;
    }

    /** What the block now read comes to, used bytes of the bound being, and e the fields it set. */
    ghost function Ahead(used: int, e: Fields): Outcome
      reads this, wire
      requires wire.Valid()
    {
      Block(decode, wire.Rest(), started, afterCR, chargeLF, used, bound, e)
    }

    /** Reads past the LF a CR goes with. */
    method PassLF(used: int) returns (ended: bool, charged: int)
      requires wire.Valid()
      modifies this`afterCR, wire
      ensures wire.Valid() && (ended <==> old(afterCR) && old(wire.Rest()) == [])
      ensures wire.Rest() == Drop(old(wire.Rest()), old(afterCR))
      ensures charged == Used(old(wire.Rest()), old(afterCR), chargeLF, used)
    {
      ended, charged := false, used;
      if afterCR {
        var lf: bool;
        ended, lf := wire.OptionalLF();
        afterCR := false;
        if lf && chargeLF {
          charged := charged + 1;
        }
      }
    }

    /** Reads the next line, without a byte order mark that begins the stream. */
    method Line(left: nat) returns (frame: Frame)
      requires wire.Valid()
      modifies this`started, wire
      ensures wire.Valid() && started && frame == NextLine(old(wire.Rest()), old(started), left)
      ensures frame.Found? ==> wire.Rest() == After(old(wire.Rest())) && |wire.Rest()| < |old(wire.Rest())|
    {
      hide Frames, After;
      frame := wire.Until(LF, true, left + (if started then 0 else 3));
      AfterIs(old(wire.Rest()), left + (if started then 0 else 3), wire.Rest());
      if !started && !frame.TooLong? {
        var line := TrimBOM(frame.data);
        frame := if |line| > left then TooLong else if frame.Found? then Found(line, frame.sep) else Unended(line);
      }
      started := true;
    }

    /** The next event, or the end, or a block too long: as Block says, whatever pieces the source delivers. */
    method Next() returns (e: Option<Fields>, over: bool)
      requires wire.Valid()
      modifies this, wire
      ensures wire.Valid()
      ensures match old(Ahead(0, UNSET))
        case Event(f, rest, cr) =>
          e == Some(f) && !over && started && wire.Rest() == rest && afterCR == cr && !chargeLF &&
            |rest| < |old(wire.Rest())|
        case Stop => e.None? && !over
        case Over => e.None? && over
    {
      hide NextLine, Field, After, Used;
      var fields, used := UNSET, 0;
      ghost var outcome := Ahead(0, UNSET);
      while true
        invariant wire.Valid() && outcome == Ahead(used, fields) && |wire.Rest()| <= |old(wire.Rest())|
        decreases |wire.Rest()|
      {
        var ended: bool;
        ended, used := PassLF(used);
        if ended {
          return None, false;
        }
        if used > bound {
          return None, true;
        }
        var frame := Line(bound - used);
        match frame
        case TooLong =>
          return None, true;
        case Unended(_) =>
          return None, false;
        case Found(line, sep) =>
          afterCR, chargeLF := sep == CR, line != [];
          if line != [] {
            used := used + |line| + 1;
            if used > bound {
              return None, true;
            }
            fields := Field(decode, fields, line);
          } else {
            used := 0;
            if IsSet(fields) {
              return Some(fields), false;
            }
          }
      }
    }

    /** All events to come, and whether one is too long for the bound: what the bytes say, however they come. */
    method All() returns (es: seq<Fields>, over: bool)
      requires wire.Valid() && !chargeLF
      modifies this, wire
      ensures (es, over) == Blocks(decode, old(wire.Rest()), old(started), old(afterCR), bound)
    {
      hide Block;
      es := [];
      ghost var all := Blocks(decode, wire.Rest(), started, afterCR, bound);
      while true
        invariant wire.Valid() && !chargeLF
        invariant all.0 == es + Blocks(decode, wire.Rest(), started, afterCR, bound).0
        invariant all.1 == Blocks(decode, wire.Rest(), started, afterCR, bound).1
        decreases |wire.Rest()|
      {
        var e: Option<Fields>;
        ghost var before := es;
        e, over := Next();
        if e.None? {
          assert es + [] == es;
          return;
        }
        es := es + [e.value];
      }
    }
  }
}
