/** What a stream of server-sent events says, by how it is written: blocks of lines, each ended by CR LF, LF or CR. */
module EventTexts {
  import opened Ascii
  import opened Framing
  import opened EventStream
  import opened EventBlocks
  import opened EventLines
  import EventPrint
  import Sequences

  datatype Ending = AtLF | AtCR | AtCRLF

  function EndText(e: Ending): Bytes {
    match e
    case AtLF => [10]
    case AtCR => [13]
    case AtCRLF => [13, 10]
  }

  /** A CR ends a line alone where no LF follows. */
  predicate Alone(e: Ending, rest: Bytes) {
    e.AtCR? && rest != [] ==> rest[0] != 10
  }

  datatype Written = Written(line: Line, end: Ending)

  function WrittenText(ws: seq<Written>): Bytes {
    if ws == [] then [] else EventLines.Text(ws[0].line) + (EndText(ws[0].end) + WrittenText(ws[1..]))
  }

  /** Lines with rest after them. */
  predicate AllProper(ws: seq<Written>, rest: Bytes) {
    ws != [] ==>
      Proper(ws[0].line) && Alone(ws[0].end, WrittenText(ws[1..]) + rest) && AllProper(ws[1..], rest)
  }

  function LinesOf(ws: seq<Written>): (ls: seq<Line>)
    ensures |ls| == |ws| && forall i :: 0 <= i < |ws| ==> ls[i] == ws[i].line
  {
    seq(|ws|, i requires 0 <= i < |ws| => ws[i].line)
  }

  /** A block: its lines, and the end of the empty line that ends it. */
  datatype Block = Block(lines: seq<Written>, end: Ending)

  function BlockText(b: Block): Bytes {
    WrittenText(b.lines) + EndText(b.end)
  }

  function StreamText(bs: seq<Block>): Bytes {
    if bs == [] then [] else BlockText(bs[0]) + StreamText(bs[1..])
  }

  predicate StreamProper(bs: seq<Block>, rest: Bytes) {
    bs != [] ==>
      && AllProper(bs[0].lines, EndText(bs[0].end) + (StreamText(bs[1..]) + rest))
      && Alone(bs[0].end, StreamText(bs[1..]) + rest) && StreamProper(bs[1..], rest)
  }

  /** A whole text: a byte order mark or none, blocks, and what no empty line ends: lines, and part of one. */
  datatype Stream = Stream(mark: bool, blocks: seq<Block>, last: seq<Written>, part: Bytes)

  function Unended(s: Stream): Bytes {
    WrittenText(s.last) + s.part
  }

  function Text(s: Stream): Bytes {
    (if s.mark then [0xEF, 0xBB, 0xBF] else []) + (StreamText(s.blocks) + Unended(s))
  }

  predicate Sound(s: Stream) {
    && StreamProper(s.blocks, Unended(s)) && AllProper(s.last, s.part)
    && (forall i :: 0 <= i < |s.part| ==> s.part[i] !in {10, 13})
    && (s.mark || !([0xEF, 0xBB, 0xBF] <= StreamText(s.blocks) + Unended(s)))
  }

  /** The events: for each block but those that say nothing, the fields its lines mean. */
  ghost predicate Events(decode: Bytes -> Bytes, bs: seq<Block>, es: seq<Fields>)
    decreases |bs|
  {
    if bs == [] then es == []
    else
      exists e: Fields :: Mean(decode, LinesOf(bs[0].lines), e) &&
        if e.data.Some? || e.typ.Some? || e.id.Some? || e.retry.Some?
        then es != [] && es[0] == e && Events(decode, bs[1..], es[1..])
        else Events(decode, bs[1..], es)
  }

  /** The lines of a block are longer than the bound, each with its end. */
  predicate Long(ws: seq<Written>, bound: nat) {
    |WrittenText(ws)| > bound
  }

  /** Of a stream, the events of the blocks before the first too long, and whether one is. */
  ghost predicate Says(decode: Bytes -> Bytes, s: Stream, bound: nat, es: seq<Fields>, over: bool) {
    && (over <==> (exists k :: 0 <= k < |s.blocks| && Long(s.blocks[k].lines, bound)) || |Unended(s)| > bound)
    && exists k :: 0 <= k <= |s.blocks| && FirstLong(s.blocks, k, bound) && Events(decode, s.blocks[..k], es)
  }

  predicate FirstLong(bs: seq<Block>, k: nat, bound: nat)
    requires k <= |bs|
  {
    (forall j :: 0 <= j < k ==> !Long(bs[j].lines, bound)) && (k < |bs| ==> Long(bs[k].lines, bound))
  }

  // What is read of what is written.

  lemma LineEnd(x: Bytes, e: Ending, rest: Bytes)
    requires (forall i :: 0 <= i < |x| ==> x[i] !in {10, 13}) && Alone(e, rest)
    ensures var t := x + (EndText(e) + rest);
      |x| < |t| && First(t, LF, true) == |x| && t[..|x|] == x && PastEnd(t, |x|) == rest
  {
    var t := x + (EndText(e) + rest);
    FirstIs(t, LF, true, |x|);
    match e
    case AtLF => assert t[|x| + 1..] == rest;
    case AtCR => assert t[|x| + 1..] == rest;
    case AtCRLF => assert t[|x| + 2..] == rest;
  }

  lemma LineText(l: Line)
    requires Proper(l)
    ensures EventLines.Text(l) != [] && forall i :: 0 <= i < |EventLines.Text(l)| ==> EventLines.Text(l)[i] !in {10, 13}
  {
  }

  /** The first of lines, and what is after it. */
  lemma FirstWritten(ws: seq<Written>, rest: Bytes)
    requires ws != [] && AllProper(ws, rest)
    ensures var (t, x, more) := (WrittenText(ws) + rest, EventLines.Text(ws[0].line), WrittenText(ws[1..]) + rest);
      && 0 < |x| < |t| && First(t, LF, true) == |x| && t[..|x|] == x && PastEnd(t, |x|) == more
      && |t| == |WrittenText(ws)| - |WrittenText(ws[1..])| + |more|
    ensures AllProper(ws[1..], rest)
  {
    hide First, PastEnd, EventLines.Text, Proper;
    var x, more := EventLines.Text(ws[0].line), WrittenText(ws[1..]) + rest;
    LineText(ws[0].line);
    LineEnd(x, ws[0].end, more);
    assert WrittenText(ws) + rest == x + (EndText(ws[0].end) + more);
  }

  lemma NothingWritten(rest: Bytes)
    ensures WrittenText([]) + rest == rest
  {
  }

  lemma LinesFirst(ws: seq<Written>)
    ensures ws == [] ==> Texts(LinesOf(ws)) == []
    ensures ws != [] ==> Texts(LinesOf(ws)) == [EventLines.Text(ws[0].line)] + Texts(LinesOf(ws[1..]))
  {
    hide EventLines.Text;
  }

  lemma {:induction false} LinesWritten(ws: seq<Written>, rest: Bytes)
    requires AllProper(ws, rest)
    ensures Lines(WrittenText(ws) + rest) == Texts(LinesOf(ws)) + Lines(rest)
    decreases |ws|
  {
    hide First, PastEnd, Lines, EventLines.Text, Proper, AllProper, WrittenText, Texts, LinesOf;
    LinesFirst(ws);
    if ws == [] {
      NothingWritten(rest);
      Sequences.Nothing(Lines(rest));
    } else {
      FirstWritten(ws, rest);
      LinesStep(WrittenText(ws) + rest, |EventLines.Text(ws[0].line)|);
      LinesWritten(ws[1..], rest);
      Sequences.Group([EventLines.Text(ws[0].line)], Texts(LinesOf(ws[1..])), Lines(rest));
    }
  }

  lemma {:induction false} ExtentWritten(ws: seq<Written>, rest: Bytes)
    requires AllProper(ws, rest)
    ensures Extent(WrittenText(ws) + rest) == |WrittenText(ws)| + Extent(rest)
    decreases |ws|
  {
    hide First, PastEnd, Extent, EventLines.Text, Proper;
    if ws == [] {
      assert WrittenText(ws) + rest == rest;
    } else {
      FirstWritten(ws, rest);
      ExtentOf(WrittenText(ws) + rest, |EventLines.Text(ws[0].line)|);
      ExtentWritten(ws[1..], rest);
    }
  }

  /** Lines are lines with nothing after them as well. */
  lemma {:induction false} AllAlone(ws: seq<Written>, rest: Bytes)
    requires AllProper(ws, rest)
    ensures AllProper(ws, [])
    decreases |ws|
  {
    hide Proper;
    if ws != [] {
      var more := WrittenText(ws[1..]);
      assert more != [] ==> (more + rest)[0] == more[0];
      assert more + [] == more;
      AllAlone(ws[1..], rest);
    }
  }

  function BlockTexts(bs: seq<Block>): (ps: seq<Bytes>)
    ensures |ps| == |bs| && forall i :: 0 <= i < |bs| ==> ps[i] == WrittenText(bs[i].lines)
  {
    seq(|bs|, i requires 0 <= i < |bs| => WrittenText(bs[i].lines))
  }

  lemma NoBlocks()
    ensures StreamText([]) == [] && BlockTexts([]) == []
  {
  }

  lemma StreamFirst(bs: seq<Block>, rest: Bytes)
    requires bs != []
    ensures StreamText(bs) + rest == WrittenText(bs[0].lines) + (EndText(bs[0].end) + (StreamText(bs[1..]) + rest))
  {
    hide WrittenText;
  }

  lemma FirstText(bs: seq<Block>)
    requires bs != []
    ensures BlockTexts(bs) == [WrittenText(bs[0].lines)] + BlockTexts(bs[1..])
  {
    hide WrittenText;
  }

  lemma {:induction false} PiecesWritten(bs: seq<Block>, rest: Bytes)
    requires StreamProper(bs, rest)
    ensures Pieces(StreamText(bs) + rest) == BlockTexts(bs) + Pieces(rest)
    decreases |bs|
  {
    hide First, PastEnd, Pieces, Extent, Proper, AllProper, WrittenText, EndText, Alone, StreamText, BlockTexts;
    NoBlocks();
    if bs == [] {
      assert StreamText(bs) + rest == rest;
    } else {
      var more := StreamText(bs[1..]) + rest;
      var x, y := WrittenText(bs[0].lines), EndText(bs[0].end) + more;
      var t := StreamText(bs) + rest;
      StreamFirst(bs, rest);
      ExtentWritten(bs[0].lines, y);
      EmptyLine(bs[0].end, more);
      PastLater(x, y);
      PiecesStep(t);
      PiecesWritten(bs[1..], rest);
      assert t[..|x|] == x;
      FirstText(bs);
      Sequences.Group([x], BlockTexts(bs[1..]), Pieces(rest));
    }
  }

  lemma EmptyLine(e: Ending, more: Bytes)
    requires Alone(e, more)
    ensures var t := EndText(e) + more; t != [] && Extent(t) == 0 && PastEnd(t, 0) == more
  {
    hide First, PastEnd;
    LineEnd([], e, more);
    assert [] + (EndText(e) + more) == EndText(e) + more;
  }

  lemma PastLater(x: Bytes, y: Bytes)
    requires y != []
    ensures PastEnd(x + y, |x|) == PastEnd(y, 0)
  {
    var t := x + y;
    assert t[|x| + 1..] == y[1..];
    if |y| > 1 {
      assert t[|x| + 2..] == y[2..] && t[|x| + 1] == y[1];
    }
  }

  lemma PiecesStep(t: Bytes)
    ensures Pieces(t) == [t[..Extent(t)]] + if Extent(t) < |t| then Pieces(PastEnd(t, Extent(t))) else []
  {
    hide PastEnd;
  }

  lemma PiecesUnended(last: seq<Written>, part: Bytes)
    requires AllProper(last, part) && forall i :: 0 <= i < |part| ==> part[i] !in {10, 13}
    ensures Pieces(WrittenText(last) + part) == [WrittenText(last) + part]
  {
    hide PastEnd, Pieces;
    var t := WrittenText(last) + part;
    FirstIs(part, LF, true, |part|);
    ExtentNone(part, |part|);
    ExtentWritten(last, part);
    PiecesStep(t);
    assert t[..|t|] == t;
  }

  /** Blocks have the events their lines mean. */
  lemma {:induction false} EventsWritten(decode: Bytes -> Bytes, bs: seq<Block>)
    requires forall i :: 0 <= i < |bs| ==> AllProper(bs[i].lines, [])
    ensures Events(decode, bs, EventBlocks.Events(decode, BlockTexts(bs)))
    decreases |bs|
  {
    hide Mean, Apply, Lines, Proper, AllProper, WrittenText;
    if bs != [] {
      var ls, x := LinesOf(bs[0].lines), WrittenText(bs[0].lines);
      LinesWritten(bs[0].lines, []);
      NoLines();
      assert x + [] == x && Texts(ls) + [] == Texts(ls);
      AllLines(bs[0].lines, []);
      LinesMean(decode, ls);
      EventsWritten(decode, bs[1..]);
      assert BlockTexts(bs)[1..] == BlockTexts(bs[1..]);
      var e := Apply(decode, UNSET, Lines(x));
      var es := EventBlocks.Events(decode, BlockTexts(bs[1..]));
      assert IsSet(e) ==> ([e] + es)[1..] == es;
      assert !IsSet(e) ==> [] + es == es;
    }
  }

  lemma NoLines()
    ensures Lines([]) == []
  {
  }

  lemma {:induction false} AllLines(ws: seq<Written>, rest: Bytes)
    requires AllProper(ws, rest)
    ensures forall i :: 0 <= i < |ws| ==> Proper(ws[i].line)
    decreases |ws|
  {
    hide Proper, Alone;
    if ws != [] {
      AllLines(ws[1..], rest);
      assert forall i :: 0 < i < |ws| ==> ws[i] == ws[1..][i - 1];
    }
  }

  lemma {:induction false} BlocksProper(bs: seq<Block>, rest: Bytes)
    requires StreamProper(bs, rest)
    ensures forall i :: 0 <= i < |bs| ==> AllProper(bs[i].lines, [])
    decreases |bs|
  {
    hide AllProper, Alone;
    if bs != [] {
      AllAlone(bs[0].lines, EndText(bs[0].end) + (StreamText(bs[1..]) + rest));
      BlocksProper(bs[1..], rest);
      assert forall i :: 0 < i < |bs| ==> bs[i] == bs[1..][i - 1];
    }
  }

  lemma {:induction false} BeforeFirst(ps: seq<Bytes>, u: Bytes, bound: nat) returns (k: nat)
    ensures k <= |ps| && (forall j :: 0 <= j < k ==> |ps[j]| <= bound) && (k < |ps| ==> |ps[k]| > bound)
    ensures Before(ps + [u], bound) == ps[..k]
    decreases |ps|
  {
    var all := ps + [u];
    if ps == [] || |ps[0]| > bound {
      k := 0;
      assert all[0] == if ps == [] then u else ps[0];
    } else {
      k := BeforeFirst(ps[1..], u, bound);
      assert all[1..] == ps[1..] + [u];
      assert ps[..k + 1] == [ps[0]] + ps[1..][..k];
      assert forall j :: 0 < j < |ps| ==> ps[j] == ps[1..][j - 1];
      k := k + 1;
    }
  }

  lemma Unmarked(s: Stream)
    requires Sound(s)
    ensures TrimBOM(Text(s)) == StreamText(s.blocks) + Unended(s)
  {
    hide StreamProper, AllProper, StreamText, Unended;
    if s.mark {
      assert Text(s)[3..] == StreamText(s.blocks) + Unended(s);
    } else {
      assert Text(s) == StreamText(s.blocks) + Unended(s);
    }
  }

  /** The blocks of a text are those written in it. */
  lemma StreamSays(decode: Bytes -> Bytes, s: Stream, bound: nat)
    requires Sound(s)
    ensures var ps := Pieces(TrimBOM(Text(s)));
      Says(decode, s, bound, EventBlocks.Events(decode, Before(ps, bound)), Exceeds(ps, bound))
  {
    hide TrimBOM, Pieces, Before, EventBlocks.Events, Events, StreamText, WrittenText, AllProper, StreamProper;
    Unmarked(s);
    PiecesWritten(s.blocks, Unended(s));
    PiecesUnended(s.last, s.part);
    BlocksProper(s.blocks, Unended(s));
    var (ws, u) := (BlockTexts(s.blocks), Unended(s));
    var k := BeforeFirst(ws, u, bound);
    EventsWritten(decode, s.blocks[..k]);
    assert BlockTexts(s.blocks[..k]) == ws[..k];
    assert FirstLong(s.blocks, k, bound);
    var ps := ws + [u];
    assert ps[|ws|] == u && forall j :: 0 <= j < |ws| ==> ps[j] == ws[j];
    forall j | 0 <= j < |s.blocks| && Long(s.blocks[j].lines, bound)
      ensures Exceeds(ps, bound)
    {
      assert |ps[j]| > bound;
    }
  }

  // Every text is so written.

  /** t is blocks, lines and part of one. */
  predicate IsCut(t: Bytes, bs: seq<Block>, last: seq<Written>, part: Bytes) {
    && t == StreamText(bs) + (WrittenText(last) + part)
    && StreamProper(bs, WrittenText(last) + part) && AllProper(last, part)
    && forall i :: 0 <= i < |part| ==> part[i] !in {10, 13}
  }

  lemma {:induction false} Cut(t: Bytes) returns (bs: seq<Block>, last: seq<Written>, part: Bytes)
    ensures IsCut(t, bs, last, part)
    decreases |t|
  {
    hide First, Proper, EventLines.Text, IsCut;
    FirstBounds(t, LF, true);
    var i := First(t, LF, true);
    if i == |t| {
      bs, last, part := [], [], t;
      CutNone(t);
      return;
    }
    var e, rest := EndingAt(t, i);
    bs, last, part := Cut(rest);
    if i == 0 {
      CutEmpty(t, rest, e, bs, last, part);
      bs := [Block([], e)] + bs;
    } else {
      var l := LineOf(t[..i]);
      var w := Written(l, e);
      if bs == [] {
        CutLast(t, rest, w, last, part);
        last := [w] + last;
      } else {
        CutLine(t, rest, w, bs, last, part);
        bs := [Block([w] + bs[0].lines, bs[0].end)] + bs[1..];
      }
    }
  }

  lemma CutNone(t: Bytes)
    requires forall i :: 0 <= i < |t| ==> t[i] !in {10, 13}
    ensures IsCut(t, [], [], t)
  {
  }

  lemma CutEmpty(t: Bytes, rest: Bytes, e: Ending, bs: seq<Block>, last: seq<Written>, part: Bytes)
    requires t == [] + (EndText(e) + rest) && Alone(e, rest) && IsCut(rest, bs, last, part)
    ensures IsCut(t, [Block([], e)] + bs, last, part)
  {
    hide Proper, AllProper, Alone, WrittenText, EndText;
    var (all, tail) := ([Block([], e)] + bs, WrittenText(last) + part);
    assert all[1..] == bs && all[0] == Block([], e);
    NoneProper(EndText(e) + rest);
    Sequences.Nothing(EndText(e));
    Sequences.Nothing(EndText(e) + rest);
    Sequences.Group(EndText(e), StreamText(bs), tail);
    assert StreamText(all) == EndText(e) + StreamText(bs);
  }

  lemma NoneProper(rest: Bytes)
    ensures AllProper([], rest) && WrittenText([]) == []
  {
  }

  lemma WrittenFirst(w: Written, ws: seq<Written>, rest: Bytes)
    requires Proper(w.line) && Alone(w.end, WrittenText(ws) + rest) && AllProper(ws, rest)
    ensures AllProper([w] + ws, rest)
    ensures WrittenText([w] + ws) == EventLines.Text(w.line) + (EndText(w.end) + WrittenText(ws))
  {
    hide Proper, Alone, EventLines.Text;
    assert ([w] + ws)[1..] == ws;
  }

  lemma CutLast(t: Bytes, rest: Bytes, w: Written, last: seq<Written>, part: Bytes)
    requires t == EventLines.Text(w.line) + (EndText(w.end) + rest) && Proper(w.line) && Alone(w.end, rest)
    requires IsCut(rest, [], last, part)
    ensures IsCut(t, [], [w] + last, part)
  {
    hide Proper, Alone, AllProper, EventLines.Text, WrittenText;
    var r := WrittenText(last) + part;
    assert StreamText([]) + r == r;
    WrittenFirst(w, last, part);
    assert StreamText([]) + (WrittenText([w] + last) + part) == WrittenText([w] + last) + part;
    Regroup(EventLines.Text(w.line), EndText(w.end), WrittenText(last), part);
  }

  lemma Regroup(a: Bytes, b: Bytes, c: Bytes, d: Bytes)
    ensures a + (b + c) + d == a + (b + (c + d))
  {
  }

  lemma CutLine(t: Bytes, rest: Bytes, w: Written, bs: seq<Block>, last: seq<Written>, part: Bytes)
    requires t == EventLines.Text(w.line) + (EndText(w.end) + rest) && Proper(w.line) && Alone(w.end, rest)
    requires bs != [] && IsCut(rest, bs, last, part)
    ensures IsCut(t, [Block([w] + bs[0].lines, bs[0].end)] + bs[1..], last, part)
  {
    hide Proper, Alone, AllProper, EventLines.Text, WrittenText;
    var (b, tail) := (bs[0], WrittenText(last) + part);
    var c := Block([w] + b.lines, b.end);
    var all := [c] + bs[1..];
    assert all[0] == c && all[1..] == bs[1..];
    var more := StreamText(bs[1..]) + tail;
    assert rest == WrittenText(b.lines) + (EndText(b.end) + more);
    WrittenFirst(w, b.lines, EndText(b.end) + more);
    Regroup(EventLines.Text(w.line), EndText(w.end), WrittenText(b.lines), EndText(b.end) + more);
    assert StreamText(all) + tail == WrittenText(c.lines) + (EndText(b.end) + more);
  }

  /** Every text is a stream. */
  lemma StreamOf(t: Bytes) returns (s: Stream)
    ensures Sound(s) && Text(s) == t
  {
    hide StreamText, WrittenText, StreamProper, AllProper;
    var mark := [0xEF, 0xBB, 0xBF] <= t;
    var rest := if mark then t[3..] else t;
    var bs, last, part := Cut(rest);
    s := Stream(mark, bs, last, part);
    if mark {
      assert t == [0xEF, 0xBB, 0xBF] + rest;
    } else {
      assert [] + rest == rest;
    }
  }

  lemma EndingAt(t: Bytes, i: nat) returns (e: Ending, rest: Bytes)
    requires i < |t| && t[i] in {10, 13}
    ensures t == t[..i] + (EndText(e) + rest) && Alone(e, rest) && |rest| < |t|
  {
    if t[i] == 10 {
      e, rest := AtLF, t[i + 1..];
    } else if i + 1 < |t| && t[i + 1] == 10 {
      e, rest := AtCRLF, t[i + 2..];
    } else {
      e, rest := AtCR, t[i + 1..];
    }
  }

  /** Lines, each but the last ended so. */
  function Mixed(xs: seq<Bytes>, es: seq<Ending>): Bytes
    requires |xs| == |es| + 1
    decreases |es|
  {
    if es == [] then xs[0] else xs[0] + (EndText(es[0]) + Mixed(xs[1..], es[1..]))
  }

  predicate MixedProper(xs: seq<Bytes>, es: seq<Ending>)
    requires |xs| == |es| + 1
    decreases |es|
  {
    && (forall i :: 0 <= i < |xs[0]| ==> xs[0][i] !in {10, 13})
    && (es != [] ==> Alone(es[0], Mixed(xs[1..], es[1..])) && MixedProper(xs[1..], es[1..]))
  }

  /** A text to send is taken apart at its line ends, whichever they are, an empty line being one as well. */
  lemma {:induction false} SplitMixed(xs: seq<Bytes>, es: seq<Ending>)
    requires |xs| == |es| + 1 && MixedProper(xs, es)
    ensures EventPrint.Split(Mixed(xs, es)) == xs
    decreases |es|
  {
    hide First, PastEnd, EventPrint.Split, Alone;
    var t := Mixed(xs, es);
    EventPrint.SplitStep(t);
    if es == [] {
      FirstIs(t, LF, true, |t|);
      assert t[..|t|] == t && xs == [t];
    } else {
      LineEnd(xs[0], es[0], Mixed(xs[1..], es[1..]));
      SplitMixed(xs[1..], es[1..]);
    }
  }

  /** However a source cuts a text, its events are those of its blocks up to the first too long, which are the first of
      the events of its lines; and they are what the text says, however that is written. */
  method Read(chunks: seq<Bytes>, end: End, decode: Bytes -> Bytes, bound: nat) returns (es: seq<Fields>, over: bool)
    requires forall i :: 0 <= i < |chunks| ==> chunks[i] != []
    ensures var (ps, all) := (Pieces(TrimBOM(Join(chunks))), Parse(decode, Lines(TrimBOM(Join(chunks)))));
      && (over <==> Exceeds(ps, bound)) && es == EventBlocks.Events(decode, Before(ps, bound))
      && es <= all && (!over ==> es == all)
    ensures forall s: Stream :: Sound(s) && Text(s) == Join(chunks) ==> Says(decode, s, bound, es, over)
  {
    hide Blocks, Parse, Lines, TrimBOM, Pieces, Before, Exceeds, EventBlocks.Events, Says, Sound, Text;
    var wire := new FrameReader(chunks, end);
    var r := new EventReader(wire, decode, bound);
    es, over := r.All();
    TextParses(decode, Join(chunks), bound);
    forall s: Stream | Sound(s) && Text(s) == Join(chunks)
      ensures Says(decode, s, bound, es, over)
    {
      StreamSays(decode, s, bound);
    }
  }
}
