/** A stream of server-sent events block by block: which of its events a reader has, and when one of its blocks is
    longer than the reader's bound. */
module EventBlocks {
  import opened Wrappers
  import opened Ascii
  import opened Framing
  import opened EventStream

  /** How much of t is before its first empty line, or all of it if there is none. */
  function Extent(t: Bytes): (n: nat)
    ensures n <= |t|
    decreases |t|
  {
    FirstBounds(t, LF, true);
    var i := First(t, LF, true);
    if i == |t| then |t|
    else if i == 0 then 0
    else |t| - |PastEnd(t, i)| + Extent(PastEnd(t, i))
  }

  /** The blocks of a text: what is before each of its empty lines, and what is after the last. */
  function Pieces(t: Bytes): (ps: seq<Bytes>)
    ensures ps != []
    decreases |t|
  {
    var n := Extent(t);
    [t[..n]] + if n < |t| then Pieces(PastEnd(t, n)) else []
  }

  /** The blocks an empty line ends. */
  function Ended(t: Bytes): seq<Bytes> {
    Pieces(t)[..|Pieces(t)| - 1]
  }

  /** The events of blocks: a block that sets nothing is none. */
  function Events(decode: Bytes -> Bytes, ps: seq<Bytes>): seq<Fields> {
    if ps == [] then []
    else
      var f := Apply(decode, UNSET, Lines(ps[0]));
      (if IsSet(f) then [f] else []) + Events(decode, ps[1..])
  }

  predicate Exceeds(ps: seq<Bytes>, bound: int) {
    exists k :: 0 <= k < |ps| && |ps[k]| > bound
  }

  /** The blocks before the first that is too long, or before the last, which no empty line ends. */
  function Before(ps: seq<Bytes>, bound: int): seq<Bytes> {
    if |ps| <= 1 || |ps[0]| > bound then [] else [ps[0]] + Before(ps[1..], bound)
  }

  // Lines of a block.

  /** Past its first line, which is not empty, a block goes on as what is left. */
  lemma ExtentStep(t: Bytes, i: nat)
    requires i == First(t, LF, true) && 0 < i < |t|
    ensures var (r, n) := (PastEnd(t, i), Extent(t));
      && |r| + i + 1 <= |t| && n == |t| - |r| + Extent(r) && t[|t| - |r|..] == r
      && Lines(t[..n]) == [t[..i]] + Lines(r[..Extent(r)])
  {
    hide First, Lines, PastEnd, Extent;
    ExtentOf(t, i);
    PastWithin(t, i, Extent(t));
    LinesWithin(t, i, Extent(t), PastEnd(t, i)[..Extent(PastEnd(t, i))]);
  }

  lemma LinesWithin(t: Bytes, i: nat, n: nat, past: Bytes)
    requires i == First(t, LF, true) && i < n <= |t| && PastEnd(t[..n], i) == past
    ensures Lines(t[..n]) == [t[..i]] + Lines(past)
  {
    hide First, Lines, PastEnd;
    FirstWithin(t, i, n);
    LinesStep(t[..n], i);
    assert t[..n][..i] == t[..i];
  }

  lemma ExtentOf(t: Bytes, i: nat)
    requires i == First(t, LF, true) && 0 < i < |t|
    ensures Extent(t) == |t| - |PastEnd(t, i)| + Extent(PastEnd(t, i))
  {
    hide First, PastEnd;
  }

  /** The first line end of t is that of so much of t as has it. */
  lemma FirstWithin(t: Bytes, i: nat, n: nat)
    requires i == First(t, LF, true) && i < n <= |t|
    ensures First(t[..n], LF, true) == i
  {
    hide First;
    FirstBounds(t, LF, true);
    FirstIs(t[..n], LF, true, i);
  }

  lemma PastWithin(t: Bytes, i: nat, n: nat)
    requires i < |t| && |t| - |PastEnd(t, i)| <= n <= |t|
    ensures i < n && i + 1 + |PastEnd(t, i)| <= |t| && t[|t| - |PastEnd(t, i)|..] == PastEnd(t, i)
    ensures PastEnd(t[..n], i) == PastEnd(t, i)[..n - (|t| - |PastEnd(t, i)|)]
  {
    var k := |t| - |PastEnd(t, i)|;
    assert t[..n][k..] == t[k..][..n - k];
  }

  lemma ExtentNone(t: Bytes, i: nat)
    requires i == First(t, LF, true) && (i == 0 || i == |t|)
    ensures Extent(t) == i && Lines(t[..i]) == []
  {
    FirstBounds(t, LF, true);
    assert t[..|t|] == t;
  }

  lemma LinesStep(t: Bytes, i: nat)
    requires i == First(t, LF, true)
    ensures i < |t| ==> Lines(t) == [t[..i]] + Lines(PastEnd(t, i))
    ensures i >= |t| ==> Lines(t) == [] && i == |t|
  {
    FirstBounds(t, LF, true);
  }

  /** The end of a block of t is that of what is left of it. */
  lemma SameEnd(t: Bytes, r: Bytes, n: nat)
    requires |r| <= |t| && t[|t| - |r|..] == r && n < |r|
    ensures var m := |t| - |r| + n;
      m < |t| && t[m] == r[n] && t[m + 1..] == r[n + 1..] && PastEnd(t, m) == PastEnd(r, n)
  {
    var m := |t| - |r| + n;
    assert t[m] == t[|t| - |r|..][n] && t[m + 1..] == t[|t| - |r|..][n + 1..];
    if m + 1 < |t| {
      assert t[m + 1] == t[|t| - |r|..][n + 1] && t[m + 2..] == t[|t| - |r|..][n + 2..];
    }
  }

  lemma PastDrops(t: Bytes, i: nat)
    requires i < |t|
    ensures PastEnd(t, i) == Drop(t[i + 1..], t[i] == CR)
  {
    if t[i] == CR && i + 1 < |t| && t[i + 1] == LF {
      assert t[i + 1..][1..] == t[i + 2..];
    }
  }

  /** What the rest r of a block comes to, u bytes of the bound being used: it is too long exactly if it goes past the
      bound, and else what its lines make of the fields. */
  function Rest(decode: Bytes -> Bytes, r: Bytes, u: int, bound: int, e: Fields): Outcome {
    var n := Extent(r);
    var f := Apply(decode, e, Lines(r[..n]));
    if u + n > bound then Over
    else if n == |r| then Stop
    else if IsSet(f) then Event(f, r[n + 1..], r[n] == CR)
    else Block(decode, r[n + 1..], true, r[n] == CR, false, 0, bound, f)
  }

  /** Past its first line, which is not empty, it comes to what is left does. */
  lemma RestStep(decode: Bytes -> Bytes, r: Bytes, i: nat, u: int, bound: int, e: Fields)
    requires i == First(r, LF, true) && 0 < i < |r|
    ensures u + i + 1 > bound ==> Rest(decode, r, u, bound, e) == Over
    ensures Rest(decode, r, u, bound, e) ==
      Rest(decode, PastEnd(r, i), u + |r| - |PastEnd(r, i)|, bound, Field(decode, e, r[..i]))
  {
    hide Field, First, Block, Lines, Extent, Apply, IsSet, PastEnd;
    ExtentStep(r, i);
    var past := PastEnd(r, i);
    ApplyCons(decode, e, r[..i], Lines(past[..Extent(past)]));
    if Extent(past) < |past| {
      SameEnd(r, past, Extent(past));
    }
  }

  lemma RestLine(decode: Bytes -> Bytes, r: Bytes, i: nat, u: int, bound: int, e: Fields)
    requires i == First(r, LF, true) && (i == 0 || i == |r|)
    ensures i <= |r| && Rest(decode, r, u, bound, e) ==
      if u + i > bound then Over
      else if i == |r| then Stop
      else if IsSet(e) then Event(e, r[1..], r[0] == CR)
      else Block(decode, r[1..], true, r[0] == CR, false, 0, bound, e)
  {
    hide Field, First, Block, Lines, Extent, Apply, IsSet, PastEnd;
    ExtentNone(r, i);
    ApplyCons(decode, e, [], []);
  }

  /** So does the reader's block. */
  lemma {:induction false} BlockIs(decode: Bytes -> Bytes, rest: Bytes, cr: bool, charge: bool, used: nat,
      bound: int, e: Fields)
    requires used <= bound
    ensures Block(decode, rest, true, cr, charge, used, bound, e) ==
      Rest(decode, Drop(rest, cr), Used(rest, cr, charge, used), bound, e)
    decreases |rest|
  {
    hide Field, First, Block, Rest, PastEnd;
    var r, u := Drop(rest, cr), Used(rest, cr, charge, used);
    var i := First(r, LF, true);
    FirstBounds(r, LF, true);
    LineRead(decode, rest, cr, charge, used, bound, e);
    if i == 0 || i == |r| {
      RestLine(decode, r, i, u, bound, e);
    } else {
      RestStep(decode, r, i, u, bound, e);
      if u + i + 1 <= bound {
        BlockIs(decode, r[i + 1..], r[i] == CR, true, u + i + 1, bound, Field(decode, e, r[..i]));
        PastDrops(r, i);
        PastUsed(r, i, u);
      }
    }
  }

  /** What the bound counts past a line not empty is what was read. */
  lemma PastUsed(r: Bytes, i: nat, u: int)
    requires i < |r|
    ensures Used(r[i + 1..], r[i] == CR, true, u + i + 1) == u + |r| - |PastEnd(r, i)|
  {
  }

  /** One line of a block. */
  lemma LineRead(decode: Bytes -> Bytes, rest: Bytes, cr: bool, charge: bool, used: nat, bound: int, e: Fields)
    requires used <= bound
    ensures var (r, u) := (Drop(rest, cr), Used(rest, cr, charge, used));
      var i := First(r, LF, true);
      i <= |r| && Block(decode, rest, true, cr, charge, used, bound, e) ==
        if u + i > bound then Over
        else if i == |r| then Stop
        else if i == 0 then
          if IsSet(e) then Event(e, r[1..], r[0] == CR) else Block(decode, r[1..], true, r[0] == CR, false, 0, bound, e)
        else if u + i + 1 > bound then Over
        else Block(decode, r[i + 1..], true, r[i] == CR, true, u + i + 1, bound, Field(decode, e, r[..i]))
  {
    hide Field, First, NextLine, After;
    var r, u := Drop(rest, cr), Used(rest, cr, charge, used);
    LineIs(r, bound - u);
    NoLine();
  }

  lemma NoLine()
    ensures First([], LF, true) == 0
  {
  }

  lemma LineIs(r: Bytes, left: int)
    ensures var i := First(r, LF, true);
      && i <= |r|
      && NextLine(r, true, left) == (if i > left then TooLong else if i < |r| then Found(r[..i], r[i]) else Unended(r))
      && (i < |r| ==> After(r) == r[i + 1..])
  {
    hide First;
    FramesIs(r, LF, true, left);
  }

  // All blocks.

  lemma BlocksOf(decode: Bytes -> Bytes, rest: Bytes, started: bool, cr: bool, bound: int)
    ensures match Block(decode, rest, started, cr, false, 0, bound, UNSET)
      case Event(e, after, sep) =>
        |after| < |rest| && Blocks(decode, rest, started, cr, bound) ==
          ([e] + Blocks(decode, after, true, sep, bound).0, Blocks(decode, after, true, sep, bound).1)
      case Stop => Blocks(decode, rest, started, cr, bound) == ([], false)
      case Over => Blocks(decode, rest, started, cr, bound) == ([], true)
  {
    hide Block;
    BlockShorter(decode, rest, started, cr, false, 0, bound, UNSET);
  }

  lemma PiecesAre(decode: Bytes -> Bytes, t: Bytes, bound: int)
    ensures var n := Extent(t);
      var f := Apply(decode, UNSET, Lines(t[..n]));
      if n == |t| then Pieces(t) == [t] && Before(Pieces(t), bound) == [] && (Exceeds(Pieces(t), bound) <==> n > bound)
      else if n > bound then Before(Pieces(t), bound) == [] && Exceeds(Pieces(t), bound)
      else
        var more := Pieces(PastEnd(t, n));
        && (Exceeds(Pieces(t), bound) <==> Exceeds(more, bound))
        && Events(decode, Before(Pieces(t), bound)) ==
           (if IsSet(f) then [f] else []) + Events(decode, Before(more, bound))
  {
    hide Extent, Apply, Lines, PastEnd, IsSet;
    var n, ps := Extent(t), Pieces(t);
    assert ps[0] == t[..n];
    if n == |t| {
      assert t[..n] == t;
    } else {
      var more := Pieces(PastEnd(t, n));
      assert ps[1..] == more;
      if n <= bound {
        assert Before(ps, bound)[0] == ps[0] && Before(ps, bound)[1..] == Before(more, bound);
        if k :| 0 <= k < |more| && |more[k]| > bound {
          assert ps[k + 1] == more[k];
        }
        if k :| 0 <= k < |ps| && |ps[k]| > bound {
          assert more[k - 1] == ps[k];
        }
      }
    }
  }

  /** Of a started stream a reader has the events of the blocks before the first too long, and whether one is. */
  lemma {:induction false} BlocksAre(decode: Bytes -> Bytes, rest: Bytes, cr: bool, bound: nat)
    ensures var ps := Pieces(Drop(rest, cr));
      Blocks(decode, rest, true, cr, bound) == (Events(decode, Before(ps, bound)), Exceeds(ps, bound))
    decreases |rest|
  {
    hide Block, Blocks, Extent, Apply, Lines, IsSet, Pieces, Before, Exceeds, Events, PastEnd;
    var r := Drop(rest, cr);
    var n := Extent(r);
    BlockIs(decode, rest, cr, false, 0, bound, UNSET);
    BlocksOf(decode, rest, true, cr, bound);
    PiecesAre(decode, r, bound);
    NoEvents(decode);
    if n < |r| && n <= bound {
      var after, sep := r[n + 1..], r[n] == CR;
      PastDrops(r, n);
      BlocksAre(decode, after, sep, bound);
      var f := Apply(decode, UNSET, Lines(r[..n]));
      if !IsSet(f) {
        NothingSet(f);
        BlocksOf(decode, after, true, sep, bound);
        assert [] + Events(decode, Before(Pieces(PastEnd(r, n)), bound)) ==
          Events(decode, Before(Pieces(PastEnd(r, n)), bound));
      }
    }
  }

  lemma NoEvents(decode: Bytes -> Bytes)
    ensures Events(decode, []) == []
  {
  }

  // The lines of the whole text.

  /** The first block the lines of a text make. */
  function FirstOf(decode: Bytes -> Bytes, t: Bytes, e: Fields): Option<(Fields, seq<Bytes>)> {
    var n := Extent(t);
    var f := Apply(decode, e, Lines(t[..n]));
    if n == |t| then None
    else if IsSet(f) then Some((f, Lines(PastEnd(t, n))))
    else ParseOne(decode, Lines(PastEnd(t, n)), f)
  }

  lemma FirstStep(decode: Bytes -> Bytes, t: Bytes, i: nat, e: Fields)
    requires i == First(t, LF, true) && 0 < i < |t|
    ensures FirstOf(decode, t, e) == FirstOf(decode, PastEnd(t, i), Field(decode, e, t[..i]))
  {
    hide Field, First, Lines, Extent, Apply, IsSet, PastEnd, ParseOne;
    ExtentStep(t, i);
    var past := PastEnd(t, i);
    ApplyCons(decode, e, t[..i], Lines(past[..Extent(past)]));
    if Extent(past) < |past| {
      SameEnd(t, past, Extent(past));
    }
  }

  lemma {:induction false} ParseOneIs(decode: Bytes -> Bytes, t: Bytes, e: Fields)
    ensures ParseOne(decode, Lines(t), e) == FirstOf(decode, t, e)
    decreases |t|
  {
    hide Field, First, Lines, Extent, Apply, IsSet, FirstOf;
    var i := First(t, LF, true);
    FirstBounds(t, LF, true);
    LinesStep(t, i);
    if i < |t| {
      assert ([t[..i]] + Lines(PastEnd(t, i)))[1..] == Lines(PastEnd(t, i));
    }
    if i == 0 || i == |t| {
      FirstLine(decode, t, i, e);
    } else {
      FirstStep(decode, t, i, e);
      ParseOneIs(decode, PastEnd(t, i), Field(decode, e, t[..i]));
    }
  }

  lemma FirstLine(decode: Bytes -> Bytes, t: Bytes, i: nat, e: Fields)
    requires i == First(t, LF, true) && (i == 0 || i == |t|)
    ensures FirstOf(decode, t, e) ==
      if i == |t| then None
      else if IsSet(e) then Some((e, Lines(PastEnd(t, 0))))
      else ParseOne(decode, Lines(PastEnd(t, 0)), e)
  {
    hide Field, First, Lines, Extent, Apply, IsSet, PastEnd, ParseOne;
    ExtentNone(t, i);
    ApplyCons(decode, e, [], []);
  }

  lemma ParseOf(decode: Bytes -> Bytes, ls: seq<Bytes>)
    ensures var p := ParseOne(decode, ls, UNSET);
      Parse(decode, ls) == if p.None? then [] else [p.value.0] + Parse(decode, p.value.1)
  {
    hide ParseOne;
    ParseOneShorter(decode, ls, UNSET);
  }

  lemma EndedStep(t: Bytes)
    ensures var n := Extent(t);
      Ended(t) == if n == |t| then [] else [t[..n]] + Ended(PastEnd(t, n))
  {
    hide Extent, PastEnd;
    var n := Extent(t);
    if n < |t| {
      var more := Pieces(PastEnd(t, n));
      assert Pieces(t) == [t[..n]] + more;
      assert ([t[..n]] + more)[..|more|] == [t[..n]] + more[..|more| - 1];
    }
  }

  /** The events of a text's lines are those of its ended blocks. */
  lemma {:induction false} ParsesBlocks(decode: Bytes -> Bytes, t: Bytes)
    ensures Parse(decode, Lines(t)) == Events(decode, Ended(t))
    decreases |t|
  {
    hide Extent, Apply, Lines, IsSet, Parse, ParseOne, Ended;
    var n := Extent(t);
    ParseOneIs(decode, t, UNSET);
    ParseOf(decode, Lines(t));
    EndedStep(t);
    NoEvents(decode);
    if n < |t| {
      var past := PastEnd(t, n);
      ParsesBlocks(decode, past);
      var f := Apply(decode, UNSET, Lines(t[..n]));
      EventsCons(decode, t[..n], Ended(past));
      if !IsSet(f) {
        NothingSet(f);
        ParseOf(decode, Lines(past));
      }
    }
  }

  lemma EventsCons(decode: Bytes -> Bytes, p: Bytes, ps: seq<Bytes>)
    ensures var f := Apply(decode, UNSET, Lines(p));
      Events(decode, [p] + ps) == if IsSet(f) then [f] + Events(decode, ps) else Events(decode, ps)
  {
    hide Apply, Lines, IsSet;
    assert ([p] + ps)[1..] == ps && [] + Events(decode, ps) == Events(decode, ps);
  }

  /** The events a reader has are the first of the text's, and all of them if no block is too long. */
  lemma {:induction false} FirstEvents(decode: Bytes -> Bytes, ps: seq<Bytes>, bound: int)
    requires ps != []
    ensures Events(decode, Before(ps, bound)) <= Events(decode, ps[..|ps| - 1])
    ensures !Exceeds(ps, bound) ==> Before(ps, bound) == ps[..|ps| - 1]
    decreases |ps|
  {
    hide Apply, Lines, IsSet;
    if |ps| > 1 && |ps[0]| <= bound {
      var more := ps[1..];
      FirstEvents(decode, more, bound);
      assert ps[..|ps| - 1] == [ps[0]] + more[..|more| - 1];
      EventsCons(decode, ps[0], more[..|more| - 1]);
      EventsCons(decode, ps[0], Before(more, bound));
      if !Exceeds(ps, bound) {
        forall k | 0 <= k < |more| ensures |more[k]| <= bound {
          assert more[k] == ps[k + 1];
        }
      }
    } else if |ps| > 1 {
      assert Exceeds(ps, bound);
    }
  }

  // The first block of a text.

  /** A text's own first line is without its leading byte order mark. */
  lemma FirstTrim(t: Bytes)
    requires BOM <= t
    ensures First(t, LF, true) == 3 + First(t[3..], LF, true)
    ensures First(t, LF, true) <= |t| && TrimBOM(t[..First(t, LF, true)]) == t[3..][..First(t[3..], LF, true)]
  {
    hide First, TrimBOM;
    var u := t[3..];
    FirstAfter(BOM, u);
    FirstBounds(u, LF, true);
    assert t == BOM + u;
    TrimPast(u, First(u, LF, true));
  }

  lemma TrimPast(u: Bytes, n: nat)
    requires n <= |u|
    ensures 3 + n <= |BOM + u| && TrimBOM((BOM + u)[..3 + n]) == u[..n]
  {
    var s := (BOM + u)[..3 + n];
    assert BOM <= s && s[3..] == u[..n];
  }

  /** What ends no line goes before the first line. */
  lemma {:induction false} FirstAfter(b: Bytes, u: Bytes)
    requires forall j :: 0 <= j < |b| ==> !Ends(b[j], LF, true)
    ensures First(b + u, LF, true) == |b| + First(u, LF, true)
    decreases |b|
  {
    hide Ends;
    if b == [] {
      assert b + u == u;
    } else {
      assert (b + u)[1..] == b[1..] + u;
      FirstAfter(b[1..], u);
    }
  }

  lemma TrimShort(t: Bytes, i: nat)
    requires i <= |t| && !(BOM <= t)
    ensures TrimBOM(t[..i]) == t[..i]
  {
  }

  /** The first line of a text is that of the text without its byte order mark, which the bound leaves out. */
  lemma LineTrims(t: Bytes, bound: nat)
    ensures NextLine(t, false, bound) == NextLine(TrimBOM(t), true, bound) && After(t) == After(TrimBOM(t))
  {
    hide First;
    FirstBounds(t, LF, true);
    FirstBounds(TrimBOM(t), LF, true);
    var i, r := First(t, LF, true), TrimBOM(t);
    var j := First(r, LF, true);
    if BOM <= t {
      FirstTrim(t);
    } else {
      TrimShort(t, i);
      assert t[..|t|] == t;
      TrimShort(t, |t|);
    }
    FramesIs(t, LF, true, bound + 3);
    FramesIs(r, LF, true, bound);
  }

  lemma BlockTrims(decode: Bytes -> Bytes, t: Bytes, bound: nat)
    ensures Block(decode, t, false, false, false, 0, bound, UNSET) ==
      Block(decode, TrimBOM(t), true, false, false, 0, bound, UNSET)
  {
    hide Field, First, NextLine, After, TrimBOM;
    LineTrims(t, bound);
  }

  /** Of every text, whatever the bound, a reader has the first of the events of its lines, a leading byte order mark
      left out: those of the blocks before the first too long, and all of them if none is. */
  lemma TextParses(decode: Bytes -> Bytes, t: Bytes, bound: nat)
    ensures var ps, all := Pieces(TrimBOM(t)), Parse(decode, Lines(TrimBOM(t)));
      var (es, over) := Blocks(decode, t, false, false, bound);
      && (over <==> Exceeds(ps, bound)) && es == Events(decode, Before(ps, bound))
      && es <= all && (!over ==> es == all)
  {
    hide Block, Blocks, Parse, Lines, Pieces, Before, Exceeds, Events, TrimBOM;
    var r := TrimBOM(t);
    BlockTrims(decode, t, bound);
    BlocksOf(decode, t, false, false, bound);
    BlocksOf(decode, r, true, false, bound);
    BlocksAre(decode, r, false, bound);
    ParsesBlocks(decode, r);
    FirstEvents(decode, Pieces(r), bound);
  }
}
