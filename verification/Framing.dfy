/** The buffered reader of a stream in frames, whatever pieces its source delivers. */
module Framing {
  import opened Wrappers
  import opened Ascii

  /** What a source says after its last bytes. */
  datatype End = EOF | Failed(code: int)

  function Join(chunks: seq<Bytes>): Bytes {
    if chunks == [] then [] else chunks[0] + Join(chunks[1..])
  }

  /** The offset of the first c in s, or the length of s. */
  function Index(s: Bytes, c: byte): (i: nat)
    ensures i <= |s| && (i < |s| ==> s[i] == c) && forall j :: 0 <= j < i ==> s[j] != c
  {
    if s == [] || s[0] == c then 0 else 1 + Index(s[1..], c)
  }

  lemma {:induction false} IndexIs(s: Bytes, c: byte, i: nat)
    requires i <= |s| && (i < |s| ==> s[i] == c) && forall j :: 0 <= j < i ==> s[j] != c
    ensures Index(s, c) == i
  {
    if i > 0 {
      IndexIs(s[1..], c, i - 1);
    }
  }

  predicate Ends(c: byte, sep: byte, cr: bool) {
    c == sep || (cr && c == CR)
  }

  /** The offset of the first byte of s that ends a frame, or the length of s. */
  function First(s: Bytes, sep: byte, cr: bool): nat {
    if s == [] || Ends(s[0], sep, cr) then 0 else 1 + First(s[1..], sep, cr)
  }

  lemma {:induction false} FirstIs(s: Bytes, sep: byte, cr: bool, i: nat)
    requires i <= |s| && (forall j :: 0 <= j < i ==> !Ends(s[j], sep, cr)) && (i < |s| ==> Ends(s[i], sep, cr))
    ensures First(s, sep, cr) == i
  {
    if i > 0 {
      FirstIs(s[1..], sep, cr, i - 1);
    }
  }

  lemma {:induction false} FirstBounds(s: Bytes, sep: byte, cr: bool)
    ensures First(s, sep, cr) <= |s|
    ensures First(s, sep, cr) < |s| ==> Ends(s[First(s, sep, cr)], sep, cr)
    ensures forall j :: 0 <= j < First(s, sep, cr) ==> !Ends(s[j], sep, cr)
  {
    if s != [] && !Ends(s[0], sep, cr) {
      FirstBounds(s[1..], sep, cr);
    }
  }

  /** A frame and the byte that ends it; what is left where none does; or a frame longer than the bound. */
  datatype Frame = Found(data: Bytes, sep: byte) | Unended(data: Bytes) | TooLong

  /** The first frame of s. */
  function Frames(s: Bytes, sep: byte, cr: bool, bound: int): Frame {
    FirstBounds(s, sep, cr);
    var i := First(s, sep, cr);
    if i > bound then TooLong else if i < |s| then Found(s[..i], s[i]) else Unended(s)
  }

  class FrameReader {
    const end: End
    var chunks: seq<Bytes>
    var buf: Bytes
    var lo: nat
    var crAt: int

    constructor (chunks: seq<Bytes>, end: End)
      requires forall i :: 0 <= i < |chunks| ==> chunks[i] != []
      ensures Valid() && Rest() == Join(chunks) && this.end == end
    {
      this.chunks, this.end := chunks, end;
      buf, lo, crAt := [], 0, -1;
    }

    /** The CR cached is stale, or the first at or after the read position, or the end of the buffer if none is. */
    ghost predicate Valid()
      reads this
    {
      && lo <= |buf|
      && (forall i :: 0 <= i < |chunks| ==> chunks[i] != [])
      && (crAt >= lo ==> crAt <= |buf| && (crAt < |buf| ==> buf[crAt] == CR))
      && (crAt >= lo ==> forall j :: lo <= j < crAt ==> buf[j] != CR)
    }

    /** What is still to be read. */
    ghost function Rest(): Bytes
      reads this
      requires lo <= |buf|
    {
      buf[lo..] + Join(chunks)
    }

    /** Has something to read, unless the source has ended. */
    method Fill() returns (ended: bool)
      requires Valid()
      modifies this
      ensures Valid() && Rest() == old(Rest())
      ensures ended <==> Rest() == []
      ensures !ended ==> lo < |buf|
      ensures old(lo < |buf|) ==> buf == old(buf) && lo == old(lo) && chunks == old(chunks)
      ensures old(lo == |buf|) && !ended ==> |chunks| < |old(chunks)|
    {
      if lo < |buf| {
        return false;
      }
      if chunks == [] {
        return true;
      }
      buf, lo, crAt, chunks := chunks[0], 0, -1, chunks[1..];
      return false;
    }

    /** Where the frame ends in p, what is buffered, searching for sep no further than the next CR, or -1. */
    method Find(p: Bytes, sep: byte, cr: bool) returns (i: int)
      requires Valid() && lo < |buf| && p == buf[lo..]
      modifies this`crAt
      ensures Valid() && -1 <= i < |p|
      ensures forall j :: 0 <= j < (if i >= 0 then i else |p|) ==> !Ends(p[j], sep, cr)
      ensures i >= 0 ==> Ends(p[i], sep, cr)
    {
      i := -1;
      if Ends(p[0], sep, cr) {
        i := 0;
      } else if cr {
        if crAt < lo {
          crAt := lo + Index(p, CR);
        }
        assert forall j :: 0 <= j < crAt - lo ==> p[j] != CR;
        var j := Index(p[..crAt - lo], sep);
        assert forall x :: 0 <= x < j ==> p[x] == p[..crAt - lo][x];
        if j < crAt - lo {
          i := j;
        } else if crAt < |buf| {
          i := crAt - lo;
        }
      } else {
        var j := Index(p, sep);
        if j < |p| {
          i := j;
        }
      }
    }

    /** Reads what is buffered, after scratch: it ends the frame, or makes it too long, or is all of it so far. */
    method Piece(sep: byte, cr: bool, bound: int, scratch: Bytes, ghost all: Bytes)
      returns (frame: Option<Frame>, longer: Bytes)
      requires Valid() && lo < |buf| && all == scratch + Rest() && |scratch| <= bound
      requires forall j :: 0 <= j < |scratch| ==> !Ends(scratch[j], sep, cr)
      modifies this`lo, this`crAt
      ensures Valid()
      ensures frame.Some? ==> frame.value == Frames(all, sep, cr, bound) && !frame.value.Unended?
      ensures frame.Some? && frame.value.Found? ==> all == frame.value.data + [frame.value.sep] + Rest()
      ensures frame.None? ==> all == longer + Rest() && |longer| <= bound && lo == |buf|
      ensures frame.None? ==> forall j :: 0 <= j < |longer| ==> !Ends(longer[j], sep, cr)
    {
      hide Ends, First, Frames, Join;
      var p := buf[lo..];
      ghost var ahead := Join(chunks);
      var i := Find(p, sep, cr);
      var n := if i >= 0 then i else |p|;
      FirstSplit(scratch, p, ahead, sep, cr, n, all);
      FramesIs(all, sep, cr, bound);
      if |scratch| + n > bound {
        return Some(TooLong), scratch;
      }
      if i >= 0 {
        FoundSplit(scratch, buf, lo, ahead, i, all, p);
        lo := lo + i + 1;
        return Some(Found(scratch + p[..i], p[i])), scratch;
      }
      lo := |buf|;
      return None, scratch + p;
    }

    /** The next frame, and what ends it read past, as if all that is still to be read were buffered. */
    method Until(sep: byte, cr: bool, bound: int) returns (frame: Frame)
      requires Valid() && bound >= 0
      modifies this
      ensures Valid() && frame == Frames(old(Rest()), sep, cr, bound)
      ensures frame.Found? ==> old(Rest()) == frame.data + [frame.sep] + Rest()
      ensures frame.Unended? ==> Rest() == []
    {
      hide Ends, First, Frames, Join;
      var scratch: Bytes := [];
      ghost var all := Rest();
      while true
        invariant Valid() && all == scratch + Rest() && |scratch| <= bound
        invariant forall j :: 0 <= j < |scratch| ==> !Ends(scratch[j], sep, cr)
        decreases |chunks|, |buf| - lo
      {
        var ended := Fill();
        if ended {
          assert scratch == all;
          FirstIs(all, sep, cr, |all|);
          FramesIs(all, sep, cr, bound);
          return Unended(scratch);
        }
        var found: Option<Frame>;
        found, scratch := Piece(sep, cr, bound, scratch, all);
        if found.Some? {
          return found.value;
        }
      }
    }

    /** Reads past an LF, if one is next. */
    method OptionalLF() returns (ended: bool, lf: bool)
      requires Valid()
      modifies this
      ensures Valid() && (ended <==> old(Rest()) == [])
      ensures lf <==> !ended && old(Rest())[0] == LF
      ensures Rest() == if lf then old(Rest())[1..] else old(Rest())
    {
      ended := Fill();
      lf := !ended && buf[lo] == LF;
      if lf {
        lo := lo + 1;
      }
    }
  }

  lemma FramesIs(s: Bytes, sep: byte, cr: bool, bound: int)
    ensures var i := First(s, sep, cr);
      i <= |s| && Frames(s, sep, cr, bound) ==
        (if i > bound then TooLong else if i < |s| then Found(s[..i], s[i]) else Unended(s))
  {
    FirstBounds(s, sep, cr);
  }

  lemma FoundSplit(scratch: Bytes, buf: Bytes, lo: nat, ahead: Bytes, i: nat, all: Bytes, p: Bytes)
    requires lo + i < |buf| && p == buf[lo..] && all == scratch + (p + ahead)
    ensures all == scratch + p[..i] + [p[i]] + (buf[lo + i + 1..] + ahead)
    ensures |scratch| + i < |all| && all[..|scratch| + i] == scratch + p[..i] && all[|scratch| + i] == p[i]
  {
  }

  /** Where nothing of scratch ends the frame, and nothing of p before n, the frame is that long or longer. */
  lemma FirstSplit(scratch: Bytes, p: Bytes, ahead: Bytes, sep: byte, cr: bool, n: nat, all: Bytes)
    requires all == scratch + (p + ahead) && n <= |p|
    requires forall j :: 0 <= j < |scratch| ==> !Ends(scratch[j], sep, cr)
    requires forall j :: 0 <= j < n ==> !Ends(p[j], sep, cr)
    ensures n < |p| && Ends(p[n], sep, cr) ==> First(all, sep, cr) == |scratch| + n
    ensures First(all, sep, cr) >= |scratch| + n
  {
    FirstBounds(all, sep, cr);
    var m := |scratch| + n;
    assert forall j :: 0 <= j < m ==> all[j] == if j < |scratch| then scratch[j] else p[j - |scratch|];
    if n < |p| {
      assert all[m] == p[n];
      if Ends(p[n], sep, cr) {
        FirstIs(all, sep, cr, m);
      }
    }
  }
}
