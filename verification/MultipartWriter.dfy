/** The writer of multipart bodies. */
module MultipartWriter {
  import opened Wrappers
  import opened Ascii
  import opened Framing
  import opened Delimiters
  import opened Seams
  import opened Multipart
  import Sequences

  /** A body: bytes, and before them the sources that precede them. */
  class Builder {
    var buf: Bytes
    var parts: seq<Source>

    constructor ()
      ensures buf == [] && parts == []
    {
      buf, parts := [], [];
    }

    ghost function All(): Bytes
      reads this
    {
      Text(parts) + buf
    }

    /** Moves what buf has into a source of its own, so that another can follow. */
    method Flush()
      modifies this
      ensures buf == [] && All() == old(All())
      ensures (AllPass(parts) <==> AllPass(old(parts))) && (AllBegin(old(parts)) ==> AllBegin(parts))
    {
      if buf != [] {
        var p := Source(buf, |buf|, EOF, [], false);
        TextAppend(parts, p);
        assert Whole(p) == buf;
        ghost var was := parts;
        parts, buf := parts + [p], [];
        assert parts[|was|] == p && forall i :: 0 <= i < |was| ==> parts[i] == was[i];
        assert All() == old(All());
      }
    }

    /** Puts the source p at the end. */
    method Add(p: Source)
      modifies this
      ensures buf == [] && All() == old(All()) + Whole(p)
      ensures AllPass(parts) <==> AllPass(old(parts)) && Passes(p)
      ensures AllBegin(old(parts)) && AllBegin([p]) ==> AllBegin(parts)
    {
      hide Passes, Whole;
      Flush();
      TextAppend(parts, p);
      ghost var was := parts;
      parts := parts + [p];
      assert [p][0] == p && parts[|was|] == p && forall i :: 0 <= i < |was| ==> parts[i] == was[i];
    }
  }

  lemma {:induction false} TextAppend(parts: seq<Source>, p: Source)
    ensures Text(parts + [p]) == Text(parts) + Whole(p)
  {
    if parts == [] {
      assert [p][1..] == [];
    } else {
      assert (parts + [p])[1..] == parts[1..] + [p];
      TextAppend(parts[1..], p);
    }
  }

  /** What is wrong with what is to be written, if anything. */
  class Problems {
    var found: bool

    constructor ()
      ensures !found
    {
      found := false;
    }
  }

  const MAX_BUFFER: nat := 65536

  lemma CleanHeld(data: Bytes, boundaries: seq<Bytes>)
    ensures forall k :: 0 <= k < |AllDelimiters(boundaries)| ==> AllDelimiters(boundaries)[k] != []
    ensures Holds(data, AllDelimiters(boundaries)) <==> !AllClean(data, boundaries)
    ensures Any([LF] + data, AllDelimiters(boundaries)) <==> !AllClean(data, boundaries)
  {
    hide Clean, Holds, Any;
    HoldsUnclean(data, boundaries);
    LineHolds(data, boundaries);
  }

  /** A reader's source, checked for delimiters, passes exactly if it holds none. */
  lemma SourceChecked(p: Source, own: seq<Bytes>)
    requires p.check == AllDelimiters(own) && p.delimiter
    ensures Passes(p) <==> AllClean(Whole(p), own)
    ensures AllBegin([p])
  {
    hide Any, AllClean, Whole;
    CleanHeld(Whole(p), own);
    CleanHeld([], own);
    assert [LF] + [] == [LF];
    NothingClean(own);
    CleanOfNone(Whole(p));
    assert own != [] ==> AllDelimiters(own) != [];
  }

  lemma CleanOfNone(data: Bytes)
    ensures AllClean(data, [])
  {
  }

  lemma NothingClean(own: seq<Bytes>)
    ensures AllClean([], own)
  {
    forall k | 0 <= k < |own| ensures Clean([], own[k]) {
      EmptyClean(own[k]);
    }
  }

  /** What writes one body into b, at the top or within the bodies whose boundaries are outer. */
  class PartWriter {
    const b: Builder
    const re: Problems
    const outer: seq<Bytes>
    const nested: bool
    var boundary: Bytes
    var own: seq<Bytes>
    var written: bool

    constructor (b: Builder, re: Problems, outer: seq<Bytes>, nested: bool)
      ensures this.b == b && this.re == re && this.outer == outer && this.nested == nested && !written
    {
      this.b, this.re, this.outer, this.nested := b, re, outer, nested;
      boundary, own, written := [], [], false;
    }

    /** Nothing is wrong so far, if nothing that is read when the body is holds a delimiter. */
    ghost predicate Sound()
      reads re, b
    {
      !re.found && AllPass(b.parts)
    }

    /** Puts a delimiter line of this body; ok if no outer delimiter occurs in that line. */
    method Line(close: bool) returns (ok: bool)
      modifies b`buf, this`written
      ensures b.buf == old(b.buf) + DelimiterLine(old(written), boundary, close) && written
      ensures ok <==> AllClean(DelimiterLine(old(written), boundary, close), outer)
    {
      hide AllClean, Holds;
      var start := |b.buf|;
      ghost var line := DelimiterLine(written, boundary, close);
      if written {
        b.buf := b.buf + CRLF;
      }
      b.buf := b.buf + [MINUS, MINUS] + boundary + (if close then [MINUS, MINUS] else []) + CRLF;
      written := true;
      CleanHeld(line, outer);
      assert b.buf == old(b.buf) + line && b.buf[start..] == line;
      ok := !Holds(b.buf[start..], AllDelimiters(outer));
    }

    method Fields(fields: seq<Field>)
      modifies b`buf
      ensures b.buf == old(b.buf) + Header(fields)
    {
      hide FieldLine;
      for i := 0 to |fields|
        invariant b.buf + FieldLines(fields[i..]) == old(b.buf) + FieldLines(fields)
      {
        ghost var was := b.buf;
        assert fields[i..][1..] == fields[i + 1..];
        b.buf := b.buf + FieldLine(fields[i]);
        assert b.buf + FieldLines(fields[i + 1..]) == was + FieldLines(fields[i..]);
      }
      assert fields[|fields|..] == [] && FieldLines([]) == [];
      assert b.buf == b.buf + FieldLines(fields[|fields|..]);
      b.buf := b.buf + CRLF;
      assert b.buf == old(b.buf) + (FieldLines(fields) + CRLF);
    }

    /** Writes a part: its delimiter line, its header, then its content, but what holds a delimiter, and a body nested
        further, are refused. */
    method Write(p: Part)
      requires AllValid(outer) && AllValid(own)
      modifies b, re, this`written
      ensures old(re.found) ==> re.found
      ensures !re.found ==>
        written && b.All() == old(b.All()) + DelimiterLine(old(written), boundary, false) + PartText(p)
      ensures Sound() <==>
        old(Sound()) && AllClean(DelimiterLine(old(written), boundary, false), outer) && PartFits(own, p, nested)
      ensures AllBegin(old(b.parts)) ==> AllBegin(b.parts)
      decreases p
    {
      hide AllClean, ValidBoundary, AllPass, AllBegin, Header, DelimiterLine, Holds, Whole;
      if p.content.Nested? && (nested || !ValidBoundary(p.content.boundary)) {
        re.found := true;
        return;
      }
      if |b.buf| >= MAX_BUFFER {
        b.Flush();
      }
      ghost var before, line := b.All(), DelimiterLine(written, boundary, false);
      var ok := Line(false);
      var start := |b.buf|;
      assert b.All() == before + line;
      Fields(p.fields);
      assert b.buf[start..] == Header(p.fields) && b.All() == before + line + Header(p.fields);
      var content := if p.content.Data? then p.content.data else [];
      CleanHeld(Header(p.fields), own);
      CleanHeld(content, own);
      NothingClean(own);
      if !ok || Holds(b.buf[start..], AllDelimiters(own)) || Holds(content, AllDelimiters(own)) {
        re.found := true;
        return;
      }
      Content(p);
      assert before + line + Header(p.fields) + ContentText(p.content) == before + line + PartText(p);
    }

    /** Writes a part's content, data as it is, a reader checked when it is read. */
    method Content(p: Part)
      requires AllValid(outer) && AllValid(own)
      requires p.content.Nested? ==> !nested && ValidBoundary(p.content.boundary)
      requires p.content.Data? ==> AllClean(p.content.data, own)
      modifies b, re
      ensures old(re.found) ==> re.found
      ensures !re.found ==> b.All() == old(b.All()) + ContentText(p.content)
      ensures Sound() <==> old(Sound()) && ContentFits(own, p.content)
      ensures AllBegin(old(b.parts)) ==> AllBegin(b.parts)
      decreases p, 0
    {
      hide AllClean, ValidBoundary, AllPass, AllBegin, Whole, Passes;
      match p.content
      case Reader(source) =>
        var s := Source(source.content, source.size, source.end, AllDelimiters(own), true);
        SameWhole(s, source);
        SourceChecked(s, own);
        b.Add(s);
      case Nested(boundary, given, parts) =>
        var inner := new PartWriter(b, re, own, true);
        inner.Parts(boundary, given, parts);
      case Data(data, raw) =>
        if raw && data != [] {
          var s := Source(data, |data|, EOF, [], false);
          DataSource(s, data);
          b.Add(s);
        } else {
          b.buf := b.buf + data;
        }
    }

    /** Writes parts and the close delimiter: what is written, and checked, is the body. */
    method Parts(boundary: Bytes, given: bool, parts: seq<Part>)
      requires AllValid(outer) && ValidBoundary(boundary) && !written
      modifies b, re, this
      ensures old(re.found) ==> re.found
      ensures !re.found ==> b.All() == old(b.All()) + Body(boundary, parts, false)
      ensures Sound() <==>
        old(Sound()) && BodyFits(outer, outer + (if given then [boundary] else []), boundary, parts, nested, false)
      ensures AllBegin(old(b.parts)) ==> AllBegin(b.parts)
      decreases parts
    {
      hide AllClean, ValidBoundary, AllPass, AllBegin, DelimiterLine, PartText;
      this.boundary, own := boundary, outer + (if given then [boundary] else []);
      ghost var before, sound, begun := b.All(), Sound(), AllBegin(b.parts);
      OwnValid(outer, boundary, given);
      for i := 0 to |parts|
        invariant this.boundary == boundary && own == outer + (if given then [boundary] else [])
        invariant old(re.found) ==> re.found
        invariant !re.found ==> written == (i > 0)
        invariant !re.found ==> b.All() + Body(boundary, parts[i..], i > 0) == before + Body(boundary, parts, false)
        invariant Sound() && BodyFits(outer, own, boundary, parts[i..], nested, i > 0) <==>
          sound && BodyFits(outer, own, boundary, parts, nested, false)
        invariant begun ==> AllBegin(b.parts)
      {
        ghost var all, now := b.All(), Sound();
        assert parts[i..][0] == parts[i] && parts[i..][1..] == parts[i + 1..];
        Write(parts[i]);
        ghost var line, text, rest := DelimiterLine(i > 0, boundary, false), PartText(parts[i]),
          Body(boundary, parts[i + 1..], true);
        assert all + (line + text + rest) == all + line + text + rest;
      }
      assert parts[|parts|..] == [];
      ghost var last := Sound();
      var ok := Line(true);
      if !ok {
        re.found := true;
      }
    }
  }

  lemma SameWhole(s: Source, t: Source)
    requires s.content == t.content && s.size == t.size
    ensures Whole(s) == Whole(t)
  {
  }

  lemma DataSource(s: Source, data: Bytes)
    requires s == Source(data, |data|, EOF, [], false)
    ensures Whole(s) == data && Passes(s) && AllBegin([s])
  {
  }

  lemma OwnValid(outer: seq<Bytes>, boundary: Bytes, given: bool)
    requires AllValid(outer) && ValidBoundary(boundary)
    ensures AllValid(outer + (if given then [boundary] else []))
  {
  }

  /** Writes a body with the caller's boundary: what is not refused, and is read with no delimiter found, splits at the
      boundary into the parts. */
  method WriteBody(boundary: Bytes, parts: seq<Part>) returns (refused: bool, sources: seq<Source>)
    requires ValidBoundary(boundary)
    ensures AllBegin(sources)
    ensures !refused ==> Text(sources) == Body(boundary, parts, false)
    ensures !refused && AllPass(sources) <==> Acceptable(boundary, parts)
    ensures !refused && AllPass(sources) ==> Split(CRLF + Text(sources), Delimiter(boundary)) == [[]] + Segments(parts)
  {
    hide ValidBoundary, BodyFits, Acceptable, Body, Split, Segments;
    FitsIs(boundary, parts);
    var b := new Builder();
    var re := new Problems();
    var w := new PartWriter(b, re, [], false);
    assert [] + [boundary] == [boundary];
    w.Parts(boundary, true, parts);
    b.Flush();
    refused, sources := re.found, b.parts;
    assert Text(sources) + [] == Text(sources);
    if !refused && AllPass(sources) {
      BodyRecovered([], [boundary], boundary, parts, false, 0);
    }
  }

  /** Writes a body and reads it, so many bytes at a time: what was sent when all is read splits into the parts; what is
      sent at all is of the body written; and it is refused, or ended for a delimiter, only if some check fails. */
  method Send(boundary: Bytes, parts: seq<Part>, rooms: seq<nat>) returns (refused: bool, sent: Bytes, err: Option<Err>)
    requires ValidBoundary(boundary)
    ensures !refused ==> sent <= Body(boundary, parts, false)
    ensures !refused && err == Some(Done) ==>
      sent == Body(boundary, parts, false) && Split(CRLF + sent, Delimiter(boundary)) == [[]] + Segments(parts)
    ensures !refused && err == Some(Done) ==> Acceptable(boundary, parts)
    ensures refused || err == Some(DelimiterHeld) || err == Some(SeparatorHeld) ==>
      !Acceptable(boundary, parts)
  {
    hide ValidBoundary, Acceptable, Body, Split, Segments, AllPass, AllBegin, Text;
    var sources: seq<Source>;
    refused, sources := WriteBody(boundary, parts);
    sent, err := [], None;
    if refused {
      return;
    }
    var cursor := new Cursor(sources);
    assert [] + cursor.Left() == cursor.Left();
    for i := 0 to |rooms|
      invariant cursor.Valid() && sent + cursor.Left() == Body(boundary, parts, false) && err.None?
      invariant AllPass(cursor.parts) <==> AllPass(sources)
    {
      var data: Bytes;
      data, err := cursor.Read(rooms[i]);
      if err.Some? {
        assert err == Some(Done) ==> sent + [] == sent;
        return;
      }
      Sequences.Group(sent, data, cursor.Left());
      sent := sent + data;
    }
  }
}
