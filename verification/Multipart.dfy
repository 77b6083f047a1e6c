/** Multipart bodies, possibly nested: when what is printed of a list of parts splits back into that list. */
module Multipart {
  import opened Wrappers
  import opened Ascii
  import opened Framing
  import opened Delimiters
  import opened Seams

  datatype Field = Field(name: Bytes, value: Bytes)

  /** Content as bytes, encoded or raw; as a reader gives it when the body is read; or as a body of its own, whose
      boundary the caller gave or is generated. */
  datatype Content =
    | Data(data: Bytes, raw: bool)
    | Reader(source: Source)
    | Nested(boundary: Bytes, given: bool, parts: seq<Part>)
  datatype Part = Part(fields: seq<Field>, content: Content)

  const CRLF: Bytes := [CR, LF]

  // What is written.

  function FieldLine(f: Field): Bytes {
    f.name + [COLON, SPACE] + f.value + CRLF
  }

  function FieldLines(fields: seq<Field>): Bytes {
    if fields == [] then [] else FieldLine(fields[0]) + FieldLines(fields[1..])
  }

  /** A part's header, up to its empty line. */
  function Header(fields: seq<Field>): Bytes {
    FieldLines(fields) + CRLF
  }

  function DelimiterLine(written: bool, boundary: Bytes, close: bool): Bytes {
    (if written then CRLF else []) + [MINUS, MINUS] + boundary + (if close then [MINUS, MINUS] else []) + CRLF
  }

  function PartText(p: Part): Bytes
    decreases p
  {
    Header(p.fields) + ContentText(p.content)
  }

  function ContentText(c: Content): Bytes
    decreases c
  {
    match c
    case Data(data, _) => data
    case Reader(source) => Whole(source)
    case Nested(boundary, _, parts) => Body(boundary, parts, false)
  }

  /** The parts of a body, and its close delimiter; written tells that a line precedes them. */
  function Body(boundary: Bytes, parts: seq<Part>, written: bool): Bytes
    decreases parts
  {
    if parts == [] then DelimiterLine(written, boundary, true)
    else DelimiterLine(written, boundary, false) + PartText(parts[0]) + Body(boundary, parts[1..], true)
  }

  // What the checks let through.

  predicate AllClean(data: Bytes, boundaries: seq<Bytes>) {
    forall k :: 0 <= k < |boundaries| ==> Clean(data, boundaries[k])
  }

  predicate PartFits(own: seq<Bytes>, p: Part, nested: bool)
    decreases p
  {
    && AllClean(Header(p.fields), own)
    && (p.content.Nested? ==> !nested && ValidBoundary(p.content.boundary))
    && ContentFits(own, p.content)
  }

  predicate ContentFits(own: seq<Bytes>, c: Content)
    decreases c
  {
    match c
    case Data(data, _) => AllClean(data, own)
    case Reader(source) => AllClean(Whole(source), own)
    case Nested(boundary, given, parts) =>
      BodyFits(own, own + (if given then [boundary] else []), boundary, parts, true, false)
  }

  /** No delimiter line holds a delimiter of a body around, and no part one of those or of its own boundary,
      if given. */
  predicate BodyFits(outer: seq<Bytes>, own: seq<Bytes>, boundary: Bytes, parts: seq<Part>, nested: bool, written: bool)
    decreases parts
  {
    && AllClean(DelimiterLine(written, boundary, parts == []), outer)
    && (parts != [] ==> PartFits(own, parts[0], nested) && BodyFits(outer, own, boundary, parts[1..], nested, true))
  }

  predicate AllValid(boundaries: seq<Bytes>) {
    forall k :: 0 <= k < |boundaries| ==> ValidBoundary(boundaries[k])
  }

  // Which bodies are let through.

  /** The delimiter lines of a body of n parts, the first after others or not, and the last of them its close delimiter,
      hold none of outer. */
  predicate LinesFit(outer: seq<Bytes>, boundary: Bytes, n: nat, written: bool) {
    && AllClean(DelimiterLine(written, boundary, n == 0), outer)
    && (n > 0 ==> AllClean(DelimiterLine(true, boundary, true), outer))
    && (n > 1 ==> AllClean(DelimiterLine(true, boundary, false), outer))
  }

  ghost predicate FlatFits(boundary: Bytes, p: Part) {
    Clean(Header(p.fields), boundary) && Clean(ContentText(p.content), boundary)
  }

  /** A body in a part: its boundary is one, no delimiter line of it holds a delimiter of the body around, and its
      parts, none of them with a body of its own, hold none of that, nor one of its own where its boundary was given. */
  ghost predicate InnerFits(boundary: Bytes, c: Content)
    requires c.Nested?
  {
    && ValidBoundary(c.boundary)
    && LinesFit([boundary], c.boundary, |c.parts|, false)
    && forall j :: 0 <= j < |c.parts| ==>
         && !c.parts[j].content.Nested? && FlatFits(boundary, c.parts[j])
         && (c.given ==> FlatFits(c.boundary, c.parts[j]))
  }

  /** A body is let through if no part's header holds its delimiter, nor does its content, or that fits as a body. */
  ghost predicate Acceptable(boundary: Bytes, parts: seq<Part>) {
    forall i :: 0 <= i < |parts| ==>
      if parts[i].content.Nested?
      then Clean(Header(parts[i].fields), boundary) && InnerFits(boundary, parts[i].content)
      else FlatFits(boundary, parts[i])
  }

  lemma {:induction false} FitsEach(outer: seq<Bytes>, own: seq<Bytes>, boundary: Bytes, parts: seq<Part>, nested: bool,
      written: bool)
    ensures BodyFits(outer, own, boundary, parts, nested, written) <==>
      LinesFit(outer, boundary, |parts|, written) && forall i :: 0 <= i < |parts| ==> PartFits(own, parts[i], nested)
    decreases |parts|
  {
    hide AllClean, DelimiterLine, PartFits;
    if parts != [] {
      FitsEach(outer, own, boundary, parts[1..], nested, true);
      assert forall i :: 0 < i < |parts| ==> parts[i] == parts[1..][i - 1];
      assert forall i :: 0 <= i < |parts[1..]| ==> parts[1..][i] == parts[i + 1];
    }
  }

  lemma FlatIs(own: seq<Bytes>, p: Part, nested: bool)
    requires !p.content.Nested?
    ensures PartFits(own, p, nested) <==> forall k :: 0 <= k < |own| ==> FlatFits(own[k], p)
  {
    hide Clean, Header;
  }

  lemma InnerIs(boundary: Bytes, p: Part)
    requires p.content.Nested?
    ensures PartFits([boundary], p, false) <==> Clean(Header(p.fields), boundary) && InnerFits(boundary, p.content)
  {
    hide Clean, Header, FlatFits, ValidBoundary, DelimiterLine, PartFits;
    var c := p.content;
    var own := [boundary] + (if c.given then [c.boundary] else []);
    assert own[0] == boundary && (c.given ==> own[1] == c.boundary);
    FitsEach([boundary], own, c.boundary, c.parts, true, false);
    forall j | 0 <= j < |c.parts|
      ensures PartFits(own, c.parts[j], true) <==>
        && !c.parts[j].content.Nested? && FlatFits(boundary, c.parts[j])
        && (c.given ==> FlatFits(c.boundary, c.parts[j]))
    {
      if c.parts[j].content.Nested? {
        NestedTwice(own, c.parts[j]);
      } else {
        FlatIs(own, c.parts[j], true);
      }
    }
    NestedFits(boundary, p, own);
  }

  lemma NestedTwice(own: seq<Bytes>, p: Part)
    requires p.content.Nested?
    ensures !PartFits(own, p, true)
  {
  }

  lemma NestedFits(boundary: Bytes, p: Part, own: seq<Bytes>)
    requires p.content.Nested? && own == [boundary] + if p.content.given then [p.content.boundary] else []
    ensures PartFits([boundary], p, false) <==>
      && Clean(Header(p.fields), boundary) && ValidBoundary(p.content.boundary)
      && BodyFits([boundary], own, p.content.boundary, p.content.parts, true, false)
  {
    hide Clean, Header, ValidBoundary, BodyFits;
    assert [boundary][0] == boundary;
  }

  /** The checks let through just what is acceptable. */
  lemma FitsIs(boundary: Bytes, parts: seq<Part>)
    ensures BodyFits([], [boundary], boundary, parts, false, false) <==> Acceptable(boundary, parts)
  {
    hide PartFits, BodyFits, FlatFits, InnerFits, Header, Clean, DelimiterLine;
    FitsEach([], [boundary], boundary, parts, false, false);
    forall i | 0 <= i < |parts|
      ensures PartFits([boundary], parts[i], false) <==>
        if parts[i].content.Nested?
        then Clean(Header(parts[i].fields), boundary) && InnerFits(boundary, parts[i].content)
        else FlatFits(boundary, parts[i])
    {
      if parts[i].content.Nested? {
        InnerIs(boundary, parts[i]);
      } else {
        FlatIs([boundary], parts[i], false);
        assert [boundary][0] == boundary;
      }
    }
  }

  // Nested bodies hold no delimiter of those around.

  lemma HeaderLine(fields: seq<Field>)
    ensures Header(fields) != [] && Header(fields)[|Header(fields)| - 1] == LF
  {
  }

  lemma LineEnds(written: bool, boundary: Bytes, close: bool)
    ensures var l := DelimiterLine(written, boundary, close);
      l != [] && l[|l| - 1] == LF && (written ==> l[0] == CR)
  {
  }

  lemma BodyStarts(boundary: Bytes, parts: seq<Part>)
    ensures Body(boundary, parts, true) != [] && Body(boundary, parts, true)[0] == CR
  {
    LineEnds(true, boundary, parts == []);
  }

  lemma {:induction false} ContentClean(own: seq<Bytes>, p: Part, nested: bool, k: nat)
    requires AllValid(own) && PartFits(own, p, nested) && k < |own|
    ensures Clean(ContentText(p.content), own[k])
    decreases p
  {
    hide Clean, ValidBoundary;
    match p.content
    case Nested(boundary, given, parts) =>
      BodyClean(own, own + (if given then [boundary] else []), boundary, parts, true, false, k);
    case _ =>
  }

  /** What fits is without the delimiters of the bodies around. */
  lemma {:induction false} BodyClean(outer: seq<Bytes>, own: seq<Bytes>, boundary: Bytes, parts: seq<Part>,
      nested: bool, written: bool, k: nat)
    requires AllValid(own) && outer <= own && BodyFits(outer, own, boundary, parts, nested, written) && k < |outer|
    ensures Clean(Body(boundary, parts, written), outer[k])
    decreases parts
  {
    hide Clean, ValidBoundary, Header, DelimiterLine;
    assert own[k] == outer[k];
    LineEnds(written, boundary, parts == []);
    if parts != [] {
      var line, head, content := DelimiterLine(written, boundary, false), Header(parts[0].fields),
        ContentText(parts[0].content);
      var rest := Body(boundary, parts[1..], true);
      ContentClean(own, parts[0], nested, k);
      BodyClean(outer, own, boundary, parts[1..], nested, true, k);
      BodyStarts(boundary, parts[1..]);
      HeaderLine(parts[0].fields);
      CleanJoin(content, rest, own[k]);
      CleanJoin(head, content + rest, own[k]);
      CleanJoin(line, head + (content + rest), own[k]);
      assert Body(boundary, parts, written) == line + (head + (content + rest));
    }
  }

  // Splitting a body.

  /** What is between the delimiters of a body: its parts after the end of a delimiter line, and what closes it. */
  function Segments(parts: seq<Part>): seq<Bytes> {
    if parts == [] then [[MINUS, MINUS] + CRLF] else [CRLF + PartText(parts[0])] + Segments(parts[1..])
  }

  lemma PartClean(own: seq<Bytes>, p: Part, nested: bool, k: nat)
    requires AllValid(own) && PartFits(own, p, nested) && k < |own|
    ensures Clean(PartText(p), own[k]) && Clean(CRLF + PartText(p), own[k])
  {
    hide ValidBoundary, Header, Contains;
    ContentClean(own, p, nested, k);
    HeaderLine(p.fields);
    CleanJoin(Header(p.fields), ContentText(p.content), own[k]);
    CRLFClean(own[k]);
    CleanJoin(CRLF, PartText(p), own[k]);
  }

  lemma CRLFClean(boundary: Bytes)
    ensures Clean(CRLF, boundary)
  {
    var d := [MINUS, MINUS] + boundary;
    assert d[0] != CRLF[0];
    assert |CRLF| == 2 && |[CR, MINUS, MINUS] + boundary| > 2 && |[LF, MINUS, MINUS] + boundary| > 2;
  }

  /** What precedes a body's next delimiter, and each of its parts, is what splitting gives. */
  lemma {:induction false} BodySplits(x: Bytes, outer: seq<Bytes>, own: seq<Bytes>, boundary: Bytes,
      parts: seq<Part>, nested: bool, k: nat)
    requires AllValid(own) && k < |own| && own[k] == boundary && BodyFits(outer, own, boundary, parts, nested, true)
    requires Clean(x, boundary)
    ensures Split(x + Body(boundary, parts, true), Delimiter(boundary)) == [x] + Segments(parts)
    decreases parts
  {
    hide Clean, ValidBoundary, Header, PartText, Split, Contains;
    var d := Delimiter(boundary);
    NoDelimiter(x, boundary);
    if parts == [] {
      var end := [MINUS, MINUS] + CRLF;
      assert Body(boundary, parts, true) == d + end;
      assert x + Body(boundary, parts, true) == x + d + end;
      SplitPiece(x, end, boundary);
      SplitClose(boundary);
    } else {
      var y, rest := CRLF + PartText(parts[0]), Body(boundary, parts[1..], true);
      assert DelimiterLine(true, boundary, false) == d + CRLF;
      assert x + Body(boundary, parts, true) == x + d + (y + rest);
      SplitPiece(x, y + rest, boundary);
      PartClean(own, parts[0], nested, k);
      BodySplits(y, outer, own, boundary, parts[1..], nested, k);
    }
  }

  lemma SplitClose(boundary: Bytes)
    requires ValidBoundary(boundary)
    ensures Split([MINUS, MINUS] + CRLF, Delimiter(boundary)) == [[MINUS, MINUS] + CRLF]
  {
    FindNone([MINUS, MINUS] + CRLF, Delimiter(boundary));
  }

  lemma EmptyClean(boundary: Bytes)
    ensures Clean([], boundary)
  {
  }

  /** A body splits at its boundary, after a line break, into its parts as written. */
  lemma BodyRecovered(outer: seq<Bytes>, own: seq<Bytes>, boundary: Bytes, parts: seq<Part>, nested: bool, k: nat)
    requires AllValid(outer) && AllValid(own) && k < |own| && own[k] == boundary &&
      BodyFits(outer, own, boundary, parts, nested, false)
    ensures Split(CRLF + Body(boundary, parts, false), Delimiter(boundary)) == [[]] + Segments(parts)
  {
    hide ValidBoundary, PartText, Split, Contains;
    assert CRLF + Body(boundary, parts, false) == [] + Body(boundary, parts, true);
    EmptyClean(boundary);
    var line := DelimiterLine(true, boundary, parts == []);
    assert line == CRLF + DelimiterLine(false, boundary, parts == []);
    forall j | 0 <= j < |outer| ensures Clean(line, outer[j]) {
      CRLFClean(outer[j]);
      CleanJoin(CRLF, DelimiterLine(false, boundary, parts == []), outer[j]);
    }
    BodySplits([], outer, own, boundary, parts, nested, k);
  }

  /** A body nested in a part splits at its own boundary, if given, as well. */
  lemma NestedRecovered(own: seq<Bytes>, p: Part, nested: bool)
    requires AllValid(own) && PartFits(own, p, nested) && p.content.Nested? && p.content.given
    ensures Split(CRLF + ContentText(p.content), Delimiter(p.content.boundary)) == [[]] + Segments(p.content.parts)
  {
    hide ValidBoundary, Split, Header, BodyFits;
    BodyRecovered(own, own + [p.content.boundary], p.content.boundary, p.content.parts, true, |own|);
  }

  // Opening a part.

  /** A field has a name, and no line break. */
  predicate Plain(f: Field) {
    && f.name != [] && (forall i :: 0 <= i < |f.name| ==> f.name[i] != COLON && f.name[i] != CR && f.name[i] != LF)
    && (forall i :: 0 <= i < |f.value| ==> f.value[i] != CR && f.value[i] != LF)
  }

  /** The field a line is. */
  function FieldOf(line: Bytes): Option<Field> {
    var c := Index(line, COLON);
    if c + 1 < |line| && line[c + 1] == SPACE then Some(Field(line[..c], line[c + 2..])) else None
  }

  /** The fields of a part, up to its empty line, and its content. */
  function Open(s: Bytes): Option<(seq<Field>, Bytes)> {
    var i := Index(s, LF);
    if i == |s| || i == 0 || s[i - 1] != CR then None
    else if i == 1 then Some(([], s[2..]))
    else
      var f, rest := FieldOf(s[..i - 1]), Open(s[i + 1..]);
      if f.None? || rest.None? then None else Some(([f.value] + rest.value.0, rest.value.1))
  }

  lemma FieldOfLine(f: Field)
    requires Plain(f)
    ensures FieldOf(f.name + [COLON, SPACE] + f.value) == Some(f)
  {
    var line := f.name + [COLON, SPACE] + f.value;
    IndexIs(line, COLON, |f.name|);
    assert line[..|f.name|] == f.name && line[|f.name| + 2..] == f.value;
  }

  lemma OpenLine(f: Field, rest: Bytes)
    requires Plain(f) && Open(rest).Some?
    ensures Open(FieldLine(f) + rest) == Some(([f] + Open(rest).value.0, Open(rest).value.1))
  {
    hide FieldOf;
    var line := f.name + [COLON, SPACE] + f.value;
    var s := FieldLine(f) + rest;
    FieldOfLine(f);
    assert s == line + CRLF + rest && FieldLine(f) == line + CRLF;
    IndexIs(s, LF, |line| + 1);
    assert s[..|line|] == line && s[|line| + 2..] == rest;
  }

  lemma OpenEnd(content: Bytes)
    ensures Open(CRLF + content) == Some(([], content))
  {
    IndexIs(CRLF + content, LF, 1);
    assert (CRLF + content)[2..] == content;
  }

  /** Opening a part gives its fields and its content. */
  lemma {:induction false} Opens(fields: seq<Field>, content: Bytes)
    requires forall f :: f in fields ==> Plain(f)
    ensures Open(Header(fields) + content) == Some((fields, content))
    decreases |fields|
  {
    hide Open, FieldLine, Plain;
    if fields == [] {
      OpenEnd(content);
      assert Header(fields) == CRLF;
    } else {
      var f := fields[0];
      assert f in fields && forall g :: g in fields[1..] ==> g in fields;
      assert Header(fields) + content == FieldLine(f) + (Header(fields[1..]) + content);
      Opens(fields[1..], content);
      OpenLine(f, Header(fields[1..]) + content);
      assert [f] + fields[1..] == fields;
    }
  }
}
