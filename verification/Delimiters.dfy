/** The delimiters of multipart bodies (section 5.1.1 of RFC 2046), what holds them, and what splits at them. */
module Delimiters {
  import opened Ascii

  predicate Occurs(s: Bytes, p: Bytes, i: nat) {
    i + |p| <= |s| && s[i..i + |p|] == p
  }

  predicate Contains(s: Bytes, p: Bytes) {
    exists i :: 0 <= i <= |s| && Occurs(s, p, i)
  }

  predicate Any(s: Bytes, patterns: seq<Bytes>) {
    exists k :: 0 <= k < |patterns| && Contains(s, patterns[k])
  }

  /** What content must not contain: two dashes and the boundary, preceded by either line end byte. */
  function DelimitersOf(boundary: Bytes): seq<Bytes> {
    [[CR, MINUS, MINUS] + boundary, [LF, MINUS, MINUS] + boundary]
  }

  function AllDelimiters(boundaries: seq<Bytes>): seq<Bytes> {
    if boundaries == [] then [] else DelimitersOf(boundaries[0]) + AllDelimiters(boundaries[1..])
  }

  /** One of the delimiters occurs in data, or but for its first byte starts it. */
  predicate Holds(data: Bytes, delimiters: seq<Bytes>)
    requires forall k :: 0 <= k < |delimiters| ==> delimiters[k] != []
  {
    exists k :: 0 <= k < |delimiters| && (delimiters[k][1..] <= data || Contains(data, delimiters[k]))
  }

  predicate BoundaryByte(c: byte) {
    48 <= c <= 57 || 65 <= c <= 90 || 97 <= c <= 122 || c in [39, 40, 41, 43, 95, 44, 45, 46, 47, 58, 61, 63, 32]
  }

  /** A boundary RFC 2046 allows. */
  predicate ValidBoundary(b: Bytes) {
    && (forall i :: 0 <= i < |b| ==> BoundaryByte(b[i]))
    && 0 < |b| <= 70 && b[|b| - 1] != SPACE
  }

  /** That is of one to 70 letters, digits and marks, no space last. */
  lemma BoundaryIs(b: Bytes)
    ensures ValidBoundary(b) <==>
      && 0 < |b| <= 70 && b[|b| - 1] != 32
      && forall i :: 0 <= i < |b| ==>
           'a' <= b[i] as char <= 'z' || 'A' <= b[i] as char <= 'Z' || '0' <= b[i] as char <= '9' ||
           b[i] in Of("'()+_,-./:=? ")
  {
    var marks := Of("'()+_,-./:=? ");
    assert marks == [39, 40, 41, 43, 95, 44, 45, 46, 47, 58, 61, 63, 32];
  }

  lemma BoundaryOneLine(b: Bytes, i: nat)
    requires ValidBoundary(b) && i < |b|
    ensures b[i] != CR && b[i] != LF
  {
    assert BoundaryByte(b[i]);
  }

  /** Nothing of data is a delimiter of the boundary. */
  predicate Clean(data: Bytes, boundary: Bytes) {
    && !([MINUS, MINUS] + boundary <= data)
    && !Contains(data, [CR, MINUS, MINUS] + boundary)
    && !Contains(data, [LF, MINUS, MINUS] + boundary)
  }

  lemma {:induction false} HoldsUnclean(data: Bytes, boundaries: seq<Bytes>)
    ensures forall k :: 0 <= k < |AllDelimiters(boundaries)| ==> AllDelimiters(boundaries)[k] != []
    ensures Holds(data, AllDelimiters(boundaries)) <==> exists k :: 0 <= k < |boundaries| && !Clean(data, boundaries[k])
  {
    hide Contains;
    if boundaries != [] {
      HoldsUnclean(data, boundaries[1..]);
      var d, more := DelimitersOf(boundaries[0]), AllDelimiters(boundaries[1..]);
      assert d[0][1..] == [MINUS, MINUS] + boundaries[0] == d[1][1..];
      HoldsAppend(data, d, more);
      if k :| 0 <= k < |boundaries| && !Clean(data, boundaries[k]) {
        if k > 0 {
          assert !Clean(data, boundaries[1..][k - 1]);
        }
      }
      if Holds(data, more) {
        var k :| 0 <= k < |boundaries[1..]| && !Clean(data, boundaries[1..][k]);
        assert !Clean(data, boundaries[k + 1]);
      }
      DelimitersHeld(data, boundaries[0]);
    }
  }

  lemma DelimitersHeld(data: Bytes, boundary: Bytes)
    ensures DelimitersOf(boundary)[0] != [] && DelimitersOf(boundary)[1] != []
    ensures Holds(data, DelimitersOf(boundary)) <==> !Clean(data, boundary)
  {
    hide Contains;
    var d := DelimitersOf(boundary);
    assert d[0][1..] == [MINUS, MINUS] + boundary == d[1][1..];
    if !Clean(data, boundary) {
      assert (d[0][1..] <= data || Contains(data, d[0])) || (d[1][1..] <= data || Contains(data, d[1]));
    }
  }

  lemma HoldsAppend(data: Bytes, a: seq<Bytes>, b: seq<Bytes>)
    requires forall k :: 0 <= k < |a| ==> a[k] != []
    requires forall k :: 0 <= k < |b| ==> b[k] != []
    ensures forall k :: 0 <= k < |a + b| ==> (a + b)[k] != []
    ensures Holds(data, a + b) <==> Holds(data, a) || Holds(data, b)
  {
    hide Contains;
    var c := a + b;
    if k :| 0 <= k < |a| && (a[k][1..] <= data || Contains(data, a[k])) {
      assert c[k] == a[k];
    }
    if k :| 0 <= k < |b| && (b[k][1..] <= data || Contains(data, b[k])) {
      assert c[|a| + k] == b[k];
    }
  }

  // Delimiters across a seam.

  lemma OccursAt(s: Bytes, p: Bytes, i: nat, k: nat)
    requires Occurs(s, p, i) && k < |p|
    ensures s[i + k] == p[k]
  {
    assert s[i..i + |p|][k] == s[i + k];
  }

  /** What occurs in two parts together, and has no line break but at its start, occurs in one, if one ends or starts a
      line there, unless it starts with the line break that ends the first. */
  lemma OccursSeam(x: Bytes, y: Bytes, p: Bytes, i: nat)
    requires Occurs(x + y, p, i) && forall k :: 0 < k < |p| ==> p[k] != CR && p[k] != LF
    requires (x != [] && x[|x| - 1] == LF) || (y != [] && y[0] == CR)
    ensures i + |p| <= |x| || i >= |x| || (i == |x| - 1 && x[i] == LF)
  {
    if i < |x| < i + |p| {
      if y != [] && y[0] == CR {
        OccursAt(x + y, p, i, |x| - i);
      } else if i < |x| - 1 {
        OccursAt(x + y, p, i, |x| - 1 - i);
      }
    }
  }

  lemma OccursLeft(x: Bytes, y: Bytes, p: Bytes, i: nat)
    requires i + |p| <= |x|
    ensures Occurs(x + y, p, i) <==> Occurs(x, p, i)
  {
    assert (x + y)[i..i + |p|] == x[i..i + |p|];
  }

  lemma OccursRight(x: Bytes, y: Bytes, p: Bytes, i: nat)
    requires |x| <= i
    ensures Occurs(x + y, p, i) <==> Occurs(y, p, i - |x|)
  {
    if i + |p| <= |x + y| {
      assert (x + y)[i..i + |p|] == y[i - |x|..i - |x| + |p|];
    }
  }

  /** One line after another: neither holds a delimiter, so they do not together. */
  lemma CleanJoin(x: Bytes, y: Bytes, boundary: Bytes)
    requires ValidBoundary(boundary) && Clean(x, boundary) && Clean(y, boundary)
    requires x == [] || y == [] || x[|x| - 1] == LF || y[0] == CR
    ensures Clean(x + y, boundary)
  {
    hide ValidBoundary, BoundaryByte;
    if x == [] {
      assert x + y == y;
    } else if y == [] {
      assert x + y == x;
    } else {
      PrefixJoin(x, y, boundary);
      OccursJoin(x, y, boundary, CR);
      OccursJoin(x, y, boundary, LF);
    }
  }

  predicate NoBreaks(p: Bytes) {
    forall k :: 0 <= k < |p| ==> p[k] != CR && p[k] != LF
  }

  lemma DashesPlain(boundary: Bytes)
    requires ValidBoundary(boundary)
    ensures NoBreaks([MINUS, MINUS] + boundary)
  {
    forall k | 2 <= k < |boundary| + 2
      ensures ([MINUS, MINUS] + boundary)[k] != CR && ([MINUS, MINUS] + boundary)[k] != LF
    {
      BoundaryOneLine(boundary, k - 2);
    }
  }

  lemma PrefixLeft(x: Bytes, y: Bytes, p: Bytes)
    requires NoBreaks(p) && x != [] && y != [] && (x[|x| - 1] == LF || y[0] == CR)
    ensures p <= x + y ==> p <= x
  {
    if p <= x + y {
      assert forall k :: 0 <= k < |p| ==> p[k] == (x + y)[k];
      assert (x + y)[|x| - 1] == x[|x| - 1] && (x + y)[|x|] == y[0];
      if |p| > |x| {
        assert false;
      }
      assert p == x[..|p|];
    }
  }

  lemma PrefixJoin(x: Bytes, y: Bytes, boundary: Bytes)
    requires ValidBoundary(boundary) && !([MINUS, MINUS] + boundary <= x) && x != [] && y != []
    requires x[|x| - 1] == LF || y[0] == CR
    ensures !([MINUS, MINUS] + boundary <= x + y)
  {
    DashesPlain(boundary);
    PrefixLeft(x, y, [MINUS, MINUS] + boundary);
  }

  /** What occurs over a seam at the line break that ends x starts y but for it. */
  lemma OccursOver(x: Bytes, y: Bytes, c: byte, p: Bytes, i: nat)
    requires Occurs(x + y, [c] + p, i) && i == |x| - 1
    ensures p <= y
  {
    assert (x + y)[i..i + |[c] + p|] == [c] + p;
    assert (x + y)[i..i + |[c] + p|][1..] == y[..|p|];
  }

  lemma OccursJoin(x: Bytes, y: Bytes, boundary: Bytes, c: byte)
    requires ValidBoundary(boundary) && Clean(x, boundary) && Clean(y, boundary) && x != [] && y != []
    requires x[|x| - 1] == LF || y[0] == CR
    requires c == CR || c == LF
    ensures !Contains(x + y, [c, MINUS, MINUS] + boundary)
  {
    hide ValidBoundary;
    var p := [c, MINUS, MINUS] + boundary;
    DashesPlain(boundary);
    assert p == [c] + ([MINUS, MINUS] + boundary);
    assert forall k :: 0 < k < |p| ==> p[k] == ([MINUS, MINUS] + boundary)[k - 1];
    forall i | 0 <= i <= |x + y| && Occurs(x + y, p, i) ensures false {
      OccursSeam(x, y, p, i);
      if i + |p| <= |x| {
        OccursLeft(x, y, p, i);
      } else if i >= |x| {
        OccursRight(x, y, p, i);
      } else {
        OccursOver(x, y, c, [MINUS, MINUS] + boundary, i);
      }
    }
  }

  // Splitting at delimiters.

  function Find(s: Bytes, d: Bytes): nat {
    if |s| < |d| then |s| else if d <= s then 0 else 1 + Find(s[1..], d)
  }

  /** The parts of s between occurrences of d, each searched for after the one before. */
  function Split(s: Bytes, d: Bytes): seq<Bytes>
    requires d != []
  {
    var i := Find(s, d);
    if i + |d| <= |s| then [s[..i]] + Split(s[i + |d|..], d) else [s]
  }

  lemma PrefixOccurs(s: Bytes, d: Bytes)
    ensures d <= s <==> Occurs(s, d, 0)
  {
    if |d| <= |s| {
      assert s[..|d|] == s[0..|d|];
    }
  }

  lemma OccursPast(s: Bytes, d: Bytes, j: nat)
    requires s != []
    ensures Occurs(s[1..], d, j) <==> Occurs(s, d, j + 1)
  {
    assert j + 1 + |d| <= |s| ==> s[1..][j..j + |d|] == s[j + 1..j + 1 + |d|];
  }

  lemma {:induction false} FindIs(s: Bytes, d: Bytes, i: nat)
    requires d != [] && Occurs(s, d, i) && forall j :: 0 <= j < i ==> !Occurs(s, d, j)
    ensures Find(s, d) == i
  {
    PrefixOccurs(s, d);
    if i > 0 {
      forall j: nat | j <= i - 1
        ensures Occurs(s[1..], d, j) <==> Occurs(s, d, j + 1)
      {
        OccursPast(s, d, j);
      }
      FindIs(s[1..], d, i - 1);
    }
  }

  lemma {:induction false} FindNone(s: Bytes, d: Bytes)
    requires d != [] && !Contains(s, d)
    ensures Find(s, d) + |d| > |s|
  {
    if |s| >= |d| {
      PrefixOccurs(s, d);
      forall j | 0 <= j <= |s[1..]| ensures !Occurs(s[1..], d, j) {
        OccursPast(s, d, j);
      }
      FindNone(s[1..], d);
    }
  }

  /** A delimiter as a writer writes it. */
  function Delimiter(boundary: Bytes): (d: Bytes)
    ensures d != []
  {
    [CR, LF, MINUS, MINUS] + boundary
  }

  lemma DelimiterCR(boundary: Bytes, k: nat)
    requires ValidBoundary(boundary) && 0 < k < |Delimiter(boundary)|
    ensures Delimiter(boundary)[k] != CR
  {
    if k >= 4 {
      BoundaryOneLine(boundary, k - 4);
    }
  }

  lemma DelimiterLF(x: Bytes, boundary: Bytes, i: nat)
    requires Occurs(x, Delimiter(boundary), i)
    ensures Occurs(x, [LF, MINUS, MINUS] + boundary, i + 1)
  {
    assert x[i..i + |Delimiter(boundary)|][1..] == [LF, MINUS, MINUS] + boundary;
  }

  lemma NoDelimiter(x: Bytes, boundary: Bytes)
    requires Clean(x, boundary)
    ensures !Contains(x, Delimiter(boundary))
  {
    if i: nat :| i <= |x| && Occurs(x, Delimiter(boundary), i) {
      DelimiterLF(x, boundary, i);
    }
  }

  /** What holds no delimiter ends at the first delimiter after it. */
  lemma SplitPiece(x: Bytes, rest: Bytes, boundary: Bytes)
    requires ValidBoundary(boundary) && !Contains(x, Delimiter(boundary))
    ensures Split(x + Delimiter(boundary) + rest, Delimiter(boundary)) == [x] + Split(rest, Delimiter(boundary))
  {
    hide ValidBoundary;
    var d := Delimiter(boundary);
    var s, y := x + d + rest, d + rest;
    assert s == x + y && s[..|x|] == x && s[|x|..|x| + |d|] == d && s[|x| + |d|..] == rest;
    assert y[0] == CR;
    forall j | 0 <= j < |x| ensures !Occurs(s, d, j) {
      if Occurs(s, d, j) {
        if j + |d| <= |x| {
          OccursLeft(x, y, d, j);
        } else {
          OccursAt(s, d, j, |x| - j);
          DelimiterCR(boundary, |x| - j);
        }
      }
    }
    FindIs(s, d, |x|);
  }
}
