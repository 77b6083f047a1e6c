/** The strings of a key as JSON strings: those of RFC 8785 (section 3.2.2.2). */
module KeyStrings {
  import opened Wrappers
  import opened Ascii
  import opened JsonScalars
  import Keys

  function HexValue(c: byte): nat {
    if c <= 57 then (c as int - 48) % 16 else if c <= 70 then c as int - 55 else (c as int - 87) % 16
  }

  /** The byte a character of a string is, if it is one. */
  function Means(c: Char): Option<byte>
    requires CharGood(c)
  {
    match c
    case Plain(b) => Some(b)
    case Short(b) =>
      if b == 'b' as int as byte then Some(8)
      else if b == 't' as int as byte then Some(9)
      else if b == 'n' as int as byte then Some(10)
      else if b == 'f' as int as byte then Some(12)
      else if b == 'r' as int as byte then Some(13)
      else Some(b)
    case Long(hex) =>
      if hex[0] == 48 && hex[1] == 48 then Some((16 * HexValue(hex[2]) + HexValue(hex[3])) as byte) else None
  }

  /** It is escaped only if it must be, and shortly if it can be, and its digits are lower-case. */
  predicate Least(c: Char, b: byte) {
    if b in {8, 9, 10, 12, 13, 34, 92} then c.Short?
    else if b < 32 then c.Long? && forall i :: 0 <= i < |c.hex| ==> 48 <= c.hex[i] <= 57 || 97 <= c.hex[i] <= 102
    else c.Plain?
  }

  lemma CharOf(b: byte) returns (c: Char)
    ensures CharGood(c) && CharText(c) == Keys.Escape(b) && Means(c) == Some(b) && Least(c, b)
  {
    if b in {8, 9, 10, 12, 13, 34, 92} {
      c := ShortOf(b);
    } else if b < 32 {
      c := LongOf(b);
    } else {
      c := Plain(b);
    }
  }

  lemma ShortOf(b: byte) returns (c: Char)
    requires b in {8, 9, 10, 12, 13, 34, 92}
    ensures CharGood(c) && CharText(c) == Keys.Escape(b) && Means(c) == Some(b) && c.Short?
  {
    var e := Keys.Escape(b)[1];
    ShortOnes(e);
    c := Short(e);
  }

  lemma LongOf(b: byte) returns (c: Char)
    requires b < 32 && b !in {8, 9, 10, 12, 13}
    ensures CharGood(c) && CharText(c) == Keys.Escape(b) && Means(c) == Some(b) && c.Long?
    ensures forall i :: 0 <= i < |c.hex| ==> 48 <= c.hex[i] <= 57 || 97 <= c.hex[i] <= 102
  {
    var e := Keys.Escape(b);
    c := Long(e[2..]);
    assert e == [92, 117] + e[2..];
  }

  /** The string is written as a JSON string that means it, each byte as shortly as it can be. */
  lemma {:induction false} CanonicalReads(s: Bytes) returns (cs: seq<Char>)
    ensures CharsGood(cs) && Keys.Canonical(s) == [34] + CharsText(cs) + [34] && |cs| == |s|
    ensures forall i :: 0 <= i < |s| ==> Means(cs[i]) == Some(s[i]) && Least(cs[i], s[i])
  {
    cs := EscapedReads(s);
  }

  lemma {:induction false} EscapedReads(s: Bytes) returns (cs: seq<Char>)
    ensures CharsGood(cs) && Keys.EscapeAll(s) == CharsText(cs) && |cs| == |s|
    ensures forall i :: 0 <= i < |s| ==> Means(cs[i]) == Some(s[i]) && Least(cs[i], s[i])
    decreases |s|
  {
    hide CharGood, CharText, Keys.Escape, Means, Least;
    cs := [];
    if s != [] {
      var c := CharOf(s[0]);
      var more := EscapedReads(s[1..]);
      cs := [c] + more;
      assert cs[1..] == more;
    }
  }
}
