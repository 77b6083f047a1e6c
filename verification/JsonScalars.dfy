/** The scalars of JSON (sections 3, 6 and 7 of RFC 8259), as its grammar writes them. */
module JsonScalars {
  import opened Wrappers
  import opened Ascii
  import opened JsonText
  import opened JsonPrint
  import JsonNumbers

  /** A character between the quotes: plain, a short escape, or an escape of four hexadecimal digits. */
  datatype Char = Plain(c: byte) | Short(c: byte) | Long(hex: Bytes)

  function CharText(c: Char): Bytes {
    match c
    case Plain(b) => [b]
    case Short(b) => [92, b]
    case Long(hex) => [92, 117] + hex
  }

  predicate CharGood(c: Char) {
    match c
    case Plain(b) => 32 <= b && b != 34 && b != 92
    case Short(b) => b in Of("\"\\/bfnrt")
    case Long(hex) =>
      |hex| == 4 && forall i :: 0 <= i < 4 ==> 48 <= hex[i] <= 57 || 65 <= hex[i] <= 70 || 97 <= hex[i] <= 102
  }

  predicate CharsGood(cs: seq<Char>) {
    forall i :: 0 <= i < |cs| ==> CharGood(cs[i])
  }

  function CharsText(cs: seq<Char>): Bytes {
    if cs == [] then [] else CharText(cs[0]) + CharsText(cs[1..])
  }

  ghost predicate IsString(text: Bytes) {
    exists cs :: CharsGood(cs) && text == [34] + CharsText(cs) + [34]
  }

  ghost predicate IsNumber(text: Bytes) {
    exists p :: JsonNumbers.Json(p) && text == JsonNumbers.Text(p)
  }

  predicate IsLiteral(text: Bytes) {
    text == Of("true") || text == Of("false") || text == Of("null")
  }

  ghost predicate IsScalar(text: Bytes) {
    IsString(text) || IsNumber(text) || IsLiteral(text)
  }

  // What is read of a string.

  lemma ShortOnes(b: byte)
    ensures b in Of("\"\\/bfnrt") <==> b in [34, 92, 47, 98, 102, 110, 114, 116]
  {
    var s := Of("\"\\/bfnrt");
    assert s == [34, 92, 47, 98, 102, 110, 114, 116];
  }

  lemma EscapeRead(s: Bytes, i: nat, c: Char)
    requires CharGood(c) && Has(s, i, CharText(c)) && i < |s|
    ensures EscapeLength(s, i) == if c.Plain? then 0 else |CharText(c)|
    ensures s[i] >= 32 && s[i] != QUOTE && (s[i] == BACKSLASH <==> !c.Plain?)
  {
    HasByte(s, i, CharText(c), 0);
    match c
    case Plain(_) =>
    case Short(b) =>
      HasByte(s, i, CharText(c), 1);
      ShortOnes(b);
    case Long(hex) =>
      forall k | 0 <= k < 6 ensures s[i + k] == CharText(c)[k] {
        HasByte(s, i, CharText(c), k);
      }
      ShortOnes(117);
  }

  predicate Escapes(cs: seq<Char>) {
    exists k :: 0 <= k < |cs| && !cs[k].Plain?
  }

  lemma {:induction false} StringRead(s: Bytes, i: nat, cs: seq<Char>)
    requires CharsGood(cs) && Has(s, i, CharsText(cs) + [34])
    ensures Inside(s, i) == Some((i + |CharsText(cs)| + 1, Escapes(cs)))
    decreases |cs|
  {
    hide CharGood, CharText, EscapeLength;
    if cs == [] {
      HasByte(s, i, [34], 0);
      assert CharsText(cs) + [34] == [34];
    } else {
      var first, rest := CharText(cs[0]), CharsText(cs[1..]) + [34];
      assert CharsText(cs) + [34] == first + rest;
      HasParts(s, i, first, rest);
      CharSome(cs[0]);
      EscapeRead(s, i, cs[0]);
      StringRead(s, i + |first|, cs[1..]);
      assert Escapes(cs) <==> !cs[0].Plain? || Escapes(cs[1..]);
    }
  }

  lemma CharSome(c: Char)
    requires CharGood(c)
    ensures |CharText(c)| > 0 && (c.Plain? ==> |CharText(c)| == 1)
  {
  }

  lemma CharOf(s: Bytes, i: nat) returns (c: Char)
    requires i < |s| && s[i] >= SPACE && s[i] != QUOTE && (s[i] == BACKSLASH ==> EscapeLength(s, i) > 0)
    ensures var n := if s[i] == BACKSLASH then EscapeLength(s, i) else 1;
      i + n <= |s| && CharGood(c) && CharText(c) == s[i..i + n] && (c.Plain? <==> s[i] != BACKSLASH)
  {
    if s[i] != BACKSLASH {
      c := Plain(s[i]);
    } else if EscapeLength(s, i) == 2 {
      c := Short(s[i + 1]);
      ShortOnes(s[i + 1]);
    } else {
      c := Long(s[i + 2..i + 6]);
      assert s[i..i + 6] == [92, 117] + s[i + 2..i + 6];
    }
  }

  lemma {:induction false} CharsOf(s: Bytes, i: nat) returns (cs: seq<Char>)
    requires i <= |s| && Inside(s, i).Some?
    ensures CharsGood(cs) && s[i..Inside(s, i).value.0] == CharsText(cs) + [34]
    decreases |s| - i
  {
    hide CharGood, CharText, EscapeLength;
    if s[i] == QUOTE {
      cs := [];
    } else {
      var n := if s[i] == BACKSLASH then EscapeLength(s, i) else 1;
      var c := CharOf(s, i);
      var rest := CharsOf(s, i + n);
      cs := [c] + rest;
      var e := Inside(s, i).value.0;
      assert cs[1..] == rest && s[i..e] == s[i..i + n] + s[i + n..e];
    }
  }

  lemma QuotedString(name: Bytes)
    ensures Quoted(name) <==> IsString(name)
  {
    hide Inside, CharsText;
    if Quoted(name) {
      var cs := CharsOf(name, 1);
      assert name == [34] + name[1..|name|];
      assert name == [34] + CharsText(cs) + [34];
    }
    if cs :| CharsGood(cs) && name == [34] + CharsText(cs) + [34] {
      assert name[1..] == CharsText(cs) + [34];
      assert name[1..1 + |CharsText(cs) + [34]|] == name[1..];
      StringRead(name, 1, cs);
    }
  }

  lemma Literals()
    ensures Of("true") == TRUE && Of("false") == FALSE && Of("null") == NULL && Of("$ref") == REF
  {
  }

  /** A scalar is read whole, and nothing else is. */
  lemma ScalarRead(text: Bytes)
    requires text != []
    ensures ScalarEnd(text, 0) == Some(|text|) <==> IsScalar(text)
  {
    hide Inside, NumberEnd, JsonNumbers.Json, JsonNumbers.Text, IsString;
    Literals();
    QuotedString(text);
    if ScalarEnd(text, 0) == Some(|text|) {
      assert text[0..|text|] == text;
      if text[0] == QUOTE {
        assert Quoted(text);
      } else if text[0] == MINUS || Digit(text[0]) {
        var p := JsonNumbers.NumberParts(text, 0);
        assert IsNumber(text);
      } else {
        assert IsLiteral(text);
      }
    }
    if IsNumber(text) {
      var p :| JsonNumbers.Json(p) && text == JsonNumbers.Text(p);
      JsonNumbers.JsonNumber(p);
    }
  }
}
