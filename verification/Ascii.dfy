/** Bytes, and what ASCII makes of some of them. */
module Ascii {
  newtype byte = x: int | 0 <= x < 256
  type Bytes = seq<byte>

  const LF: byte := 10
  const CR: byte := 13
  const RS: byte := 30
  const SPACE: byte := 32
  const QUOTE: byte := 34
  const PLUS: byte := 43
  const COMMA: byte := 44
  const MINUS: byte := 45
  const DOT: byte := 46
  const COLON: byte := 58
  const BACKSLASH: byte := 92

  /** The bytes of ASCII text. */
  function Of(s: string): (b: Bytes)
    requires forall i :: 0 <= i < |s| ==> s[i] as int < 128
    ensures |b| == |s| && forall i :: 0 <= i < |s| ==> b[i] as int == s[i] as int
  {
    seq(|s|, i requires 0 <= i < |s| => s[i] as int as byte)
  }

  predicate White(c: byte) {
    c == SPACE || c == 9 || c == LF || c == CR
  }

  predicate Digit(c: byte) {
    48 <= c <= 57
  }

  predicate AllDigits(s: Bytes) {
    forall i :: 0 <= i < |s| ==> Digit(s[i])
  }

  /** What digits spell. */
  function Number(s: Bytes): nat
    requires AllDigits(s)
  {
    if s == [] then 0 else 10 * Number(s[..|s| - 1]) + (s[|s| - 1] as int - 48)
  }

  function TrimZeros(s: Bytes): Bytes {
    if s != [] && s[0] == 48 then TrimZeros(s[1..]) else s
  }

  lemma {:induction false} NumberZero(s: Bytes, t: Bytes)
    requires AllDigits(s) && AllDigits(t) && s == [48] + t
    ensures Number(s) == Number(t)
    decreases |t|
  {
    if t == [] {
      assert s[..0] == [];
    } else {
      NumberZero(s[..|s| - 1], t[..|t| - 1]);
    }
  }

  lemma {:induction false} NumberTrim(s: Bytes, t: Bytes)
    requires AllDigits(s) && AllDigits(t)
    ensures AllDigits(TrimZeros(s)) && AllDigits(s + t) && AllDigits(TrimZeros(s) + t) &&
      Number(TrimZeros(s) + t) == Number(s + t)
    decreases |s|
  {
    if s != [] && s[0] == 48 {
      NumberTrim(s[1..], t);
      NumberZero(s + t, s[1..] + t);
    }
  }

  lemma TrimStarts(s: Bytes)
    ensures TrimZeros(s) != [] ==> TrimZeros(s)[0] != 48
  {
  }
}
