/** The numbers of JSON (section 6 of RFC 8259), by their parts. */
module JsonNumbers {
  import opened Wrappers
  import opened Ascii
  import opened JsonText

  predicate Sign(c: byte) {
    c == 43 || c == 45
  }

  predicate ExpMark(c: byte) {
    c == 101 || c == 69
  }

  predicate Decimal(s: Bytes) {
    forall i :: 0 <= i < |s| ==> 48 <= s[i] <= 57
  }

  /** An exponent, or none. */
  predicate Exponential(e: Bytes) {
    e == [] ||
    (|e| > 1 && ExpMark(e[0]) && if Sign(e[1]) then |e| > 2 && Decimal(e[2..]) else Decimal(e[1..]))
  }

  /** A number written in base 10: a sign or none, digits, a point and digits after it, and an exponent. */
  datatype Written = Written(sign: Bytes, whole: Bytes, point: bool, frac: Bytes, exp: Bytes)

  function Text(w: Written): Bytes {
    w.sign + w.whole + (if w.point then [46] + w.frac else []) + w.exp
  }

  /** As JSON spells numbers. */
  predicate Json(p: Written) {
    && (p.sign == [] || p.sign == [45])
    && Decimal(p.whole) && p.whole != [] && (p.whole == [48] || p.whole[0] != 48)
    && Decimal(p.frac) && (p.point <==> p.frac != []) && Exponential(p.exp)
  }

  // They are what a reader reads.

  lemma {:induction false} DigitsRun(s: Bytes, i: nat, j: nat)
    requires i <= j <= |s| && Decimal(s[i..j]) && (j < |s| ==> !Digit(s[j]))
    ensures Digits(s, i) == j
    decreases j - i
  {
    if i < j {
      assert Digit(s[i..j][0]) && s[i..j][1..] == s[i + 1..j];
      DigitsRun(s, i + 1, j);
    }
  }

  lemma ExponentWhole(s: Bytes, c: nat, e: Bytes)
    requires c <= |s| && s[c..] == e && Exponential(e)
    ensures Exponent(s, c) == Some(|s|)
  {
    if e != [] {
      assert s[c] == e[0] && s[c + 1] == e[1];
      var d := if Sign(e[1]) then c + 2 else c + 1;
      assert s[d..|s|] == e[d - c..];
      DigitsRun(s, d, |s|);
      if !Sign(e[1]) {
        assert Digit(e[1..][0]);
      }
    }
  }

  lemma ExpPlain(e: Bytes)
    requires Exponential(e) && e != []
    ensures !Digit(e[0]) && e[0] != DOT
  {
  }

  lemma TextParts(p: Written)
    requires Json(p)
    ensures var (s, a, b) := (Text(p), |p.sign|, |p.sign| + |p.whole|);
      var tail := (if p.point then [46] + p.frac else []) + p.exp;
      && a < b <= |s| && s[a..b] == p.whole && s[b..] == tail && (a > 0 ==> s[0] == MINUS) &&
         (b < |s| ==> s[b] == tail[0])
  {
    hide Decimal, Exponential;
    var tail := (if p.point then [46] + p.frac else []) + p.exp;
    Slices(p.sign, p.whole, tail);
    assert Text(p) == p.sign + p.whole + tail;
  }

  lemma Slices(a: Bytes, b: Bytes, c: Bytes)
    ensures (a + b + c)[|a|..|a| + |b|] == b && (a + b + c)[|a| + |b|..] == c
  {
  }

  /** A number so spelled is a JSON number, and no more than one. */
  lemma JsonNumber(p: Written)
    requires Json(p)
    ensures var s := Text(p); s != [] && (s[0] == MINUS || Digit(s[0])) && NumberEnd(s, 0) == Some(|s|)
  {
    hide Text, Exponential, Digits, Fraction;
    var s, a, b := Text(p), |p.sign|, |p.sign| + |p.whole|;
    TextParts(p);
    if p.exp != [] {
      ExpPlain(p.exp);
    }
    assert s[a] == p.whole[0];
    DigitsRun(s, a, b);
    ZeroAlone(s, a, b, p.whole);
    FractionWhole(s, b, p);
  }

  lemma ZeroAlone(s: Bytes, a: nat, b: nat, whole: Bytes)
    requires a < b <= |s| && s[a..b] == whole && Decimal(whole) && (whole == [48] || whole[0] != 48) &&
      Digits(s, a) == b
    ensures (if s[a] == 48 then a + 1 else Digits(s, a)) == b
  {
    assert whole[0] == s[a];
  }

  lemma FractionWhole(s: Bytes, b: nat, p: Written)
    requires b <= |s| && s[b..] == (if p.point then [46] + p.frac else []) + p.exp
    requires Decimal(p.frac) && Exponential(p.exp) && (p.point <==> p.frac != [])
    ensures Fraction(s, b) == Some(|s|)
  {
    if p.exp != [] {
      ExpPlain(p.exp);
    }
    var c := if p.point then b + 1 + |p.frac| else b;
    assert s[c..] == p.exp;
    assert c < |s| ==> s[c] == p.exp[0];
    if p.point {
      assert s[b] == DOT && s[b + 1..c] == p.frac;
      DigitsRun(s, b + 1, c);
    }
    ExponentWhole(s, c, p.exp);
  }

  // What a reader reads is one.

  lemma DigitsText(s: Bytes, i: nat)
    requires i <= |s|
    ensures Decimal(s[i..Digits(s, i)])
  {
    DigitsBounds(s, i);
    assert forall k :: 0 <= k < Digits(s, i) - i ==> s[i..Digits(s, i)][k] == s[i + k];
  }

  lemma ExponentText(s: Bytes, c: nat)
    requires c <= |s| && Exponent(s, c).Some?
    ensures Exponential(s[c..Exponent(s, c).value])
  {
    if c < |s| && ExpMark(s[c]) {
      var d := if c + 1 < |s| && Sign(s[c + 1]) then c + 2 else c + 1;
      var e := s[c..Digits(s, d)];
      DigitsText(s, d);
      assert e[d - c..] == s[d..Digits(s, d)];
    }
  }

  lemma WholeText(s: Bytes, a: nat, b: nat)
    requires a < b <= |s| && b == if s[a] == 48 then a + 1 else Digits(s, a)
    ensures var w := s[a..b]; Decimal(w) && w != [] && (w == [48] || w[0] != 48)
  {
    if s[a] == 48 {
      assert s[a..b] == [48];
    } else {
      DigitsText(s, a);
      assert s[a..b][0] == s[a];
    }
  }

  lemma FractionText(s: Bytes, b: nat, c: nat)
    requires b <= |s| && c == (if b < |s| && s[b] == DOT then Digits(s, b + 1) else b) && c != b + 1
    ensures b <= c <= |s| && (c > b ==> c > b + 1 && s[b..c] == [46] + s[b + 1..c] && Decimal(s[b + 1..c]))
  {
    if c > b {
      DigitsText(s, b + 1);
    }
  }

  lemma Four(s: Bytes, i: nat, a: nat, b: nat, c: nat, e: nat)
    requires i <= a <= b <= c <= e <= |s|
    ensures s[i..e] == s[i..a] + s[a..b] + s[b..c] + s[c..e]
  {
    assert s[i..b] == s[i..a] + s[a..b];
    assert s[i..c] == s[i..b] + s[b..c];
    assert s[i..e] == s[i..c] + s[c..e];
  }

  lemma NumberParts(s: Bytes, i: nat) returns (p: Written)
    requires i < |s| && (s[i] == MINUS || Digit(s[i])) && NumberEnd(s, i).Some?
    ensures Json(p) && Text(p) == s[i..NumberEnd(s, i).value]
  {
    hide Digits, Exponent, Exponential, Decimal;
    var a := if s[i] == MINUS then i + 1 else i;
    var b := if a < |s| && s[a] == 48 then a + 1 else Digits(s, a);
    var c := if b < |s| && s[b] == DOT then Digits(s, b + 1) else b;
    var e := NumberEnd(s, i).value;
    WholeText(s, a, b);
    FractionText(s, b, c);
    ExponentText(s, c);
    Four(s, i, a, b, c, e);
    NoDigits();
    p := Written(if a > i then [45] else [], s[a..b], c > b, if c > b then s[b + 1..c] else [], s[c..e]);
    assert s[i..a] == p.sign;
  }

  lemma NoDigits()
    ensures Decimal([])
  {
  }
}
