/** From numbers of the Core schema (YAML 1.2.2, section 10.3.2) to JSON numbers, the value unchanged. */
module YamlNumbers {
  import opened Wrappers
  import opened Ascii
  import opened Framing
  import opened JsonText
  import opened JsonNumbers

  /** What the Core schema's integers and floats are, but for infinities and what is no number. */
  predicate Core(w: Written) {
    && (w.sign == [] || w.sign == [PLUS] || w.sign == [MINUS])
    && AllDigits(w.whole) && AllDigits(w.frac) && Exponential(w.exp)
    && (w.whole != [] || (w.point && w.frac != [])) && (!w.point ==> w.frac == [])
  }

  /** The offset of the first byte of s an exponent starts with, or the length of s. */
  function MarkIn(s: Bytes): (i: nat)
    ensures i <= |s|
  {
    if s == [] || ExpMark(s[0]) then 0 else 1 + MarkIn(s[1..])
  }

  /** A core number spelled as JSON spells numbers. */
  function Spelled(w: Written): Written {
    var whole := TrimZeros(w.whole);
    Written(if w.sign == [MINUS] then [MINUS] else [], if whole == [] then [48] else whole, w.frac != [], w.frac, w.exp)
  }

  /** A number's value: whether it is negative, its digits as an integer, how many are after the point, its exponent. */
  function Value(w: Written): (bool, nat, nat, Bytes)
    requires Core(w)
  {
    (w.sign == [MINUS], Number(w.whole + w.frac), |w.frac|, w.exp)
  }

  /** The spelling is a core number of the same value. */
  lemma SpelledValue(w: Written)
    requires Core(w)
    ensures Core(Spelled(w)) && Value(Spelled(w)) == Value(w)
  {
    NumberTrim(w.whole, w.frac);
    if TrimZeros(w.whole) == [] {
      assert TrimZeros(w.whole) + w.frac == w.frac;
      NumberZero([48] + w.frac, w.frac);
    }
  }

  lemma SpelledParts(w: Written)
    requires Core(w)
    ensures Json(Spelled(w))
  {
    NumberTrim(w.whole, []);
    TrimStarts(w.whole);
  }

  // Cutting a number.

  lemma {:induction false} MarkAt(s: Bytes, i: nat)
    requires i <= |s| && (i < |s| ==> ExpMark(s[i])) && forall j :: 0 <= j < i ==> !ExpMark(s[j])
    ensures MarkIn(s) == i
  {
    if i > 0 {
      MarkAt(s[1..], i - 1);
    }
  }

  function Body(w: Written): Bytes {
    w.whole + (if w.point then [DOT] + w.frac else [])
  }

  /** Cuts what follows the sign at its exponent, and at its point, dropped where no digit follows it. */
  method Cut(rest: Bytes, ghost w: Written) returns (whole: Bytes, frac: Bytes, exp: Bytes)
    requires Core(w) && rest == Body(w) + w.exp
    ensures whole == w.whole && exp == w.exp && frac == if w.frac != [] then [DOT] + w.frac else []
  {
    hide Exponential, AllDigits;
    BodyPlain(w);
    whole, frac, exp := rest, [], [];
    MarkAt(rest, |Body(w)|);
    var i := MarkIn(whole);
    if i < |whole| {
      whole, exp := whole[..i], whole[i..];
    }
    assert whole == Body(w) && exp == w.exp;
    IndexIs(whole, DOT, |w.whole|);
    i := Index(whole, DOT);
    if i < |whole| {
      whole, frac := whole[..i], whole[i..];
      if frac == [DOT] {
        frac := [];
      }
    }
  }

  /** Rewrites a core number w as JSON spells it: as one JSON number, of the same value. */
  method Rewrite(s: Bytes, ghost w: Written) returns (t: Bytes)
    requires Core(w) && s == Text(w)
    ensures t == Text(Spelled(w)) && t != [] && (t[0] == MINUS || Digit(t[0])) && NumberEnd(t, 0) == Some(|t|)
    ensures Core(Spelled(w)) && Value(Spelled(w)) == Value(w)
  {
    hide Json, NumberEnd, TrimZeros, Exponential, AllDigits;
    var sign: Bytes, rest := [], s;
    assert s == w.sign + (Body(w) + w.exp);
    Unsigned(w);
    if s[0] == MINUS {
      sign, rest := [MINUS], s[1..];
    } else if s[0] == PLUS {
      rest := s[1..];
    }
    assert rest == Body(w) + w.exp;
    var whole, frac, exp := Cut(rest, w);
    whole := TrimZeros(whole);
    if whole == [] {
      whole := [48];
    }
    t := sign + whole + frac + exp;
    SpelledParts(w);
    JsonNumber(Spelled(w));
    SpelledValue(w);
  }

  lemma Unsigned(w: Written)
    requires Core(w)
    ensures var s := Text(w);
      s != [] && (s[0] == MINUS <==> w.sign == [MINUS]) && (s[0] == PLUS <==> w.sign == [PLUS])
  {
    var s := Text(w);
    if w.sign == [] {
      assert s[0] == if w.whole != [] then w.whole[0] else DOT;
    } else {
      assert s[0] == w.sign[0];
    }
  }

  lemma BodyPlain(w: Written)
    requires Core(w)
    ensures forall j :: 0 <= j < |Body(w)| ==> !ExpMark((Body(w) + w.exp)[j])
    ensures w.exp != [] ==> ExpMark(w.exp[0])
    ensures forall j :: 0 <= j < |w.whole| ==> Body(w)[j] != DOT
  {
    forall j | 0 <= j < |Body(w)| ensures !ExpMark((Body(w) + w.exp)[j]) {
      if j < |w.whole| {
        assert Body(w)[j] == w.whole[j];
      } else if j > |w.whole| {
        assert Body(w)[j] == w.frac[j - |w.whole| - 1];
      }
    }
    assert forall j :: 0 <= j < |w.whole| ==> Body(w)[j] == w.whole[j];
  }
}
