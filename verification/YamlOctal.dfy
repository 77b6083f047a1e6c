/** Packing the octal digits of a YAML integer into machine words. */
module YamlOctal {
  import opened Ascii

  const WORD: nat := 64

  function Power(n: nat): (p: nat)
    ensures p > 0
  {
    if n == 0 then 1 else 2 * Power(n - 1)
  }

  lemma PowerZero()
    ensures Power(0) == 1
  {
  }

  lemma {:induction false} PowerSum(a: nat, b: nat)
    ensures Power(a + b) == Power(a) * Power(b)
  {
    if a > 0 {
      PowerSum(a - 1, b);
      PowerNext(a - 1 + b);
      PowerNext(a - 1);
      hide Power;
      Associates(2, Power(a - 1), Power(b));
    }
  }

  lemma PowerNext(n: nat)
    ensures Power(n + 1) == 2 * Power(n)
  {
  }

  lemma Associates(x: nat, y: nat, z: nat)
    ensures x * (y * z) == x * y * z
  {
  }

  /** Bits in either. */
  function Or(x: nat, y: nat): nat {
    if x == 0 && y == 0 then 0 else 2 * Or(x / 2, y / 2) + (if x % 2 == 1 || y % 2 == 1 then 1 else 0)
  }

  /** Bits of one below those of the other add up. */
  lemma {:induction false} OrAdds(x: nat, y: nat, k: nat)
    requires x < Power(k)
    ensures Or(x, y * Power(k)) == x + y * Power(k)
    decreases k
  {
    if k == 0 {
      OrZero(y);
    } else {
      var z := y * Power(k);
      assert z == 2 * (y * Power(k - 1)) by {
        assert y * (2 * Power(k - 1)) == 2 * (y * Power(k - 1));
      }
      OrAdds(x / 2, y, k - 1);
      assert z / 2 == y * Power(k - 1) && z % 2 == 0;
    }
  }

  lemma {:induction false} OrZero(y: nat)
    ensures Or(0, y) == y
  {
    if y > 0 {
      OrZero(y / 2);
    }
  }

  /** What words are, the least first. */
  function Value(words: seq<nat>): nat {
    if words == [] then 0 else words[0] + Power(WORD) * Value(words[1..])
  }

  predicate Octals(s: Bytes) {
    forall i :: 0 <= i < |s| ==> 48 <= s[i] <= 55
  }

  function Digit(c: byte): (d: nat)
    requires 48 <= c <= 55
    ensures d < 8
  {
    (c - 48) as int
  }

  /** What octal digits spell. */
  function Octal(s: Bytes): nat
    requires Octals(s)
  {
    if s == [] then 0 else Digit(s[0]) * Power(3 * (|s| - 1)) + Octal(s[1..])
  }

  lemma OctalNone()
    ensures Octal([]) == 0
  {
  }

  lemma {:induction false} OctalBound(s: Bytes)
    requires Octals(s)
    ensures Octal(s) < Power(3 * |s|)
  {
    hide Power;
    PowerThree();
    PowerZero();
    if s != [] {
      OctalBound(s[1..]);
      var p := Power(3 * (|s| - 1));
      PowerSum(3, 3 * (|s| - 1));
      assert 8 * p == 7 * p + p;
      Multiplied(p, Digit(s[0]), 7);
      assert Digit(s[0]) * p <= 7 * p;
    }
  }

  /** Setting a word changes the value by as much, at its place. */
  lemma {:induction false} ValueSet(words: seq<nat>, i: nat, w: nat)
    requires i < |words| && w >= words[i]
    ensures Value(words[i := w]) == Value(words) + (w - words[i]) * Power(WORD * i)
  {
    var all := words[i := w];
    if i == 0 {
      assert all[1..] == words[1..];
      assert (w - words[0]) * Power(0) == w - words[0];
    } else {
      assert all[1..] == words[1..][i - 1 := w];
      ValueSet(words[1..], i - 1, w);
      PowerSum(WORD, WORD * (i - 1));
      var d, p, q := w - words[i], Power(WORD), Power(WORD * (i - 1));
      assert p * (Value(words[1..]) + d * q) == p * Value(words[1..]) + d * (p * q) by {
        Distribute(p, Value(words[1..]), d, q);
      }
    }
  }

  lemma Distribute(p: nat, v: nat, d: nat, q: nat)
    ensures p * (v + d * q) == p * v + d * (p * q)
  {
    assert p * (d * q) == d * (p * q);
  }

  /** What is above a value's bits is zero. */
  lemma {:induction false} ValueBelow(words: seq<nat>, word: nat, shift: nat)
    requires word < |words| && Value(words) < Power(WORD * word + shift)
    ensures words[word] < Power(shift)
    ensures forall j :: word < j < |words| && shift <= WORD ==> words[j] == 0
  {
    if word == 0 {
      if words[1..] != [] && shift <= WORD {
        forall j | 0 < j < |words| ensures words[j] == 0 {
          AboveZero(words, shift);
          ValueZero(words[1..], j - 1);
        }
      }
      assert Power(WORD) * Value(words[1..]) >= 0;
    } else {
      PowerSum(WORD, WORD * (word - 1) + shift);
      Divided(Power(WORD), Value(words[1..]), words[0], Power(WORD * (word - 1) + shift));
      ValueBelow(words[1..], word - 1, shift);
      assert forall j :: word < j < |words| ==> words[j] == words[1..][j - 1];
    }
  }

  lemma Divided(p: nat, v: nat, w: nat, q: nat)
    requires p > 0 && w + p * v < p * q
    ensures v < q
  {
    if v >= q {
      Multiplied(p, q, v);
    }
  }

  lemma Multiplied(p: nat, a: nat, b: nat)
    requires a <= b
    ensures p * a <= p * b
  {
  }

  lemma {:induction false} PowerGrows(a: nat, b: nat)
    requires a <= b
    ensures Power(a) <= Power(b)
  {
    if a < b {
      PowerGrows(a, b - 1);
    }
  }

  lemma AboveZero(words: seq<nat>, shift: nat)
    requires words != [] && shift <= WORD && Value(words) < Power(shift)
    ensures Value(words[1..]) == 0
  {
    hide Power;
    PowerGrows(shift, WORD);
    if Value(words[1..]) > 0 {
      Multiplied(Power(WORD), 1, Value(words[1..]));
    }
  }

  lemma {:induction false} ValueZero(words: seq<nat>, j: nat)
    requires j < |words| && Value(words) == 0
    ensures words[j] == 0
  {
    assert Value(words[1..]) == 0 by {
      if Value(words[1..]) > 0 {
        assert Power(WORD) * Value(words[1..]) > 0;
      }
    }
    if j > 0 {
      ValueZero(words[1..], j - 1);
    }
  }

  /** A digit d at p of the r * p a word holds: what is of it in the word, and in the word after it. */
  lemma Carried(d: nat, p: nat, r: nat, b: nat)
    requires p > 0 && r > 0
    ensures var low, high := (d * p) % (p * r), d / r;
      low == (d % r) * p && low + high * (p * r) == d * p && d * (b * p) == low * b + high * (b * (p * r))
  {
    var high, rest := d / r, d % r;
    assert d == high * r + rest;
    Spread(high, r, rest, p);
    Multiplied(p, rest + 1, r);
    assert p * (rest + 1) == rest * p + p;
    Remainder(rest * p, high, p * r);
    Placed(d, p, b, rest * p, high, p * r);
  }

  lemma Placed(d: nat, p: nat, b: nat, low: nat, high: nat, w: nat)
    requires d * p == low + high * w
    ensures d * (b * p) == low * b + high * (b * w)
  {
    assert d * (b * p) == d * p * b;
    assert (low + high * w) * b == low * b + high * w * b;
    assert high * w * b == high * (b * w);
  }

  lemma SmallQuotient(d: nat, r: nat)
    requires d < r
    ensures d / r == 0
  {
  }

  /** A word's bits below a place, and above it. */
  lemma Places(word: nat, shift: nat)
    requires shift < WORD
    ensures Power(shift) * Power(WORD - shift) == Power(WORD)
    ensures Power(WORD * word) * Power(shift) == Power(WORD * word + shift)
    ensures Power(WORD * word) * Power(WORD) == Power(WORD * (word + 1))
  {
    hide Power;
    PowerSum(shift, WORD - shift);
    PowerSum(WORD * word, shift);
    PowerSum(WORD * word, WORD);
  }

  /** A digit's bits at a place: what is of them in its word, and in the word after it. */
  lemma DigitSplits(d: nat, word: nat, shift: nat, low: nat, high: nat)
    requires d < 8 && shift < WORD
    requires low == (d * Power(shift)) % Power(WORD) && high == d / Power(WORD - shift)
    ensures low == (d % Power(WORD - shift)) * Power(shift)
    ensures d * Power(WORD * word + shift) == low * Power(WORD * word) + high * Power(WORD * (word + 1))
    ensures shift <= WORD - 3 ==> high == 0
  {
    hide Power;
    Places(word, shift);
    Carried(d, Power(shift), Power(WORD - shift), Power(WORD * word));
    if shift <= WORD - 3 {
      PowerGrows(3, WORD - shift);
      PowerThree();
      SmallQuotient(d, Power(WORD - shift));
    }
  }

  lemma PowerThree()
    ensures Power(3) == 8
  {
    assert Power(2) == 4 && Power(1) == 2;
  }

  lemma Spread(h: nat, r: nat, l: nat, p: nat)
    ensures (h * r + l) * p == h * (p * r) + l * p
  {
    assert h * r * p == h * (p * r);
  }

  lemma Remainder(l: nat, h: nat, p: nat)
    requires l < p
    ensures (l + h * p) % p == l
  {
    Euclid(l, h, p, l + h * p);
  }

  lemma Euclid(l: nat, h: nat, p: nat, n: nat)
    requires l < p && n == l + h * p
    ensures n % p == l
  {
    var q := n / p;
    assert n == q * p + n % p;
    if q > h {
      Multiplied(p, h + 1, q);
    } else if q < h {
      Multiplied(p, q + 1, h);
    }
  }

  lemma {:induction false} ValueZeros(words: seq<nat>)
    requires forall i :: 0 <= i < |words| ==> words[i] == 0
    ensures Value(words) == 0
  {
    if words != [] {
      ValueZeros(words[1..]);
    }
  }

  lemma OrMultiple(x: nat, m: nat, k: nat, y: nat)
    requires x < Power(k) && y == m * Power(k)
    ensures Or(x, y) == x + y
  {
    OrAdds(x, m, k);
  }

  /** A word with bits below a place, and a digit's from it on, is one. */
  lemma WordFits(x: nat, d: nat, shift: nat, low: nat)
    requires shift < WORD && x < Power(shift) && low == (d % Power(WORD - shift)) * Power(shift)
    ensures x + low < Power(WORD)
  {
    hide Power;
    var r := Power(WORD - shift);
    PowerSum(shift, WORD - shift);
    Multiplied(Power(shift), d % r + 1, r);
    assert Power(shift) * (d % r + 1) == low + Power(shift);
  }

  /** Sets the bits of a digit at bit, where all above are zero. */
  method SetDigit(words: array<nat>, d: nat, bit: nat)
    requires d < 8 && Value(words[..]) < Power(bit) && WORD * words.Length >= bit + 3
    requires forall j :: 0 <= j < words.Length ==> words[j] < Power(WORD)
    modifies words
    ensures Value(words[..]) == old(Value(words[..])) + d * Power(bit)
    ensures forall j :: 0 <= j < words.Length ==> words[j] < Power(WORD)
  {
    hide Power, Value, Or;
    var word, shift := bit / WORD, bit % WORD;
    ghost var before := words[..];
    ValueBelow(before, word, shift);
    var low: nat, high: nat := (d * Power(shift)) % Power(WORD), d / Power(WORD - shift);
    DigitSplits(d, word, shift, low, high);
    OrMultiple(words[word], d % Power(WORD - shift), shift, low);
    WordFits(words[word], d, shift, low);
    words[word] := Or(words[word], low);
    assert words[..] == before[word := before[word] + low];
    ValueSet(before, word, before[word] + low);
    ghost var middle := words[..];
    if shift > WORD - 3 {
      assert words[word + 1] == 0;
      OrZero(high);
      Carries(d, shift);
      words[word + 1] := Or(words[word + 1], high);
      assert words[..] == middle[word + 1 := high];
      ValueSet(middle, word + 1, high);
    } else {
      assert 0 * Power(WORD * (word + 1)) == 0;
    }
  }

  lemma Carries(d: nat, shift: nat)
    requires d < 8 && shift < WORD
    ensures d / Power(WORD - shift) < Power(WORD)
  {
    hide Power;
    PowerGrows(3, WORD);
    PowerThree();
    Quotient(d, Power(WORD - shift));
  }

  lemma Quotient(d: nat, r: nat)
    requires r > 0
    ensures d / r <= d
  {
    var q := d / r;
    assert d == q * r + d % r;
    Multiplied(q, 1, r);
  }

  /** The words of what octal digits spell, the last digit first. */
  method Pack(digits: Bytes) returns (ok: bool, words: array<nat>)
    ensures ok <==> Octals(digits)
    ensures ok ==> Value(words[..]) == Octal(digits) && forall j :: 0 <= j < words.Length ==> words[j] < Power(WORD)
  {
    hide Power, Value, Octal;
    words := new nat[(3 * |digits| + WORD - 1) / WORD](_ => 0);
    ValueZeros(words[..]);
    assert digits[|digits|..] == [];
    OctalNone();
    var i: nat, bit: nat := |digits|, 0;
    assert 0 < Power(WORD);
    while i > 0
      invariant i <= |digits| && bit == 3 * (|digits| - i) && Octals(digits[i..])
      invariant Value(words[..]) == Octal(digits[i..])
      invariant forall j :: 0 <= j < words.Length ==> words[j] < Power(WORD)
    {
      var c := digits[i - 1];
      if c < 48 || c > 55 {
        return false, words;
      }
      assert digits[i - 1..] == [c] + digits[i..];
      OctalBound(digits[i..]);
      OctalNext(digits, i - 1);
      SetDigit(words, Digit(c), bit);
      i, bit := i - 1, bit + 3;
    }
    assert digits[0..] == digits;
    ok := true;
  }

  lemma OctalNext(s: Bytes, i: nat)
    requires i < |s| && Octals(s[i..])
    ensures Octals(s[i + 1..]) && Octal(s[i..]) == Octal(s[i + 1..]) + Digit(s[i]) * Power(3 * (|s| - 1 - i))
  {
    assert s[i..][0] == s[i] && s[i..][1..] == s[i + 1..];
  }
}
