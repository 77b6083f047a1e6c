/** A text's array of values: what is under each, and where each stops, which is not kept. */
module JsonTree {
  import opened Wrappers
  import opened Ascii
  import opened Framing
  import opened JsonText

  // The value at each place of the array.

  /** The value that is the ith, from the value itself on. */
  function Sub(t: Tree, i: nat): Tree
    requires i < Size(t)
    decreases t
  {
    if i == 0 then t else SubAll(t.kids, i - 1)
  }

  function SubAll(ts: seq<Tree>, i: nat): Tree
    requires i < SizeAll(ts)
    decreases ts
  {
    if i < Size(ts[0]) then Sub(ts[0], i) else SubAll(ts[1..], i - Size(ts[0]))
  }

  /** The array holds of the ith value where it starts, where what is not under it does, and its name. */
  lemma {:induction false} NodeAt(t: Tree, at: nat, i: nat)
    requires i < Size(t)
    ensures Flatten(t, at)[i] == Node(Sub(t, i).start, at + i + Size(Sub(t, i)), Sub(t, i).name)
    decreases t
  {
    if i > 0 {
      NodeAtAll(t.kids, at + 1, i - 1);
    }
  }

  lemma {:induction false} NodeAtAll(ts: seq<Tree>, at: nat, i: nat)
    requires i < SizeAll(ts)
    ensures FlattenAll(ts, at)[i] == Node(SubAll(ts, i).start, at + i + Size(SubAll(ts, i)), SubAll(ts, i).name)
    decreases ts
  {
    if i < Size(ts[0]) {
      NodeAt(ts[0], at, i);
    } else {
      NodeAtAll(ts[1..], at + Size(ts[0]), i - Size(ts[0]));
    }
  }

  /** What is under a value under another is under that: intervals nest. */
  lemma {:induction false} SubNests(t: Tree, i: nat, j: nat)
    requires i < Size(t) && j < Size(Sub(t, i))
    ensures i + Size(Sub(t, i)) <= Size(t) && Sub(t, i + j) == Sub(Sub(t, i), j)
    decreases t
  {
    if i > 0 {
      SubAllNests(t.kids, i - 1, j);
    }
  }

  lemma {:induction false} SubAllNests(ts: seq<Tree>, i: nat, j: nat)
    requires i < SizeAll(ts) && j < Size(SubAll(ts, i))
    ensures i + Size(SubAll(ts, i)) <= SizeAll(ts) && SubAll(ts, i + j) == Sub(SubAll(ts, i), j)
    decreases ts
  {
    if i < Size(ts[0]) {
      SubNests(ts[0], i, j);
    } else {
      SubAllNests(ts[1..], i - Size(ts[0]), j);
    }
  }

  /** Where the kth member is, after those before it. */
  function KidAt(ts: seq<Tree>, k: nat): nat
    requires k <= |ts|
  {
    if k == 0 then 0 else Size(ts[0]) + KidAt(ts[1..], k - 1)
  }

  lemma {:induction false} KidIs(ts: seq<Tree>, k: nat)
    requires k < |ts|
    ensures KidAt(ts, k) + Size(ts[k]) == KidAt(ts, k + 1) <= SizeAll(ts)
    ensures KidAt(ts, k) < SizeAll(ts) && SubAll(ts, KidAt(ts, k)) == ts[k]
    ensures k == |ts| - 1 ==> KidAt(ts, k + 1) == SizeAll(ts)
    decreases ts
  {
    if k > 0 {
      KidIs(ts[1..], k - 1);
    } else {
      assert KidAt(ts[1..], 0) == 0;
      if |ts| == 1 {
        assert SizeAll(ts[1..]) == 0;
      }
    }
  }

  lemma KidOf(t: Tree, k: nat)
    requires k < |t.kids|
    ensures 1 + KidAt(t.kids, k) + Size(t.kids[k]) == 1 + KidAt(t.kids, k + 1) <= Size(t)
    ensures 1 + KidAt(t.kids, k) < Size(t) && Sub(t, 1 + KidAt(t.kids, k)) == t.kids[k]
    ensures k == |t.kids| - 1 ==> 1 + KidAt(t.kids, k + 1) == Size(t)
    ensures k < |t.kids| - 1 ==> 1 + KidAt(t.kids, k + 1) < Size(t)
  {
    KidIs(t.kids, k);
    if k < |t.kids| - 1 {
      KidIs(t.kids, k + 1);
    }
  }

  // How the values of a text lie in it.

  /** What follows a value cannot go on with it. */
  predicate Followed(s: Bytes, i: nat) {
    i < |s| ==> White(s[i]) || s[i] == COMMA || s[i] == OBJECT + 2 || s[i] == ARRAY + 2
  }

  /** The text around t agrees with its ends: from a container's last part there is only white space to its bracket. */
  predicate Lies(s: Bytes, t: Tree)
    decreases t
  {
    && t.start < t.stop <= |s|
    && if Opens(s[t.start]) then
         && LiesAll(s, t.kids)
         && Closes(s, if t.kids == [] then t.start + 1 else t.kids[|t.kids| - 1].stop, t.stop, s[t.start] + 2)
       else t.kids == [] && ScalarEnd(s, t.start) == Some(t.stop)
  }

  predicate Closes(s: Bytes, i: nat, stop: nat, close: byte) {
    i < stop <= |s| && Space(s, i) == stop - 1 && s[stop - 1] == close
  }

  predicate LiesAll(s: Bytes, ts: seq<Tree>)
    decreases ts
  {
    ts != [] ==> Lies(s, ts[0]) && Followed(s, ts[0].stop) && LiesAll(s, ts[1..])
  }

  lemma SpaceFollows(s: Bytes, i: nat, c: byte)
    requires i <= |s| && Space(s, i) < |s| && s[Space(s, i)] == c && (c == COMMA || c == OBJECT + 2 || c == ARRAY + 2)
    ensures Followed(s, i)
  {
    SpaceBounds(s, i);
  }

  /** What reading gives lies in the text as it says. */
  lemma {:induction false} ReadLies(s: Bytes, decode: Bytes -> Bytes, i: nat, depth: nat, name: nat)
    requires i <= |s| && Read(s, decode, i, depth, name).Some?
    ensures Lies(s, Read(s, decode, i, depth, name).value)
    decreases |s| - i, 0
  {
    hide ScalarEnd, ReadMembers, Space;
    if Opens(s[i]) {
      MembersLie(s, decode, i + 1, s[i] + 2, depth, true, {});
    }
  }

  lemma {:induction false} MembersLie(s: Bytes, decode: Bytes -> Bytes, i: nat, close: byte, depth: nat, first: bool,
      names: set<Bytes>)
    requires i <= |s| && (close == OBJECT + 2 || close == ARRAY + 2) &&
      ReadMembers(s, decode, i, close, depth, first, names).Some?
    ensures var (kids, stop) := ReadMembers(s, decode, i, close, depth, first, names).value;
      LiesAll(s, kids) && Closes(s, if kids == [] then i else kids[|kids| - 1].stop, stop, close)
    decreases |s| - i, 2
  {
    hide Head, Lies, ReadMember;
    var j := Space(s, i);
    if !(first && j < |s| && s[j] == close) {
      var h := Head(s, decode, j, close, names).value;
      MemberLies(s, decode, h.0, h.1, close, depth, h.2);
    }
  }

  lemma {:induction false} MemberLies(s: Bytes, decode: Bytes -> Bytes, i: nat, name: nat, close: byte, depth: nat,
      names: set<Bytes>)
    requires i <= |s| && (close == OBJECT + 2 || close == ARRAY + 2) &&
      ReadMember(s, decode, i, name, close, depth, names).Some?
    ensures var (kids, stop) := ReadMember(s, decode, i, name, close, depth, names).value;
      kids != [] && LiesAll(s, kids) && Closes(s, kids[|kids| - 1].stop, stop, close)
    decreases |s| - i, 1
  {
    hide Lies, Read, ReadMembers, Space;
    ReadLies(s, decode, i, depth + 1, name);
    var v := Read(s, decode, i, depth + 1, name).value;
    var k := Space(s, v.stop);
    if s[k] == close {
      SpaceFollows(s, v.stop, close);
      assert [v][1..] == [];
    } else {
      SpaceFollows(s, v.stop, COMMA);
      MembersLie(s, decode, k + 1, close, depth, false, names);
      var r := ReadMembers(s, decode, k + 1, close, depth, false, names).value;
      assert ([v] + r.0)[1..] == r.0;
      NotFirst(s, decode, k + 1, close, depth, names);
    }
  }

  lemma NotFirst(s: Bytes, decode: Bytes -> Bytes, i: nat, close: byte, depth: nat, names: set<Bytes>)
    requires i <= |s| && ReadMembers(s, decode, i, close, depth, false, names).Some?
    ensures ReadMembers(s, decode, i, close, depth, false, names).value.0 != []
  {
    hide Head, Read;
  }

  lemma {:induction false} SubLies(s: Bytes, t: Tree, i: nat)
    requires Lies(s, t) && Followed(s, t.stop) && i < Size(t)
    ensures Lies(s, Sub(t, i)) && Followed(s, Sub(t, i).stop)
    decreases t
  {
    hide Closes, Followed;
    if i > 0 {
      if Opens(s[t.start]) {
        SubAllLies(s, t.kids, i - 1);
      }
    }
  }

  lemma {:induction false} SubAllLies(s: Bytes, ts: seq<Tree>, i: nat)
    requires LiesAll(s, ts) && i < SizeAll(ts)
    ensures Lies(s, SubAll(ts, i)) && Followed(s, SubAll(ts, i).stop)
    decreases ts
  {
    hide Followed, Lies;
    if i < Size(ts[0]) {
      SubLies(s, ts[0], i);
    } else {
      SubAllLies(s, ts[1..], i - Size(ts[0]));
    }
  }

  // Strings: a quote closes one exactly if an even run of backslashes precedes it.

  /** How many backslashes precede k. */
  function Run(s: Bytes, k: nat): nat
    requires k <= |s|
  {
    if k > 0 && s[k - 1] == BACKSLASH then 1 + Run(s, k - 1) else 0
  }

  /** From between two escapes or bytes of a string, the next quote closes it, or an odd run of backslashes precedes it
      and the string goes on after it. */
  lemma {:induction false} NextQuote(s: Bytes, i: nat, n: nat)
    requires i <= n < |s| && Inside(s, i).Some? && s[n] == QUOTE && (forall k :: i <= k < n ==> s[k] != QUOTE)
    requires Run(s, i) % 2 == 0
    ensures Run(s, n) % 2 == 0 ==> n + 1 == Inside(s, i).value.0
    ensures Run(s, n) % 2 == 1 ==> Inside(s, n + 1).Some? && Inside(s, n + 1).value.0 == Inside(s, i).value.0
    decreases n - i
  {
    if i < n {
      if s[i] != BACKSLASH {
        assert Run(s, i + 1) == 0;
        NextQuote(s, i + 1, n);
      } else if s[i + 1] == QUOTE {
        assert n == i + 1 && EscapeLength(s, i) == 2;
      } else {
        RunPast(s, i);
        NextQuote(s, i + EscapeLength(s, i), n);
      }
    }
  }

  lemma RunPast(s: Bytes, i: nat)
    requires i < |s| && s[i] == BACKSLASH && EscapeLength(s, i) > 0 && Run(s, i) % 2 == 0
    ensures i + EscapeLength(s, i) <= |s| && Run(s, i + EscapeLength(s, i)) % 2 == 0
    ensures forall k :: i <= k < i + EscapeLength(s, i) && s[k] == QUOTE ==> k == i + 1
  {
    assert Run(s, i + 1) == 1 + Run(s, i);
    if EscapeLength(s, i) == 2 {
      assert Run(s, i + 2) == if s[i + 1] == BACKSLASH then 1 + Run(s, i + 1) else 0;
    } else {
      assert Run(s, i + 6) == 0;
    }
  }

  lemma QuoteAhead(s: Bytes, i: nat)
    requires i <= |s| && Inside(s, i).Some?
    ensures Index(s[i..], QUOTE) < |s| - i
  {
    var e := Inside(s, i).value.0;
    assert s[i..][e - 1 - i] == QUOTE;
  }

  /** Where the run of backslashes before close starts, after from. */
  method RunStart(s: Bytes, from: nat, close: nat) returns (k: nat)
    requires 0 < from <= close < |s| && s[from - 1] == QUOTE
    ensures from <= k <= close && Run(s, close) == close - k
  {
    k := close;
    while s[k - 1] == BACKSLASH
      invariant from <= k <= close && Run(s, close) == close - k + Run(s, k)
      decreases k
    {
      k := k - 1;
    }
  }

  /** The next quote from i on. */
  lemma QuoteIs(s: Bytes, i: nat, n: nat)
    requires i <= |s| && n == i + Index(s[i..], QUOTE) && n < |s|
    ensures s[n] == QUOTE && forall k :: i <= k < n ==> s[k] != QUOTE
  {
    assert forall k :: i <= k < |s| ==> s[k] == s[i..][k - i];
  }

  /** Finds the end of the string at q by its quotes alone: the first after an even number of backslashes. */
  method ClosingQuote(s: Bytes, q: nat) returns (close: nat)
    requires q < |s| && s[q] == QUOTE && Inside(s, q + 1).Some?
    ensures close + 1 == Inside(s, q + 1).value.0
  {
    hide Inside, Run;
    close := q;
    while true
      invariant q <= close < |s| && s[close] == QUOTE && Inside(s, close + 1).Some?
      invariant Inside(s, close + 1).value.0 == Inside(s, q + 1).value.0
      decreases |s| - close
    {
      var from := close + 1;
      QuoteAhead(s, from);
      close := close + 1 + Index(s[close + 1..], QUOTE);
      QuoteIs(s, from, close);
      NoRun(s, from);
      var k := RunStart(s, from, close);
      NextQuote(s, from, close);
      assert Run(s, close) % 2 == (close - k) % 2;
      if (close - k) % 2 == 0 {
        return;
      }
    }
  }

  lemma NoRun(s: Bytes, k: nat)
    requires 0 < k <= |s| && s[k - 1] == QUOTE
    ensures Run(s, k) == 0
  {
  }

  /** Where no escape is written, the first quote closes a string. */
  lemma {:induction false} PlainQuote(s: Bytes, i: nat)
    requires i <= |s| && Inside(s, i).Some? && !Inside(s, i).value.1
    ensures Index(s[i..], QUOTE) + i + 1 == Inside(s, i).value.0
    decreases |s| - i
  {
    if s[i] != QUOTE {
      PlainQuote(s, i + 1);
      assert s[i..][1..] == s[i + 1..];
    }
  }

  // Numbers.

  predicate NumberByte(c: byte) {
    Digit(c) || c == PLUS || c == MINUS || c == DOT || c == 101 || c == 69
  }

  lemma NumberBytes(s: Bytes, i: nat)
    requires i < |s| && (s[i] == MINUS || Digit(s[i])) && NumberEnd(s, i).Some?
    ensures forall k :: i < k < NumberEnd(s, i).value ==> NumberByte(s[k])
  {
    var a := if s[i] == MINUS then i + 1 else i;
    var b := if a < |s| && s[a] == 48 then a + 1 else Digits(s, a);
    DigitsBounds(s, a);
    FractionBytes(s, b);
  }

  lemma FractionBytes(s: Bytes, b: nat)
    requires b <= |s| && Fraction(s, b).Some?
    ensures forall k :: b <= k < Fraction(s, b).value ==> NumberByte(s[k])
  {
    var c := if b < |s| && s[b] == DOT then Digits(s, b + 1) else b;
    if c != b {
      DigitsBounds(s, b + 1);
    }
    if c < |s| && (s[c] == 101 || s[c] == 69) {
      DigitsBounds(s, if c + 1 < |s| && (s[c + 1] == PLUS || s[c + 1] == MINUS) then c + 2 else c + 1);
    }
  }

  // The strings with an escape.

  lemma {:induction false} EscapesAre(s: Bytes, t: Tree, q: nat)
    requires q in Escapes(s, t)
    ensures Escaped(s, q)
    decreases t
  {
    hide Escaped;
    if t.start < |s| && Opens(s[t.start]) {
      EscapesAllAre(s, t.kids, s[t.start] == OBJECT, q);
    }
  }

  lemma {:induction false} EscapesAllAre(s: Bytes, ts: seq<Tree>, named: bool, q: nat)
    requires q in EscapesAll(s, ts, named)
    ensures Escaped(s, q)
    decreases ts
  {
    hide Escaped;
    if ts != [] {
      if q in Escapes(s, ts[0]) {
        EscapesAre(s, ts[0], q);
      } else if q in EscapesAll(s, ts[1..], named) {
        EscapesAllAre(s, ts[1..], named, q);
      }
    }
  }

  /** A string value written with an escape is noted. */
  lemma {:induction false} SubEscaped(s: Bytes, t: Tree, i: nat)
    requires Lies(s, t) && i < Size(t) && Sub(t, i).start < |s| && s[Sub(t, i).start] == QUOTE &&
      Escaped(s, Sub(t, i).start)
    ensures Sub(t, i).start in Escapes(s, t)
    decreases t
  {
    hide Escaped, Closes;
    if i > 0 {
      if Opens(s[t.start]) {
        SubAllEscaped(s, t.kids, s[t.start] == OBJECT, i - 1);
      }
    }
  }

  lemma {:induction false} SubAllEscaped(s: Bytes, ts: seq<Tree>, named: bool, i: nat)
    requires LiesAll(s, ts) && i < SizeAll(ts)
    requires SubAll(ts, i).start < |s| && s[SubAll(ts, i).start] == QUOTE && Escaped(s, SubAll(ts, i).start)
    ensures SubAll(ts, i).start in EscapesAll(s, ts, named)
    decreases ts
  {
    hide Escaped, Lies;
    if i < Size(ts[0]) {
      SubEscaped(s, ts[0], i);
    } else {
      SubAllEscaped(s, ts[1..], named, i - Size(ts[0]));
    }
  }

  // A document.

  /** A document: its text, its values in order, and where its strings with an escape are. */
  class Document {
    const src: Bytes
    const nodes: seq<Node>
    const escapes: seq<nat>

    constructor (src: Bytes, nodes: seq<Node>, escapes: seq<nat>)
      ensures this.src == src && this.nodes == nodes && this.escapes == escapes
    {
      this.src, this.nodes, this.escapes := src, nodes, escapes;
    }

    /** It was read as t. */
    ghost predicate Holds(t: Tree) {
      Lies(src, t) && Followed(src, t.stop) && nodes == Flatten(t, 0) && escapes == Escapes(src, t)
    }

    /** The values in the container at i, in order. */
    method Members(i: nat, ghost t: Tree) returns (cs: seq<nat>)
      requires Holds(t) && i < |nodes|
      ensures |cs| == |Sub(t, i).kids|
      ensures forall k :: 0 <= k < |cs| ==> cs[k] < |nodes| && Sub(t, cs[k]) == Sub(t, i).kids[k]
    {
      hide Lies, Followed, Escapes, Flatten;
      ghost var v, k := Sub(t, i), 0;
      NodeAt(t, 0, i);
      cs := [];
      var c := i + 1;
      SubNests(t, i, 0);
      while c < nodes[i].next
        invariant k <= |v.kids| && |cs| == k && c == i + 1 + KidAt(v.kids, k) <= i + Size(v)
        invariant c == i + Size(v) <==> k == |v.kids|
        invariant forall j :: 0 <= j < k ==> cs[j] < |nodes| && Sub(t, cs[j]) == v.kids[j]
        decreases |nodes| - c
      {
        KidOf(v, k);
        SubNests(t, i, 1 + KidAt(v.kids, k));
        NodeAt(t, 0, c);
        cs := cs + [c];
        c := nodes[c].next;
        k := k + 1;
      }
    }

    /** The last value in the container at i, which is not empty. */
    method Last(i: nat, ghost t: Tree) returns (last: nat)
      requires Holds(t) && i < |nodes| && Sub(t, i).kids != []
      ensures i < last < |nodes| && Sub(t, last) == Sub(t, i).kids[|Sub(t, i).kids| - 1]
    {
      hide Lies, Followed, Escapes, Flatten;
      ghost var v, k := Sub(t, i), 0;
      NodeAt(t, 0, i);
      SubNests(t, i, 0);
      KidOf(v, 0);
      SubNests(t, i, 1 + KidAt(v.kids, 0));
      last := i + 1;
      NodeAt(t, 0, last);
      while nodes[last].next < nodes[i].next
        invariant k < |v.kids| && last == i + 1 + KidAt(v.kids, k) < i + Size(v) && Sub(t, last) == v.kids[k]
        invariant nodes[last].next == last + Size(v.kids[k])
        decreases |nodes| - last
      {
        KidOf(v, k);
        last := nodes[last].next;
        k := k + 1;
        KidOf(v, k);
        SubNests(t, i, 1 + KidAt(v.kids, k));
        NodeAt(t, 0, last);
      }
      KidOf(v, k);
    }

    /** The offset just past the ith value: where reading it stopped. */
    method EndOf(i: nat, ghost t: Tree) returns (end: nat)
      requires Holds(t) && i < |nodes|
      ensures end == Sub(t, i).stop
      decreases |nodes| - i
    {
      hide Escapes, Flatten, Inside, NumberEnd, Space, Escaped, LiesAll, Followed;
      ghost var v := Sub(t, i);
      NodeAt(t, 0, i);
      SubLies(src, t, i);
      var j := nodes[i].start;
      var c := src[j];
      if c == QUOTE {
        end := StringEnd(i, j, t);
      } else if Opens(c) {
        SubNests(t, i, 0);
        var from := j;
        if nodes[i].next > i + 1 {
          var last := Last(i, t);
          var after := EndOf(last, t);
          SubLies(src, t, last);
          from := after - 1;
        } else {
          NoKids(v);
        }
        end := from + 1 + Index(src[from + 1..], c + 2) + 1;
        FirstBracket(src, from + 1, v.stop, c + 2);
      } else if c == TRUE[0] || c == NULL[0] {
        end := j + 4;
      } else if c == FALSE[0] {
        end := j + 5;
      } else {
        end := NumberStop(j, v.stop);
      }
    }

    /** Past the bytes a number can have. */
    method NumberStop(j: nat, ghost stop: nat) returns (end: nat)
      requires j < |src| && (src[j] == MINUS || Digit(src[j])) && NumberEnd(src, j) == Some(stop) && Followed(src, stop)
      ensures end == stop
    {
      hide NumberEnd;
      end := j + 1;
      NumberBytes(src, j);
      FollowedNumber(src, stop);
      while end < |src| && NumberByte(src[end])
        invariant j < end <= stop
      {
        end := end + 1;
      }
    }

    method StringEnd(i: nat, j: nat, ghost t: Tree) returns (end: nat)
      requires Holds(t) && i < |nodes| && j == Sub(t, i).start < |src| && src[j] == QUOTE && Inside(src, j + 1).Some?
      ensures end == Inside(src, j + 1).value.0
    {
      hide Flatten, Inside, Lies;
      if j in escapes {
        EscapesAre(src, t, j);
        var close := ClosingQuote(src, j);
        return close + 1;
      }
      if Escaped(src, j) {
        SubEscaped(src, t, i);
      }
      PlainQuote(src, j + 1);
      return j + 1 + Index(src[j + 1..], QUOTE) + 1;
    }
  }

  lemma NoKids(v: Tree)
    requires Size(v) == 1
    ensures v.kids == []
  {
  }

  lemma FollowedNumber(s: Bytes, i: nat)
    requires Followed(s, i)
    ensures i < |s| ==> !NumberByte(s[i])
  {
  }

  /** White space alone lies before the bracket that closes a container. */
  lemma FirstBracket(s: Bytes, i: nat, stop: nat, close: byte)
    requires Closes(s, i, stop, close) && !White(close)
    ensures i + Index(s[i..], close) + 1 == stop
  {
    SpaceBounds(s, i);
    var n := stop - 1 - i;
    assert s[i..][n] == close;
    assert forall k :: 0 <= k < n ==> s[i..][k] == s[i + k] && White(s[i + k]);
    IndexIs(s[i..], close, n);
  }

  /** What the scanner reads lies in the text. */
  lemma ParsedLies(s: Bytes, decode: Bytes -> Bytes)
    requires Parse(s, decode).Some?
    ensures var t := Parse(s, decode).value; Lies(s, t) && Followed(s, t.stop) && t.start == Space(s, 0)
  {
    hide Lies, Read;
    var t := Parse(s, decode).value;
    ReadLies(s, decode, Space(s, 0), 1, 0);
    SpaceBounds(s, t.stop);
  }
}
