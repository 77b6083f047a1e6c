/** JSON texts (RFC 8259) as their values lie in them. */
module JsonText {
  import opened Wrappers
  import opened Ascii
  import Sequences

  const OBJECT: byte := 123
  const ARRAY: byte := 91
  const TRUE: Bytes := [116, 114, 117, 101]
  const FALSE: Bytes := [102, 97, 108, 115, 101]
  const NULL: Bytes := [110, 117, 108, 108]
  const MAX_DEPTH: nat := 1000
  const MANY: nat := 16
  const REF: Bytes := [36, 114, 101, 102]

  /** A value: where it starts and stops, where its name does, if it is an object's member, and its members in order. */
  datatype Tree = Tree(start: nat, stop: nat, name: nat, kids: seq<Tree>)

  predicate HexDigit(c: byte) {
    48 <= c <= 57 || 65 <= c <= 70 || 97 <= c <= 102
  }

  function Space(s: Bytes, i: nat): (j: nat)
    requires i <= |s|
    ensures i <= j <= |s|
    decreases |s| - i
  {
    if i < |s| && White(s[i]) then Space(s, i + 1) else i
  }

  function Digits(s: Bytes, i: nat): (j: nat)
    requires i <= |s|
    ensures i <= j <= |s|
    decreases |s| - i
  {
    if i < |s| && Digit(s[i]) then Digits(s, i + 1) else i
  }

  lemma {:induction false} SpaceBounds(s: Bytes, i: nat)
    requires i <= |s|
    ensures forall k :: i <= k < Space(s, i) ==> White(s[k])
    ensures Space(s, i) < |s| ==> !White(s[Space(s, i)])
    decreases |s| - i
  {
    if i < |s| && White(s[i]) {
      SpaceBounds(s, i + 1);
    }
  }

  lemma {:induction false} DigitsBounds(s: Bytes, i: nat)
    requires i <= |s|
    ensures forall k :: i <= k < Digits(s, i) ==> Digit(s[k])
    ensures Digits(s, i) < |s| ==> !Digit(s[Digits(s, i)])
    decreases |s| - i
  {
    if i < |s| && Digit(s[i]) {
      DigitsBounds(s, i + 1);
    }
  }

  /** How a string that goes on at i escapes there, if it does: by so many bytes. */
  function EscapeLength(s: Bytes, i: nat): nat
    requires i < |s|
  {
    if s[i] != BACKSLASH then 0
    else if i + 1 < |s| && s[i + 1] in [34, 92, 47, 98, 102, 110, 114, 116] then 2
    else if i + 5 < |s| && s[i + 1] == 117 && HexDigit(s[i + 2]) && HexDigit(s[i + 3]) && HexDigit(s[i + 4]) &&
      HexDigit(s[i + 5]) then 6
    else 0
  }

  /** The end of the string that goes on at i, past its closing quote, and whether an escape is written from there. */
  function Inside(s: Bytes, i: nat): (r: Option<(nat, bool)>)
    requires i <= |s|
    ensures r.Some? ==> i < r.value.0 <= |s| && s[r.value.0 - 1] == QUOTE
    decreases |s| - i
  {
    if i == |s| || s[i] < SPACE then None
    else if s[i] == QUOTE then Some((i + 1, false))
    else if s[i] != BACKSLASH then Inside(s, i + 1)
    else
      var n := EscapeLength(s, i);
      if n == 0 then None
      else
        var r := Inside(s, i + n);
        if r.Some? then Some((r.value.0, true)) else None
  }

  /** The end of the number that starts at i. */
  function NumberEnd(s: Bytes, i: nat): (r: Option<nat>)
    requires i < |s| && (s[i] == MINUS || Digit(s[i]))
    ensures r.Some? ==> i < r.value <= |s|
  {
    var a := if s[i] == MINUS then i + 1 else i;
    var b := if a < |s| && s[a] == 48 then a + 1 else Digits(s, a);
    if b == a then None else Fraction(s, b)
  }

  function Fraction(s: Bytes, b: nat): (r: Option<nat>)
    requires b <= |s|
    ensures r.Some? ==> b <= r.value <= |s|
  {
    var c := if b < |s| && s[b] == DOT then Digits(s, b + 1) else b;
    if c == b + 1 then None else Exponent(s, c)
  }

  function Exponent(s: Bytes, c: nat): (r: Option<nat>)
    requires c <= |s|
    ensures r.Some? ==> c <= r.value <= |s|
  {
    if c < |s| && (s[c] == 101 || s[c] == 69) then
      var d := if c + 1 < |s| && (s[c + 1] == PLUS || s[c + 1] == MINUS) then c + 2 else c + 1;
      if Digits(s, d) == d then None else Some(Digits(s, d))
    else Some(c)
  }

  predicate StartsWith(s: Bytes, i: nat, p: Bytes)
    requires i <= |s|
  {
    p <= s[i..]
  }

  /** The end of the scalar that starts at i. */
  function ScalarEnd(s: Bytes, i: nat): (r: Option<nat>)
    requires i < |s|
    ensures r.Some? ==> i < r.value <= |s|
  {
    if s[i] == QUOTE then
      var r := Inside(s, i + 1);
      if r.Some? then Some(r.value.0) else None
    else if s[i] == MINUS || Digit(s[i]) then NumberEnd(s, i)
    else if StartsWith(s, i, TRUE) || StartsWith(s, i, NULL) then Some(i + 4)
    else if StartsWith(s, i, FALSE) then Some(i + 5)
    else None
  }

  predicate Opens(c: byte) {
    c == OBJECT || c == ARRAY
  }

  /** The name of the member that starts at i, where it ends, and where the member's value starts. */
  function MemberName(s: Bytes, i: nat): (r: Option<(nat, nat)>)
    requires i <= |s|
    ensures r.Some? ==> i < r.value.0 < r.value.1 <= |s|
  {
    if i == |s| || s[i] != QUOTE then None
    else
      var r := Inside(s, i + 1);
      if r.None? then None
      else
        var e := r.value.0;
        var c := Space(s, e);
        if c == |s| || s[c] != COLON then None else Some((e, Space(s, c + 1)))
  }

  /** The bytes of the string at q, quotes included; none if no string ends there. */
  function NameOf(s: Bytes, q: nat): Bytes {
    if q < |s| && Inside(s, q + 1).Some? then s[q..Inside(s, q + 1).value.0] else []
  }

  /** The value at i, depth levels deep, whose name is at name; decode gives the value of a string as written. */
  function Read(s: Bytes, decode: Bytes -> Bytes, i: nat, depth: nat, name: nat): (r: Option<Tree>)
    requires i <= |s|
    ensures r.Some? ==> i == r.value.start < r.value.stop <= |s| && r.value.name == name
    decreases |s| - i, 0
  {
    if depth > MAX_DEPTH || i == |s| then None
    else if Opens(s[i]) then
      var r := ReadMembers(s, decode, i + 1, s[i] + 2, depth, true, {});
      if r.Some? then Some(Tree(i, r.value.1, name, r.value.0)) else None
    else
      var r := ScalarEnd(s, i);
      if r.Some? then Some(Tree(i, r.value, name, [])) else None
  }

  /** Where the value of the member that starts at i does, where its name does, in an object, and the names with it. */
  function Head(s: Bytes, decode: Bytes -> Bytes, i: nat, close: byte,
      names: set<Bytes>): (r: Option<(nat, nat, set<Bytes>)>)
    requires i <= |s|
    ensures r.Some? ==> i <= r.value.0 <= |s|
  {
    if close != OBJECT + 2 then Some((i, 0, names))
    else
      var m := MemberName(s, i);
      if m.None? || decode(s[i..m.value.0]) in names then None
      else Some((m.value.1, i, names + {decode(s[i..m.value.0])}))
  }

  /** The members from i on of a container that close closes, none of an object's named as one before, and its end. */
  function ReadMembers(s: Bytes, decode: Bytes -> Bytes, i: nat, close: byte, depth: nat, first: bool,
      names: set<Bytes>): (r: Option<(seq<Tree>, nat)>)
    requires i <= |s|
    ensures r.Some? ==> i < r.value.1 <= |s|
    decreases |s| - i, 2
  {
    var j := Space(s, i);
    if first && j < |s| && s[j] == close then Some(([], j + 1))
    else
      var h := Head(s, decode, j, close, names);
      if h.None? then None else ReadMember(s, decode, h.value.0, h.value.1, close, depth, h.value.2)
  }

  /** The same from a member's value on. */
  function ReadMember(s: Bytes, decode: Bytes -> Bytes, i: nat, name: nat, close: byte, depth: nat,
      names: set<Bytes>): (r: Option<(seq<Tree>, nat)>)
    requires i <= |s|
    ensures r.Some? ==> i < r.value.1 <= |s|
    decreases |s| - i, 1
  {
    var v := Read(s, decode, i, depth + 1, name);
    if v.None? then None
    else
      var k := Space(s, v.value.stop);
      if k < |s| && s[k] == close then Some(([v.value], k + 1))
      else if k == |s| || s[k] != COMMA then None
      else
        var r := ReadMembers(s, decode, k + 1, close, depth, false, names);
        if r.Some? then Some(([v.value] + r.value.0, r.value.1)) else None
  }

  lemma MembersAre(s: Bytes, decode: Bytes -> Bytes, i: nat, close: byte, depth: nat, first: bool, names: set<Bytes>)
    requires i <= |s|
    ensures var j, h := Space(s, i), Head(s, decode, Space(s, i), close, names);
      ReadMembers(s, decode, i, close, depth, first, names) ==
        if first && j < |s| && s[j] == close then Some(([], j + 1))
        else if h.None? then None
        else ReadMember(s, decode, h.value.0, h.value.1, close, depth, h.value.2)
  {
    hide Space, Head, ReadMember;
  }

  lemma MemberIs(s: Bytes, decode: Bytes -> Bytes, i: nat, name: nat, close: byte, depth: nat, names: set<Bytes>)
    requires i <= |s|
    ensures ReadMember(s, decode, i, name, close, depth, names) ==
      var v := Read(s, decode, i, depth + 1, name);
      if v.None? then None
      else
        var k := Space(s, v.value.stop);
        if k < |s| && s[k] == close then Some(([v.value], k + 1))
        else if k == |s| || s[k] != COMMA then None
        else
          var r := ReadMembers(s, decode, k + 1, close, depth, false, names);
          if r.Some? then Some(([v.value] + r.value.0, r.value.1)) else None
  {
    hide Space, Read, ReadMembers;
  }

  /** The value a whole text is. */
  function Parse(s: Bytes, decode: Bytes -> Bytes): Option<Tree> {
    var r := Read(s, decode, Space(s, 0), 1, 0);
    if r.Some? && Space(s, r.value.stop) == |s| then r else None
  }

  // The values of a text, each before its members.

  datatype Node = Node(start: nat, next: nat, name: nat)

  function Size(t: Tree): (n: nat)
    ensures n > 0
    decreases t
  {
    1 + SizeAll(t.kids)
  }

  function SizeAll(ts: seq<Tree>): nat
    decreases ts
  {
    if ts == [] then 0 else Size(ts[0]) + SizeAll(ts[1..])
  }

  function Flatten(t: Tree, at: nat): (ns: seq<Node>)
    ensures |ns| == Size(t)
    decreases t
  {
    [Node(t.start, at + Size(t), t.name)] + FlattenAll(t.kids, at + 1)
  }

  function FlattenAll(ts: seq<Tree>, at: nat): (ns: seq<Node>)
    ensures |ns| == SizeAll(ts)
    decreases ts
  {
    if ts == [] then [] else Flatten(ts[0], at) + FlattenAll(ts[1..], at + Size(ts[0]))
  }

  lemma FlattenNone(at: nat)
    ensures FlattenAll([], at) == []
  {
  }

  lemma FlattenCons(t: Tree, ts: seq<Tree>, at: nat)
    ensures FlattenAll([t] + ts, at) == Flatten(t, at) + FlattenAll(ts, at + Size(t))
    ensures SizeAll([t] + ts) == Size(t) + SizeAll(ts)
  {
    hide Flatten, Size;
    Sequences.Rest(t, ts);
  }

  lemma {:induction false} FlattenAppend(ts: seq<Tree>, t: Tree, at: nat)
    ensures FlattenAll(ts + [t], at) == FlattenAll(ts, at) + Flatten(t, at + SizeAll(ts))
    decreases |ts|
  {
    hide Flatten, FlattenAll, Size;
    if ts == [] {
      Sequences.Nothing([t]);
      FlattenNone(at);
      FlattenNone(at + Size(t));
      FlattenCons(t, [], at);
      Sequences.Nothing(Flatten(t, at));
    } else {
      Sequences.Whole(ts);
      Sequences.Group([ts[0]], ts[1..], [t]);
      FlattenCons(ts[0], ts[1..] + [t], at);
      FlattenCons(ts[0], ts[1..], at);
      FlattenAppend(ts[1..], t, at + Size(ts[0]));
      Sequences.Group(Flatten(ts[0], at), FlattenAll(ts[1..], at + Size(ts[0])), Flatten(t, at + SizeAll(ts)));
    }
  }

  // Which strings, names or values, have a backslash in them, in the order of the text.

  predicate Escaped(s: Bytes, q: nat) {
    q < |s| && Inside(s, q + 1).Some? && Inside(s, q + 1).value.1
  }

  function Noted(s: Bytes, q: nat): seq<nat> {
    if Escaped(s, q) then [q] else []
  }

  /** Those of a value; of its members, where named, each name before its value. */
  function Escapes(s: Bytes, t: Tree): seq<nat>
    decreases t
  {
    if t.start < |s| && Opens(s[t.start]) then EscapesAll(s, t.kids, s[t.start] == OBJECT)
    else if t.start < |s| && s[t.start] == QUOTE then Noted(s, t.start)
    else []
  }

  function EscapesAll(s: Bytes, ts: seq<Tree>, named: bool): seq<nat>
    decreases ts
  {
    if ts == [] then []
      else (if named then Noted(s, ts[0].name) else []) + Escapes(s, ts[0]) + EscapesAll(s, ts[1..], named)
  }
}
