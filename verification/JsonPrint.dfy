/** JSON printed is read back as it was, if it nests no deeper than a document may. */
module JsonPrint {
  import opened Wrappers
  import opened Ascii
  import opened JsonText
  import opened JsonTree

  /** A value: a scalar as written, or a container's members, named, as written, if it is an object. */
  datatype Json = Scalar(text: Bytes) | Container(keyed: bool, members: seq<Member>)
  datatype Member = Member(name: Bytes, value: Json)

  function Close(keyed: bool): byte {
    if keyed then OBJECT + 2 else ARRAY + 2
  }

  function Print(v: Json): Bytes
    decreases v
  {
    match v
    case Scalar(text) => text
    case Container(keyed, members) =>
      [if keyed then OBJECT else ARRAY] + if members == [] then [Close(keyed)] else PrintAll(members, keyed)
  }

  function PrintAll(ms: seq<Member>, keyed: bool): Bytes
    requires ms != []
    decreases ms, 1
  {
    (if keyed then ms[0].name + [COLON] else []) + (Print(ms[0].value) + After(ms, keyed))
  }

  /** What follows the first of members: those after it, or the bracket. */
  function After(ms: seq<Member>, keyed: bool): Bytes
    requires ms != []
    decreases ms, 0
  {
    if |ms| == 1 then [Close(keyed)] else [COMMA] + PrintAll(ms[1..], keyed)
  }

  function Levels(v: Json): (n: nat)
    ensures n > 0
    decreases v
  {
    match v
    case Scalar(_) => 1
    case Container(_, members) => 1 + LevelsAll(members)
  }

  function LevelsAll(ms: seq<Member>): nat
    decreases ms
  {
    if ms == [] then 0
    else if Levels(ms[0].value) > LevelsAll(ms[1..]) then Levels(ms[0].value) else LevelsAll(ms[1..])
  }

  predicate Quoted(name: Bytes) {
    name != [] && name[0] == QUOTE && Inside(name, 1).Some? && Inside(name, 1).value.0 == |name|
  }

  /** Its scalars are JSON's, and no object names two members alike. */
  predicate Well(decode: Bytes -> Bytes, v: Json)
    decreases v
  {
    match v
    case Scalar(text) => text != [] && !Opens(text[0]) && ScalarEnd(text, 0) == Some(|text|)
    case Container(keyed, members) => WellAll(decode, members, keyed, {})
  }

  predicate WellAll(decode: Bytes -> Bytes, ms: seq<Member>, keyed: bool, names: set<Bytes>)
    decreases ms
  {
    ms != [] ==>
      && Well(decode, ms[0].value)
      && (if keyed then Quoted(ms[0].name) && decode(ms[0].name) !in names else ms[0].name == [])
      && WellAll(decode, ms[1..], keyed, if keyed then names + {decode(ms[0].name)} else names)
  }

  /** The value that lies in s as t. */
  function Back(s: Bytes, t: Tree): Json
    requires Lies(s, t)
    decreases t
  {
    if Opens(s[t.start]) then Container(s[t.start] == OBJECT, BackAll(s, t.kids, s[t.start] == OBJECT))
    else Scalar(s[t.start..t.stop])
  }

  function BackAll(s: Bytes, ts: seq<Tree>, keyed: bool): seq<Member>
    requires LiesAll(s, ts)
    decreases ts
  {
    if ts == [] then []
    else [Member(if keyed then NameOf(s, ts[0].name) else [], Back(s, ts[0]))] + BackAll(s, ts[1..], keyed)
  }

  /** Where a printed value and its members lie, printed at i. */
  function TreeOf(v: Json, i: nat, name: nat): Tree
    decreases v
  {
    Tree(i, i + |Print(v)|, name, if v.Container? then TreeOfAll(v.members, i + 1, v.keyed) else [])
  }

  function NameLength(m: Member, keyed: bool): nat {
    if keyed then |m.name| + 1 else 0
  }

  function TreeOfAll(ms: seq<Member>, i: nat, keyed: bool): seq<Tree>
    decreases ms
  {
    if ms == [] then []
    else
      var j := i + NameLength(ms[0], keyed);
      [TreeOf(ms[0].value, j, if keyed then i else 0)] + TreeOfAll(ms[1..], j + |Print(ms[0].value)| + 1, keyed)
  }

  // What scans alike in another text.

  predicate Has(s: Bytes, d: nat, a: Bytes) {
    d + |a| <= |s| && s[d..d + |a|] == a
  }

  lemma HasByte(s: Bytes, d: nat, a: Bytes, k: nat)
    requires Has(s, d, a) && k < |a|
    ensures s[d + k] == a[k]
  {
    assert s[d..d + |a|][k] == a[k];
  }

  lemma HasParts(s: Bytes, d: nat, a: Bytes, b: Bytes)
    requires Has(s, d, a + b)
    ensures Has(s, d, a) && Has(s, d + |a|, b)
  {
    assert s[d..d + |a|] == s[d..d + |a + b|][..|a|];
    assert s[d + |a|..d + |a| + |b|] == s[d..d + |a + b|][|a|..];
  }

  lemma {:induction false} InsideShift(a: Bytes, s: Bytes, d: nat, k: nat)
    requires Has(s, d, a) && k <= |a| && Inside(a, k).Some?
    ensures Inside(s, d + k) == Some((d + Inside(a, k).value.0, Inside(a, k).value.1))
    decreases |a| - k
  {
    HasByte(s, d, a, k);
    if a[k] != QUOTE {
      if a[k] == BACKSLASH {
        EscapeShift(a, s, d, k);
        InsideShift(a, s, d, k + EscapeLength(a, k));
      } else {
        InsideShift(a, s, d, k + 1);
      }
    }
  }

  lemma EscapeShift(a: Bytes, s: Bytes, d: nat, k: nat)
    requires Has(s, d, a) && k < |a| && EscapeLength(a, k) > 0
    ensures EscapeLength(s, d + k) == EscapeLength(a, k) && k + EscapeLength(a, k) <= |a|
  {
    forall j | k <= j < k + EscapeLength(a, k) ensures s[d + j] == a[j] {
      HasByte(s, d, a, j);
    }
  }

  lemma {:induction false} DigitsShift(a: Bytes, s: Bytes, d: nat, k: nat)
    requires Has(s, d, a) && k <= |a| && Followed(s, d + |a|)
    ensures Digits(s, d + k) == d + Digits(a, k)
    decreases |a| - k
  {
    if k < |a| {
      HasByte(s, d, a, k);
      if Digit(a[k]) {
        DigitsShift(a, s, d, k + 1);
      }
    }
  }

  lemma NumberShift(a: Bytes, s: Bytes, d: nat)
    requires Has(s, d, a) && a != [] && Followed(s, d + |a|) && (a[0] == MINUS || Digit(a[0])) &&
      NumberEnd(a, 0) == Some(|a|)
    ensures s[d] == a[0] && NumberEnd(s, d) == Some(d + |a|)
  {
    hide Digits, Fraction;
    HasByte(s, d, a, 0);
    var k := if a[0] == MINUS then 1 else 0;
    DigitsShift(a, s, d, k);
    if k < |a| {
      HasByte(s, d, a, k);
    }
    FractionShift(a, s, d, if k < |a| && a[k] == 48 then k + 1 else Digits(a, k));
  }

  lemma FractionShift(a: Bytes, s: Bytes, d: nat, b: nat)
    requires Has(s, d, a) && b <= |a| && Followed(s, d + |a|) && Fraction(a, b) == Some(|a|)
    ensures Fraction(s, d + b) == Some(d + |a|)
  {
    hide Digits, Exponent;
    if b < |a| {
      HasByte(s, d, a, b);
      if a[b] == DOT {
        DigitsShift(a, s, d, b + 1);
      }
    }
    ExponentShift(a, s, d, if b < |a| && a[b] == DOT then Digits(a, b + 1) else b);
  }

  lemma ExponentShift(a: Bytes, s: Bytes, d: nat, c: nat)
    requires Has(s, d, a) && c <= |a| && Followed(s, d + |a|) && Exponent(a, c) == Some(|a|)
    ensures Exponent(s, d + c) == Some(d + |a|)
  {
    hide Digits;
    if c < |a| {
      HasByte(s, d, a, c);
      if c + 1 < |a| {
        HasByte(s, d, a, c + 1);
        DigitsShift(a, s, d, c + 1);
        if c + 2 <= |a| {
          DigitsShift(a, s, d, c + 2);
        }
      }
    }
  }

  lemma ScalarShift(a: Bytes, s: Bytes, d: nat)
    requires Has(s, d, a) && a != [] && Followed(s, d + |a|) && ScalarEnd(a, 0) == Some(|a|)
    ensures s[d] == a[0] && ScalarEnd(s, d) == Some(d + |a|)
  {
    hide Inside, NumberEnd, Followed;
    HasByte(s, d, a, 0);
    if a[0] == QUOTE {
      InsideShift(a, s, d, 1);
    } else if a[0] == MINUS || Digit(a[0]) {
      NumberShift(a, s, d);
    } else {
      LiteralShift(a, s, d);
    }
  }

  lemma LiteralShift(a: Bytes, s: Bytes, d: nat)
    requires Has(s, d, a) && (a == TRUE || a == NULL || a == FALSE)
    ensures StartsWith(s, d, a) && (a == FALSE ==> !StartsWith(s, d, TRUE) && !StartsWith(s, d, NULL))
  {
    assert s[d..][..|a|] == s[d..d + |a|];
    assert s[d..][0] == a[0];
  }

  lemma NotWhite(s: Bytes, i: nat)
    requires i < |s| && !White(s[i])
    ensures Space(s, i) == i
  {
  }

  lemma {:induction false} PrintStarts(decode: Bytes -> Bytes, v: Json)
    requires Well(decode, v)
    ensures Print(v) != [] && !White(Print(v)[0]) && Print(v)[0] != ARRAY + 2
    ensures Opens(Print(v)[0]) <==> v.Container?
  {
    if v.Scalar? {
      assert ScalarEnd(v.text, 0).Some?;
    }
  }

  lemma NameBytes(name: Bytes, s: Bytes, d: nat, rest: Bytes)
    requires name != [] && Has(s, d, name + [COLON] + rest) && rest != []
    ensures Has(s, d, name) && d + |name| + 1 < |s| && s[d] == name[0] && s[d + |name|] == COLON &&
      s[d + |name| + 1] == rest[0]
  {
    HasParts(s, d, name + [COLON], rest);
    HasParts(s, d, name, [COLON]);
    HasByte(s, d, name, 0);
    HasByte(s, d + |name|, [COLON], 0);
    HasByte(s, d + |name| + 1, rest, 0);
  }

  /** A quoted name, a colon after it. */
  lemma NameShift(name: Bytes, s: Bytes, d: nat, rest: Bytes)
    requires Quoted(name) && Has(s, d, name + [COLON] + rest) && rest != [] && !White(rest[0])
    ensures MemberName(s, d) == Some((d + |name|, d + |name| + 1)) && s[d..d + |name|] == name
    ensures NameOf(s, d) == name && s[d] == QUOTE
  {
    hide Inside;
    NameBytes(name, s, d, rest);
    InsideShift(name, s, d, 1);
    NotWhite(s, d + |name|);
    NotWhite(s, d + |name| + 1);
  }

  /** Members are read up to stop, within the limit, and then as they were. */
  ghost predicate Returns(s: Bytes, r: Option<(seq<Tree>, nat)>, ms: seq<Member>, keyed: bool, depth: nat, from: nat,
      stop: nat) {
    && (r.Some? <==> depth + LevelsAll(ms) <= MAX_DEPTH)
    && (r.Some? ==>
       r.value == (TreeOfAll(ms, from, keyed), stop) && LiesAll(s, r.value.0) && BackAll(s, r.value.0, keyed) == ms)
  }

  /** Printed, a value is read if it nests within the limit, and then as it was. */
  lemma {:induction false} ValueReads(s: Bytes, decode: Bytes -> Bytes, v: Json, i: nat, depth: nat, name: nat)
    requires Well(decode, v) && Has(s, i, Print(v)) && Followed(s, i + |Print(v)|) && depth <= MAX_DEPTH + 1
    ensures Read(s, decode, i, depth, name).Some? <==> depth + Levels(v) <= MAX_DEPTH + 1
    ensures Read(s, decode, i, depth, name).Some? ==>
      var t := Read(s, decode, i, depth, name).value;
      t == TreeOf(v, i, name) && Lies(s, t) && Back(s, t) == v
    decreases v, 0
  {
    hide ScalarEnd, Lies, Back, ReadMembers, PrintAll, Followed, WellAll;
    PrintStarts(decode, v);
    HasByte(s, i, Print(v), 0);
    if Read(s, decode, i, depth, name).Some? {
      ReadLies(s, decode, i, depth, name);
    }
    if depth <= MAX_DEPTH {
      match v
      case Scalar(text) =>
        ScalarReads(s, decode, text, i, depth, name);
      case Container(keyed, members) =>
        HasParts(s, i, [if keyed then OBJECT else ARRAY], Print(v)[1..]);
        assert Print(v) == [if keyed then OBJECT else ARRAY] + Print(v)[1..];
        if members == [] {
          EmptyReads(s, decode, i + 1, Close(keyed), depth);
        } else {
          assert Print(v)[1..] == PrintAll(members, keyed);
          MembersRead(s, decode, members, keyed, i + 1, depth, true, {});
        }
        assert i + |Print(v)| == i + 1 + |Print(v)[1..]|;
        ContainerBack(s, decode, v, i, depth, name);
    }
  }

  lemma ScalarReads(s: Bytes, decode: Bytes -> Bytes, text: Bytes, i: nat, depth: nat, name: nat)
    requires Well(decode, Scalar(text)) && Has(s, i, text) && Followed(s, i + |text|) && i < |s| && s[i] == text[0]
    requires depth <= MAX_DEPTH
    ensures Read(s, decode, i, depth, name) == Some(TreeOf(Scalar(text), i, name))
    ensures Back(s, TreeOf(Scalar(text), i, name)) == Scalar(text)
  {
    hide ScalarEnd, Followed;
    ScalarShift(text, s, i);
  }

  lemma EmptyReads(s: Bytes, decode: Bytes -> Bytes, i: nat, close: byte, depth: nat)
    requires Has(s, i, [close]) && !White(close)
    ensures ReadMembers(s, decode, i, close, depth, true, {}) == Some(([], i + 1))
  {
    HasByte(s, i, [close], 0);
    NotWhite(s, i);
  }

  lemma ContainerBack(s: Bytes, decode: Bytes -> Bytes, v: Json, i: nat, depth: nat, name: nat)
    requires i < |s| && v.Container? && s[i] == (if v.keyed then OBJECT else ARRAY) && depth <= MAX_DEPTH
    requires var r := ReadMembers(s, decode, i + 1, Close(v.keyed), depth, true, {});
      r.Some? ==> LiesAll(s, r.value.0) && BackAll(s, r.value.0, v.keyed) == v.members
    requires var r := ReadMembers(s, decode, i + 1, Close(v.keyed), depth, true, {});
      r.Some? ==> r.value == (TreeOfAll(v.members, i + 1, v.keyed), i + |Print(v)|)
    ensures var r := ReadMembers(s, decode, i + 1, Close(v.keyed), depth, true, {});
      Read(s, decode, i, depth, name) == if r.Some? then Some(Tree(i, r.value.1, name, r.value.0)) else None
    ensures var r := Read(s, decode, i, depth, name);
      r.Some? && Lies(s, r.value) ==> Back(s, r.value) == v && r.value == TreeOf(v, i, name)
  {
    hide ReadMembers, BackAll, LiesAll;
  }

  lemma {:induction false} MembersRead(s: Bytes, decode: Bytes -> Bytes, ms: seq<Member>, keyed: bool, i: nat,
      depth: nat, first: bool, names: set<Bytes>)
    requires ms != [] && WellAll(decode, ms, keyed, names) && Has(s, i, PrintAll(ms, keyed)) && depth <= MAX_DEPTH
    ensures Returns(s, ReadMembers(s, decode, i, Close(keyed), depth, first, names), ms, keyed, depth, i,
      i + |PrintAll(ms, keyed)|)
    decreases ms, 1
  {
    hide ScalarEnd, Lies, Read, ReadMembers, ReadMember, Print, Back, Followed, Head, LevelsAll, Well, WellAll,
      Quoted, LiesAll, BackAll, PrintAll, Returns, After;
    WellCons(decode, ms, keyed, names);
    var m := ms[0];
    var name := if keyed then m.name + [COLON] else [];
    var more := After(ms, keyed);
    PrintCons(ms, keyed);
    PrintStarts(decode, m.value);
    HeadReads(s, decode, m, keyed, i, names, more);
    HasParts(s, i, name, Print(m.value) + more);
    MembersAre(s, decode, i, Close(keyed), depth, first, names);
    var (j, at, seen) := (i + |name|, if keyed then i else 0, if keyed then names + {decode(m.name)} else names);
    assert ReadMembers(s, decode, i, Close(keyed), depth, first, names) ==
      ReadMember(s, decode, j, at, Close(keyed), depth, seen);
    assert |PrintAll(ms, keyed)| == |name| + |Print(m.value)| + |After(ms, keyed)|;
    MemberReads(s, decode, ms, keyed, j, at, depth, seen);
  }

  lemma WellCons(decode: Bytes -> Bytes, ms: seq<Member>, keyed: bool, names: set<Bytes>)
    requires ms != [] && WellAll(decode, ms, keyed, names)
    ensures Well(decode, ms[0].value)
    ensures if keyed then Quoted(ms[0].name) && decode(ms[0].name) !in names else ms[0].name == []
    ensures WellAll(decode, ms[1..], keyed, if keyed then names + {decode(ms[0].name)} else names)
  {
  }

  lemma PrintCons(ms: seq<Member>, keyed: bool)
    requires ms != []
    ensures PrintAll(ms, keyed) == (if keyed then ms[0].name + [COLON] else [])
      + (Print(ms[0].value) + After(ms, keyed))
  {
    hide Print;
  }

  lemma AfterMore(ms: seq<Member>, keyed: bool)
    requires |ms| > 1
    ensures After(ms, keyed) == [COMMA] + PrintAll(ms[1..], keyed)
  {
  }

  lemma LevelsCons(ms: seq<Member>)
    requires ms != []
    ensures var first, more := Levels(ms[0].value), LevelsAll(ms[1..]);
      LevelsAll(ms) == if |ms| == 1 || first > more then first else more
  {
    hide Levels;
    if |ms| == 1 {
      assert LevelsAll(ms[1..]) == 0;
    }
  }

  lemma HeadReads(s: Bytes, decode: Bytes -> Bytes, m: Member, keyed: bool, i: nat, names: set<Bytes>, more: Bytes)
    requires Print(m.value) != [] && !White(Print(m.value)[0]) && Print(m.value)[0] != ARRAY + 2
    requires if keyed then Quoted(m.name) && decode(m.name) !in names else m.name == []
    requires Has(s, i, (if keyed then m.name + [COLON] else []) + (Print(m.value) + more))
    ensures var n := if keyed then |m.name| + 1 else 0;
      Head(s, decode, i, Close(keyed), names) ==
        Some((i + n, if keyed then i else 0, if keyed then names + {decode(m.name)} else names))
    ensures Space(s, i) == i && i < |s| && s[i] != Close(keyed)
    ensures keyed ==> NameOf(s, i) == m.name
  {
    hide Inside, Print, MemberName, NameOf, Quoted, Has, Space;
    var rest := Print(m.value) + more;
    if keyed {
      NameShift(m.name, s, i, rest);
    } else {
      PlainStart(s, i, rest);
    }
    NotWhite(s, i);
  }

  lemma PlainStart(s: Bytes, i: nat, rest: Bytes)
    requires rest != [] && Has(s, i, [] + rest)
    ensures i < |s| && s[i] == rest[0]
  {
    assert [] + rest == rest;
    HasByte(s, i, rest, 0);
  }

  lemma TreeName(v: Json, i: nat, name: nat)
    ensures TreeOf(v, i, name).name == name && TreeOf(v, i, name).start == i
  {
  }

  /** A member read, and those after it, in what follows. */
  lemma MoreReturns(s: Bytes, t: Option<Tree>, r: Option<(seq<Tree>, nat)>, ms: seq<Member>, keyed: bool, depth: nat,
      i: nat, name: nat, stop: nat)
    requires ms != [] && (t.Some? <==> depth + Levels(ms[0].value) <= MAX_DEPTH)
    requires t.Some? ==> Lies(s, t.value) && Followed(s, t.value.stop) && Back(s, t.value) == ms[0].value
    requires t.Some? ==> t.value == TreeOf(ms[0].value, i, name)
    requires if keyed then name + |ms[0].name| + 1 == i else name == 0
    requires ms[0].name == if keyed then NameOf(s, name) else []
    requires if |ms| == 1 then r == Some(([], stop))
      else Returns(s, r, ms[1..], keyed, depth, i + |Print(ms[0].value)| + 1, stop)
    ensures var all := if t.None? || r.None? then None else Some(([t.value] + r.value.0, r.value.1));
      Returns(s, all, ms, keyed, depth, if keyed then name else i, stop)
  {
    hide Lies, Back, NameOf, LiesAll, BackAll, Levels, LevelsAll, TreeOf, Print;
    LevelsCons(ms);
    NoMembers(s, keyed);
    assert TreeOfAll([], i + |Print(ms[0].value)| + 1, keyed) == [];
    if t.Some? && r.Some? {
      BackCons(s, t.value, r.value.0, keyed);
      assert ms == [ms[0]] + ms[1..];
      TreeName(ms[0].value, i, name);
    }
  }

  lemma {:induction false} ValueThen(s: Bytes, decode: Bytes -> Bytes, v: Json, more: Bytes, i: nat, depth: nat,
      name: nat)
    requires Well(decode, v) && Has(s, i, Print(v) + more) && depth <= MAX_DEPTH + 1
    requires more != [] && (more[0] == COMMA || more[0] == OBJECT + 2 || more[0] == ARRAY + 2)
    ensures var k := i + |Print(v)|;
      k < |s| && Has(s, k, more) && s[k] == more[0] && Space(s, k) == k && Followed(s, k)
    ensures Read(s, decode, i, depth, name).Some? <==> depth + Levels(v) <= MAX_DEPTH + 1
    ensures Read(s, decode, i, depth, name).Some? ==>
      var t := Read(s, decode, i, depth, name).value;
      t == TreeOf(v, i, name) && Lies(s, t) && Back(s, t) == v
    decreases v, 1
  {
    hide Well, Print, Read, Lies, Back, Levels, TreeOfAll;
    HasParts(s, i, Print(v), more);
    HasByte(s, i + |Print(v)|, more, 0);
    NotWhite(s, i + |Print(v)|);
    ValueReads(s, decode, v, i, depth, name);
  }

  lemma {:induction false} MemberReads(s: Bytes, decode: Bytes -> Bytes, ms: seq<Member>, keyed: bool, i: nat,
      name: nat, depth: nat, names: set<Bytes>)
    requires ms != [] && Well(decode, ms[0].value) && WellAll(decode, ms[1..], keyed, names) && depth <= MAX_DEPTH
    requires ms[0].name == if keyed then NameOf(s, name) else []
    requires if keyed then name + |ms[0].name| + 1 == i else name == 0
    requires Has(s, i, Print(ms[0].value) + After(ms, keyed))
    ensures Returns(s, ReadMember(s, decode, i, name, Close(keyed), depth, names), ms, keyed, depth,
      if keyed then name else i, i + |Print(ms[0].value)| + |After(ms, keyed)|)
    decreases ms, 0
  {
    hide ScalarEnd, Lies, Read, ReadMembers, ReadMember, Print, Back, NameOf, LiesAll, BackAll, Well, WellAll,
      PrintAll, Levels, LevelsAll, Returns, Followed, Space, Has, TreeOfAll;
    var v := ms[0].value;
    ValueThen(s, decode, v, After(ms, keyed), i, depth + 1, name);
    MemberIs(s, decode, i, name, Close(keyed), depth, names);
    var t := Read(s, decode, i, depth + 1, name);
    if |ms| == 1 {
      MoreReturns(s, t, Some(([], i + |Print(v)| + 1)), ms, keyed, depth, i, name, i + |Print(v)| + 1);
      if t.Some? {
        assert [t.value] + [] == [t.value];
      }
    } else {
      HasParts(s, i + |Print(v)|, [COMMA], PrintAll(ms[1..], keyed));
      MembersRead(s, decode, ms[1..], keyed, i + |Print(v)| + 1, depth, false, names);
      var r := ReadMembers(s, decode, i + |Print(v)| + 1, Close(keyed), depth, false, names);
      MoreReturns(s, t, r, ms, keyed, depth, i, name, i + |Print(v)| + 1 + |PrintAll(ms[1..], keyed)|);
    }
  }

  lemma NoMembers(s: Bytes, keyed: bool)
    ensures LiesAll(s, []) && BackAll(s, [], keyed) == []
  {
  }

  lemma BackCons(s: Bytes, t: Tree, ts: seq<Tree>, keyed: bool)
    requires Lies(s, t) && Followed(s, t.stop) && LiesAll(s, ts)
    ensures LiesAll(s, [t] + ts)
    ensures BackAll(s, [t] + ts, keyed) ==
      [Member(if keyed then NameOf(s, t.name) else [], Back(s, t))] + BackAll(s, ts, keyed)
  {
    hide Lies, Back, NameOf;
    assert ([t] + ts)[1..] == ts;
  }

  /** A printed value is a document, if it nests no more than 1,000 levels, and what is read is that value. */
  lemma PrintReads(decode: Bytes -> Bytes, v: Json)
    requires Well(decode, v)
    ensures Parse(Print(v), decode).Some? <==> Levels(v) <= MAX_DEPTH
    ensures Parse(Print(v), decode).Some? ==>
      var t := Parse(Print(v), decode).value; t == TreeOf(v, 0, 0) && Lies(Print(v), t) && Back(Print(v), t) == v
  {
    hide Lies, Read, Well, Back, TreeOfAll;
    var s := Print(v);
    PrintStarts(decode, v);
    NotWhite(s, 0);
    assert s[0..|s|] == s;
    ValueReads(s, decode, v, 0, 1, 0);
  }
}
