/** JSON texts as their grammar writes them (section 2 of RFC 8259), white space anywhere it may be: just
    what is read. */
module JsonGrammar {
  import opened Wrappers
  import opened Ascii
  import opened JsonText
  import opened JsonPrint
  import opened JsonScalars
  import JsonTree
  import JsonNumbers
  import Sequences

  /** A value: a scalar, or a container of members, or else of blank space. A member has space before its name or value,
      in an object a name, and space around its colon, and space after its value. */
  datatype Value = Scalar(text: Bytes) | Container(keyed: bool, blank: Bytes, members: seq<Member>)
  datatype Member = Member(before: Bytes, name: Bytes, mid: Bytes, past: Bytes, value: Value, after: Bytes)

  function Text(v: Value): Bytes
    decreases v
  {
    match v
    case Scalar(text) => text
    case Container(keyed, blank, ms) =>
      if ms == [] then [if keyed then 123 else 91] + blank + [if keyed then 125 else 93]
      else [if keyed then 123 else 91] + MembersText(ms, keyed)
  }

  function MembersText(ms: seq<Member>, keyed: bool): Bytes
    requires ms != []
    decreases ms
  {
    MemberStart(ms[0], keyed) + (Text(ms[0].value) + (ms[0].after +
      if |ms| == 1 then [if keyed then 125 else 93] else [44] + MembersText(ms[1..], keyed)))
  }

  function MemberStart(m: Member, keyed: bool): Bytes {
    m.before + if keyed then m.name + m.mid + [58] + m.past else []
  }

  predicate Spaces(s: Bytes) {
    forall i :: 0 <= i < |s| ==> s[i] in {9, 10, 13, 32}
  }

  ghost predicate Good(v: Value)
    decreases v
  {
    match v
    case Scalar(text) => IsScalar(text)
    case Container(keyed, blank, ms) =>
      Spaces(blank) && forall i :: 0 <= i < |ms| ==> MemberGood(ms[i], keyed) && Good(ms[i].value)
  }

  ghost predicate MemberGood(m: Member, keyed: bool) {
    Spaces(m.before) && Spaces(m.mid) && Spaces(m.past) && Spaces(m.after) && (keyed ==> IsString(m.name))
  }

  function Levels(v: Value): (n: nat)
    ensures n > 0
    decreases v
  {
    if v.Container? then 1 + LevelsAll(v.members) else 1
  }

  function LevelsAll(ms: seq<Member>): nat
    decreases ms
  {
    if ms == [] then 0
    else if Levels(ms[0].value) > LevelsAll(ms[1..]) then Levels(ms[0].value) else LevelsAll(ms[1..])
  }

  /** No object has two members of one name. */
  predicate Distinct(decode: Bytes -> Bytes, v: Value)
    decreases v
  {
    v.Container? ==>
      && (v.keyed ==> forall i, j :: 0 <= i < j < |v.members| ==>
         decode(v.members[i].name) != decode(v.members[j].name))
      && forall i :: 0 <= i < |v.members| ==> Distinct(decode, v.members[i].value)
  }

  /** A JSON text: a value, and space around it. */
  ghost predicate Writes(s: Bytes, a: Bytes, v: Value, b: Bytes) {
    Spaces(a) && Good(v) && Spaces(b) && s == a + Text(v) + b
  }

  ghost predicate IsJson(s: Bytes) {
    exists a, v, b :: Writes(s, a, v, b)
  }

  /** A document's text: one nested no deeper than 1,000 levels, without repeated names. */
  ghost predicate IsDocument(decode: Bytes -> Bytes, s: Bytes) {
    exists a, v, b :: Writes(s, a, v, b) && Levels(v) <= 1_000 && Distinct(decode, v)
  }

  // As the reader takes them, one member after another.

  ghost predicate GoodAll(ms: seq<Member>, keyed: bool)
    decreases ms
  {
    ms == [] || (MemberGood(ms[0], keyed) && Good(ms[0].value) && GoodAll(ms[1..], keyed))
  }

  predicate Accepts(decode: Bytes -> Bytes, v: Value, depth: nat)
    decreases v
  {
    depth <= MAX_DEPTH && (v.Container? ==> AcceptsAll(decode, v.members, v.keyed, depth, {}))
  }

  predicate AcceptsAll(decode: Bytes -> Bytes, ms: seq<Member>, keyed: bool, depth: nat, names: set<Bytes>)
    decreases ms
  {
    ms == [] ||
    ((keyed ==> decode(ms[0].name) !in names) && Accepts(decode, ms[0].value, depth + 1) &&
     AcceptsAll(decode, ms[1..], keyed, depth, if keyed then names + {decode(ms[0].name)} else names))
  }

  lemma {:induction false} GoodEach(ms: seq<Member>, keyed: bool)
    ensures GoodAll(ms, keyed) <==> forall i :: 0 <= i < |ms| ==> MemberGood(ms[i], keyed) && Good(ms[i].value)
    decreases |ms|
  {
    hide Good, MemberGood;
    if ms != [] {
      GoodEach(ms[1..], keyed);
      assert forall i :: 0 < i < |ms| ==> ms[i] == ms[1..][i - 1];
      assert forall i :: 0 <= i < |ms[1..]| ==> ms[1..][i] == ms[i + 1];
    }
  }

  lemma {:induction false} AcceptsIs(decode: Bytes -> Bytes, v: Value, depth: nat)
    ensures Accepts(decode, v, depth) <==> depth + Levels(v) <= MAX_DEPTH + 1 && Distinct(decode, v)
    decreases v
  {
    hide AcceptsAll, LevelsAll;
    if v.Container? && depth <= MAX_DEPTH {
      AcceptsEach(decode, v.members, v.keyed, depth, {});
    }
  }

  /** Each is distinct, and named as none of names and no other. */
  ghost predicate Apart(decode: Bytes -> Bytes, ms: seq<Member>, keyed: bool, names: set<Bytes>) {
    && (keyed ==> forall i :: 0 <= i < |ms| ==> decode(ms[i].name) !in names)
    && (keyed ==> forall i, j :: 0 <= i < j < |ms| ==> decode(ms[i].name) != decode(ms[j].name))
    && forall i :: 0 <= i < |ms| ==> Distinct(decode, ms[i].value)
  }

  lemma ApartFirst(decode: Bytes -> Bytes, ms: seq<Member>, keyed: bool, names: set<Bytes>)
    requires ms != []
    ensures Apart(decode, ms, keyed, names) <==>
      (keyed ==> decode(ms[0].name) !in names) && Distinct(decode, ms[0].value) &&
      Apart(decode, ms[1..], keyed, if keyed then names + {decode(ms[0].name)} else names)
  {
    hide Distinct;
    var more := ms[1..];
    assert forall i :: 0 <= i < |more| ==> more[i] == ms[i + 1];
    assert forall i :: 0 < i < |ms| ==> ms[i] == more[i - 1];
  }

  lemma {:induction false} AcceptsEach(decode: Bytes -> Bytes, ms: seq<Member>, keyed: bool, depth: nat,
      names: set<Bytes>)
    requires depth <= MAX_DEPTH
    ensures AcceptsAll(decode, ms, keyed, depth, names) <==>
      depth + LevelsAll(ms) <= MAX_DEPTH && Apart(decode, ms, keyed, names)
    decreases ms
  {
    hide Accepts, Levels, Apart, Distinct;
    if ms == [] {
      ApartNone(decode, keyed, names);
    } else {
      ApartFirst(decode, ms, keyed, names);
      AcceptsIs(decode, ms[0].value, depth + 1);
      AcceptsEach(decode, ms[1..], keyed, depth, if keyed then names + {decode(ms[0].name)} else names);
    }
  }

  lemma ApartNone(decode: Bytes -> Bytes, keyed: bool, names: set<Bytes>)
    ensures Apart(decode, [], keyed, names)
  {
  }

  // What the grammar writes is read.

  lemma {:induction false} SpacesOver(s: Bytes, i: nat, a: Bytes, rest: Bytes)
    requires Spaces(a) && Has(s, i, a + rest) && rest != [] && !White(rest[0])
    ensures JsonText.Space(s, i) == i + |a| && Has(s, i + |a|, rest) && i + |a| < |s| && s[i + |a|] == rest[0]
    decreases |a|
  {
    if a == [] {
      assert a + rest == rest;
      HasByte(s, i, rest, 0);
    } else {
      assert a + rest == [a[0]] + (a[1..] + rest);
      HasByte(s, i, a + rest, 0);
      HasParts(s, i, [a[0]], a[1..] + rest);
      SpacesOver(s, i + 1, a[1..], rest);
    }
  }

  lemma TextStarts(v: Value)
    requires Good(v)
    ensures Text(v) != [] && !White(Text(v)[0]) && Text(v)[0] != 93 && Text(v)[0] != 58
    ensures Opens(Text(v)[0]) <==> v.Container?
    ensures v.Container? ==> Text(v)[0] == if v.keyed then OBJECT else ARRAY
  {
    hide MembersText, NumberEnd, Inside;
    if v.Scalar? {
      ScalarSome(v.text);
      ScalarRead(v.text);
    }
  }

  lemma ScalarSome(text: Bytes)
    requires IsScalar(text)
    ensures text != []
  {
    hide CharsText, JsonNumbers.Text;
    if IsNumber(text) {
      var p :| JsonNumbers.Json(p) && text == JsonNumbers.Text(p);
      JsonNumbers.JsonNumber(p);
    }
  }

  lemma NameStarts(name: Bytes)
    requires IsString(name)
    ensures Quoted(name) && name != [] && name[0] == QUOTE
  {
    hide CharsText;
    QuotedString(name);
  }

  /** A name in an object, spaces around its colon, before rest. */
  lemma NameRead(s: Bytes, i: nat, m: Member, rest: Bytes)
    requires MemberGood(m, true) && rest != [] && !White(rest[0])
    requires Has(s, i, m.name + (m.mid + ([58] + (m.past + rest))))
    ensures var k := i + |m.name| + |m.mid| + 1 + |m.past|;
      && MemberName(s, i) == Some((i + |m.name|, k)) && s[i..i + |m.name|] == m.name && Has(s, k, rest)
      && i < |s| && s[i] == QUOTE && NameOf(s, i) == m.name
  {
    hide Inside, Spaces, White, IsString, Quoted, JsonText.Space, Has, MemberName;
    var b := [58] + (m.past + rest);
    var (e, c) := (i + |m.name|, i + |m.name| + |m.mid|);
    NameStarts(m.name);
    HasParts(s, i, m.name, m.mid + b);
    QuotedEnds(s, i, m.name);
    ColonBlack();
    assert b[0] == 58;
    SpacesOver(s, e, m.mid, b);
    HasParts(s, c, [58], m.past + rest);
    SpacesOver(s, c + 1, m.past, rest);
    MemberNameIs(s, i, e, c, c + 1 + |m.past|);
  }

  lemma MemberNameIs(s: Bytes, i: nat, e: nat, c: nat, k: nat)
    requires i < |s| && s[i] == QUOTE && Inside(s, i + 1).Some? && Inside(s, i + 1).value.0 == e
    requires JsonText.Space(s, e) == c < |s| && s[c] == 58 && JsonText.Space(s, c + 1) == k
    ensures MemberName(s, i) == Some((e, k)) && NameOf(s, i) == s[i..e]
  {
    hide Inside, JsonText.Space;
  }

  lemma ColonBlack()
    ensures !White(58)
  {
  }

  lemma QuotedEnds(s: Bytes, i: nat, name: Bytes)
    requires Quoted(name) && Has(s, i, name)
    ensures i + |name| <= |s| && s[i..i + |name|] == name && i < |s| && s[i] == QUOTE
    ensures Inside(s, i + 1).Some? && Inside(s, i + 1).value.0 == i + |name|
  {
    InsideShift(name, s, i, 1);
    HasByte(s, i, name, 0);
  }

  /** Where a member's value starts. */
  function ValueAt(m: Member, keyed: bool, i: nat): nat {
    i + |MemberStart(m, keyed)|
  }

  lemma StartParts(m: Member, keyed: bool, rest: Bytes)
    ensures MemberStart(m, keyed) + rest ==
      m.before + if keyed then m.name + (m.mid + ([58] + (m.past + rest))) else rest
    ensures |MemberStart(m, keyed)| == |m.before| + if keyed then |m.name| + |m.mid| + 1 + |m.past| else 0
  {
  }

  lemma HeadRead(s: Bytes, decode: Bytes -> Bytes, m: Member, keyed: bool, i: nat, names: set<Bytes>, rest: Bytes)
    requires MemberGood(m, keyed) && rest != [] && !White(rest[0]) && rest[0] != 93
    requires Has(s, i, MemberStart(m, keyed) + rest)
    ensures var j := i + |m.before|;
      && JsonText.Space(s, i) == j && j < |s| && s[j] != Close(keyed) && Has(s, ValueAt(m, keyed, i), rest)
      && Head(s, decode, j, Close(keyed), names) ==
           (if !keyed then Some((j, 0, names))
            else if decode(m.name) in names then None
            else Some((ValueAt(m, keyed, i), j, names + {decode(m.name)})))
      && (if keyed then NameOf(s, j) == m.name else j == ValueAt(m, keyed, i))
  {
    hide NameOf, MemberName, MemberStart, Spaces, White, IsString, JsonText.Space, Has;
    StartParts(m, keyed, rest);
    if keyed {
      NamedRead(s, i, m, rest);
      NamedHead(s, decode, i + |m.before|, names, m.name, ValueAt(m, keyed, i));
    } else {
      SpacesOver(s, i, m.before, rest);
    }
  }

  lemma NamedRead(s: Bytes, i: nat, m: Member, rest: Bytes)
    requires MemberGood(m, true) && rest != [] && !White(rest[0])
    requires Has(s, i, m.before + (m.name + (m.mid + ([58] + (m.past + rest)))))
    ensures var (j, k) := (i + |m.before|, i + |m.before| + |m.name| + |m.mid| + 1 + |m.past|);
      && JsonText.Space(s, i) == j && j < |s| && s[j] == QUOTE && Has(s, k, rest)
      && MemberName(s, j) == Some((j + |m.name|, k)) && s[j..j + |m.name|] == m.name && NameOf(s, j) == m.name
  {
    hide NameOf, MemberName, Spaces, White, IsString, JsonText.Space, Has;
    NameStarts(m.name);
    QuoteBlack();
    SpacesOver(s, i, m.before, m.name + (m.mid + ([58] + (m.past + rest))));
    NameRead(s, i + |m.before|, m, rest);
  }

  lemma NamedHead(s: Bytes, decode: Bytes -> Bytes, j: nat, names: set<Bytes>, name: Bytes, k: nat)
    requires j <= |s| && MemberName(s, j) == Some((j + |name|, k)) && s[j..j + |name|] == name
    ensures Head(s, decode, j, Close(true), names) ==
      if decode(name) in names then None else Some((k, j, names + {decode(name)}))
  {
    hide MemberName;
  }

  lemma QuoteBlack()
    ensures !White(QUOTE)
  {
  }

  /** What follows a member's value and the space after it. */
  function Tail(ms: seq<Member>, keyed: bool): Bytes
    requires ms != []
  {
    if |ms| == 1 then [if keyed then 125 else 93] else [44] + MembersText(ms[1..], keyed)
  }

  lemma MembersTextIs(ms: seq<Member>, keyed: bool)
    requires ms != []
    ensures MembersText(ms, keyed) == MemberStart(ms[0], keyed) + (Text(ms[0].value) + (ms[0].after + Tail(ms, keyed)))
    ensures Tail(ms, keyed) != [] && !White(Tail(ms, keyed)[0])
    ensures Tail(ms, keyed)[0] == if |ms| == 1 then Close(keyed) else 44
    ensures |ms| == 1 ==> |Tail(ms, keyed)| == 1
    ensures |ms| > 1 ==> Tail(ms, keyed) == [44] + MembersText(ms[1..], keyed)
  {
    hide MemberStart, Text;
  }

  /** The value without the white space. */
  function Bare(v: Value): Json
    decreases v
  {
    match v
    case Scalar(text) => Json.Scalar(text)
    case Container(keyed, _, ms) => Json.Container(keyed, BareAll(ms, keyed))
  }

  function BareAll(ms: seq<Member>, keyed: bool): seq<JsonPrint.Member>
    decreases ms
  {
    if ms == [] then []
    else [JsonPrint.Member(if keyed then ms[0].name else [], Bare(ms[0].value))] + BareAll(ms[1..], keyed)
  }

  /** What is read is v, up to stop. */
  ghost predicate ValueIs(s: Bytes, r: Option<Tree>, v: Value, stop: nat) {
    r.Some? ==> r.value.stop == stop && JsonTree.Lies(s, r.value) && Back(s, r.value) == Bare(v)
  }

  ghost predicate MembersAlike(s: Bytes, r: Option<(seq<Tree>, nat)>, ms: seq<Member>, keyed: bool, stop: nat) {
    r.Some? ==>
      r.value.1 == stop && JsonTree.LiesAll(s, r.value.0) && BackAll(s, r.value.0, keyed) == BareAll(ms, keyed)
  }

  lemma ScalarIs(s: Bytes, text: Bytes, i: nat, name: nat)
    requires i + |text| <= |s| && s[i..i + |text|] == text && text != [] && !Opens(text[0])
    requires ScalarEnd(s, i) == Some(i + |text|)
    ensures ValueIs(s, Some(Tree(i, i + |text|, name, [])), Value.Scalar(text), i + |text|)
  {
    hide ScalarEnd;
    assert s[i] == text[0];
  }

  lemma ContainerIs(s: Bytes, r: Option<(seq<Tree>, nat)>, t: Tree, v: Value, stop: nat)
    requires MembersAlike(s, r, if v.Container? then v.members else [], v.Container? && v.keyed, stop) && v.Container?
    requires r.Some? && t.kids == r.value.0 && t.stop == r.value.1 && JsonTree.Lies(s, t)
    requires s[t.start] == if v.keyed then OBJECT else ARRAY
    ensures ValueIs(s, Some(t), v, stop)
  {
    hide JsonTree.Lies, JsonTree.LiesAll, BackAll, BareAll;
    LiesKids(s, t);
  }

  lemma LiesKids(s: Bytes, t: Tree)
    requires JsonTree.Lies(s, t)
    ensures t.start < |s| && (Opens(s[t.start]) ==> JsonTree.LiesAll(s, t.kids))
    ensures var keyed := s[t.start] == OBJECT;
      Back(s, t) ==
        if Opens(s[t.start]) then Json.Container(keyed, BackAll(s, t.kids, keyed)) else Json.Scalar(s[t.start..t.stop])
  {
    hide JsonTree.LiesAll, BackAll, ScalarEnd;
  }

  lemma NoneAlike(s: Bytes, keyed: bool, stop: nat)
    ensures MembersAlike(s, Some(([], stop)), [], keyed, stop)
  {
  }

  lemma MembersFirst(s: Bytes, t: Option<Tree>, r: Option<(seq<Tree>, nat)>, ms: seq<Member>, keyed: bool, stop: nat,
      end: nat)
    requires ms != [] && ValueIs(s, t, ms[0].value, stop) && MembersAlike(s, r, ms[1..], keyed, end)
    requires JsonTree.Followed(s, stop)
    requires t.Some? && keyed ==> NameOf(s, t.value.name) == ms[0].name
    ensures var all := if t.Some? && r.Some? then Some(([t.value] + r.value.0, r.value.1)) else None;
      MembersAlike(s, all, ms, keyed, end)
  {
    hide JsonTree.Lies, JsonTree.LiesAll, Back, BackAll, Bare, NameOf, JsonTree.Followed;
    if t.Some? && r.Some? {
      BackCons(s, t.value, r.value.0, keyed);
    }
  }

  lemma {:induction false} ValueRead(s: Bytes, decode: Bytes -> Bytes, v: Value, i: nat, depth: nat, name: nat)
    requires Good(v) && Has(s, i, Text(v)) && JsonTree.Followed(s, i + |Text(v)|)
    ensures Read(s, decode, i, depth, name).Some? <==> Accepts(decode, v, depth)
    ensures ValueIs(s, Read(s, decode, i, depth, name), v, i + |Text(v)|)
    decreases v, 0
  {
    hide Good, ScalarEnd, ReadMembers, MembersText, AcceptsAll, JsonTree.Followed, MemberGood, ValueIs, MembersAlike,
      JsonTree.Lies;
    TextStarts(v);
    HasByte(s, i, Text(v), 0);
    NoValue(s, v, i + |Text(v)|);
    if depth <= MAX_DEPTH {
      match v
      case Scalar(text) =>
        ScalarAt(s, text, i);
        ScalarIs(s, text, i, name);
      case Container(keyed, blank, ms) =>
        var open := [if keyed then 123 else 91];
        var r := ReadMembers(s, decode, i + 1, Close(keyed), depth, true, {});
        if ms == [] {
          EmptyRead(s, decode, v, i, depth);
          NoneAccepted(decode, keyed, depth, {});
          NoneAlike(s, keyed, i + |Text(v)|);
        } else {
          HasParts(s, i, open, MembersText(ms, keyed));
          GoodMembers(v);
          MembersRead(s, decode, ms, keyed, i + 1, depth, true, {});
        }
        if r.Some? {
          JsonTree.ReadLies(s, decode, i, depth, name);
          ContainerIs(s, r, Read(s, decode, i, depth, name).value, v, i + |Text(v)|);
        }
    }
  }

  lemma NoValue(s: Bytes, v: Value, stop: nat)
    ensures ValueIs(s, None, v, stop)
  {
  }

  lemma NoneAccepted(decode: Bytes -> Bytes, keyed: bool, depth: nat, names: set<Bytes>)
    ensures AcceptsAll(decode, [], keyed, depth, names)
  {
  }

  lemma GoodMembers(v: Value)
    requires Good(v) && v.Container?
    ensures GoodAll(v.members, v.keyed)
  {
    hide MemberGood;
    GoodEach(v.members, v.keyed);
  }

  lemma ScalarAt(s: Bytes, text: Bytes, i: nat)
    requires Good(Value.Scalar(text)) && Has(s, i, text) && JsonTree.Followed(s, i + |text|)
    ensures i < |s| && ScalarEnd(s, i) == Some(i + |text|)
  {
    hide ScalarEnd, JsonTree.Followed;
    ScalarSome(text);
    ScalarRead(text);
    ScalarShift(text, s, i);
  }

  lemma EmptyRead(s: Bytes, decode: Bytes -> Bytes, v: Value, i: nat, depth: nat)
    requires Good(v) && v.Container? && v.members == [] && Has(s, i, Text(v))
    ensures ReadMembers(s, decode, i + 1, Close(v.keyed), depth, true, {}) == Some(([], i + |Text(v)|))
  {
    hide MemberGood;
    var open, close := [if v.keyed then 123 else 91], [if v.keyed then 125 else 93];
    assert Text(v) == open + (v.blank + close);
    HasParts(s, i, open, v.blank + close);
    SpacesOver(s, i + 1, v.blank, close);
  }

  lemma {:induction false} MembersRead(s: Bytes, decode: Bytes -> Bytes, ms: seq<Member>, keyed: bool, i: nat,
      depth: nat, first: bool, names: set<Bytes>)
    requires ms != [] && GoodAll(ms, keyed) && Has(s, i, MembersText(ms, keyed)) && depth <= MAX_DEPTH
    ensures var r := ReadMembers(s, decode, i, Close(keyed), depth, first, names);
      (r.Some? <==> AcceptsAll(decode, ms, keyed, depth, names)) &&
        MembersAlike(s, r, ms, keyed, i + |MembersText(ms, keyed)|)
    decreases ms, 1
  {
    hide Good, MemberGood, Read, ReadMembers, ReadMember, MembersText, Text, Accepts, MemberStart, Head, Tail,
      JsonText.Space,
      MembersAlike, NameOf;
    var m := ms[0];
    var rest := Text(m.value) + (m.after + Tail(ms, keyed));
    MembersTextIs(ms, keyed);
    TextStarts(m.value);
    HeadRead(s, decode, m, keyed, i, names, rest);
    MembersAre(s, decode, i, Close(keyed), depth, first, names);
    if keyed && decode(m.name) in names {
      NoMembersAlike(s, ms, keyed, i + |MembersText(ms, keyed)|);
    } else {
      var more := if keyed then names + {decode(m.name)} else names;
      MemberRead(s, decode, ms, keyed, ValueAt(m, keyed, i), if keyed then i + |m.before| else 0, depth, more);
    }
  }

  lemma NoMembersAlike(s: Bytes, ms: seq<Member>, keyed: bool, stop: nat)
    ensures MembersAlike(s, None, ms, keyed, stop)
  {
  }

  lemma {:induction false} MemberRead(s: Bytes, decode: Bytes -> Bytes, ms: seq<Member>, keyed: bool, i: nat, name: nat,
      depth: nat, names: set<Bytes>)
    requires ms != [] && GoodAll(ms, keyed) && depth <= MAX_DEPTH
    requires Has(s, i, Text(ms[0].value) + (ms[0].after + Tail(ms, keyed)))
    requires keyed ==> NameOf(s, name) == ms[0].name
    ensures var r := ReadMember(s, decode, i, name, Close(keyed), depth, names);
      && (r.Some? <==> Accepts(decode, ms[0].value, depth + 1) && AcceptsAll(decode, ms[1..], keyed, depth, names))
      && MembersAlike(s, r, ms, keyed, i + |Text(ms[0].value)| + |ms[0].after| + |Tail(ms, keyed)|)
    decreases ms, 0
  {
    hide Good, Read, ReadMembers, ReadMember, MembersText, Text, Accepts, AcceptsAll, MemberStart, JsonTree.Followed,
      JsonText.Space, Has, White, Spaces, Tail, ValueIs, MembersAlike, NameOf;
    var (v, after, tail) := (ms[0].value, ms[0].after, Tail(ms, keyed));
    var k := i + |Text(v)|;
    HasSize(s, i, Text(v) + (after + tail));
    var t := Read(s, decode, i, depth + 1, name);
    MembersTextIs(ms, keyed);
    HasParts(s, i, Text(v), after + tail);
    SpacesOver(s, k, after, tail);
    FollowedBy(s, k, after, tail);
    ValueRead(s, decode, v, i, depth + 1, name);
    if |ms| == 1 {
      LastRead(s, decode, i, name, keyed, depth, names, v, k, k + |after|);
      MembersFirst(s, t, Some(([], k + |after| + 1)), ms, keyed, k, k + |after| + 1);
      NoneAccepted(decode, keyed, depth, names);
    } else {
      HasParts(s, k + |after|, [44], MembersText(ms[1..], keyed));
      HasSize(s, k + |after| + 1, MembersText(ms[1..], keyed));
      MembersRead(s, decode, ms[1..], keyed, k + |after| + 1, depth, false, names);
      NextRead(s, decode, i, name, keyed, depth, names, v, k, k + |after|);
      var r := ReadMembers(s, decode, k + |after| + 1, Close(keyed), depth, false, names);
      MembersFirst(s, t, r, ms, keyed, k, k + |after| + |tail|);
    }
  }

  lemma LastRead(s: Bytes, decode: Bytes -> Bytes, i: nat, name: nat, keyed: bool, depth: nat, names: set<Bytes>,
      v: Value,
      k: nat, c: nat)
    requires i <= |s| && ValueIs(s, Read(s, decode, i, depth + 1, name), v, k)
    requires k <= |s| && JsonText.Space(s, k) == c < |s| && s[c] == Close(keyed)
    ensures var t := Read(s, decode, i, depth + 1, name);
      && ReadMember(s, decode, i, name, Close(keyed), depth, names) ==
           (if t.Some? then Some(([t.value] + [], c + 1)) else None)
      && MembersAlike(s, Some(([], c + 1)), [], keyed, c + 1)
  {
    hide Read, ReadMembers, ReadMember, JsonText.Space, Back, JsonTree.Lies;
    var t := Read(s, decode, i, depth + 1, name);
    MemberIs(s, decode, i, name, Close(keyed), depth, names);
    if t.Some? {
      Sequences.Nothing([t.value]);
    }
  }

  lemma NextRead(s: Bytes, decode: Bytes -> Bytes, i: nat, name: nat, keyed: bool, depth: nat, names: set<Bytes>,
      v: Value,
      k: nat, c: nat)
    requires i <= |s| && ValueIs(s, Read(s, decode, i, depth + 1, name), v, k)
    requires k <= |s| && JsonText.Space(s, k) == c < |s| && s[c] == 44
    ensures var (t, r) := (Read(s, decode, i, depth + 1, name),
        ReadMembers(s, decode, c + 1, Close(keyed), depth, false, names));
      ReadMember(s, decode, i, name, Close(keyed), depth, names) ==
        if t.Some? && r.Some? then Some(([t.value] + r.value.0, r.value.1)) else None
  {
    hide Read, ReadMembers, ReadMember, JsonText.Space, Back, JsonTree.Lies;
    MemberIs(s, decode, i, name, Close(keyed), depth, names);
  }

  lemma HasSize(s: Bytes, d: nat, a: Bytes)
    requires Has(s, d, a)
    ensures d + |a| <= |s|
  {
  }

  lemma FollowedBy(s: Bytes, k: nat, after: Bytes, tail: Bytes)
    requires Spaces(after) && Has(s, k, after + tail) && tail != [] && tail[0] in {44, 93, 125}
    ensures JsonTree.Followed(s, k)
  {
    HasByte(s, k, after + tail, 0);
  }

  // What is read the grammar writes.

  lemma SpaceText(s: Bytes, i: nat)
    requires i <= |s|
    ensures Spaces(s[i..JsonText.Space(s, i)])
  {
    var j := JsonText.Space(s, i);
    SpaceBounds(s, i);
    forall k | 0 <= k < j - i ensures s[i..j][k] in {9, 10, 13, 32} {
      assert s[i..j][k] == s[i + k] && White(s[i + k]);
    }
  }

  lemma Three(s: Bytes, a: nat, b: nat, c: nat)
    requires a <= b <= c <= |s|
    ensures s[a..c] == s[a..b] + s[b..c]
  {
  }

  lemma ScalarOf(s: Bytes, i: nat)
    requires i < |s| && !Opens(s[i]) && ScalarEnd(s, i).Some?
    ensures IsScalar(s[i..ScalarEnd(s, i).value])
  {
    hide Inside, NumberEnd, CharsText, JsonNumbers.Text, JsonNumbers.Json, CharsGood;
    Literals();
    if s[i] == QUOTE {
      var e := Inside(s, i + 1).value.0;
      var cs := CharsOf(s, i + 1);
      assert s[i..e] == [34] + s[i + 1..e];
      assert s[i..e] == [34] + CharsText(cs) + [34];
    } else if s[i] == MINUS || Digit(s[i]) {
      var p := JsonNumbers.NumberParts(s, i);
    } else {
      assert StartsWith(s, i, FALSE) ==> s[i..i + 5] == FALSE;
      assert StartsWith(s, i, TRUE) ==> s[i..i + 4] == TRUE;
      assert StartsWith(s, i, NULL) ==> s[i..i + 4] == NULL;
    }
  }

  lemma {:induction false} ValueOf(s: Bytes, decode: Bytes -> Bytes, i: nat, depth: nat, name: nat) returns (v: Value)
    requires i <= |s| && Read(s, decode, i, depth, name).Some?
    ensures Good(v) && Text(v) == s[i..Read(s, decode, i, depth, name).value.stop]
    decreases |s| - i, 0
  {
    hide ScalarEnd, ReadMembers, MembersText, IsScalar, MemberGood, Spaces, JsonText.Space;
    if !Opens(s[i]) {
      ScalarOf(s, i);
      v := Value.Scalar(s[i..ScalarEnd(s, i).value]);
    } else {
      var keyed, j := s[i] == OBJECT, JsonText.Space(s, i + 1);
      var e := ReadMembers(s, decode, i + 1, s[i] + 2, depth, true, {}).value.1;
      var open := [if keyed then 123 else 91];
      assert s[i..e] == open + s[i + 1..e];
      MembersAre(s, decode, i + 1, s[i] + 2, depth, true, {});
      if j < |s| && s[j] == s[i] + 2 {
        v := Value.Container(keyed, s[i + 1..j], []);
        SpaceText(s, i + 1);
        assert s[i + 1..e] == s[i + 1..j] + [s[j]];
        Sequences.Group(open, s[i + 1..j], [s[j]]);
      } else {
        var ms := MembersOf(s, decode, i + 1, keyed, depth, true, {});
        v := Value.Container(keyed, [], ms);
        GoodEach(ms, keyed);
        SpaceText([], 0);
      }
    }
  }

  lemma {:induction false} MembersOf(s: Bytes, decode: Bytes -> Bytes, i: nat, keyed: bool, depth: nat, first: bool,
      names: set<Bytes>) returns (ms: seq<Member>)
    requires i <= |s| && ReadMembers(s, decode, i, Close(keyed), depth, first, names).Some?
    requires !(first && JsonText.Space(s, i) < |s| && s[JsonText.Space(s, i)] == Close(keyed))
    ensures ms != [] && GoodAll(ms, keyed)
    ensures MembersText(ms, keyed) == s[i..ReadMembers(s, decode, i, Close(keyed), depth, first, names).value.1]
    decreases |s| - i, 2
  {
    hide Good, MemberGood, Read, ReadMembers, ReadMember, MembersText, Text, Spaces, JsonText.Space, Head, MemberStart,
      Tail, Spaces;
    MembersAre(s, decode, i, Close(keyed), depth, first, names);
    var j := JsonText.Space(s, i);
    var h := Head(s, decode, j, Close(keyed), names).value;
    var e := ReadMembers(s, decode, i, Close(keyed), depth, first, names).value.1;
    var m := HeadOf(s, decode, i, keyed, names);
    ms := MemberOf(s, decode, h.0, h.1, keyed, depth, h.2, m);
    MembersTextIs(ms, keyed);
    StartSame(ms[0], m, keyed);
    Three(s, i, h.0, e);
  }

  lemma StartSame(m: Member, n: Member, keyed: bool)
    requires m == n.(value := m.value, after := m.after)
    ensures MemberStart(m, keyed) == MemberStart(n, keyed)
  {
  }

  /** A member but for its value and what follows. */
  lemma HeadOf(s: Bytes, decode: Bytes -> Bytes, i: nat, keyed: bool, names: set<Bytes>) returns (m: Member)
    requires i <= |s| && Head(s, decode, JsonText.Space(s, i), Close(keyed), names).Some?
    ensures var at := Head(s, decode, JsonText.Space(s, i), Close(keyed), names).value.0;
      i <= at && MemberStart(m, keyed) == s[i..at]
    ensures MemberGood(m, keyed) && m.after == []
  {
    hide Inside, IsString, Spaces, JsonText.Space, MemberStart;
    var j := JsonText.Space(s, i);
    SpaceText(s, i);
    SpaceText([], 0);
    if keyed {
      var (e, at) := MemberName(s, j).value;
      var c := JsonText.Space(s, e);
      NameOfIs(s, j);
      SpaceText(s, e);
      SpaceText(s, c + 1);
      m := Member.Member(s[i..j], s[j..e], s[e..c], s[c + 1..at], Value.Scalar([]), []);
      NamedStart(s, i, j, e, c, at, m);
    } else {
      m := Member.Member(s[i..j], [], [], [], Value.Scalar([]), []);
      StartParts(m, keyed, []);
      Sequences.Nothing(m.before);
      Sequences.Nothing(MemberStart(m, keyed));
    }
  }

  lemma NamedStart(s: Bytes, i: nat, j: nat, e: nat, c: nat, at: nat, m: Member)
    requires i <= j <= e <= c < at <= |s| && s[c] == 58
    requires m.before == s[i..j] && m.name == s[j..e] && m.mid == s[e..c] && m.past == s[c + 1..at]
    ensures MemberStart(m, true) == s[i..at]
  {
    Three(s, i, j, at);
    Three(s, j, e, at);
    Three(s, e, c, at);
    assert s[c..at] == [58] + s[c + 1..at];
    Flat(m.name, m.mid, [58], m.past);
  }

  lemma Flat(a: Bytes, b: Bytes, c: Bytes, d: Bytes)
    ensures a + b + c + d == a + (b + (c + d))
  {
  }

  lemma NameOfIs(s: Bytes, j: nat)
    requires j < |s| && s[j] == QUOTE && Inside(s, j + 1).Some?
    ensures IsString(s[j..Inside(s, j + 1).value.0])
  {
    hide Inside, CharsText, CharsGood;
    var e := Inside(s, j + 1).value.0;
    var cs := CharsOf(s, j + 1);
    assert s[j..e] == [34] + s[j + 1..e];
    assert s[j..e] == [34] + CharsText(cs) + [34];
  }

  lemma {:induction false} MemberOf(s: Bytes, decode: Bytes -> Bytes, i: nat, name: nat, keyed: bool, depth: nat,
      names: set<Bytes>, m: Member) returns (ms: seq<Member>)
    requires i <= |s| && ReadMember(s, decode, i, name, Close(keyed), depth, names).Some? && MemberGood(m, keyed)
    ensures ms != [] && GoodAll(ms, keyed) && ms[0] == m.(value := ms[0].value, after := ms[0].after)
    ensures Text(ms[0].value) + (ms[0].after + Tail(ms, keyed)) ==
      s[i..ReadMember(s, decode, i, name, Close(keyed), depth, names).value.1]
    decreases |s| - i, 1
  {
    hide Good, Read, ReadMembers, ReadMember, MembersText, Text, Spaces, JsonText.Space;
    MemberIs(s, decode, i, name, Close(keyed), depth, names);
    var e := ReadMember(s, decode, i, name, Close(keyed), depth, names).value.1;
    var stop := Read(s, decode, i, depth + 1, name).value.stop;
    var k := JsonText.Space(s, stop);
    var v := ValueOf(s, decode, i, depth + 1, name);
    SpaceText(s, stop);
    var n := m.(value := v, after := s[stop..k]);
    Three(s, i, stop, e);
    Three(s, stop, k, e);
    if s[k] == Close(keyed) {
      ms := [n];
      assert s[k..e] == [s[k]];
    } else {
      var more := MembersOf(s, decode, k + 1, keyed, depth, false, names);
      ms := [n] + more;
      assert ms[1..] == more;
      assert s[k..e] == [44] + s[k + 1..e];
    }
  }

  // Documents.

  /** Just the documents the grammar writes, nested no deeper than 1,000 levels and without repeated names, are read,
      and as the values written. */
  lemma ParsedIs(decode: Bytes -> Bytes, s: Bytes)
    ensures Parse(s, decode).Some? <==> IsDocument(decode, s)
    ensures forall a, v, b :: Writes(s, a, v, b) && Parse(s, decode).Some? ==>
      JsonTree.Lies(s, Parse(s, decode).value) && Back(s, Parse(s, decode).value) == Bare(v)
  {
    hide JsonTree.Lies, Back, Bare, Read, Good, Spaces, JsonText.Space, Text, Levels, Distinct, Accepts,
      JsonTree.Followed;
    if Parse(s, decode).Some? {
      var i := JsonText.Space(s, 0);
      var stop := Read(s, decode, i, 1, 0).value.stop;
      var v := ValueOf(s, decode, i, 1, 0);
      SpaceText(s, 0);
      SpaceText(s, stop);
      Three(s, 0, i, stop);
      Three(s, 0, stop, |s|);
      assert s[0..|s|] == s;
      assert s == s[0..i] + Text(v) + s[stop..|s|];
      WholeRead(decode, s[0..i], v, s[stop..|s|]);
      assert Writes(s, s[0..i], v, s[stop..|s|]);
    }
    forall a, v, b | Writes(s, a, v, b)
      ensures Parse(s, decode).Some? <==> Levels(v) <= 1_000 && Distinct(decode, v)
      ensures Parse(s, decode).Some? ==>
        JsonTree.Lies(s, Parse(s, decode).value) && Back(s, Parse(s, decode).value) == Bare(v)
    {
      WholeRead(decode, a, v, b);
    }
  }

  lemma WholeRead(decode: Bytes -> Bytes, a: Bytes, v: Value, b: Bytes)
    requires Spaces(a) && Good(v) && Spaces(b)
    ensures var (s, t) := (a + Text(v) + b, Parse(a + Text(v) + b, decode));
      && (t.Some? <==> Levels(v) <= 1_000 && Distinct(decode, v))
      && (t.Some? ==> JsonTree.Lies(s, t.value) && Back(s, t.value) == Bare(v))
  {
    hide JsonTree.Lies, Back, Bare, Read, Good, Text, Levels, Distinct, Accepts, Has, White, Spaces, JsonText.Space,
      JsonTree.Followed;
    var s := a + Text(v) + b;
    TextStarts(v);
    Sequences.Group(a, Text(v), b);
    HasSelf(s);
    SpacesOver(s, 0, a, Text(v) + b);
    HasParts(s, |a|, Text(v), b);
    SpacesEnd(s, |a| + |Text(v)|, b);
    ValueRead(s, decode, v, |a|, 1, 0);
    AcceptsIs(decode, v, 1);
  }

  lemma HasSelf(s: Bytes)
    ensures Has(s, 0, s)
  {
    assert s[0..|s|] == s;
  }

  lemma {:induction false} SpacesEnd(s: Bytes, k: nat, b: Bytes)
    requires Spaces(b) && Has(s, k, b) && k + |b| == |s|
    ensures JsonText.Space(s, k) == |s| && JsonTree.Followed(s, k)
    decreases |b|
  {
    if b != [] {
      HasByte(s, k, b, 0);
      assert b == [b[0]] + b[1..];
      HasParts(s, k, [b[0]], b[1..]);
      SpacesEnd(s, k + 1, b[1..]);
    }
  }
}
