/** The key of a security requirement: the same for the same schemes with the same scopes, and for no others. */
module Keys {
  import opened Ascii

  datatype Scheme = Scheme(name: Bytes, scopes: seq<Bytes>)

  // The order of strings.

  predicate Less(a: Bytes, b: Bytes) {
    b != [] && (a == [] || a[0] < b[0] || (a[0] == b[0] && Less(a[1..], b[1..])))
  }

  lemma {:induction false} LessOrder(a: Bytes, b: Bytes)
    ensures !(Less(a, b) && Less(b, a)) && !Less(a, a)
    ensures Less(a, b) || a == b || Less(b, a)
    decreases |a|
  {
    if a != [] {
      LessOrder(a[1..], a[1..]);
      if b != [] {
        LessOrder(a[1..], b[1..]);
        assert a == [a[0]] + a[1..] && b == [b[0]] + b[1..];
      }
    }
  }

  lemma {:induction false} LessTransitive(a: Bytes, b: Bytes, c: Bytes)
    requires Less(a, b) && Less(b, c)
    ensures Less(a, c)
    decreases |a|
  {
    if a != [] && a[0] == b[0] && b[0] == c[0] {
      LessTransitive(a[1..], b[1..], c[1..]);
    }
  }

  predicate Ascending<T>(s: seq<T>, key: T -> Bytes) {
    forall i, j :: 0 <= i < j < |s| ==> !Less(key(s[j]), key(s[i]))
  }

  predicate Strict<T>(s: seq<T>, key: T -> Bytes) {
    forall i, j :: 0 <= i < j < |s| ==> Less(key(s[i]), key(s[j]))
  }

  function Insert<T>(x: T, s: seq<T>, key: T -> Bytes): seq<T> {
    if s == [] || !Less(key(s[0]), key(x)) then [x] + s else [s[0]] + Insert(x, s[1..], key)
  }

  /** A sequence sorted by key. */
  function SortBy<T>(s: seq<T>, key: T -> Bytes): seq<T> {
    if s == [] then [] else Insert(s[0], SortBy(s[1..], key), key)
  }

  lemma {:induction false} InsertKeeps<T>(x: T, s: seq<T>, key: T -> Bytes)
    ensures multiset(Insert(x, s, key)) == multiset([x]) + multiset(s)
  {
    hide Less;
    if s != [] && Less(key(s[0]), key(x)) {
      assert s == [s[0]] + s[1..];
      InsertKeeps(x, s[1..], key);
    }
  }

  lemma InMultiset<T>(a: seq<T>, x: T, s: seq<T>)
    requires multiset(a) == multiset([x]) + multiset(s)
    ensures forall i :: 0 <= i < |a| ==> a[i] == x || a[i] in s
  {
    forall i | 0 <= i < |a| ensures a[i] == x || a[i] in s {
      assert a[i] in multiset(a);
    }
  }

  lemma AscendsAfter<T>(x: T, s: seq<T>, key: T -> Bytes)
    requires Ascending(s, key) && forall i :: 0 <= i < |s| ==> !Less(key(s[i]), key(x))
    ensures Ascending([x] + s, key)
  {
    hide Less;
    var t := [x] + s;
    assert forall i :: 0 < i < |t| ==> t[i] == s[i - 1];
  }

  lemma {:induction false} InsertAscends<T>(x: T, s: seq<T>, key: T -> Bytes)
    requires Ascending(s, key)
    ensures Ascending(Insert(x, s, key), key)
  {
    hide Less;
    if s == [] {
    } else if Less(key(s[0]), key(x)) {
      assert forall i :: 0 <= i < |s[1..]| ==> s[1..][i] == s[i + 1];
      InsertAscends(x, s[1..], key);
      InsertKeeps(x, s[1..], key);
      var t := Insert(x, s[1..], key);
      InMultiset(t, x, s[1..]);
      LessOrder(key(s[0]), key(x));
      forall i | 0 <= i < |t| ensures !Less(key(t[i]), key(s[0])) {
        if t[i] in s[1..] {
          var k :| 0 <= k < |s[1..]| && s[1..][k] == t[i];
          assert s[k + 1] == t[i];
        }
      }
      AscendsAfter(s[0], t, key);
    } else {
      forall i | 0 <= i < |s| ensures !Less(key(s[i]), key(x)) {
        if i > 0 {
          NotLessTransitive(key(x), key(s[0]), key(s[i]));
        }
      }
      AscendsAfter(x, s, key);
    }
  }

  lemma NotLessTransitive(a: Bytes, b: Bytes, c: Bytes)
    requires !Less(b, a) && !Less(c, b)
    ensures !Less(c, a)
  {
    LessOrder(a, b);
    LessOrder(b, c);
    LessOrder(a, c);
    if Less(a, b) && Less(b, c) {
      LessTransitive(a, b, c);
    }
  }

  lemma {:induction false} SortSorts<T>(s: seq<T>, key: T -> Bytes)
    ensures multiset(SortBy(s, key)) == multiset(s) && Ascending(SortBy(s, key), key)
  {
    if s != [] {
      SortSorts(s[1..], key);
      InsertKeeps(s[0], SortBy(s[1..], key), key);
      InsertAscends(s[0], SortBy(s[1..], key), key);
      assert s == [s[0]] + s[1..];
    }
  }

  /** Without what is equal to what precedes it. */
  function Compact(s: seq<Bytes>): seq<Bytes> {
    if |s| <= 1 then s else if s[0] == s[1] then Compact(s[1..]) else [s[0]] + Compact(s[1..])
  }

  const Itself: Bytes -> Bytes := s => s

  lemma AscendingRest(s: seq<Bytes>)
    requires Ascending(s, Itself) && s != []
    ensures Ascending(s[1..], Itself)
    ensures forall x :: x in s[1..] ==> x == s[0] || Less(s[0], x)
  {
    var t := s[1..];
    assert forall k :: 0 <= k < |t| ==> t[k] == s[k + 1];
    forall x | x in t ensures x == s[0] || Less(s[0], x) {
      var k :| 0 <= k < |t| && t[k] == x;
      assert !Less(Itself(s[k + 1]), Itself(s[0]));
      LessOrder(s[0], x);
    }
  }

  lemma StrictFew(s: seq<Bytes>)
    requires |s| <= 1
    ensures Strict(s, Itself)
  {
  }

  lemma StrictPrepends(x: Bytes, s: seq<Bytes>)
    requires Strict(s, Itself) && forall y :: y in s ==> Less(x, y)
    ensures Strict([x] + s, Itself)
  {
    var t := [x] + s;
    forall i, j | 0 <= i < j < |t| ensures Less(Itself(t[i]), Itself(t[j])) {
      assert t[j] == s[j - 1] && s[j - 1] in s;
      if i > 0 {
        assert Less(Itself(s[i - 1]), Itself(s[j - 1]));
      }
    }
  }

  lemma {:induction false} CompactStrict(s: seq<Bytes>)
    requires Ascending(s, Itself)
    ensures Strict(Compact(s), Itself) && forall x :: x in Compact(s) <==> x in s
    decreases |s|
  {
    hide Ascending, Strict, Less;
    if |s| <= 1 {
      StrictFew(s);
    } else {
      AscendingRest(s);
      CompactStrict(s[1..]);
      Members(s);
      if s[0] != s[1] {
        var t := Compact(s[1..]);
        forall y | y in t ensures Less(s[0], y) {
          FirstApart(s, y);
        }
        StrictPrepends(s[0], t);
        Members([s[0]] + t);
        assert ([s[0]] + t)[1..] == t;
      } else {
        assert s[0] in s[1..];
      }
    }
  }

  lemma Members(s: seq<Bytes>)
    requires s != []
    ensures forall x :: x in s <==> x == s[0] || x in s[1..]
  {
    assert s == [s[0]] + s[1..];
  }

  /** What ascends from a string apart from the next is past it. */
  lemma FirstApart(s: seq<Bytes>, y: Bytes)
    requires Ascending(s, Itself) && |s| > 1 && s[0] != s[1] && y in s[1..]
    ensures Less(s[0], y)
  {
    hide Less;
    AscendingRest(s);
    AscendingRest(s[1..]);
    Members(s[1..]);
    assert s[1] in s[1..];
    if y != s[1] {
      LessTransitive(s[0], s[1], y);
    }
  }

  /** Distinct strings have one order. */
  lemma {:induction false} StrictUnique(a: seq<Bytes>, b: seq<Bytes>)
    requires Strict(a, Itself) && Strict(b, Itself) && forall x :: x in a <==> x in b
    ensures a == b
    decreases |a|
  {
    assert b != [] ==> b[0] in b;
    if a != [] {
      assert a[0] in b && b[0] in a;
      StrictFirst(a, b[0]);
      StrictFirst(b, a[0]);
      LessOrder(a[0], b[0]);
      forall x ensures x in a[1..] <==> x in b[1..] {
        TailMember(a, x);
        TailMember(b, x);
      }
      StrictUnique(a[1..], b[1..]);
      assert a == [a[0]] + a[1..] && b == [b[0]] + b[1..];
    }
  }

  lemma StrictFirst(a: seq<Bytes>, x: Bytes)
    requires Strict(a, Itself) && x in a
    ensures x == a[0] || Less(a[0], x)
  {
    var i :| 0 <= i < |a| && a[i] == x;
    if i > 0 {
      assert Less(Itself(a[0]), Itself(a[i]));
    }
  }

  lemma TailMember(a: seq<Bytes>, x: Bytes)
    requires Strict(a, Itself) && a != []
    ensures x in a[1..] <==> x in a && x != a[0]
  {
    assert a == [a[0]] + a[1..];
    if x in a[1..] {
      var k :| 0 <= k < |a[1..]| && a[1..][k] == x;
      assert Less(Itself(a[0]), Itself(a[k + 1]));
      LessOrder(a[0], a[0]);
    }
  }

  // Canonical strings.

  function Hex(d: int): byte
    requires 0 <= d < 16
  {
    if d < 10 then (48 + d) as byte else (87 + d) as byte
  }

  /** A byte of a string as RFC 8785 escapes it. */
  function Escape(c: byte): (e: Bytes)
    ensures e != [] && e[0] != QUOTE
  {
    if c == 34 then [BACKSLASH, 34]
    else if c == 92 then [BACKSLASH, 92]
    else if c == 8 then [BACKSLASH, 98]
    else if c == 9 then [BACKSLASH, 116]
    else if c == 10 then [BACKSLASH, 110]
    else if c == 12 then [BACKSLASH, 102]
    else if c == 13 then [BACKSLASH, 114]
    else if c < SPACE then [BACKSLASH, 117, 48, 48, Hex(c as int / 16), Hex(c as int % 16)]
    else [c]
  }

  function EscapeAll(s: Bytes): Bytes {
    if s == [] then [] else Escape(s[0]) + EscapeAll(s[1..])
  }

  function Canonical(s: Bytes): Bytes {
    [QUOTE] + EscapeAll(s) + [QUOTE]
  }

  lemma EscapePrefixFree(c: byte, d: byte, x: Bytes, y: Bytes)
    requires Escape(c) + x == Escape(d) + y
    ensures c == d && x == y
  {
    var p, q := Escape(c), Escape(d);
    var s := p + x;
    assert s[0] == p[0] == q[0];
    assert |p| > 1 ==> s[1] == p[1];
    assert |q| > 1 ==> s[1] == q[1];
    assert |p| > 5 ==> s[4] == p[4] && s[5] == p[5];
    assert |q| > 5 ==> s[4] == q[4] && s[5] == q[5];
    assert c == d;
    assert x == s[|p|..] && y == s[|q|..];
  }

  /** What a canonical string begins tells the string, and what follows it. */
  lemma {:induction false} CanonicalPrefixFree(a: Bytes, b: Bytes, x: Bytes, y: Bytes)
    requires EscapeAll(a) + [QUOTE] + x == EscapeAll(b) + [QUOTE] + y
    ensures a == b && x == y
    decreases |a|
  {
    hide Escape;
    var s, t := EscapeAll(a) + [QUOTE] + x, EscapeAll(b) + [QUOTE] + y;
    if a != [] {
      assert s == Escape(a[0]) + (EscapeAll(a[1..]) + [QUOTE] + x);
    }
    if b != [] {
      assert t == Escape(b[0]) + (EscapeAll(b[1..]) + [QUOTE] + y);
    }
    assert a == [] ==> s[0] == QUOTE;
    assert b == [] ==> t[0] == QUOTE;
    assert a != [] ==> s[0] == Escape(a[0])[0];
    assert b != [] ==> t[0] == Escape(b[0])[0];
    if a == [] {
      assert x == s[1..] && y == t[1..];
    } else {
      EscapePrefixFree(a[0], b[0], EscapeAll(a[1..]) + [QUOTE] + x, EscapeAll(b[1..]) + [QUOTE] + y);
      CanonicalPrefixFree(a[1..], b[1..], x, y);
      assert a == [a[0]] + a[1..] && b == [b[0]] + b[1..];
    }
  }

  // The key.

  const OPEN: Bytes := [COLON, 91]

  function Separator(first: bool): Bytes {
    if first then [] else [COMMA]
  }

  function ScopesText(scopes: seq<Bytes>, first: bool): Bytes
    decreases |scopes|
  {
    if scopes == [] then [93] else Separator(first) + Canonical(scopes[0]) + ScopesText(scopes[1..], false)
  }

  /** The scopes in order, each once. */
  function Scopes(s: Scheme): seq<Bytes> {
    Compact(SortBy(s.scopes, Itself))
  }

  function SchemeText(s: Scheme): Bytes {
    Canonical(s.name) + OPEN + ScopesText(Scopes(s), true)
  }

  function SchemesText(schemes: seq<Scheme>, first: bool): Bytes
    decreases |schemes|
  {
    if schemes == [] then [125] else Separator(first) + SchemeText(schemes[0]) + SchemesText(schemes[1..], false)
  }

  const NameOf: Scheme -> Bytes := (s: Scheme) => s.name

  function Key(schemes: seq<Scheme>): Bytes {
    [123] + SchemesText(SortBy(schemes, NameOf), true)
  }

  method CanonicalString(b: Bytes, s: Bytes) returns (t: Bytes)
    ensures t == b + Canonical(s)
  {
    hide Escape;
    t := b + [QUOTE];
    for i := 0 to |s|
      invariant t + EscapeAll(s[i..]) == b + [QUOTE] + EscapeAll(s)
    {
      ghost var was := t;
      assert s[i..][1..] == s[i + 1..];
      t := t + Escape(s[i]);
      assert t + EscapeAll(s[i + 1..]) == was + EscapeAll(s[i..]);
    }
    assert s[|s|..] == [] && EscapeAll([]) == [] && t + [] == t;
    t := t + [QUOTE];
    assert t == b + ([QUOTE] + EscapeAll(s) + [QUOTE]);
  }

  method AppendScopes(b: Bytes, scopes: seq<Bytes>) returns (t: Bytes)
    ensures t == b + ScopesText(scopes, true)
  {
    hide Canonical;
    t := b;
    for j := 0 to |scopes|
      invariant t + ScopesText(scopes[j..], j == 0) == b + ScopesText(scopes, true)
    {
      ghost var was, more := t, ScopesText(scopes[j + 1..], false);
      assert scopes[j..][1..] == scopes[j + 1..] && scopes[j..] != [];
      if j > 0 {
        t := t + [COMMA];
      }
      t := CanonicalString(t, scopes[j]);
      assert t + more == was + (Separator(j == 0) + Canonical(scopes[j]) + more);
    }
    assert scopes[|scopes|..] == [];
    t := t + [93];
  }

  method AppendScheme(b: Bytes, s: Scheme) returns (t: Bytes)
    ensures t == b + SchemeText(s)
  {
    hide Canonical, Scopes, ScopesText;
    t := CanonicalString(b, s.name);
    t := AppendScopes(t + OPEN, Scopes(s));
    assert t == b + SchemeText(s);
  }

  /** The key of a requirement, its schemes in the order of their names. */
  method RequirementKey(schemes: seq<Scheme>) returns (key: Bytes)
    ensures key == Key(schemes)
  {
    hide SortBy, SchemeText;
    var order := SortBy(schemes, NameOf);
    key := [123];
    for i := 0 to |order|
      invariant key + SchemesText(order[i..], i == 0) == Key(schemes)
    {
      assert order[i..][1..] == order[i + 1..] && order[i..] != [];
      ghost var before, rest := key, SchemesText(order[i + 1..], false);
      if i > 0 {
        key := key + [COMMA];
      }
      key := AppendScheme(key, order[i]);
      assert key + rest == before + (Separator(i == 0) + SchemeText(order[i]) + rest);
    }
    assert order[|order|..] == [];
    key := key + [125];
  }

  // What a key says.

  lemma CanonicalTells(a: Bytes, b: Bytes, x: Bytes, y: Bytes)
    requires Canonical(a) + x == Canonical(b) + y
    ensures a == b && x == y
  {
    var s, t := EscapeAll(a) + [QUOTE] + x, EscapeAll(b) + [QUOTE] + y;
    assert Canonical(a) + x == [QUOTE] + s && Canonical(b) + y == [QUOTE] + t;
    assert ([QUOTE] + s)[1..] == s && ([QUOTE] + t)[1..] == t;
    CanonicalPrefixFree(a, b, x, y);
  }

  lemma StartsItem(s: Bytes, x: Bytes, first: bool)
    ensures (Separator(first) + Canonical(s) + x)[0] == (if first then QUOTE else COMMA)
  {
  }

  /** The first scope, and those after it. */
  lemma ScopesCons(a: seq<Bytes>, first: bool, x: Bytes)
    requires a != []
    ensures ScopesText(a, first) + x == Separator(first) + (Canonical(a[0]) + (ScopesText(a[1..], false) + x))
    ensures (ScopesText(a, first) + x)[0] == (if first then QUOTE else COMMA)
  {
    hide EscapeAll;
    var r := ScopesText(a[1..], false) + x;
    assert ScopesText(a, first) + x == Separator(first) + Canonical(a[0]) + r;
    StartsItem(a[0], r, first);
  }

  lemma {:induction false} ScopesTell(a: seq<Bytes>, b: seq<Bytes>, first: bool, x: Bytes, y: Bytes)
    requires ScopesText(a, first) + x == ScopesText(b, first) + y
    ensures a == b && x == y
    decreases |a|
  {
    hide Canonical, ScopesText;
    if a != [] {
      ScopesCons(a, first, x);
    } else {
      ScopesEnd(first, x);
    }
    if b != [] {
      ScopesCons(b, first, y);
    } else {
      ScopesEnd(first, y);
    }
    if a != [] {
      var q, r := ScopesText(a[1..], false) + x, ScopesText(b[1..], false) + y;
      Dropped(Separator(first), Canonical(a[0]) + q, Canonical(b[0]) + r);
      CanonicalTells(a[0], b[0], q, r);
      ScopesTell(a[1..], b[1..], false, x, y);
      assert a == [a[0]] + a[1..] && b == [b[0]] + b[1..];
    } else {
      Dropped([93], x, y);
    }
  }

  lemma ScopesEnd(first: bool, x: Bytes)
    ensures ScopesText([], first) + x == [93] + x
  {
  }

  lemma Dropped(a: Bytes, x: Bytes, y: Bytes)
    requires a + x == a + y
    ensures x == y
  {
    assert x == (a + x)[|a|..] && y == (a + y)[|a|..];
  }

  lemma SchemeTells(a: Scheme, b: Scheme, x: Bytes, y: Bytes)
    requires SchemeText(a) + x == SchemeText(b) + y
    ensures a.name == b.name && Scopes(a) == Scopes(b) && x == y
  {
    hide Canonical, Scopes, ScopesText;
    var q, r := ScopesText(Scopes(a), true) + x, ScopesText(Scopes(b), true) + y;
    assert SchemeText(a) + x == Canonical(a.name) + (OPEN + q) && SchemeText(b) + y == Canonical(b.name) + (OPEN + r);
    CanonicalTells(a.name, b.name, OPEN + q, OPEN + r);
    assert q == (OPEN + q)[2..] && r == (OPEN + r)[2..];
    ScopesTell(Scopes(a), Scopes(b), true, x, y);
  }

  /** What of schemes a key holds. */
  predicate Alike(a: seq<Scheme>, b: seq<Scheme>) {
    |a| == |b| && forall i :: 0 <= i < |a| ==> a[i].name == b[i].name && Scopes(a[i]) == Scopes(b[i])
  }

  lemma {:induction false} SchemesTell(a: seq<Scheme>, b: seq<Scheme>, first: bool)
    ensures SchemesText(a, first) == SchemesText(b, first) <==> Alike(a, b)
    decreases |a|
  {
    hide Canonical, Scopes, ScopesText, SchemeText;
    var s, t := SchemesText(a, first), SchemesText(b, first);
    if a != [] {
      StartsScheme(a[0], SchemesText(a[1..], false), first);
    }
    if b != [] {
      StartsScheme(b[0], SchemesText(b[1..], false), first);
    }
    if a != [] && b != [] {
      var q, r, n := SchemesText(a[1..], false), SchemesText(b[1..], false), |Separator(first)|;
      SchemesTell(a[1..], b[1..], false);
      assert s[n..] == SchemeText(a[0]) + q && t[n..] == SchemeText(b[0]) + r;
      if s == t {
        SchemeTells(a[0], b[0], q, r);
        assert forall i :: 1 <= i < |a| ==> a[i] == a[1..][i - 1];
        assert forall i :: 1 <= i < |b| ==> b[i] == b[1..][i - 1];
      }
      if Alike(a, b) {
        SameText(a[0], b[0]);
      }
    }
  }

  lemma StartsScheme(s: Scheme, x: Bytes, first: bool)
    ensures (Separator(first) + SchemeText(s) + x)[0] == (if first then QUOTE else COMMA)
  {
  }

  lemma SameText(a: Scheme, b: Scheme)
    requires a.name == b.name && Scopes(a) == Scopes(b)
    ensures SchemeText(a) == SchemeText(b)
  {
  }

  predicate Distinct(schemes: seq<Scheme>) {
    forall i, j :: 0 <= i < j < |schemes| ==> schemes[i].name != schemes[j].name
  }

  predicate SameScopes(s: Scheme, t: Scheme) {
    s.name == t.name && (forall c :: c in s.scopes ==> c in t.scopes) && (forall c :: c in t.scopes ==> c in s.scopes)
  }

  /** Each scheme of a is a scheme of b, with the same scopes. */
  predicate Covers(a: seq<Scheme>, b: seq<Scheme>) {
    forall s :: s in a ==> exists t :: t in b && SameScopes(s, t)
  }

  lemma ScopesSame(s: Scheme, t: Scheme)
    requires s.name == t.name
    ensures Scopes(s) == Scopes(t) <==> SameScopes(s, t)
  {
    hide Compact, SortBy;
    SortSorts(s.scopes, Itself);
    SortSorts(t.scopes, Itself);
    CompactStrict(SortBy(s.scopes, Itself));
    CompactStrict(SortBy(t.scopes, Itself));
    SameMembers(s.scopes, SortBy(s.scopes, Itself));
    SameMembers(t.scopes, SortBy(t.scopes, Itself));
    if SameScopes(s, t) {
      StrictUnique(Scopes(s), Scopes(t));
    }
  }

  lemma SameMembers<T>(a: seq<T>, b: seq<T>)
    requires multiset(a) == multiset(b)
    ensures forall x :: x in a <==> x in b
  {
    assert forall x :: x in a <==> x in multiset(a);
    assert forall x :: x in b <==> x in multiset(b);
  }

  function NamesOf(schemes: seq<Scheme>): (names: seq<Bytes>)
    ensures |names| == |schemes| && forall i :: 0 <= i < |names| ==> names[i] == schemes[i].name
  {
    seq(|schemes|, i requires 0 <= i < |schemes| => schemes[i].name)
  }

  lemma {:induction false} InsertStrict(x: Scheme, s: seq<Scheme>)
    requires Strict(s, NameOf) && forall t :: t in s ==> t.name != x.name
    ensures Strict(Insert(x, s, NameOf), NameOf)
  {
    var r := Insert(x, s, NameOf);
    if s == [] {
    } else if Less(s[0].name, x.name) {
      assert s == [s[0]] + s[1..];
      InsertStrict(x, s[1..]);
      var t := Insert(x, s[1..], NameOf);
      InsertMembers(x, s[1..]);
      forall j | 0 <= j < |t| ensures Less(NameOf(s[0]), NameOf(t[j])) {
        if t[j] != x {
          assert t[j] in s[1..];
          var k :| 0 <= k < |s[1..]| && s[1..][k] == t[j];
          assert Less(NameOf(s[0]), NameOf(s[k + 1]));
        }
      }
    } else {
      assert s[0] in s;
      LessOrder(x.name, s[0].name);
      forall j | 0 <= j < |s| ensures Less(NameOf(x), NameOf(s[j])) {
        if j > 0 {
          assert Less(NameOf(s[0]), NameOf(s[j]));
          LessTransitive(x.name, s[0].name, s[j].name);
        }
      }
    }
  }

  lemma {:induction false} InsertMembers(x: Scheme, s: seq<Scheme>)
    ensures forall t :: t in Insert(x, s, NameOf) <==> t == x || t in s
  {
    if s != [] {
      InsertMembers(x, s[1..]);
      assert s == [s[0]] + s[1..];
    }
  }

  /** Distinct schemes in order are in strict order, each once. */
  lemma {:induction false} OrderStrict(schemes: seq<Scheme>)
    requires Distinct(schemes)
    ensures Strict(SortBy(schemes, NameOf), NameOf) && forall s :: s in SortBy(schemes, NameOf) <==> s in schemes
  {
    if schemes != [] {
      var first, rest := schemes[0], schemes[1..];
      assert schemes == [first] + rest;
      assert forall i :: 0 <= i < |rest| ==> rest[i] == schemes[i + 1];
      OrderStrict(rest);
      InsertMembers(first, SortBy(rest, NameOf));
      InsertStrict(first, SortBy(rest, NameOf));
    }
  }

  lemma OrderNames(order: seq<Scheme>)
    requires Strict(order, NameOf)
    ensures Strict(NamesOf(order), Itself)
  {
    forall i, j | 0 <= i < j < |order| ensures Less(Itself(NamesOf(order)[i]), Itself(NamesOf(order)[j])) {
      assert Less(NameOf(order[i]), NameOf(order[j]));
    }
  }

  lemma AlikeCovers(a: seq<Scheme>, b: seq<Scheme>)
    requires Distinct(a) && Distinct(b) && Alike(SortBy(a, NameOf), SortBy(b, NameOf))
    ensures Covers(a, b)
  {
    hide SortBy, SameScopes, Scopes;
    OrderStrict(a);
    OrderStrict(b);
    var p, q := SortBy(a, NameOf), SortBy(b, NameOf);
    forall s | s in a ensures exists t :: t in b && SameScopes(s, t) {
      var i :| 0 <= i < |p| && p[i] == s;
      ScopesSame(s, q[i]);
      assert q[i] in b;
    }
  }

  lemma CoversAlike(a: seq<Scheme>, b: seq<Scheme>)
    requires Distinct(a) && Distinct(b) && Covers(a, b) && Covers(b, a)
    ensures Alike(SortBy(a, NameOf), SortBy(b, NameOf))
  {
    hide SortBy, Scopes;
    OrderStrict(a);
    OrderStrict(b);
    var p, q := SortBy(a, NameOf), SortBy(b, NameOf);
    OrderNames(p);
    OrderNames(q);
    NamesCovered(a, b, p, q);
    NamesCovered(b, a, q, p);
    StrictUnique(NamesOf(p), NamesOf(q));
    assert |p| == |NamesOf(p)| == |NamesOf(q)| == |q|;
    forall i | 0 <= i < |p| ensures p[i].name == q[i].name && Scopes(p[i]) == Scopes(q[i]) {
      assert NamesOf(p)[i] == NamesOf(q)[i];
      assert p[i] in a;
      var t :| t in b && SameScopes(p[i], t);
      var j :| 0 <= j < |q| && q[j] == t;
      assert Itself(NamesOf(q)[i]) == Itself(NamesOf(q)[j]);
      LessOrder(q[i].name, q[j].name);
      assert i == j;
      ScopesSame(p[i], q[i]);
    }
  }

  lemma NamesCovered(a: seq<Scheme>, b: seq<Scheme>, p: seq<Scheme>, q: seq<Scheme>)
    requires Covers(a, b) && (forall s :: s in p <==> s in a) && (forall s :: s in q <==> s in b)
    ensures forall n :: n in NamesOf(p) ==> n in NamesOf(q)
  {
    forall n | n in NamesOf(p) ensures n in NamesOf(q) {
      var i :| 0 <= i < |p| && NamesOf(p)[i] == n;
      assert p[i] in a;
      var t :| t in b && SameScopes(p[i], t);
      var j :| 0 <= j < |q| && q[j] == t;
      assert NamesOf(q)[j] == n;
    }
  }

  /** Requirements have one key exactly if they name the same schemes, with the same scopes each. */
  lemma KeysTell(a: seq<Scheme>, b: seq<Scheme>)
    requires Distinct(a) && Distinct(b)
    ensures Key(a) == Key(b) <==> Covers(a, b) && Covers(b, a)
  {
    hide SortBy, SchemesText, Covers, Distinct;
    var p, q := SortBy(a, NameOf), SortBy(b, NameOf);
    SchemesTell(p, q, true);
    assert Key(a)[1..] == SchemesText(p, true) && Key(b)[1..] == SchemesText(q, true);
    if Alike(p, q) {
      AlikeCovers(a, b);
      AlikeCovers(b, a);
    }
    if Covers(a, b) && Covers(b, a) {
      CoversAlike(a, b);
    }
  }
}
