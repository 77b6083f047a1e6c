/** The scanner that reads a JSON text into an array of its values. */
module JsonScan {
  import opened Wrappers
  import opened Ascii
  import opened JsonText
  import opened JsonRefs
  import JsonGrammar
  import Sequences

  lemma EscapesCons(s: Bytes, t: Tree, ts: seq<Tree>, named: bool)
    ensures EscapesAll(s, [t] + ts, named) ==
      (if named then Noted(s, t.name) else []) + Escapes(s, t) + EscapesAll(s, ts, named)
    ensures EscapesAll(s, [], named) == []
  {
    hide Escapes, Noted;
    Sequences.Rest(t, ts);
  }

  lemma {:induction false} EscapesAppend(s: Bytes, ts: seq<Tree>, t: Tree, named: bool)
    ensures EscapesAll(s, ts + [t], named) ==
      EscapesAll(s, ts, named) + ((if named then Noted(s, t.name) else []) + Escapes(s, t))
    decreases |ts|
  {
    hide Noted, Escapes, EscapesAll;
    var name := if named then Noted(s, t.name) else [];
    if ts == [] {
      Sequences.Nothing([t]);
      EscapesCons(s, t, [], named);
      Sequences.Nothing(name + Escapes(s, t));
    } else {
      Sequences.Whole(ts);
      Sequences.Group([ts[0]], ts[1..], [t]);
      EscapesCons(s, ts[0], ts[1..] + [t], named);
      EscapesCons(s, ts[0], ts[1..], named);
      EscapesAppend(s, ts[1..], t, named);
      Sequences.Group((if named then Noted(s, ts[0].name) else []) + Escapes(s, ts[0]),
        EscapesAll(s, ts[1..], named), name + Escapes(s, t));
    }
  }

  lemma FlattenIs(t: Tree, at: nat)
    ensures Flatten(t, at) == [Node(t.start, at + Size(t), t.name)] + FlattenAll(t.kids, at + 1)
  {
    hide FlattenAll, Size;
  }

  lemma FlattenNode(t: Tree, nodes: seq<Node>, kids: seq<Node>, at: nat, n: Node, all: seq<Node>)
    requires at == |nodes| && kids == FlattenAll(t.kids, at + 1) && n == Node(t.start, at + Size(t), t.name) &&
      all == Flatten(t, at)
    ensures nodes + [n] + kids == nodes + all
  {
    FlattenIs(t, at);
    hide *;
    Sequences.Group(nodes, [n], kids);
  }

  /** Names there are, of which a few are kept in a list. */
  function NamesIn(names: seq<Bytes>, base: nat, seen: Option<set<Bytes>>): set<Bytes>
    requires base <= |names|
  {
    if seen.Some? then seen.value else set n | n in names[base..]
  }

  class Scanner {
    const src: Bytes
    const decode: Bytes -> Bytes
    var i: nat
    var nodes: seq<Node>
    var escapes: seq<nat>
    var names: seq<Bytes>
    var bigRefs: seq<nat>

    constructor (src: Bytes, decode: Bytes -> Bytes)
      ensures this.src == src && this.decode == decode
      ensures i == 0 && nodes == [] && escapes == [] && names == [] && bigRefs == []
    {
      this.src, this.decode := src, decode;
      i, nodes, escapes, names, bigRefs := 0, [], [], [], [];
    }

    method Blank()
      requires i <= |src|
      modifies this`i
      ensures i == Space(src, old(i))
    {
      while i < |src| && White(src[i])
        invariant i <= |src| && Space(src, i) == Space(src, old(i))
      {
        i := i + 1;
      }
    }

    /** Reads the string at i, checking its escapes. */
    method String() returns (ok: bool)
      requires i < |src| && src[i] == QUOTE
      modifies this`i, this`escapes
      ensures ok <==> Inside(src, old(i) + 1).Some?
      ensures ok ==> i == Inside(src, old(i) + 1).value.0 && escapes == old(escapes) + Noted(src, old(i))
      ensures i <= |src|
    {
      var escaped, j := false, i + 1;
      ghost var all := Inside(src, i + 1);
      while j < |src|
        invariant i < j <= |src| && i == old(i) && escapes == old(escapes)
        invariant all.Some? <==> Inside(src, j).Some?
        invariant all.Some? ==>
          all.value.0 == Inside(src, j).value.0 && (all.value.1 <==> escaped || Inside(src, j).value.1)
      {
        var c := src[j];
        if c == QUOTE {
          if escaped {
            escapes := escapes + [i];
          }
          i := j + 1;
          return true;
        } else if c < SPACE {
          return false;
        } else if c == BACKSLASH {
          if EscapeLength(src, j) == 0 {
            return false;
          }
          escaped := true;
          j := j + EscapeLength(src, j);
        } else {
          j := j + 1;
        }
      }
      return false;
    }

    method DigitRun(from: nat) returns (to: nat)
      requires from <= |src|
      ensures to == Digits(src, from)
    {
      to := from;
      while to < |src| && Digit(src[to])
        invariant to <= |src| && Digits(src, to) == Digits(src, from)
      {
        to := to + 1;
      }
    }

    method ExponentFrom(from: nat) returns (end: Option<nat>)
      requires from <= |src|
      ensures end == Exponent(src, from)
    {
      var j := from;
      if j < |src| && (src[j] == 101 || src[j] == 69) {
        j := j + 1;
        if j < |src| && (src[j] == PLUS || src[j] == MINUS) {
          j := j + 1;
        }
        var k := DigitRun(j);
        return if k == j then None else Some(k);
      }
      return Some(j);
    }

    method FractionFrom(from: nat) returns (end: Option<nat>)
      requires from <= |src|
      ensures end == Fraction(src, from)
    {
      var j := from;
      if j < |src| && src[j] == DOT {
        var k := DigitRun(j + 1);
        if k == j + 1 {
          return None;
        }
        j := k;
      }
      end := ExponentFrom(j);
    }

    /** Reads the number at i. */
    method Number() returns (ok: bool)
      requires i < |src| && (src[i] == MINUS || Digit(src[i]))
      modifies this`i
      ensures ok <==> NumberEnd(src, old(i)).Some?
      ensures ok ==> i == NumberEnd(src, old(i)).value
      ensures i <= |src|
    {
      hide Digits, Fraction;
      var j := i;
      if src[j] == MINUS {
        j := j + 1;
      }
      if j < |src| && src[j] == 48 {
        j := j + 1;
      } else {
        var k := DigitRun(j);
        if k == j {
          return false;
        }
        j := k;
      }
      var end := FractionFrom(j);
      if end.Some? {
        i := end.value;
      }
      return end.Some?;
    }

    /** A value that starts at i is the first of the nodes after those of was. */
    ghost predicate Begun(was: seq<Node>, i: nat)
      reads this`nodes
    {
      was <= nodes && |was| < |nodes| && nodes[|was|].start == i
    }

    /** Reads the value at i, under the name at name where it has one. */
    method Value(depth: nat, name: nat) returns (ok: bool)
      requires i <= |src|
      modifies this
      ensures i <= |src| && |nodes| >= |old(nodes)|
      ensures ok <==> Read(src, decode, old(i), depth, name).Some?
      ensures ok ==> var t := Read(src, decode, old(i), depth, name).value;
        && i == t.stop && nodes == old(nodes) + Flatten(t, |old(nodes)|)
        && escapes == old(escapes) + Escapes(src, t) && names == old(names)
        && bigRefs == old(bigRefs) + BigObjects(src, decode, t, |old(nodes)|)
      ensures ok ==> Begun(old(nodes), old(i))
      decreases |src| - i, 1
    {
      hide Inside, NumberEnd, ReadMembers, StartsWith, Noted, EscapesAll, FlattenAll, BigObject, BigObjectsAll;
      if depth > MAX_DEPTH || i == |src| {
        return false;
      }
      var at, c := |nodes|, src[i];
      ghost var before, first, escaped := nodes, i, escapes;
      nodes := nodes + [Node(i, 0, name)];
      FlattenNone(at + 1);
      if Opens(c) {
        ok := Container(depth);
      } else if c == QUOTE {
        ok := String();
      } else if c == MINUS || Digit(c) {
        ok := Number();
      } else if StartsWith(src, i, TRUE) || StartsWith(src, i, NULL) {
        ok, i := true, i + 4;
      } else if StartsWith(src, i, FALSE) {
        ok, i := true, i + 5;
      } else {
        return false;
      }
      nodes := nodes[at := nodes[at].(next := |nodes|)];
      if ok {
        var t := Read(src, decode, first, depth, name).value;
        FlattenNode(t, before, FlattenAll(t.kids, at + 1), at, nodes[at], Flatten(t, at));
        NoBig(src, decode, c, at + 1);
      }
    }

    /** Reads the name of a member, which no member before has, up to the member's value. */
    method Name(base: nat, seen: Option<set<Bytes>>) returns (ok: bool, now: Option<set<Bytes>>, ref: bool)
      requires i <= |src| && base <= |names|
      modifies this`i, this`escapes, this`names
      ensures i <= |src|
      ensures var m := MemberName(src, old(i));
        ok <==> m.Some? && decode(src[old(i)..m.value.0]) !in NamesIn(old(names), base, seen)
      ensures ok ==> i == MemberName(src, old(i)).value.1 && escapes == old(escapes) + Noted(src, old(i))
      ensures ok ==> base <= |names| && names[..base] == old(names[..base])
      ensures ok ==> var name := decode(src[old(i)..MemberName(src, old(i)).value.0]);
        NamesIn(names, base, now) == NamesIn(old(names), base, seen) + {name} && (ref <==> name == REF)
      ensures ok ==>
        (now.Some? <==> seen.Some? || |old(names)| - base == MANY) &&
        (now.None? ==> |names| == |old(names)| + 1)
    {
      hide Inside, Noted;
      now, ref := seen, false;
      var at := i;
      if i == |src| || src[i] != QUOTE {
        return false, now, ref;
      }
      ok := String();
      if !ok {
        return;
      }
      var name := decode(src[at..i]);
      ref := name == REF;
      if now.None? && |names| - base == MANY {
        now := Some(set n | n in names[base..]);
      }
      if name in (if now.Some? then now.value else set n | n in names[base..]) {
        return false, now, ref;
      }
      if now.Some? {
        now := Some(now.value + {name});
      } else {
        ghost var was := names;
        names := names + [name];
        assert names[base..] == was[base..] + [name];
      }
      Blank();
      if i == |src| || src[i] != COLON {
        return false, now, ref;
      }
      i := i + 1;
      Blank();
    }

    /** Reads a member: its name, in an object, and whether that is $ref, and its value. */
    method Member(base: nat, seen: Option<set<Bytes>>, close: byte, depth: nat)
      returns (ok: bool, now: Option<set<Bytes>>, ref: bool)
      requires i <= |src| && base <= |names|
      modifies this
      ensures i <= |src| && |nodes| >= |old(nodes)|
      ensures var h := Head(src, decode, old(i), close, NamesIn(old(names), base, seen));
        ok <==> h.Some? && Read(src, decode, h.value.0, depth + 1, h.value.1).Some?
      ensures ok ==> i > old(i) && base <= |names| && names[..base] == old(names[..base])
      ensures ok ==> var h := Head(src, decode, old(i), close, NamesIn(old(names), base, seen)).value;
        var t := Read(src, decode, h.0, depth + 1, h.1).value;
        && i == t.stop && NamesIn(names, base, now) == h.2 && nodes == old(nodes) + Flatten(t, |old(nodes)|)
        && escapes == old(escapes) + (if close == OBJECT + 2 then Noted(src, t.name) else []) + Escapes(src, t)
        && bigRefs == old(bigRefs) + BigObjects(src, decode, t, |old(nodes)|)
      ensures ok ==> Begun(old(nodes), Head(src, decode, old(i), close, NamesIn(old(names), base, seen)).value.0)
      ensures ok && close == OBJECT + 2 ==>
        && (ref <==> decode(NameOf(src, old(i))) == REF)
        && (now.Some? <==> seen.Some? || |old(names)| - base == MANY) && (now.None? ==> |names| == |old(names)| + 1)
      ensures ok && close != OBJECT + 2 ==> now == seen && !ref
      decreases |src| - i, 2
    {
      hide Inside, Noted, Flatten, Escapes, MemberName, NamesIn, Read, BigObjects, NameOf, Head;
      HeadIs(src, decode, i, close, NamesIn(names, base, seen));
      var at := 0;
      ok, now, ref := true, seen, false;
      if close == OBJECT + 2 {
        at := i;
        ghost var has := NamesIn(names, base, seen);
        ok, now, ref := Name(base, seen);
        if !ok {
          return;
        }
        HeadName(src, decode, at, has);
      }
      ok := Value(depth + 1, at);
    }

    /** Reads the members of a container, up to the bracket that closes it. */
    method Members(close: byte, depth: nat) returns (ok: bool, many: bool, ref: int, ghost kids: seq<Tree>)
      requires i <= |src| && close > 0
      modifies this
      ensures i <= |src| && |nodes| >= |old(nodes)|
      ensures ok ==> ReadMembers(src, decode, old(i), close, depth, true, {}) == Some((kids, i + 1)) && i < |src|
      ensures !ok ==> ReadMembers(src, decode, old(i), close, depth, true, {}).None?
      ensures ok ==> nodes == old(nodes) + FlattenAll(kids, |old(nodes)|)
      ensures ok ==> escapes == old(escapes) + EscapesAll(src, kids, close == OBJECT + 2)
      ensures ok ==> |old(names)| <= |names| && names[..|old(names)|] == old(names)
      ensures ok ==> bigRefs == old(bigRefs) + BigObjectsAll(src, decode, kids, |old(nodes)|)
      ensures ok && close == OBJECT + 2 ==> (many <==> |kids| > MANY) && RefKnown(src, decode, nodes, kids, ref)
      ensures ok && close != OBJECT + 2 ==> !many
      decreases |src| - i, 3
    {
      hide Noted, FlattenAll, EscapesAll, Head, NamesIn, Read, Flatten, Escapes, SizeAll, ReadMembers, ReadMember,
        Space, BigObjects, BigObjectsAll, RefKnown, InNames, NameOf, Inside, MemberName, Size, White, ScalarEnd;
      ghost var named, all := close == OBJECT + 2, ReadMembers(src, decode, i, close, depth, true, {});
      kids, many, ref := [], false, -1;
      var base, seen, first := |names|, None, true;
      Nothing(src, names, |nodes|, named);
      NoBigs(src, decode, |nodes|);
      RefNone(src, decode, nodes);
      while true
        invariant i <= |src| && i >= old(i) && base == |old(names)| <= |names| && names[..base] == old(names)
        invariant all == With(kids, ReadMembers(src, decode, i, close, depth, first, NamesIn(names, base, seen)))
        invariant nodes == old(nodes) + FlattenAll(kids, |old(nodes)|) && (first ==> kids == [])
        invariant escapes == old(escapes) + EscapesAll(src, kids, named)
        invariant bigRefs == old(bigRefs) + BigObjectsAll(src, decode, kids, |old(nodes)|)
        invariant named ==>
          RefKnown(src, decode, nodes, kids, ref) && InNames(src, decode, kids, NamesIn(names, base, seen))
        invariant named ==> if seen.Some? then |kids| > MANY else |kids| <= MANY && |names| == base + |kids|
        invariant !named ==> seen.None?
        decreases |src| - i
      {
        MembersAre(src, decode, i, close, depth, first, NamesIn(names, base, seen));
        Blank();
        if first && i < |src| && src[i] == close {
          return true, seen.Some?, ref, kids;
        }
        ghost var h := Head(src, decode, i, close, NamesIn(names, base, seen));
        if h.Some? {
          MemberIs(src, decode, h.value.0, h.value.1, close, depth, h.value.2);
        }
        ghost var was, at, has := nodes, i, NamesIn(names, base, seen);
        var next, isRef := |nodes|, false;
        ok, seen, isRef := Member(base, seen, close, depth);
        if !ok {
          return;
        }
        ghost var t, before := Read(src, decode, h.value.0, depth + 1, h.value.1).value, kids;
        if named {
          HeadName(src, decode, at, has);
          RefMore(src, decode, was, nodes, kids, t, ref, has);
        }
        ref := if isRef then next else ref;
        NodesAdd(old(nodes), kids, t, |old(nodes)|);
        BigsAdd(src, decode, old(bigRefs), kids, t, |old(nodes)|);
        EscapesAdd(src, old(escapes), kids, t, named);
        kids := kids + [t];
        Blank();
        if i < |src| && src[i] == close {
          return true, seen.Some?, ref, kids;
        }
        if i == |src| || src[i] != COMMA {
          return false, seen.Some?, ref, kids;
        }
        i := i + 1;
        first := false;
        WithMore(before, t, ReadMembers(src, decode, i, close, depth, false, NamesIn(names, base, seen)));
      }
    }

    /** Reads a container, whose node is the last. */
    method Container(depth: nat) returns (ok: bool)
      requires i < |src| && Opens(src[i]) && nodes != []
      modifies this
      ensures i <= |src| && |nodes| >= |old(nodes)|
      ensures ok <==> ReadMembers(src, decode, old(i) + 1, src[old(i)] + 2, depth, true, {}).Some?
      ensures ok ==> var (kids, stop) := ReadMembers(src, decode, old(i) + 1, src[old(i)] + 2, depth, true, {}).value;
        && i == stop && nodes == old(nodes) + FlattenAll(kids, |old(nodes)|)
        && escapes == old(escapes) + EscapesAll(src, kids, src[old(i)] == OBJECT) && names == old(names)
        && bigRefs == old(bigRefs) + BigObjectsAll(src, decode, kids, |old(nodes)|)
             + if BigObject(src, decode, src[old(i)], kids) then [|old(nodes)| - 1] else []
      decreases |src| - i, 0
    {
      hide ReadMembers, FlattenAll, EscapesAll, BigObjectsAll, RefKnown, BigObject;
      var end, base, self := src[i] + 2, |names|, |nodes| - 1;
      ghost var c := src[i];
      i := i + 1;
      ghost var kids: seq<Tree>;
      var many: bool, ref: int;
      ok, many, ref, kids := Members(end, depth);
      if ok {
        if c == OBJECT {
          RefRange(src, decode, nodes, kids, ref);
          BigIs(src, decode, nodes, kids, ref);
        } else {
          NotBig(src, decode, c, kids);
        }
        i := i + 1;
        names := names[..base];
        if many && ref >= 0 && src[nodes[ref].start] == QUOTE {
          bigRefs := bigRefs + [self];
        }
      }
    }
  }

  /** A member's nodes after those of the members before it. */
  lemma NodesAdd(nodes: seq<Node>, ts: seq<Tree>, t: Tree, at: nat)
    ensures nodes + FlattenAll(ts, at) + Flatten(t, at + SizeAll(ts)) == nodes + FlattenAll(ts + [t], at)
  {
    hide *;
    FlattenAppend(ts, t, at);
    Sequences.Joined(nodes, FlattenAll(ts, at), Flatten(t, at + SizeAll(ts)), FlattenAll(ts + [t], at));
  }

  /** So its objects. */
  lemma BigsAdd(s: Bytes, decode: Bytes -> Bytes, bigs: seq<nat>, ts: seq<Tree>, t: Tree, at: nat)
    ensures bigs + BigObjectsAll(s, decode, ts, at) + BigObjects(s, decode, t, at + SizeAll(ts)) ==
      bigs + BigObjectsAll(s, decode, ts + [t], at)
  {
    hide *;
    BigObjectsAppend(s, decode, ts, t, at);
    Sequences.Joined(bigs, BigObjectsAll(s, decode, ts, at), BigObjects(s, decode, t, at + SizeAll(ts)),
                     BigObjectsAll(s, decode, ts + [t], at));
  }

  lemma EscapesAdd(s: Bytes, escapes: seq<nat>, ts: seq<Tree>, t: Tree, named: bool)
    ensures escapes + EscapesAll(s, ts, named) + (if named then Noted(s, t.name) else []) + Escapes(s, t) ==
      escapes + EscapesAll(s, ts + [t], named)
  {
    hide Noted, EscapesAll, Escapes;
    var name := if named then Noted(s, t.name) else [];
    EscapesAppend(s, ts, t, named);
    Sequences.Group(escapes + EscapesAll(s, ts, named), name, Escapes(s, t));
    Sequences.Group(escapes, EscapesAll(s, ts, named), name + Escapes(s, t));
  }

  lemma NoBigs(s: Bytes, decode: Bytes -> Bytes, at: nat)
    ensures BigObjectsAll(s, decode, [], at) == []
  {
  }

  /** A scalar is no object. */
  lemma NoBig(s: Bytes, decode: Bytes -> Bytes, c: byte, at: nat)
    ensures BigObjectsAll(s, decode, [], at) == [] && !BigObject(s, decode, c, [])
  {
  }

  lemma NotBig(s: Bytes, decode: Bytes -> Bytes, c: byte, kids: seq<Tree>)
    requires c != OBJECT
    ensures !BigObject(s, decode, c, kids)
  {
  }

  lemma RefRange(s: Bytes, decode: Bytes -> Bytes, nodes: seq<Node>, kids: seq<Tree>, ref: int)
    requires RefKnown(s, decode, nodes, kids, ref)
    ensures ref >= 0 ==> ref < |nodes| && nodes[ref].start < |s|
  {
  }

  /** The head of an array's item is where it starts. */
  lemma HeadIs(s: Bytes, decode: Bytes -> Bytes, i: nat, close: byte, names: set<Bytes>)
    requires i <= |s|
    ensures close != OBJECT + 2 ==> Head(s, decode, i, close, names) == Some((i, 0, names))
    ensures close == OBJECT + 2 ==>
      var m := MemberName(s, i);
      Head(s, decode, i, close, names) ==
        if m.None? || decode(s[i..m.value.0]) in names then None
        else Some((m.value.1, i, names + {decode(s[i..m.value.0])}))
  {
    hide MemberName;
  }

  /** Members read before, and those to come. */
  function With(done: seq<Tree>, r: Option<(seq<Tree>, nat)>): Option<(seq<Tree>, nat)> {
    if r.Some? then Some((done + r.value.0, r.value.1)) else None
  }

  lemma WithMore(done: seq<Tree>, t: Tree, r: Option<(seq<Tree>, nat)>)
    ensures With(done, if r.Some? then Some(([t] + r.value.0, r.value.1)) else None) == With(done + [t], r)
  {
    if r.Some? {
      assert done + ([t] + r.value.0) == done + [t] + r.value.0;
    }
  }

  lemma Nothing(src: Bytes, names: seq<Bytes>, at: nat, named: bool)
    ensures FlattenAll([], at) == [] && EscapesAll(src, [], named) == [] && NamesIn(names, |names|, None) == {}
    ensures forall r: Option<(seq<Tree>, nat)> :: With([], r) == r
  {
    forall r: Option<(seq<Tree>, nat)> ensures With([], r) == r {
      if r.Some? {
        assert [] + r.value.0 == r.value.0;
      }
    }
  }

  /** Reads a whole text: its values in order, the strings with an escape and the objects of many members with a string
      $ref, or that it is not one value. */
  method ParseTree(src: Bytes, decode: Bytes -> Bytes)
      returns (ok: bool, nodes: seq<Node>, escapes: seq<nat>, bigRefs: seq<nat>)
    ensures ok <==> JsonGrammar.IsDocument(decode, src)
    ensures ok ==> Parse(src, decode).Some? && var t := Parse(src, decode).value;
      nodes == Flatten(t, 0) && escapes == Escapes(src, t) && bigRefs == BigObjects(src, decode, t, 0)
  {
    hide JsonGrammar.IsDocument, Read, Escapes, Flatten, BigObjects;
    JsonGrammar.ParsedIs(decode, src);
    var p := new Scanner(src, decode);
    p.Blank();
    ok := p.Value(1, 0);
    if ok {
      p.Blank();
      assert [] + p.nodes == p.nodes && [] + p.escapes == p.escapes && [] + p.bigRefs == p.bigRefs;
    }
    ok := ok && p.i == |src|;
    nodes, escapes, bigRefs := p.nodes, p.escapes, p.bigRefs;
    if ok {
      var t := Parse(src, decode).value;
      assert [] + Flatten(t, 0) == Flatten(t, 0) && [] + Escapes(src, t) == Escapes(src, t);
      assert [] + BigObjects(src, decode, t, 0) == BigObjects(src, decode, t, 0);
    }
  }
}
