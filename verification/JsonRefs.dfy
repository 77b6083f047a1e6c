/** The objects of a JSON text with many members, one of them a string $ref. */
module JsonRefs {
  import opened Ascii
  import opened JsonText
  import Sequences

  /** The name of t decodes to $ref, and its value begins as strings do. */
  predicate RefMember(s: Bytes, decode: Bytes -> Bytes, t: Tree) {
    decode(NameOf(s, t.name)) == REF && t.start < |s| && s[t.start] == QUOTE
  }

  /** What starts with c and has these members is one of the objects. */
  predicate BigObject(s: Bytes, decode: Bytes -> Bytes, c: byte, kids: seq<Tree>) {
    c == OBJECT && |kids| > 16 && exists k :: 0 <= k < |kids| && RefMember(s, decode, kids[k])
  }

  /** Those of a value, each after those in it, by their places among the values of the text, its own being at. */
  function BigObjects(s: Bytes, decode: Bytes -> Bytes, t: Tree, at: nat): seq<nat>
    decreases t
  {
    BigObjectsAll(s, decode, t.kids, at + 1) +
    if t.start < |s| && BigObject(s, decode, s[t.start], t.kids) then [at] else []
  }

  function BigObjectsAll(s: Bytes, decode: Bytes -> Bytes, ts: seq<Tree>, at: nat): seq<nat>
    decreases ts
  {
    if ts == [] then [] else BigObjects(s, decode, ts[0], at) + BigObjectsAll(s, decode, ts[1..], at + Size(ts[0]))
  }

  lemma BigObjectsCons(s: Bytes, decode: Bytes -> Bytes, t: Tree, ts: seq<Tree>, at: nat)
    ensures BigObjectsAll(s, decode, [t] + ts, at) ==
      BigObjects(s, decode, t, at) + BigObjectsAll(s, decode, ts, at + Size(t))
  {
    hide BigObjects, Size;
    Sequences.Rest(t, ts);
  }

  lemma {:induction false} BigObjectsAppend(s: Bytes, decode: Bytes -> Bytes, ts: seq<Tree>, t: Tree, at: nat)
    ensures BigObjectsAll(s, decode, ts + [t], at) ==
      BigObjectsAll(s, decode, ts, at) + BigObjects(s, decode, t, at + SizeAll(ts))
    decreases |ts|
  {
    hide BigObjects, Size;
    if ts == [] {
      Sequences.Nothing([t]);
      BigObjectsCons(s, decode, t, [], at);
    } else {
      Sequences.Whole(ts);
      Sequences.Group([ts[0]], ts[1..], [t]);
      BigObjectsCons(s, decode, ts[0], ts[1..] + [t], at);
      BigObjectsAppend(s, decode, ts[1..], t, at + Size(ts[0]));
    }
  }

  // Members as they are read: the node of the value of the one named $ref, if one is.

  ghost predicate RefKnown(s: Bytes, decode: Bytes -> Bytes, nodes: seq<Node>, kids: seq<Tree>, ref: int) {
    && (ref < 0 ==> forall k :: 0 <= k < |kids| ==> decode(NameOf(s, kids[k].name)) != REF)
    && (ref >= 0 ==> ref < |nodes| && nodes[ref].start < |s|)
    && (ref >= 0 ==> (s[nodes[ref].start] == QUOTE <==> exists k :: 0 <= k < |kids| && RefMember(s, decode, kids[k])))
  }

  ghost predicate InNames(s: Bytes, decode: Bytes -> Bytes, kids: seq<Tree>, names: set<Bytes>) {
    forall k :: 0 <= k < |kids| ==> decode(NameOf(s, kids[k].name)) in names
  }

  lemma RefNone(s: Bytes, decode: Bytes -> Bytes, nodes: seq<Node>)
    ensures RefKnown(s, decode, nodes, [], -1) && InNames(s, decode, [], {})
  {
  }

  /** A member more, named as none before, whose nodes follow. */
  lemma RefMore(s: Bytes, decode: Bytes -> Bytes, nodes: seq<Node>, more: seq<Node>, kids: seq<Tree>, t: Tree,
      ref: int, names: set<Bytes>)
    requires RefKnown(s, decode, nodes, kids, ref) && InNames(s, decode, kids, names)
    requires decode(NameOf(s, t.name)) !in names && t.start < |s|
    requires nodes <= more && |nodes| < |more| && more[|nodes|].start == t.start
    ensures var name := decode(NameOf(s, t.name));
      && RefKnown(s, decode, more, kids + [t], if name == REF then |nodes| else ref)
      && InNames(s, decode, kids + [t], names + {name})
  {
    hide NameOf;
    var all := kids + [t];
    assert all[|kids|] == t && forall k :: 0 <= k < |kids| ==> all[k] == kids[k];
    if decode(NameOf(s, t.name)) == REF {
      if k :| 0 <= k < |all| && RefMember(s, decode, all[k]) {
        assert k == |kids|;
      }
    } else {
      if k :| 0 <= k < |all| && RefMember(s, decode, all[k]) {
        assert RefMember(s, decode, kids[k]);
      }
      if k :| 0 <= k < |kids| && RefMember(s, decode, kids[k]) {
        assert RefMember(s, decode, all[k]);
      }
    }
  }

  /** What was remembered of $ref decides whether the object is recorded: more than MANY members, a quote at
      its node. */
  lemma BigIs(s: Bytes, decode: Bytes -> Bytes, nodes: seq<Node>, kids: seq<Tree>, ref: int)
    requires RefKnown(s, decode, nodes, kids, ref)
    ensures BigObject(s, decode, OBJECT, kids) <==> |kids| > MANY && ref >= 0 && s[nodes[ref].start] == QUOTE
  {
    hide NameOf;
    if k :| 0 <= k < |kids| && RefMember(s, decode, kids[k]) {
      assert decode(NameOf(s, kids[k].name)) == REF;
    }
  }

  /** A member's name is what its head reads, and none before. */
  lemma HeadName(s: Bytes, decode: Bytes -> Bytes, i: nat, names: set<Bytes>)
    requires i <= |s| && Head(s, decode, i, OBJECT + 2, names).Some?
    ensures var (at, name, more) := Head(s, decode, i, OBJECT + 2, names).value;
      && name == i && decode(NameOf(s, i)) !in names && more == names + {decode(NameOf(s, i))}
      && MemberName(s, i).Some? && s[i..MemberName(s, i).value.0] == NameOf(s, i)
  {
    hide Inside;
  }
}
