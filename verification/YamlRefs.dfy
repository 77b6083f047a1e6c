/** The objects recorded of a YAML document are those that reading its text records. */
module YamlRefs {
  import opened Ascii
  import opened JsonText
  import opened JsonPrint
  import opened JsonRefs
  import opened Yaml
  import JsonScan

  /** A value printed in s has the objects of many members with a string $ref that reading it there gives. */
  lemma {:induction false} BigsRead(q: Strings, s: Bytes, v: Json, i: nat, name: nat, at: nat)
    requires Well(q.decode, v) && Has(s, i, Print(v))
    ensures BigObjects(s, q.decode, TreeOf(v, i, name), at) == Bigs(q, v, at)
    decreases v
  {
    hide PrintAll, WellAll, TreeOfAll, BigObjectsAll, BigsAll, RefMember, IsRef;
    PrintStarts(q.decode, v);
    HasByte(s, i, Print(v), 0);
    TreeName(v, i, name);
    if v.Scalar? || v.members == [] {
      NoneBig(q, v, i, at);
      JsonScan.NoBig(s, q.decode, s[i], at + 1);
    } else {
      var open := [if v.keyed then OBJECT else ARRAY];
      assert Print(v) == open + PrintAll(v.members, v.keyed);
      HasParts(s, i, open, PrintAll(v.members, v.keyed));
      MembersRead(q, s, v.members, v.keyed, i + 1, {}, at + 1);
      if !v.keyed {
        JsonScan.NotBig(s, q.decode, s[i], TreeOf(v, i, name).kids);
      }
    }
  }

  lemma NoneBig(q: Strings, v: Json, i: nat, at: nat)
    requires v.Scalar? || v.members == []
    ensures Bigs(q, v, at) == [] && TreeOf(v, i, 0).kids == []
  {
  }

  lemma {:induction false} MemberRead(q: Strings, s: Bytes, m: Member, keyed: bool, i: nat, more: Bytes, at: nat)
    requires Well(q.decode, m.value) && (keyed ==> Quoted(m.name))
    requires Has(s, i, (if keyed then m.name + [COLON] else []) + (Print(m.value) + more))
    ensures var t := TreeOf(m.value, i + NameLength(m, keyed), if keyed then i else 0);
      && BigObjects(s, q.decode, t, at) == Bigs(q, m.value, at)
      && (keyed ==> (RefMember(s, q.decode, t) <==> IsRef(q, m)))
    ensures Has(s, i + NameLength(m, keyed) + |Print(m.value)|, more)
    decreases m
  {
    hide Bigs, BigObjects, TreeOf, Well, Quoted, NameOf, Has, PrintAll;
    var name := if keyed then m.name + [COLON] else [];
    var j := i + NameLength(m, keyed);
    PrintStarts(q.decode, m.value);
    HasParts(s, i, name, Print(m.value) + more);
    HasParts(s, j, Print(m.value), more);
    HasByte(s, j, Print(m.value), 0);
    BigsRead(q, s, m.value, j, if keyed then i else 0, at);
    TreeName(m.value, j, if keyed then i else 0);
    if keyed {
      NameShift(m.name, s, i, Print(m.value) + more);
    }
  }

  lemma {:induction false} MembersRead(q: Strings, s: Bytes, ms: seq<Member>, keyed: bool, i: nat, names: set<Bytes>,
      at: nat)
    requires ms != [] && WellAll(q.decode, ms, keyed, names) && Has(s, i, PrintAll(ms, keyed))
    ensures var ts := TreeOfAll(ms, i, keyed);
      && BigObjectsAll(s, q.decode, ts, at) == BigsAll(q, ms, at) && |ts| == |ms|
      && (keyed ==> forall k :: 0 <= k < |ms| ==> (RefMember(s, q.decode, ts[k]) <==> IsRef(q, ms[k])))
    decreases ms
  {
    hide Print, BigObjects, BigObjectsAll, Bigs, TreeOf, Well, PrintAll, After, Quoted, WellAll, Has, RefMember,
      IsRef, Size, Count;
    var m := ms[0];
    WellCons(q.decode, ms, keyed, names);
    PrintCons(ms, keyed);
    MemberRead(q, s, m, keyed, i, After(ms, keyed), at);
    var j := i + NameLength(m, keyed);
    var t := TreeOf(m.value, j, if keyed then i else 0);
    SizeCount(m.value, j, if keyed then i else 0);
    var next := i + MemberLength(m, keyed);
    var rest := TreeOfAll(ms[1..], next, keyed);
    if |ms| > 1 {
      AfterMore(ms, keyed);
      HasParts(s, next - 1, [COMMA], PrintAll(ms[1..], keyed));
      MembersRead(q, s, ms[1..], keyed, next, if keyed then names + {q.decode(m.name)} else names, at + Count(m.value));
    } else {
      JsonScan.NoBigs(s, q.decode, at + Count(m.value));
    }
    var ts := TreeOfAll(ms, i, keyed);
    assert ts == [t] + rest;
    BigObjectsCons(s, q.decode, t, rest, at);
    forall k | keyed && 0 <= k < |ms| ensures RefMember(s, q.decode, ts[k]) <==> IsRef(q, ms[k]) {
      assert ts[k] == if k == 0 then t else rest[k - 1];
    }
  }
}
