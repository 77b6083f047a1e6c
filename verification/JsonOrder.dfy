/** The strings with an escape are noted in order, so that a binary search finds them. */
module JsonOrder {
  import opened Ascii
  import opened JsonText

  /** Members lie one after another, each name before its value. */
  predicate Placed(s: Bytes, t: Tree)
    decreases t
  {
    && t.start < t.stop && PlacedAll(s, t.kids, t.start + 1, t.stop)
    && (t.start < |s| && s[t.start] == OBJECT ==> Named(t.kids))
  }

  predicate Named(ts: seq<Tree>) {
    forall t :: t in ts ==> t.name != 0
  }

  predicate PlacedAll(s: Bytes, ts: seq<Tree>, lo: nat, hi: nat)
    decreases ts
  {
    lo <= hi && (ts != [] ==>
      && lo <= ts[0].start && ts[0].stop <= hi && Placed(s, ts[0])
      && (ts[0].name == 0 || lo <= ts[0].name < ts[0].start)
      && PlacedAll(s, ts[1..], ts[0].stop, hi))
  }

  lemma {:induction false} PlacedMore(s: Bytes, ts: seq<Tree>, lo: nat, low: nat, hi: nat)
    requires PlacedAll(s, ts, lo, hi) && low <= lo
    ensures PlacedAll(s, ts, low, hi)
  {
  }

  lemma {:induction false} ReadPlaced(s: Bytes, decode: Bytes -> Bytes, i: nat, depth: nat, name: nat)
    requires i <= |s| && Read(s, decode, i, depth, name).Some?
    ensures Placed(s, Read(s, decode, i, depth, name).value)
    decreases |s| - i, 0
  {
    hide ScalarEnd, ReadMembers;
    if Opens(s[i]) {
      MembersPlaced(s, decode, i + 1, s[i] + 2, depth, true, {});
    } else {
      assert PlacedAll(s, [], i + 1, ScalarEnd(s, i).value);
    }
  }

  lemma {:induction false} MembersPlaced(s: Bytes, decode: Bytes -> Bytes, i: nat, close: byte, depth: nat,
      first: bool, names: set<Bytes>)
    requires 0 < i <= |s| && ReadMembers(s, decode, i, close, depth, first, names).Some?
    ensures var (kids, stop) := ReadMembers(s, decode, i, close, depth, first, names).value; PlacedAll(s, kids, i, stop)
    ensures close == OBJECT + 2 ==> Named(ReadMembers(s, decode, i, close, depth, first, names).value.0)
    decreases |s| - i, 2
  {
    hide ReadMember, Placed, Inside;
    var j := Space(s, i);
    if !(first && j < |s| && s[j] == close) {
      var h := Head(s, decode, j, close, names).value;
      MemberPlaced(s, decode, h.0, h.1, close, depth, h.2);
      var (kids, stop) := ReadMember(s, decode, h.0, h.1, close, depth, h.2).value;
      if kids != [] {
        assert kids[0] in kids;
      }
    }
  }

  lemma {:induction false} MemberPlaced(s: Bytes, decode: Bytes -> Bytes, i: nat, name: nat, close: byte, depth: nat,
      names: set<Bytes>)
    requires i <= |s| && ReadMember(s, decode, i, name, close, depth, names).Some? && (name < i || name == 0)
    requires close == OBJECT + 2 ==> name != 0
    ensures var (kids, stop) := ReadMember(s, decode, i, name, close, depth, names).value;
      kids != [] && kids[0].name == name && kids[0].start == i &&
        PlacedAll(s, kids, if name == 0 then i else name, stop)
    ensures close == OBJECT + 2 ==> Named(ReadMember(s, decode, i, name, close, depth, names).value.0)
    decreases |s| - i, 1
  {
    hide Read, ReadMembers, Placed;
    ReadPlaced(s, decode, i, depth + 1, name);
    var v := Read(s, decode, i, depth + 1, name).value;
    var k := Space(s, v.stop);
    if s[k] == close {
      assert [v][1..] == [] && PlacedAll(s, [], v.stop, k + 1);
    } else {
      MembersPlaced(s, decode, k + 1, close, depth, false, names);
      var (kids, stop) := ReadMembers(s, decode, k + 1, close, depth, false, names).value;
      PlacedMore(s, kids, k + 1, v.stop, stop);
      assert ([v] + kids)[1..] == kids;
    }
  }

  predicate Rising(xs: seq<nat>, lo: nat, hi: nat) {
    && (forall i :: 0 <= i < |xs| ==> lo <= xs[i] < hi)
    && (forall i, j :: 0 <= i < j < |xs| ==> xs[i] < xs[j])
  }

  lemma RisingJoin(xs: seq<nat>, ys: seq<nat>, lo: nat, mid: nat, low: nat, hi: nat)
    requires Rising(xs, lo, mid) && Rising(ys, low, hi) && lo <= low && mid <= low && mid <= hi
    ensures Rising(xs + ys, lo, hi)
  {
  }

  lemma RisingSmall(lo: nat, hi: nat)
    ensures Rising([], lo, hi) && (lo < hi ==> Rising([lo], lo, hi))
  {
  }

  lemma RisingMore(xs: seq<nat>, lo: nat, hi: nat, low: nat, high: nat)
    requires Rising(xs, lo, hi) && low <= lo && hi <= high
    ensures Rising(xs, low, high)
  {
  }

  /** The strings noted of a value lie in it, in order. */
  lemma {:induction false} EscapesRise(s: Bytes, t: Tree)
    requires Placed(s, t)
    ensures Rising(Escapes(s, t), t.start, t.stop)
    decreases t
  {
    hide Rising, Escaped;
    RisingSmall(t.start, t.stop);
    if t.start < |s| && Opens(s[t.start]) {
      EscapesAllRise(s, t.kids, s[t.start] == OBJECT, t.start + 1, t.stop);
      RisingMore(Escapes(s, t), t.start + 1, t.stop, t.start, t.stop);
    }
  }

  lemma {:induction false} EscapesAllRise(s: Bytes, ts: seq<Tree>, named: bool, lo: nat, hi: nat)
    requires PlacedAll(s, ts, lo, hi) && (named ==> Named(ts))
    ensures Rising(EscapesAll(s, ts, named), lo, hi)
    decreases ts
  {
    if ts != [] {
      var t := ts[0];
      assert t in ts && forall u :: u in ts[1..] ==> u in ts;
      EscapesRise(s, t);
      EscapesAllRise(s, ts[1..], named, t.stop, hi);
      var name := if named then Noted(s, t.name) else [];
      RisingJoin(name, Escapes(s, t), lo, t.start, t.start, t.stop);
      RisingJoin(name + Escapes(s, t), EscapesAll(s, ts[1..], named), lo, t.stop, t.stop, hi);
    }
  }
}
