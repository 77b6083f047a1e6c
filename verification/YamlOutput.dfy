/** What is written of a value, wherever it is, and what is kept of it to write it again. */
module YamlOutput {
  import opened Ascii
  import opened JsonText
  import opened JsonOrder
  import opened JsonPrint
  import opened Yaml
  import Sequences

  /** A text and its nodes, the strings in it that may have an escape, and the objects with a string $ref. */
  datatype Output = Output(text: Bytes, nodes: seq<JsonText.Node>, escapes: seq<nat>, bigs: seq<nat>)

  /** o extended by v: its text, nodes and records, all shifted to where v comes, named at name. */
  function Wrote(q: Strings, o: Output, v: Json, name: nat): Output {
    Output(o.text + Print(v), o.nodes + Flatten(TreeOf(v, |o.text|, name), |o.nodes|),
           o.escapes + Marks(q, v, |o.text|), o.bigs + Bigs(q, v, |o.nodes|))
  }

  function NameText(m: Member, keyed: bool): Bytes {
    if keyed then m.name + [COLON] else []
  }

  /** Members as they are printed, but the bracket. */
  function Listed(ms: seq<Member>, keyed: bool): Bytes {
    if ms == [] then []
    else NameText(ms[0], keyed) + Print(ms[0].value) + (if |ms| == 1 then [] else [COMMA] + Listed(ms[1..], keyed))
  }

  /** Where the member after others starts. */
  function NextAt(ms: seq<Member>, keyed: bool, i: nat): nat {
    i + |Listed(ms, keyed)| + if ms == [] then 0 else 1
  }

  function WroteAll(q: Strings, o: Output, ms: seq<Member>, keyed: bool): Output {
    Output(o.text + Listed(ms, keyed), o.nodes + FlattenAll(TreeOfAll(ms, |o.text|, keyed), |o.nodes|),
           o.escapes + MarksAll(q, ms, |o.text|, keyed), o.bigs + BigsAll(q, ms, |o.nodes|))
  }

  /** What precedes a member's value: a comma but before the first, and its name. */
  function Keyed(q: Strings, o: Output, first: bool, m: Member, keyed: bool): Output {
    var text := o.text + if first then [] else [COMMA];
    Output(text + NameText(m, keyed), o.nodes,
           o.escapes + (if keyed && q.marks(q.decode(m.name)) then [|text|] else []), o.bigs)
  }

  lemma ListedNone(keyed: bool)
    ensures Listed([], keyed) == []
  {
  }

  /** The first member listed, and those after it. */
  lemma ListedCons(m: Member, ms: seq<Member>, keyed: bool)
    ensures Listed([m] + ms, keyed) ==
      NameText(m, keyed) + Print(m.value) + (if ms == [] then [] else [COMMA] + Listed(ms, keyed))
    ensures Listed([], keyed) == []
  {
    hide Print, NameText;
    Sequences.Rest(m, ms);
  }

  lemma {:induction false} ListedMore(ms: seq<Member>, m: Member, keyed: bool)
    ensures Listed(ms + [m], keyed) ==
      Listed(ms, keyed) + (if ms == [] then [] else [COMMA]) + (NameText(m, keyed) + Print(m.value))
    decreases |ms|
  {
    hide Print, NameText, Listed;
    var last := NameText(m, keyed) + Print(m.value);
    ListedCons(m, [], keyed);
    if ms == [] {
      Sequences.Nothing([m]);
      Sequences.Nothing(last);
    } else {
      var head := NameText(ms[0], keyed) + Print(ms[0].value);
      Sequences.Whole(ms);
      Sequences.Group([ms[0]], ms[1..], [m]);
      ListedCons(ms[0], ms[1..], keyed);
      ListedCons(ms[0], ms[1..] + [m], keyed);
      ListedMore(ms[1..], m, keyed);
      if |ms| == 1 {
        Sequences.Nothing(head);
        Sequences.Nothing(last);
        Sequences.Group(head, [COMMA], last);
      } else {
        ListedGroup(head, Listed(ms[1..], keyed), last);
      }
    }
  }

  lemma ListedGroup(a: Bytes, b: Bytes, c: Bytes)
    ensures a + ([COMMA] + (b + [COMMA] + c)) == a + ([COMMA] + b) + [COMMA] + c
  {
  }

  lemma {:induction false} ListedPrints(ms: seq<Member>, keyed: bool)
    requires ms != []
    ensures PrintAll(ms, keyed) == Listed(ms, keyed) + [Close(keyed)]
    decreases |ms|
  {
    hide Print;
    if |ms| > 1 {
      ListedPrints(ms[1..], keyed);
    }
  }

  lemma TreesCons(m: Member, ms: seq<Member>, keyed: bool, i: nat)
    ensures TreeOfAll([m] + ms, i, keyed) ==
      [TreeOf(m.value, i + NameLength(m, keyed), if keyed then i else 0)] +
        TreeOfAll(ms, i + MemberLength(m, keyed), keyed)
    ensures TreeOfAll([], i, keyed) == []
  {
    hide Print, TreeOf;
    Sequences.Rest(m, ms);
  }

  /** Where the next member is, past the first. */
  lemma NextCons(m: Member, ms: seq<Member>, keyed: bool, i: nat)
    ensures NextAt([m] + ms, keyed, i) == NextAt(ms, keyed, i + MemberLength(m, keyed))
  {
    hide Print, Listed;
    ListedCons(m, ms, keyed);
  }

  lemma {:induction false} TreesMore(ms: seq<Member>, m: Member, keyed: bool, i: nat)
    ensures var j := NextAt(ms, keyed, i);
      TreeOfAll(ms + [m], i, keyed) ==
        TreeOfAll(ms, i, keyed) + [TreeOf(m.value, j + NameLength(m, keyed), if keyed then j else 0)]
    decreases |ms|
  {
    hide Print, TreeOf, TreeOfAll, MemberLength, NextAt;
    var j := NextAt(ms, keyed, i);
    var last := [TreeOf(m.value, j + NameLength(m, keyed), if keyed then j else 0)];
    TreesCons(m, [], keyed, i);
    TreesCons(m, [], keyed, i + MemberLength(m, keyed));
    if ms == [] {
      NextNone(keyed, i);
      Sequences.Nothing([m]);
      Sequences.Nothing(last);
    } else {
      Sequences.Whole(ms);
      Sequences.Group([ms[0]], ms[1..], [m]);
      TreesCons(ms[0], ms[1..], keyed, i);
      TreesCons(ms[0], ms[1..] + [m], keyed, i);
      NextCons(ms[0], ms[1..], keyed, i);
      TreesMore(ms[1..], m, keyed, i + MemberLength(ms[0], keyed));
      Sequences.Group([TreeOf(ms[0].value, i + NameLength(ms[0], keyed), if keyed then i else 0)],
                      TreeOfAll(ms[1..], i + MemberLength(ms[0], keyed), keyed), last);
    }
  }

  lemma NextNone(keyed: bool, i: nat)
    ensures NextAt([], keyed, i) == i
  {
  }

  lemma {:induction false} NodesMore(ms: seq<Member>, m: Member, keyed: bool, i: nat, at: nat)
    ensures var j := NextAt(ms, keyed, i);
      FlattenAll(TreeOfAll(ms + [m], i, keyed), at) ==
        FlattenAll(TreeOfAll(ms, i, keyed), at) +
          Flatten(TreeOf(m.value, j + NameLength(m, keyed), if keyed then j else 0), at + CountAll(ms))
  {
    hide TreeOf, TreeOfAll, FlattenAll, Flatten, NextAt;
    TreesMore(ms, m, keyed, i);
    var j := NextAt(ms, keyed, i);
    SizeCountAll(ms, i, keyed);
    FlattenAppend(TreeOfAll(ms, i, keyed), TreeOf(m.value, j + NameLength(m, keyed), if keyed then j else 0), at);
  }

  lemma MarksCons(q: Strings, m: Member, ms: seq<Member>, keyed: bool, i: nat)
    ensures MarksAll(q, [m] + ms, i, keyed) ==
      MarksOf(q, m, i, keyed) + MarksAll(q, ms, i + MemberLength(m, keyed), keyed)
    ensures MarksAll(q, [], i, keyed) == []
  {
    hide Print, MarksOf;
    Sequences.Rest(m, ms);
  }

  lemma {:induction false} MarksMore(q: Strings, ms: seq<Member>, m: Member, keyed: bool, i: nat)
    ensures MarksAll(q, ms + [m], i, keyed) == MarksAll(q, ms, i, keyed) + MarksOf(q, m, NextAt(ms, keyed, i), keyed)
    decreases |ms|
  {
    hide Print, MarksOf, MarksAll, MemberLength, NextAt;
    MarksCons(q, m, [], keyed, i);
    MarksCons(q, m, [], keyed, i + MemberLength(m, keyed));
    if ms == [] {
      NextNone(keyed, i);
      Sequences.Nothing([m]);
      Sequences.Nothing(MarksOf(q, m, i, keyed));
    } else {
      Sequences.Whole(ms);
      Sequences.Group([ms[0]], ms[1..], [m]);
      MarksCons(q, ms[0], ms[1..], keyed, i);
      MarksCons(q, ms[0], ms[1..] + [m], keyed, i);
      NextCons(ms[0], ms[1..], keyed, i);
      MarksMore(q, ms[1..], m, keyed, i + MemberLength(ms[0], keyed));
      Sequences.Group(MarksOf(q, ms[0], i, keyed), MarksAll(q, ms[1..], i + MemberLength(ms[0], keyed), keyed),
                      MarksOf(q, m, NextAt(ms, keyed, i), keyed));
    }
  }

  lemma {:induction false} BigsMore(q: Strings, ms: seq<Member>, m: Member, at: nat)
    ensures BigsAll(q, ms + [m], at) == BigsAll(q, ms, at) + Bigs(q, m.value, at + CountAll(ms))
    decreases |ms|
  {
    hide Bigs, Count;
    if ms == [] {
      assert [] + [m] == [m] && BigsAll(q, [m][1..], at + Count(m.value)) == [];
    } else {
      assert (ms + [m])[1..] == ms[1..] + [m];
      BigsMore(q, ms[1..], m, at + Count(ms[0].value));
    }
  }

  lemma TextMore(o: Bytes, ms: seq<Member>, m: Member, keyed: bool)
    ensures o + Listed(ms, keyed) + (if ms == [] then [] else [COMMA]) + NameText(m, keyed) + Print(m.value) ==
      o + Listed(ms + [m], keyed)
    ensures |o + Listed(ms, keyed) + if ms == [] then [] else [COMMA]| == NextAt(ms, keyed, |o|)
    ensures |NameText(m, keyed)| == NameLength(m, keyed)
  {
    hide Print;
    ListedMore(ms, m, keyed);
    Sequences.Regroup(o, Listed(ms, keyed), if ms == [] then [] else [COMMA], NameText(m, keyed) + Print(m.value));
    var a := o + Listed(ms, keyed) + if ms == [] then [] else [COMMA];
    assert a + NameText(m, keyed) + Print(m.value) == a + (NameText(m, keyed) + Print(m.value));
  }

  /** Writing a member after others is writing them all. */
  lemma WroteMore(q: Strings, o: Output, ms: seq<Member>, m: Member, keyed: bool)
    ensures var p := WroteAll(q, o, ms, keyed);
      Wrote(q, Keyed(q, p, ms == [], m, keyed), m.value, if keyed then |p.text| + (if ms == [] then 0 else 1) else 0) ==
        WroteAll(q, o, ms + [m], keyed)
  {
    hide Print, Listed, TreeOf, TreeOfAll, Flatten, FlattenAll, Marks, MarksAll, Bigs, BigsAll, NextAt, NameText;
    var p, j := WroteAll(q, o, ms, keyed), NextAt(ms, keyed, |o.text|);
    TextMore(o.text, ms, m, keyed);
    NodesMore(ms, m, keyed, |o.text|, |o.nodes|);
    MarksMore(q, ms, m, keyed, |o.text|);
    BigsMore(q, ms, m, |o.nodes|);
    SizeCountAll(ms, |o.text|, keyed);
    var name := if keyed && q.marks(q.decode(m.name)) then [j] else [];
    Sequences.Group(o.nodes, FlattenAll(TreeOfAll(ms, |o.text|, keyed), |o.nodes|),
      Flatten(TreeOf(m.value, j + NameLength(m, keyed), if keyed then j else 0), |p.nodes|));
    Sequences.Group(o.escapes + MarksAll(q, ms, |o.text|, keyed), name, Marks(q, m.value, j + NameLength(m, keyed)));
    Sequences.Group(o.escapes, MarksAll(q, ms, |o.text|, keyed), MarksOf(q, m, j, keyed));
    Sequences.Group(o.bigs, BigsAll(q, ms, |o.nodes|), Bigs(q, m.value, |p.nodes|));
  }

  // Marks rise.

  lemma {:induction false} MarksRise(q: Strings, v: Json, i: nat)
    requires Printable(v)
    ensures Rising(Marks(q, v, i), i, i + |Print(v)|)
    decreases v
  {
    hide PrintAll;
    match v
    case Scalar(text) =>
    case Container(keyed, members) =>
      if members == [] {
        assert MarksAll(q, members, i + 1, keyed) == [];
      } else {
        ListedPrints(members, keyed);
        MarksAllRise(q, members, i + 1, keyed);
        RisingMore(MarksAll(q, members, i + 1, keyed), i + 1, i + 1 + |Listed(members, keyed)|, i, i + |Print(v)|);
      }
  }

  predicate Printable(v: Json)
    decreases v
  {
    match v
    case Scalar(text) => text != []
    case Container(keyed, members) => PrintableAll(members, keyed)
  }

  predicate PrintableAll(ms: seq<Member>, keyed: bool)
    decreases ms
  {
    ms != [] ==> Printable(ms[0].value) && PrintableAll(ms[1..], keyed)
  }

  lemma {:induction false} MemberMarksRise(q: Strings, m: Member, i: nat, keyed: bool)
    requires Printable(m.value)
    ensures Rising(MarksOf(q, m, i, keyed), i, i + NameLength(m, keyed) + |Print(m.value)|)
    decreases m
  {
    hide Printable, Marks, Print;
    var j := i + NameLength(m, keyed);
    MarksRise(q, m.value, j);
    RisingJoin(if keyed && q.marks(q.decode(m.name)) then [i] else [],
      Marks(q, m.value, j), i, j, j, j + |Print(m.value)|);
  }

  lemma {:induction false} MarksAllRise(q: Strings, ms: seq<Member>, i: nat, keyed: bool)
    requires PrintableAll(ms, keyed)
    ensures Rising(MarksAll(q, ms, i, keyed), i, i + |Listed(ms, keyed)|)
    decreases ms
  {
    hide Printable, MarksOf, Print, Rising;
    if ms == [] {
      RisingSmall(i, i);
    } else {
      var k := i + NameLength(ms[0], keyed) + |Print(ms[0].value)|;
      var marks := MarksOf(q, ms[0], i, keyed);
      MemberMarksRise(q, ms[0], i, keyed);
      if |ms| == 1 {
        assert MarksAll(q, ms[1..], k + 1, keyed) == [];
        assert marks + [] == marks;
      } else {
        MarksAllRise(q, ms[1..], k + 1, keyed);
        RisingJoin(marks, MarksAll(q, ms[1..], k + 1, keyed), i, k, k + 1, k + 1 + |Listed(ms[1..], keyed)|);
      }
    }
  }
}
