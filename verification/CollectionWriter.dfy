/** The writer of Swagger collection parameters, within the bound of a request target. */
module CollectionWriter {
  import opened Ascii
  import opened Collections

  /** One array being written: whether a value of it is, and the array around it. */
  class Level {
    const parent: Level?
    const delim: Bytes
    const multi: bool
    const keyed: bool
    var begun: bool

    constructor (parent: Level?, delim: Bytes, multi: bool, keyed: bool)
      ensures this.parent == parent && this.delim == delim && this.multi == multi && this.keyed == keyed && !begun
    {
      this.parent, this.delim, this.multi, this.keyed, begun := parent, delim, multi, keyed, false;
    }
  }

  /** The levels, outermost first, the last in the one before it; what is begun is so in order. */
  ghost predicate Chain(ls: seq<Level>, l: Level?)
    reads ls
  {
    && (l == null <==> ls == [])
    && (l != null ==> ls[|ls| - 1] == l)
    && (ls != [] ==> ls[0].parent == null)
    && (forall i :: 0 < i < |ls| ==> ls[i].parent == ls[i - 1])
    && (forall i, j :: 0 <= i < j < |ls| ==> ls[i] != ls[j])
    && (forall i, j :: 0 <= i < j < |ls| && ls[j].begun ==> ls[i].begun)
    && (forall i :: 0 <= i < |ls| && ls[i].keyed ==> i == 0 && !ls[i].begun)
  }

  lemma Around(ls: seq<Level>, l: Level)
    requires Chain(ls, l)
    ensures Chain(ls[..|ls| - 1], l.parent) && l !in ls[..|ls| - 1] && ls == ls[..|ls| - 1] + [l]
    ensures l.begun ==> forall i :: 0 <= i < |ls| ==> ls[i].begun
    ensures l.keyed ==> |ls| == 1
  {
    var outer, n := ls[..|ls| - 1], |ls| - 1;
    assert ls[n] == l && (n > 0 ==> ls[n].parent == ls[n - 1]);
    assert l.begun ==> forall i :: 0 <= i < n ==> ls[i].begun;
    assert forall i :: 0 <= i < |outer| ==> outer[i] == ls[i];
  }

  class Writer {
    const lead: Bytes
    const name: Bytes
    const query: bool
    const defective: bool // the parameter's description is
    const nameOnly: bool // an empty value may be written as its name alone
    const escape: Bytes -> Bytes
    const max: nat
    var b: Bytes
    var empty: bool

    constructor (lead: Bytes, name: Bytes, query: bool, defective: bool, nameOnly: bool, escape: Bytes -> Bytes,
        max: nat, b: Bytes)
      ensures this.lead == lead && this.name == name && this.query == query && this.defective == defective
      ensures this.nameOnly == nameOnly && this.escape == escape && this.max == max && this.b == b && !empty
    {
      this.lead, this.name, this.query, this.defective, this.nameOnly, this.escape, this.max :=
        lead, name, query, defective, nameOnly, escape, max;
      this.b, empty := b, false;
    }

    /** Escaping does not shorten, and gives nothing of nothing. */
    ghost predicate Widens() {
      escape([]) == [] && forall s :: |escape(s)| >= |s|
    }

    /** What precedes a parameter's first value. */
    function Start(empty: bool): Bytes {
      lead + if query then name + (if empty && nameOnly then [] else [61]) else []
    }

    /** A delimiter as written, and between the values of a multi level the name again. */
    function Between(f: Format): Bytes {
      if f == Multi || f == Csv then Delimiter(f) else escape(Delimiter(f))
    }

    function Again(): Bytes {
      Delimiter(Multi) + if query then name + [61] else []
    }

    function DelimText(l: Level): Bytes {
      l.delim + if l.multi && query then name + [61] else []
    }

    /** What precedes the next value in the last of ls: the delimiter of the innermost level begun, or the start. */
    ghost function Sep(ls: seq<Level>, empty: bool): Bytes
      reads ls
    {
      if ls == [] then Start(empty)
      else if ls[|ls| - 1].begun then DelimText(ls[|ls| - 1])
      else Sep(ls[..|ls| - 1], empty)
    }

    ghost predicate Begun(ls: seq<Level>)
      reads ls
    {
      forall i :: 0 <= i < |ls| ==> ls[i].begun
    }

    /** No value can be written: the levels are an object's, or the first would be a defective parameter's. */
    ghost predicate Blocked(ls: seq<Level>)
      reads ls
    {
      if ls == [] then defective else ls[0].keyed || (!ls[0].begun && defective)
    }

    /** Precedes the next value in l, which begins it, and each level around not begun. */
    method Next(l: Level?, ghost ls: seq<Level>) returns (ok: bool)
      requires Chain(ls, l)
      modifies this`b, ls
      ensures ok <==> !old(Blocked(ls)) && |old(b)| + |old(Sep(ls, false))| <= max
      ensures ok ==> b == old(b) + old(Sep(ls, empty)) && Begun(ls) && Chain(ls, l)
      decreases |ls|
    {
      if l == null {
        if defective {
          return false;
        }
        var n := |lead|;
        if query {
          n := n + |name| + 1;
        }
        if |b| + n > max {
          return false;
        }
        b := b + lead;
        if query {
          b := b + name;
          if !(empty && nameOnly) {
            b := b + [61];
          }
        }
        return true;
      }
      Around(ls, l);
      if l.keyed {
        return false;
      }
      ghost var outer := ls[..|ls| - 1];
      if !l.begun {
        l.begun := true;
        ok := Next(l.parent, outer);
        if ok {
          Within(ls, outer, l);
        }
        return;
      }
      var s := l.delim;
      if l.multi && query {
        s := s + name + [61];
      }
      if |s| > max - |b| {
        return false;
      }
      b := b + s;
      assert s == DelimText(l);
      return true;
    }

    lemma Within(ls: seq<Level>, outer: seq<Level>, l: Level)
      requires Chain(outer, l.parent) && Begun(outer) && ls == outer + [l] && l !in outer && l.begun && !l.keyed
      ensures Chain(ls, l) && Begun(ls)
    {
      assert forall i :: 0 <= i < |outer| ==> ls[i] == outer[i] && outer[i] in outer;
      assert ls[|outer|] == l;
    }

    function Betweens(): Format -> Bytes {
      f => Between(f)
    }

    function Vals(v: Value, formats: seq<Format>): seq<Bytes> {
      Values(v, formats, escape, Betweens())
    }

    function AllVals(vs: seq<Value>, formats: seq<Format>): seq<Bytes> {
      AllValues(vs, formats, escape, Betweens())
    }

    /** What precedes each value but the first of those of one level, or of a parameter's. */
    ghost function Inner(ls: seq<Level>): Bytes {
      if ls == [] then Again() else DelimText(ls[|ls| - 1])
    }

    /** There is room for values in the last of ls. */
    ghost predicate Fits(ls: seq<Level>, xs: seq<Bytes>)
      reads this, ls
    {
      xs != [] ==> !Blocked(ls) && |b| + |Out(Sep(ls, false), Inner(ls), xs)| <= max
    }

    /** Writes a scalar, at depth 1 a parameter's own. */
    method Scalar(s: Bytes, depth: nat, parent: Level?, ghost ls: seq<Level>) returns (ok: bool)
      requires Widens() && Chain(ls, parent) && (depth == 1 <==> ls == []) && !empty
      modifies this, ls
      ensures ok <==> old(Fits(ls, [escape(s)]))
      ensures ok ==> b == old(b) + old(Sep(ls, depth == 1 && s == [])) + escape(s) && Begun(ls) && Chain(ls, parent)
      ensures ls != [] ==> !empty
    {
      OutOne(Sep(ls, false), Inner(ls), escape(s));
      SepEmpty(ls);
      if |s| > max - |b| {
        return false;
      }
      empty := depth == 1 && s == [];
      ok := Next(parent, ls);
      if !ok {
        return;
      }
      if |s| > max - |b| || |escape(s)| > max - |b| {
        return false;
      }
      b := b + escape(s);
    }

    lemma SepEmpty(ls: seq<Level>)
      ensures |Sep(ls, true)| <= |Sep(ls, false)|
      ensures ls != [] && Begun(ls) ==> Sep(ls, true) == Sep(ls, false)
    {
    }

    /** What is begun is as it was, and so what precedes the next value. */
    twostate predicate Same(ls: seq<Level>)
      reads ls
    {
      && (forall i :: 0 <= i < |ls| ==> ls[i].begun == old(ls[i].begun))
      && Sep(ls, false) == old(Sep(ls, false)) && (Blocked(ls) <==> old(Blocked(ls)))
    }

    /** A level new in parent. */
    lemma Extended(ls: seq<Level>, parent: Level?, level: Level, empty: bool)
      requires Chain(ls, parent) && level !in ls && level.parent == parent && !level.begun && !level.keyed
      ensures Chain(ls + [level], level) && Inner(ls + [level]) == DelimText(level)
      ensures Sep(ls + [level], empty) == Sep(ls, empty) && (Blocked(ls + [level]) <==> Blocked(ls))
    {
      var all := ls + [level];
      assert all[..|ls|] == ls && all[|ls|] == level;
      assert forall i :: 0 <= i < |ls| ==> all[i] == ls[i] && ls[i] in ls;
    }

    /** The items of an array fit in its level as what they come to does around it. */
    lemma ArrayFits(ls: seq<Level>, level: Level, xs: seq<Bytes>)
      requires Sep(ls + [level], false) == Sep(ls, false) && (Blocked(ls + [level]) <==> Blocked(ls))
      ensures var one := [Joined(xs, DelimText(level))];
        !level.multi ==> (Fits(ls + [level], Written(xs, level)) <==> Fits(ls, one))
      ensures var one := [Joined(xs, DelimText(level))];
        !level.multi ==>
          Out(Sep(ls, false), DelimText(level), Written(xs, level)) == Out(Sep(ls, false), Inner(ls), one)
      ensures DelimText(level) == Inner(ls) ==> (Fits(ls + [level], xs) <==> Fits(ls, xs))
    {
      hide Sep, Blocked, DelimText, Joined;
      assert (ls + [level])[|ls|] == level;
      OutOne(Sep(ls, false), Inner(ls), []);
      OutOne(Sep(ls, false), Inner(ls), Joined(xs, DelimText(level)));
      OutOne(Sep(ls, false), DelimText(level), []);
      if xs != [] {
        OutJoined(Sep(ls, false), DelimText(level), xs);
      } else {
        NothingJoined(DelimText(level));
      }
    }

    /** Ends an array: one of nothing defined comes to an empty value, but a multi one to none. */
    method Finish(l: Level, ghost ls: seq<Level>) returns (ok: bool)
      requires Chain(ls, l)
      modifies this`b, ls
      ensures old(l.begun) || l.multi ==> ok
      ensures old(l.begun) || l.multi ==> b == old(b) && Same(ls) && Chain(ls, l)
      ensures !old(l.begun) && !l.multi ==> (ok <==> !old(Blocked(ls)) && |old(b)| + |old(Sep(ls, false))| <= max)
      ensures ok && !old(l.begun) && !l.multi ==> b == old(b) + old(Sep(ls, empty)) && Begun(ls) && Chain(ls, l)
    {
      ok := true;
      if !l.begun && !l.multi {
        ok := Next(l, ls);
      }
    }

    lemma ArrayVals(items: seq<Value>, formats: seq<Format>)
      requires items != []
      ensures var xs, f := AllVals(items, ItemFormats(formats)), FormatOf(formats);
        Vals(List(items), formats) == if f == Multi then xs else [Joined(xs, Between(f))]
      ensures Joined([], Between(FormatOf(formats))) == []
    {
    }

    /** What an array's values come to in its level: an empty one if there are none. */
    function Written(xs: seq<Bytes>, level: Level): seq<Bytes> {
      if xs == [] && !level.multi then [[]] else xs
    }

    /** Writes the items of an array in its level, and ends it. */
    method InLevel(items: seq<Value>, formats: seq<Format>, depth: nat, level: Level,
        ghost ls: seq<Level>) returns (ok: bool)
      requires Widens() && Chain(ls, level) && depth > 1 && !empty && !level.begun
      requires MultiOutermost(formats) && FormatOf(formats) != Multi
      modifies this, ls
      ensures ok <==> AllAllowed(items, formats, depth) && old(Fits(ls, Written(AllVals(items, formats), level)))
      ensures ok ==> Chain(ls, level) && !empty
      ensures ok ==> b == old(b) + Out(old(Sep(ls, false)), DelimText(level), Written(AllVals(items, formats), level))
      ensures ok ==> if Written(AllVals(items, formats), level) == [] then Same(ls) else Begun(ls)
      decreases items, 1
    {
      hide Allowed, Fits, Sep, Widens, Out, AllVals, Blocked, AllAllowed;
      ghost var xs := AllVals(items, formats);
      OutNothing(Sep(ls, false), DelimText(level));
      EmptyFits(ls);
      FitsNothing(ls);
      ok := Items(items, formats, depth, level, ls);
      if ok {
        assert xs == [] ==> b == old(b) + [] == old(b);
        assert level.begun <==> xs != [];
        ok := Finish(level, ls);
      }
    }

    lemma EmptyFits(ls: seq<Level>)
      ensures Fits(ls, [[]]) <==> !Blocked(ls) && |b| + |Sep(ls, false)| <= max
      ensures forall sep :: Out(Sep(ls, false), sep, [[]]) == Sep(ls, false)
    {
      forall sep: Bytes ensures Out(Sep(ls, false), sep, [[]]) == Sep(ls, false) {
        OutOne(Sep(ls, false), sep, []);
      }
    }

    /** Writes an array that is not empty. */
    method Array(items: seq<Value>, formats: seq<Format>, depth: nat, parent: Level?,
        ghost ls: seq<Level>) returns (ok: bool)
      requires Widens() && Chain(ls, parent) && 0 < depth <= MAX_DEPTH && !empty && items != [] &&
        FormatOf(formats) != Unknown
      requires MultiOutermost(formats) && (ls != [] ==> FormatOf(formats) != Multi)
      modifies this, ls
      ensures ok <==> AllAllowed(items, ItemFormats(formats), depth + 1) && old(Fits(ls, Vals(List(items), formats)))
      ensures ok ==> Chain(ls, parent) && !empty
      ensures ok ==> b == old(b) + Out(old(Sep(ls, false)), Inner(ls), Vals(List(items), formats))
      ensures ok ==> if Vals(List(items), formats) == [] then Same(ls) else Begun(ls)
      decreases items, 2
    {
      hide Allowed, Fits, Sep, Chain, Widens, Out, AllVals, Vals, Blocked, Joined, AllAllowed;
      var f := FormatOf(formats);
      var level := new Level(parent, Between(f), f == Multi, false);
      ghost var all, xs := ls + [level], AllVals(items, ItemFormats(formats));
      Extended(ls, parent, level, false);
      ArrayFits(ls, level, xs);
      ArrayVals(items, formats);
      assert DelimText(level) == if f == Multi then Again() else Between(f);
      ok := InLevel(items, ItemFormats(formats), depth + 1, level, all);
      if ok {
        Around(all, level);
        assert all[..|all| - 1] == ls && all[|ls|] == level;
        assert forall i :: 0 <= i < |ls| ==> ls[i] == all[i];
        if Written(xs, level) == [] {
          Extended(ls, parent, level, false);
        }
      }
    }

    /** Writes a value, depth levels deep, in the last of ls: what its values come to, joined from the inside out. */
    method Value(v: Value, formats: seq<Format>, depth: nat, parent: Level?,
        ghost ls: seq<Level>) returns (given: bool, ok: bool)
      requires Widens() && Chain(ls, parent) && depth > 0 && (depth == 1 <==> ls == []) && !empty
      requires MultiOutermost(formats) && (ls != [] ==> FormatOf(formats) != Multi)
      modifies this, ls
      ensures ok <==> Allowed(v, formats, depth) && old(Fits(ls, Vals(v, formats)))
      ensures ok ==> given == Given(v) && Chain(ls, parent) && (ls != [] ==> !empty)
      ensures ok ==>
        b == old(b) + Out(old(Sep(ls, depth == 1 && v == Collections.Scalar([]))), Inner(ls), Vals(v, formats))
      ensures ok ==> if Vals(v, formats) == [] then Same(ls) else Begun(ls)
      decreases v
    {
      hide Fits, Sep, Chain, Widens, Out, AllValues, Blocked, Joined, Inner, LevelsAll, AllAllowed;
      OutNothing(Sep(ls, false), Inner(ls));
      FitsNothing(ls);
      assert b + [] == b;
      if depth > MAX_DEPTH {
        return false, false;
      }
      match v
      case Null =>
        return false, true;
      case Scalar(s) =>
        ghost var sep := Sep(ls, depth == 1 && s == []);
        ok := Scalar(s, depth, parent, ls);
        OutOne(sep, Inner(ls), escape(s));
        if ok {
          assert b == old(b) + (sep + escape(s));
        }
        return true, ok;
      case List(items) =>
        ListAllowed(items, formats, depth);
        if items == [] {
          return false, true;
        }
        if FormatOf(formats) == Unknown {
          return false, false;
        }
        ok := Array(items, formats, depth, parent, ls);
        return true, ok;
      case Object(members) =>
        ObjectAllowed(members, formats, depth);
        ok := Members(members, depth + 1);
        return false, ok;
    }

    lemma FitsNothing(ls: seq<Level>)
      ensures Fits(ls, [])
    {
    }

    /** Writes the items of an array, in its level. */
    method Items(items: seq<Value>, formats: seq<Format>, depth: nat, level: Level,
        ghost ls: seq<Level>) returns (ok: bool)
      requires Widens() && Chain(ls, level) && depth > 1 && !empty && !level.begun
      requires MultiOutermost(formats) && FormatOf(formats) != Multi
      modifies this, ls
      ensures ok <==> AllAllowed(items, formats, depth) && old(Fits(ls, AllVals(items, formats)))
      ensures ok ==> Chain(ls, level) && !empty
      ensures ok ==> b == old(b) + Out(old(Sep(ls, false)), DelimText(level), AllVals(items, formats))
      ensures ok ==> if AllVals(items, formats) == [] then Same(ls) else Begun(ls)
      decreases items, 0
    {
      hide Allowed, Sep, Chain, Widens, Out, AllVals, Vals, Blocked, Inner, DelimText;
      ghost var sep := Sep(ls, false);
      OutNothing(sep, DelimText(level));
      assert items[..0] == [];
      NoVals(formats);
      FitsPrefixes(ls, items, formats);
      assert forall i :: 0 <= i <= |items| && old(Fits(ls, AllVals(items, formats))) ==>
        old(Fits(ls, AllVals(items[..i], formats)));
      for i := 0 to |items|
        invariant Chain(ls, level) && !empty
        invariant forall j :: 0 <= j < i ==> Allowed(items[j], formats, depth)
        invariant b == old(b) + Out(sep, DelimText(level), AllVals(items[..i], formats))
        invariant AllVals(items[..i], formats) == [] ==> Same(ls)
        invariant AllVals(items[..i], formats) != [] ==> Begun(ls) && old(Fits(ls, AllVals(items[..i], formats)))
      {
        ghost var xs, ys := AllVals(items[..i], formats), Vals(items[i], formats);
        ItemVals(items, i, formats);
        InnerIs(ls, level);
        if xs != [] {
          SepBegun(ls, level);
        }
        OutMore(sep, DelimText(level), xs, ys);
        assert Fits(ls, ys) <==> ys == [] || old(Fits(ls, xs + ys));
        var given: bool;
        given, ok := Value(items[i], formats, depth, level, ls);
        if !ok {
          return;
        }
        assert ys == [] ==> xs + ys == xs;
      }
      assert items[..|items|] == items;
      ok := true;
    }

    lemma InnerIs(ls: seq<Level>, level: Level)
      requires Chain(ls, level)
      ensures Inner(ls) == DelimText(level) && ls != []
    {
    }

    lemma SepBegun(ls: seq<Level>, level: Level)
      requires Chain(ls, level) && Begun(ls)
      ensures Sep(ls, false) == DelimText(level) && !Blocked(ls)
    {
    }

    lemma FitsMore(ls: seq<Level>, xs: seq<Bytes>, ys: seq<Bytes>)
      ensures Fits(ls, xs + ys) ==> Fits(ls, xs)
    {
      OutMore(Sep(ls, false), Inner(ls), xs, ys);
    }

    lemma NoVals(formats: seq<Format>)
      ensures AllVals([], formats) == []
    {
    }

    lemma ValsSplit(items: seq<Value>, i: nat, formats: seq<Format>)
      requires i <= |items|
      ensures AllVals(items, formats) == AllVals(items[..i], formats) + AllVals(items[i..], formats)
    {
      AllValuesSplit(items, i, formats, escape, Betweens());
    }

    lemma FitsPrefixes(ls: seq<Level>, items: seq<Value>, formats: seq<Format>)
      ensures forall i :: 0 <= i <= |items| && Fits(ls, AllVals(items, formats)) ==>
        Fits(ls, AllVals(items[..i], formats))
    {
      hide AllVals, Fits;
      forall i | 0 <= i <= |items| && Fits(ls, AllVals(items, formats)) ensures Fits(ls, AllVals(items[..i], formats)) {
        ValsSplit(items, i, formats);
        FitsMore(ls, AllVals(items[..i], formats), AllVals(items[i..], formats));
      }
    }

    lemma ItemVals(items: seq<Value>, i: nat, formats: seq<Format>)
      requires i < |items|
      ensures AllVals(items[..i + 1], formats) == AllVals(items[..i], formats) + Vals(items[i], formats)
    {
      AllValuesAppend(items[..i], items[i], formats, escape, Betweens());
      assert items[..i + 1] == items[..i] + [items[i]];
    }

    /** Reads the members of an object, none of which can be written. */
    method Members(members: seq<Value>, depth: nat) returns (ok: bool)
      requires Widens() && depth > 1 && !empty
      modifies this
      ensures ok <==> forall i :: 0 <= i < |members| ==> Allowed(members[i], [], depth) && !Given(members[i])
      ensures ok ==> b == old(b) && !empty
      decreases members
    {
      hide Allowed, Fits, Sep, Widens, Out, Values;
      for i := 0 to |members|
        invariant b == old(b) && !empty
        invariant forall j :: 0 <= j < i ==> Allowed(members[j], [], depth) && !Given(members[j])
      {
        var level := new Level(null, [], false, true);
        GivenValues(members[i], [], escape, Betweens());
        NothingFits([level], Vals(members[i], []));
        OutNothing(Sep([level], false), Inner([level]));
        var given: bool;
        given, ok := Value(members[i], [], depth, level, [level]);
        if !ok {
          return;
        }
        assert b == old(b) + [];
        if given {
          return false;
        }
      }
      ok := true;
    }

    lemma NothingFits(ls: seq<Level>, xs: seq<Bytes>)
      requires ls != [] && ls[0].keyed
      ensures Fits(ls, xs) <==> xs == []
    {
    }

    /** Writes a parameter's value: what the recursive definition gives, joined, or nothing if it gives nothing, unless
        it cannot be serialized, its description is defective, or there is no room. */
    method Write(v: Value, formats: seq<Format>) returns (given: bool, ok: bool)
      requires Widens() && MultiOutermost(formats) && !empty
      modifies this
      ensures var xs := Vals(v, formats);
        ok <==>
          Allowed(v, formats, 1) &&
          (xs != [] ==> !defective && |old(b)| + |Start(false) + Joined(xs, Again())| <= max)
      ensures ok ==> given == Given(v)
      ensures ok ==> b == old(b) + if Vals(v, formats) == [] then []
        else Start(v == Collections.Scalar([])) + Joined(Vals(v, formats), Again())
    {
      hide Allowed, Out, Vals, Joined, Start, Again;
      ghost var xs := Vals(v, formats);
      OutNothing(Start(v == Collections.Scalar([])), Again());
      if xs != [] {
        OutJoined(Start(false), Again(), xs);
        OutJoined(Start(v == Collections.Scalar([])), Again(), xs);
      }
      given, ok := Value(v, formats, 1, null, []);
    }
  }

  lemma OutNothing(first: Bytes, sep: Bytes)
    ensures Out(first, sep, []) == []
  {
  }
}
