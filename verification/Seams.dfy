/** A search for patterns across pieces: bodies are read in pieces, and a pattern may begin in one and end in
    another. */
module Seams {
  import opened Wrappers
  import opened Ascii
  import opened Framing
  import opened Delimiters

  /** A source of a body: what can be read of it, and how it ends then; its size, or -1 where it is not known. What
      check lists it cannot hold, delimiters not at its start either. */
  datatype Source = Source(content: Bytes, size: int, end: End, check: seq<Bytes>, delimiter: bool)

  /** What a source gives when wholly read. */
  function Whole(p: Source): (t: Bytes)
    ensures t <= p.content
  {
    if 0 <= p.size <= |p.content| then p.content[..p.size] else p.content
  }

  predicate Complete(p: Source) {
    if p.size < 0 then p.end == EOF else p.size <= |p.content|
  }

  function Before(p: Source): Bytes {
    if p.delimiter then [LF] else []
  }

  predicate Passes(p: Source) {
    p.check == [] || !Any(Before(p) + Whole(p), p.check)
  }

  function Text(parts: seq<Source>): Bytes {
    if parts == [] then [] else Whole(parts[0]) + Text(parts[1..])
  }

  predicate AllPass(parts: seq<Source>) {
    forall i :: 0 <= i < |parts| ==> Passes(parts[i])
  }

  predicate AllComplete(parts: seq<Source>) {
    forall i :: 0 <= i < |parts| ==> Complete(parts[i])
  }

  /** Nothing a source cannot hold is before its content. */
  predicate AllBegin(parts: seq<Source>) {
    forall i :: 0 <= i < |parts| ==> parts[i].check == [] || !Any(Before(parts[i]), parts[i].check)
  }

  /** How many bytes of the past can still begin a pattern: one less than the longest has. */
  function Keep(patterns: seq<Bytes>): nat {
    if patterns == [] then 0
    else
      var k := Keep(patterns[..|patterns| - 1]);
      if |patterns[|patterns| - 1]| - 1 > k then |patterns[|patterns| - 1]| - 1 else k
  }

  lemma {:induction false} KeepBounds(patterns: seq<Bytes>)
    ensures forall i :: 0 <= i < |patterns| ==> |patterns[i]| <= Keep(patterns) + 1
  {
    if patterns != [] {
      KeepBounds(patterns[..|patterns| - 1]);
      assert forall i :: 0 <= i < |patterns| - 1 ==> patterns[i] == patterns[..|patterns| - 1][i];
    }
  }

  function Least(a: int, b: int): int {
    if a < b then a else b
  }

  function Most(a: int, b: int): int {
    if a > b then a else b
  }

  /** The last n bytes of s, or s. */
  function Ending(s: Bytes, n: nat): Bytes {
    s[Most(0, |s| - n)..]
  }

  // Searching a seam.

  /** What occurs in tail and data together occurs in data, or in tail and so much of data as may begin in tail. */
  lemma SeamContains(tail: Bytes, data: Bytes, p: Bytes, keep: nat)
    requires |p| <= keep + 1
    ensures var n := Least(|data|, keep);
      Contains(tail + data, p) <==> Contains(tail + data[..n], p) || Contains(data, p)
  {
    var n := Least(|data|, keep);
    var x, y := tail + data[..n], data[n..];
    assert tail + data == x + y;
    if Contains(tail + data, p) {
      var i :| 0 <= i <= |tail + data| && Occurs(tail + data, p, i);
      if i >= |tail| {
        OccursRight(tail, data, p, i);
        assert Occurs(data, p, i - |tail|);
      } else {
        OccursLeft(x, y, p, i);
        assert Occurs(x, p, i);
      }
    }
    if i :| 0 <= i <= |data| && Occurs(data, p, i) {
      OccursRight(tail, data, p, |tail| + i);
      assert Occurs(tail + data, p, |tail| + i);
    }
    if i :| 0 <= i <= |x| && Occurs(x, p, i) {
      OccursLeft(x, y, p, i);
      assert Occurs(tail + data, p, i);
    }
  }

  /** What of the text before may matter to a later search. */
  predicate Suffices(tail: Bytes, text: Bytes, keep: nat) {
    |tail| <= |text| && tail == text[|text| - |tail|..] && |tail| >= Least(keep, |text|)
  }

  lemma TailContains(tail: Bytes, text: Bytes, data: Bytes, p: Bytes, keep: nat)
    requires |p| <= keep + 1 && Suffices(tail, text, keep)
    ensures Contains(text + data, p) <==> Contains(text, p) || Contains(tail + data, p)
  {
    var x := text[..|text| - |tail|];
    assert text + data == x + (tail + data);
    if Contains(text + data, p) {
      var i :| 0 <= i <= |text + data| && Occurs(text + data, p, i);
      if i >= |x| {
        OccursRight(x, tail + data, p, i);
        assert Occurs(tail + data, p, i - |x|);
      } else {
        OccursLeft(text, data, p, i);
        assert Occurs(text, p, i);
      }
    }
    if i :| 0 <= i <= |text| && Occurs(text, p, i) {
      OccursLeft(text, data, p, i);
      assert Occurs(text + data, p, i);
    }
    if i :| 0 <= i <= |tail + data| && Occurs(tail + data, p, i) {
      OccursRight(x, tail + data, p, |x| + i);
      assert Occurs(text + data, p, |x| + i);
    }
  }

  /** A tail that suffices finds the same in data as all of text would, and leaves one that suffices. */
  lemma TailExact(tail: Bytes, text: Bytes, data: Bytes, patterns: seq<Bytes>)
    requires Suffices(tail, text, Keep(patterns))
    ensures Any(text + data, patterns) <==> Any(text, patterns) || Any(tail + data, patterns)
    ensures Suffices(Ending(tail + data, Keep(patterns)), text + data, Keep(patterns))
  {
    hide Contains;
    KeepBounds(patterns);
    forall k | 0 <= k < |patterns|
      ensures Contains(text + data, patterns[k]) <==> Contains(text, patterns[k]) || Contains(tail + data, patterns[k])
    {
      TailContains(tail, text, data, patterns[k], Keep(patterns));
    }
  }

  /** The first of the reads after tail at which a search of seams finds a pattern, or how many there are. */
  function FirstHeld(tail: Bytes, datas: seq<Bytes>, patterns: seq<Bytes>): nat
    decreases |datas|
  {
    if datas == [] || Any(tail + datas[0], patterns) then 0
    else 1 + FirstHeld(Ending(tail + datas[0], Keep(patterns)), datas[1..], patterns)
  }

  /** However content is cut into reads, a pattern is found at the read that completes the first in all read so far. */
  lemma {:induction false} FirstHeldExact(tail: Bytes, text: Bytes, datas: seq<Bytes>, patterns: seq<Bytes>, j: nat)
    requires Suffices(tail, text, Keep(patterns)) && !Any(text, patterns) && j < |datas|
    ensures Any(text + Join(datas[..j + 1]), patterns) <==> FirstHeld(tail, datas, patterns) <= j
    decreases |datas|
  {
    hide Any, Suffices, Keep, Ending;
    var d, more := datas[0], Join(datas[1..][..j]);
    TailExact(tail, text, d, patterns);
    assert datas[..j + 1][1..] == datas[1..][..j];
    assert text + Join(datas[..j + 1]) == text + d + more;
    if Any(tail + d, patterns) {
      AnyMore(text + d, more, patterns);
    } else if j > 0 {
      FirstHeldExact(Ending(tail + d, Keep(patterns)), text + d, datas[1..], patterns, j - 1);
    } else {
      assert text + d + more == text + d;
    }
  }

  /** Searching data behind a line feed comes to the check of data as a line of its own. */
  lemma LineHolds(data: Bytes, boundaries: seq<Bytes>)
    ensures forall k :: 0 <= k < |AllDelimiters(boundaries)| ==> AllDelimiters(boundaries)[k] != []
    ensures Any([LF] + data, AllDelimiters(boundaries)) <==> Holds(data, AllDelimiters(boundaries))
  {
    hide Contains;
    HoldsUnclean(data, boundaries);
    AnyUnclean(data, boundaries);
  }

  lemma {:induction false} AnyUnclean(data: Bytes, boundaries: seq<Bytes>)
    ensures Any([LF] + data, AllDelimiters(boundaries)) <==>
      exists k :: 0 <= k < |boundaries| && !Clean(data, boundaries[k])
  {
    hide Contains, Clean;
    if boundaries != [] {
      var d, more := DelimitersOf(boundaries[0]), AllDelimiters(boundaries[1..]);
      AnyUnclean(data, boundaries[1..]);
      AnyAppend([LF] + data, d, more);
      AfterLine(data, boundaries[0]);
      assert Any([LF] + data, d) <==> Contains([LF] + data, d[0]) || Contains([LF] + data, d[1]);
      if k :| 0 <= k < |boundaries| && !Clean(data, boundaries[k]) {
        if k > 0 {
          assert !Clean(data, boundaries[1..][k - 1]);
        }
      }
      if k :| 0 <= k < |boundaries[1..]| && !Clean(data, boundaries[1..][k]) {
        assert !Clean(data, boundaries[k + 1]);
      }
    }
  }

  lemma AnyAppend(s: Bytes, a: seq<Bytes>, b: seq<Bytes>)
    ensures Any(s, a + b) <==> Any(s, a) || Any(s, b)
  {
    hide Contains;
    if k :| 0 <= k < |a| && Contains(s, a[k]) {
      assert Contains(s, (a + b)[k]);
    }
    if k :| 0 <= k < |b| && Contains(s, b[k]) {
      assert Contains(s, (a + b)[|a| + k]);
    }
  }

  lemma AfterLine(data: Bytes, boundary: Bytes)
    ensures var s := [LF] + data;
      (Contains(s, [CR, MINUS, MINUS] + boundary) || Contains(s, [LF, MINUS, MINUS] + boundary)) <==>
        !Clean(data, boundary)
  {
    var s, cr, lf := [LF] + data, [CR, MINUS, MINUS] + boundary, [LF, MINUS, MINUS] + boundary;
    FirstLine(data, boundary);
    ContainsAfter(data, cr);
    ContainsAfter(data, lf);
    assert !Occurs(s, cr, 0) by {
      if Occurs(s, cr, 0) {
        OccursAt(s, cr, 0, 0);
      }
    }
  }

  lemma FirstLine(data: Bytes, boundary: Bytes)
    ensures Occurs([LF] + data, [LF, MINUS, MINUS] + boundary, 0) <==> [MINUS, MINUS] + boundary <= data
  {
    var p, q := [LF, MINUS, MINUS] + boundary, [MINUS, MINUS] + boundary;
    assert p == [LF] + q;
    if |q| <= |data| {
      assert ([LF] + data)[0..|p|] == [LF] + data[..|q|];
      assert ([LF] + q)[1..] == q && ([LF] + data[..|q|])[1..] == data[..|q|];
    }
  }

  lemma ContainsAfter(data: Bytes, p: Bytes)
    ensures Contains([LF] + data, p) <==> Occurs([LF] + data, p, 0) || Contains(data, p)
  {
    if i :| 0 <= i <= |[LF] + data| && Occurs([LF] + data, p, i) {
      if i > 0 {
        OccursRight([LF], data, p, i);
        assert Occurs(data, p, i - 1);
      }
    }
    if i :| 0 <= i <= |data| && Occurs(data, p, i) {
      OccursRight([LF], data, p, i + 1);
      assert Occurs([LF] + data, p, i + 1);
    }
  }

  // The cursor.

  datatype Err = Done | Broken(code: int) | Short | DelimiterHeld | SeparatorHeld

  /** One read of a source from pos: any piece, and its end with it or later. */
  method ReadAt(p: Source, pos: nat, room: nat) returns (data: Bytes, end: Option<End>)
    requires pos <= |Whole(p)|
    ensures |data| <= room && pos + |data| <= |Whole(p)| && data == Whole(p)[pos..pos + |data|]
    ensures end.Some? ==> pos + |data| == |Whole(p)|
    ensures end.Some? ==> end.value == if 0 <= p.size <= |p.content| then EOF else p.end
  {
    if p.size >= 0 && pos >= p.size {
      return [], Some(EOF);
    }
    var w := Whole(p);
    var most := Least(room, |w| - pos);
    var n: nat :| n <= most;
    data := w[pos..pos + n];
    var early: bool := *;
    end := if early && pos + n == |w| then Some(if 0 <= p.size <= |p.content| then EOF else p.end) else None;
  }

  /** A place among sources that are left: pos bytes of the first are read, and tail is the end of what was. */
  class Cursor {
    var parts: seq<Source>
    var pos: nat
    var tail: Bytes

    constructor (parts: seq<Source>)
      ensures this.parts == parts && pos == 0
      ensures AllBegin(parts) ==> Valid() && Left() == Text(parts)
    {
      this.parts, pos := parts, 0;
      tail := if parts != [] then Before(parts[0]) else [];
    }

    /** Nothing of what was read of the source holds what it cannot, and its end is kept; and no source fails before it
        is read. */
    ghost predicate Valid()
      reads this
    {
      && AllBegin(parts)
      && (parts != [] ==> pos <= |Whole(parts[0])|)
      && (parts != [] && parts[0].check != [] ==>
            && Suffices(tail, Before(parts[0]) + Whole(parts[0])[..pos], Keep(parts[0].check))
            && !Any(Before(parts[0]) + Whole(parts[0])[..pos], parts[0].check))
    }

    /** What is still to be read, of sources wholly read. */
    ghost function Left(): Bytes
      reads this
    {
      if parts != [] && pos <= |Whole(parts[0])| then Whole(parts[0])[pos..] + Text(parts[1..]) else []
    }

    /** Sets the tail for a source not yet begun: what it is preceded by. */
    method Begin()
      modifies this`tail
      ensures tail == if parts != [] then Before(parts[0]) else []
    {
      tail := [];
      if parts != [] && parts[0].delimiter {
        tail := tail + [LF];
      }
    }

    /** Searches tail and data together, and shortens them to the next tail. */
    method Matches(patterns: seq<Bytes>, data: Bytes) returns (found: bool)
      modifies this`tail
      ensures found <==> Any(old(tail) + data, patterns)
      ensures tail == Ending(old(tail) + data, Keep(patterns))
    {
      hide Contains;
      var keep := 0;
      for i := 0 to |patterns|
        invariant keep == Keep(patterns[..i]) && tail == old(tail)
      {
        assert patterns[..i + 1][..i] == patterns[..i];
        keep := Most(keep, |patterns[i]| - 1);
      }
      assert patterns[..|patterns|] == patterns;
      KeepBounds(patterns);
      ghost var all := tail + data;
      var seam := |tail|;
      tail := tail + data[..Least(|data|, keep)];
      found := false;
      for i := 0 to |patterns|
        invariant tail == old(tail) + data[..Least(|data|, keep)]
        invariant found <==> exists k :: 0 <= k < i && Contains(all, patterns[k])
      {
        SeamContains(old(tail), data, patterns[i], keep);
        found := found || Contains(tail, patterns[i]) || Contains(data, patterns[i]);
      }
      if |data| >= keep {
        tail := data[|data| - keep..];
        assert tail == Ending(all, keep);
      } else {
        assert data[..|data|] == data;
        tail := tail[Most(0, seam + |data| - keep)..];
      }
    }

    /** Moves to the next source. */
    method Advance()
      requires Valid() && parts != [] && pos == |Whole(parts[0])|
      modifies this
      ensures parts == old(parts[1..]) && pos == 0 && Valid() && Left() == old(Left())
      ensures AllPass(old(parts)) <==> AllPass(parts)
      ensures Complete(old(parts)[0]) ==> (AllComplete(old(parts)) <==> AllComplete(parts))
    {
      hide Any, Keep, Complete;
      ghost var p := parts[0];
      assert Whole(p)[..pos] == Whole(p);
      assert Passes(p);
      ghost var was := parts;
      assert forall i :: 0 <= i < |was[1..]| ==> was[1..][i] == was[i + 1];
      parts, pos := parts[1..], 0;
      Begin();
      if parts != [] {
        assert Before(parts[0]) + Whole(parts[0])[..0] == Before(parts[0]);
      }
    }

    /** Reads a piece of the first source, and whether it then holds what it cannot. */
    method Take(room: nat) returns (piece: Bytes, end: Option<End>, held: bool)
      requires Valid() && parts != []
      modifies this`pos, this`tail
      ensures held ==> !Passes(parts[0])
      ensures !held ==> Valid() && old(Left()) == piece + Left() && pos <= |Whole(parts[0])|
      ensures end.Some? ==>
        pos == |Whole(parts[0])| &&
        end.value == if 0 <= parts[0].size <= |parts[0].content| then EOF else parts[0].end
    {
      hide Passes, Suffices, Keep, Any, Before, Text, AllBegin;
      var p := parts[0];
      piece, end := ReadAt(p, pos, room);
      held := false;
      PassesRead(p, pos, piece, tail);
      LeftPiece(p, pos, piece, Text(parts[1..]));
      pos := pos + |piece|;
      if piece != [] && p.check != [] {
        held := Matches(p.check, piece);
      }
      assert piece == [] ==> p.check != [] ==> Whole(p)[..pos] == Whole(p)[..old(pos)];
    }

    /** Reads a piece of the first source, and moves past a source wholly read. */
    method Piece(room: nat) returns (piece: Bytes, failed: Option<Err>, next: bool)
      requires Valid() && parts != []
      modifies this
      ensures failed == Some(DelimiterHeld) || failed == Some(SeparatorHeld) ==>
        piece == [] && !AllPass(old(parts)) && !next
      ensures failed != Some(DelimiterHeld) && failed != Some(SeparatorHeld) ==>
        Valid() && old(Left()) == piece + Left()
      ensures failed.Some? && (failed.value.Broken? || failed.value.Short?) ==> !AllComplete(old(parts))
      ensures failed != Some(Done)
      ensures failed.None? ==>
        (AllPass(old(parts)) <==> AllPass(parts)) && (AllComplete(old(parts)) <==> AllComplete(parts))
      ensures next ==> failed.None? && |parts| < |old(parts)|
    {
      hide Passes, Valid, Left, Before, AllPass, AllComplete, Text;
      var p := parts[0];
      FirstOfAll(parts);
      var end: Option<End>, held: bool;
      piece, end, held := Take(room);
      failed := if end.None? then None else if end.value == EOF then Some(Done) else Some(Broken(end.value.code));
      if failed == Some(Done) && p.size >= 0 && pos < p.size {
        failed := Some(Short);
      }
      if held {
        return [], Some(if p.delimiter then DelimiterHeld else SeparatorHeld), false;
      }
      next := failed == Some(Done) || (p.size >= 0 && pos >= p.size);
      if next {
        failed := None;
        Advance();
      }
    }

    /** Reads at most room bytes: a piece of what is left, or the end, or why not, and then not all can be sent. */
    method Read(room: nat) returns (data: Bytes, err: Option<Err>)
      requires Valid()
      modifies this
      ensures err.None? ==> Valid() && old(Left()) == data + Left()
      ensures err.None? ==>
        (AllPass(old(parts)) <==> AllPass(parts)) && (AllComplete(old(parts)) <==> AllComplete(parts))
      ensures err == Some(Done) ==> data == [] && old(Left()) == [] && AllPass(old(parts)) && AllComplete(old(parts))
      ensures err == Some(DelimiterHeld) || err == Some(SeparatorHeld) ==> data == [] && !AllPass(old(parts))
      ensures err.Some? && (err.value.Broken? || err.value.Short?) ==> !AllComplete(old(parts))
    {
      hide Valid, AllPass, AllComplete, Left;
      ghost var left := Left();
      while true
        invariant Valid() && Left() == left
        invariant AllPass(old(parts)) <==> AllPass(parts)
        invariant AllComplete(old(parts)) <==> AllComplete(parts)
        decreases |parts|
      {
        if parts == [] {
          NothingLeft();
          return [], Some(Done);
        }
        var next: bool;
        data, err, next := Piece(room);
        if data != [] || err.Some? || !next {
          return;
        }
        assert data + Left() == Left();
      }
    }

    lemma NothingLeft()
      requires parts == []
      ensures Left() == [] && AllPass(parts) && AllComplete(parts)
    {
    }
  }

  lemma FirstOfAll(parts: seq<Source>)
    requires parts != []
    ensures AllPass(parts) ==> Passes(parts[0])
    ensures AllComplete(parts) ==> Complete(parts[0])
  {
  }

  lemma LeftPiece(p: Source, pos: nat, piece: Bytes, more: Bytes)
    requires pos + |piece| <= |Whole(p)| && piece == Whole(p)[pos..pos + |piece|]
    ensures Whole(p)[pos..] + more == piece + (Whole(p)[pos + |piece|..] + more)
  {
  }

  /** What reading more of a source shows of it. */
  lemma PassesRead(p: Source, pos: nat, piece: Bytes, tail: Bytes)
    requires pos + |piece| <= |Whole(p)| && piece == Whole(p)[pos..pos + |piece|]
    requires p.check != [] ==>
      Suffices(tail, Before(p) + Whole(p)[..pos], Keep(p.check)) && !Any(Before(p) + Whole(p)[..pos], p.check)
    ensures p.check != [] ==> (Any(tail + piece, p.check) <==> Any(Before(p) + Whole(p)[..pos + |piece|], p.check))
    ensures p.check != [] ==>
      Suffices(Ending(tail + piece, Keep(p.check)), Before(p) + Whole(p)[..pos + |piece|], Keep(p.check))
    ensures p.check != [] && Any(tail + piece, p.check) ==> !Passes(p)
  {
    hide Any, Suffices, Keep;
    var text := Before(p) + Whole(p)[..pos];
    assert text + piece == Before(p) + Whole(p)[..pos + |piece|];
    if p.check != [] {
      TailExact(tail, text, piece, p.check);
      if Any(text + piece, p.check) {
        AnyMore(text + piece, Whole(p)[pos + |piece|..], p.check);
      }
      assert text + piece + Whole(p)[pos + |piece|..] == Before(p) + Whole(p);
    }
  }

  lemma AnyMore(s: Bytes, more: Bytes, patterns: seq<Bytes>)
    requires Any(s, patterns)
    ensures Any(s + more, patterns)
  {
    var k :| 0 <= k < |patterns| && Contains(s, patterns[k]);
    var i :| 0 <= i <= |s| && Occurs(s, patterns[k], i);
    OccursLeft(s, more, patterns[k], i);
    assert Occurs(s + more, patterns[k], i);
    assert Contains(s + more, patterns[k]);
  }
}
