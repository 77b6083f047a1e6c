/** What holds over every run of an upload, and the code of its locked sections, which takes its steps. */
module UploadRuns {
  import opened Wrappers
  import opened Upload
  import Sequences

  /** What no step undoes. */
  ghost predicate Later(s: State, t: State) {
    && |s.bodies| <= |t.bodies|
    && (forall b :: 0 <= b < |s.bodies| && s.bodies[b].ended ==>
       t.bodies[b].ended && t.bodies[b].result == s.bodies[b].result)
    && (s.returned ==> t.returned && t.order == s.order)
    && (s.done ==> t.done && t.err == s.err)
    && (s.settle.Settled? ==> t.settle.Settled?)
  }

  lemma LaterSelf(s: State)
    ensures Later(s, s)
  {
  }

  lemma LaterTrans(s: State, t: State, u: State)
    requires Later(s, t) && Later(t, u)
    ensures Later(s, u)
  {
    forall b | 0 <= b < |s.bodies| && s.bodies[b].ended
      ensures u.bodies[b].ended && u.bodies[b].result == s.bodies[b].result
    {
      assert t.bodies[b].ended;
    }
  }

  lemma BodyLater(s: State, b: nat, o: Body)
    requires b < |s.bodies| && (s.bodies[b].ended ==> o.ended && o.result == s.bodies[b].result)
    ensures Later(s, s.(bodies := s.bodies[b := o]))
  {
  }

  lemma EndLater(s: State, b: nat)
    requires b < |s.bodies|
    ensures Later(s, End(s, b))
  {
  }

  lemma StepLater(s: State, step: Step)
    requires Invariant(s) && Enabled(s, step)
    ensures Later(s, Apply(s, step))
  {
    hide Published, Ordered, EndClose, EndRead, Unclosed;
    assert forall b :: 0 <= b < |s.bodies| ==> Coherent(s, s.bodies[b]);
    match step
    case ReadBegin(b) => BodyLater(s, b, BeginRead(s, b).bodies[b]);
    case Fetch(b, n, read) => BodyLater(s, b, TakeRead(s, b, n, read).bodies[b]);
    case ReadEnd(b) => ReadEndLater(s, b);
    case CloseEnd(b) => CloseEndLater(s, b);
    case SettleClosed => CloseEndLater(s, s.settle.todo[0]);
    case Return => DoneReturned(s);
    case _ => DoneReturned(s);
  }

  lemma DoneReturned(s: State)
    requires Invariant(s)
    ensures s.done ==> s.returned
  {
  }

  lemma ReadEndLater(s: State, b: nat)
    requires b < |s.bodies| && s.bodies[b].got.Some? && !s.bodies[b].ended
    ensures Later(s, EndRead(s, b))
  {
    var q := ReadOf(s.bodies[b]);
    var t := s.(bodies := s.bodies[b := q]);
    BodyLater(s, b, q);
    EndLater(t, b);
  }

  lemma CloseEndLater(s: State, b: nat)
    requires b < |s.bodies|
    ensures Later(s, EndClose(s, b))
  {
    var o := s.bodies[b].(closing := false);
    BodyLater(s, b, o);
    EndLater(s.(bodies := s.bodies[b := o]), b);
  }

  lemma RunStep(tr: seq<State>, steps: seq<Step>, i: nat)
    requires Run(tr, steps) && i < |steps|
    ensures |tr| == |steps| + 1 && Enabled(tr[i], steps[i]) && tr[i + 1] == Apply(tr[i], steps[i])
  {
  }

  lemma {:induction false} RunLater(tr: seq<State>, steps: seq<Step>, i: nat, j: nat)
    requires i <= j < |tr| && |tr| == |steps| + 1 && Run(tr, steps)
    ensures Later(tr[i], tr[j])
  {
    hide Later, Invariant, Run, Apply, Enabled;
    if i == j {
      LaterSelf(tr[i]);
    } else {
      RunLater(tr, steps, i, j - 1);
      RunKeeps(tr, steps, j - 1);
      RunStep(tr, steps, j - 1);
      StepLater(tr[j - 1], steps[j - 1]);
      LaterTrans(tr[i], tr[j - 1], tr[j]);
    }
  }

  /** open counts the generations handed over and not ended; one ends only closed, with no Read and no Close
      in flight. */
  lemma OpenCounts(tr: seq<State>, steps: seq<Step>, i: nat)
    requires Run(tr, steps) && i < |tr|
    ensures tr[i].open == CountOpen(tr[i].bodies)
    ensures forall b :: 0 <= b < |tr[i].bodies| && tr[i].bodies[b].ended ==>
      tr[i].bodies[b].closed && !tr[i].bodies[b].reading && !tr[i].bodies[b].closing
  {
    RunKeeps(tr, steps, i);
    assert forall b :: 0 <= b < |tr[i].bodies| ==> Coherent(tr[i], tr[i].bodies[b]);
  }

  /** Once a generation has ended, no Read reaches its source. */
  lemma NoReadAfterEnd(tr: seq<State>, steps: seq<Step>, i: nat, j: nat, b: nat)
    requires Run(tr, steps) && i <= j < |steps| && b < |tr[i].bodies| && tr[i].bodies[b].ended
    ensures !steps[j].Fetch? || steps[j].b != b
  {
    RunLater(tr, steps, i, j);
    OpenCounts(tr, steps, j);
    assert Enabled(tr[j], steps[j]);
  }

  /** A state that is done has returned, has none open, and is followed by states of the same result and order. */
  lemma PublishedOnce(tr: seq<State>, steps: seq<Step>, i: nat, j: nat)
    requires Run(tr, steps) && i <= j < |tr| && tr[i].done
    ensures tr[i].returned && tr[i].open == 0
    ensures tr[j].done && tr[j].err == tr[i].err && tr[j].order == tr[i].order
    ensures forall b :: 0 <= b < |tr[i].bodies| && tr[i].bodies[b].handed ==>
      b < |tr[j].bodies| && tr[j].bodies[b].ended
  {
    RunKeeps(tr, steps, i);
    DoneClosed(tr[i]);
    RunLater(tr, steps, i, j);
  }

  /** A nil result says that the last generation handed over gave its declared length, or that its source ended. */
  lemma NilMeansComplete(tr: seq<State>, steps: seq<Step>, i: nat)
    requires Run(tr, steps) && i < |tr| && tr[i].done && tr[i].err.None? && tr[i].order != []
    ensures Last(tr[i].order) < |tr[i].bodies| && Complete(tr[i], tr[i].bodies[Last(tr[i].order)])
  {
    RunKeeps(tr, steps, i);
    DoneClosed(tr[i]);
    var b := Last(tr[i].order);
    assert tr[i].order[|tr[i].order| - 1] == b;
    assert Coherent(tr[i], tr[i].bodies[b]);
  }

  /** settle returns only after publication, so that from then on no generation handed over is read. */
  lemma SettledUnread(tr: seq<State>, steps: seq<Step>, i: nat, j: nat, b: nat)
    requires Run(tr, steps) && i <= j < |tr| && tr[i].settle.Settled?
    requires b < |tr[j].bodies| && tr[j].bodies[b].handed
    ensures tr[i].done && !tr[j].bodies[b].reading && tr[j].bodies[b].ended
  {
    RunKeeps(tr, steps, i);
    RunKeeps(tr, steps, j);
    RunLater(tr, steps, i, j);
    DoneClosed(tr[j]);
    assert Coherent(tr[j], tr[j].bodies[b]);
  }

  /** settle, once it has closed what it lists, waits only for Reads and Closes in flight. */
  lemma SettleProgress(tr: seq<State>, steps: seq<Step>, i: nat)
    requires Run(tr, steps) && i < |tr| && tr[i].settle.Closed?
    requires forall b :: 0 <= b < |tr[i].bodies| && tr[i].bodies[b].handed ==>
      !tr[i].bodies[b].reading && !tr[i].bodies[b].closing
    ensures Enabled(tr[i], SettleEnd)
  {
    var s := tr[i];
    RunKeeps(tr, steps, i);
    forall b | 0 <= b < |s.bodies|
      ensures Open(s.bodies[b]) == 0
    {
      assert Coherent(s, s.bodies[b]);
    }
    CountNone(s.bodies);
  }

  lemma {:induction false} CountNone(bodies: seq<Body>)
    requires forall b :: 0 <= b < |bodies| ==> Open(bodies[b]) == 0
    ensures CountOpen(bodies) == 0
  {
    if bodies != [] {
      assert Open(bodies[0]) == 0;
      CountNone(bodies[1..]);
    }
  }

  // The locked sections.

  lemma ClosedEnds(s: State, b: nat)
    requires Invariant(s) && b < |s.bodies| && s.bodies[b].closed && !s.bodies[b].closing
    ensures s.bodies[b].ended <==> !s.bodies[b].reading
  {
    assert Coherent(s, s.bodies[b]);
  }

  lemma FetchChecked(s: State, pos: nat, read: Read)
    ensures Checked(s, pos, read).Eof? ==> s.size < 0 || pos == s.size
    ensures Checked(s, pos, read).Eof? && s.size < 0 ==> read.Eof?
    ensures Checked(s, pos, read).More? && s.size >= 0 ==> pos <= s.size
  {
  }

  class Exchange {
    const size: int
    const claimed: bool
    var bodies: seq<Body>
    var order: seq<nat>
    var open: int
    var returned: bool
    var done: bool
    var err: Option<Error>
    var canceled: bool
    ghost var settle: Settle

    constructor (size: int, claimed: bool)
      ensures View() == Start(size, claimed)
    {
      this.size, this.claimed := size, claimed;
      bodies, order, open := [FRESH], [], 0;
      returned, done, err, canceled, settle := false, false, None, false, Idle;
    }

    ghost function View(): State
      reads this
    {
      State(size, claimed, bodies, order, open, returned, done, err, canceled, settle)
    }

    /** Adds b to the end of order and to what is open: a generation handed over. */
    method Hand(b: nat, checking: bool)
      requires Invariant(View()) && Enabled(View(), Step.Hand(b, checking))
      modifies this
      ensures Invariant(View()) && View() == HandOver(old(View()), b, checking)
    {
      hide Coherent, Published, Settling, Ordered, Unclosed;
      HandKeeps(View(), b, checking);
      if bodies[b].handed || checking {
        return;
      }
      bodies := bodies[b := bodies[b].(handed := true)];
      order := order + [b];
      if !bodies[b].ended {
        open := open + 1;
      }
    }

    /** Fixes the result of b if none is fixed: its outcome, or that it was closed before it had one. */
    method End(b: nat)
      requires b < |bodies|
      modifies this
      ensures View() == Upload.End(old(View()), b)
      ensures Ending(old(View()), b) ==> Invariant(View())
    {
      hide Invariant, Ending, Coherent, Published, Settling, Ordered, Due;
      if Ending(View(), b) {
        EndingKeeps(View(), b);
      }
      var o := bodies[b];
      if o.ended {
        return;
      }
      o := o.(ended := true);
      if !o.finished && (size < 0 || o.pos != size) {
        o := o.(result := Some(ClosedEarly));
      }
      bodies := bodies[b := o];
      if o.handed {
        open := open - 1;
        Publish();
      }
    }

    /** Sets done and the result, if both are due now. */
    method Publish()
      modifies this
      ensures View() == Upload.Publish(old(View()))
      ensures Due(old(View())) ==> Invariant(View())
    {
      hide Invariant, Due;
      if Due(View()) {
        DueKeeps(View());
      }
      if done || !returned || open > 0 {
        return;
      }
      done := true;
      err := None;
      if order != [] && Last(order) < |bodies| {
        err := bodies[Last(order)].result;
      }
    }

    method Return()
      requires Invariant(View()) && Enabled(View(), Step.Return)
      modifies this
      ensures Invariant(View()) && View() == Apply(old(View()), Step.Return)
    {
      hide Coherent, Published, Settling, Ordered, Unclosed;
      StepKeeps(View(), Step.Return);
      returned := true;
      Publish();
    }

    /** Begins a Read of b: refused, it returns why, or the end; and else the source is read next. */
    method ReadBegin(b: nat) returns (refused: Option<Read>)
      requires Invariant(View()) && Enabled(View(), Step.ReadBegin(b))
      modifies this
      ensures Invariant(View()) && View() == BeginRead(old(View()), b)
      ensures refused.None? <==> bodies[b].reading
      ensures refused.Some? ==> !refused.value.More?
      ensures old(bodies[b].closed) ==> refused == Some(Fails(ClosedEarly))
      ensures refused.Some? && !old(bodies[b].closed) ==>
        refused == Some(if bodies[b].result.Some? then Fails(bodies[b].result.value) else Eof)
      ensures refused == Some(Eof) ==> Complete(View(), bodies[b])
    {
      ReadKeeps(View(), b, 0, More);
      var o := bodies[b];
      assert Coherent(View(), o);
      if canceled && !o.closed && !o.finished {
        o := o.(finished := true, result := Some(Canceled));
      }
      if o.closed {
        refused := Some(Fails(ClosedEarly));
      } else if o.finished {
        refused := Some(if o.result.Some? then Fails(o.result.value) else Eof);
      } else {
        o, refused := o.(reading := true, got := None), None;
      }
      bodies := bodies[b := o];
    }

    /** Takes n bytes and what came with them from the source of b, checked against its declared length. */
    method Fetch(b: nat, n: nat, read: Read) returns (got: Read)
      requires Invariant(View()) && Enabled(View(), Step.Fetch(b, n, read))
      modifies this
      ensures Invariant(View()) && View() == TakeRead(old(View()), b, n, read)
      ensures bodies[b].got == Some(got)
      ensures got.Eof? ==> Complete(View(), bodies[b])
      ensures got.More? && size >= 0 ==> bodies[b].pos <= size
    {
      hide Coherent, Published, Settling, Ordered, Unclosed;
      ReadKeeps(View(), b, n, read);
      var pos := bodies[b].pos + n;
      got := read;
      if size >= 0 {
        if pos > size && !read.Fails? {
          got := Fails(Exceeds);
        } else if read.More? && pos == size && !claimed {
          got := Eof;
        } else if read.Eof? && pos < size {
          got := Fails(UnexpectedEnd);
        }
      }
      bodies := bodies[b := bodies[b].(pos := pos, got := Some(got), sawEnd := bodies[b].sawEnd || read.Eof?)];
    }

    /** Ends the Read of b in flight, and b if it was closed meanwhile. */
    method ReadEnd(b: nat) returns (got: Read)
      requires Invariant(View()) && Enabled(View(), Step.ReadEnd(b))
      modifies this
      ensures Invariant(View()) && View() == EndRead(old(View()), b)
      ensures old(bodies[b].got) == Some(got)
    {
      hide Coherent, Published, Settling, Ordered, Unclosed, Invariant;
      ReadEndKeeps(View(), b);
      got := bodies[b].got.value;
      ghost var read := ReadOf(bodies[b]);
      var o := bodies[b].(reading := false, got := None);
      if !got.More? {
        o := o.(finished := true);
        if got.Fails? {
          o := o.(result := Some(got.error));
        }
      }
      assert o == read;
      bodies := bodies[b := o];
      if o.closed && !o.closing {
        End(b);
      }
    }

    /** Begins to close b, unless it is closed. */
    method CloseBegin(b: nat) returns (first: bool)
      requires Invariant(View()) && Enabled(View(), Step.CloseBegin(b))
      modifies this
      ensures Invariant(View()) && View() == BeginClose(old(View()), b)
      ensures first <==> !old(bodies[b].closed)
    {
      hide Coherent, Published, Settling, Ordered, Unclosed;
      CloseBeginKeeps(View(), b);
      first := !bodies[b].closed;
      if first {
        bodies := bodies[b := bodies[b].(closed := true, closing := true)];
      }
    }

    /** The last step of a Close of b: b is ended here if nothing reads it, else by the Read that does. */
    method CloseEnd(b: nat)
      requires Invariant(View()) && Enabled(View(), Step.CloseEnd(b))
      modifies this
      ensures Invariant(View()) && View() == EndClose(old(View()), b)
      ensures bodies[b].ended <==> !bodies[b].reading
    {
      hide Coherent, Published, Ordered, Unclosed;
      BeingClosed(View(), b);
      CloseEndKeeps(View(), b);
      bodies := bodies[b := bodies[b].(closing := false)];
      if !bodies[b].reading {
        End(b);
      }
      ClosedEnds(View(), b);
    }

    /** Those of order that are not closed, in reverse: what settle is to close. */
    method Open() returns (list: seq<nat>)
      requires Invariant(View())
      ensures list == Unclosed(View(), order)
      ensures forall b :: b in list ==> b < |bodies| && bodies[b].handed && !bodies[b].closed
      ensures forall b :: 0 <= b < |bodies| && bodies[b].handed && !bodies[b].closed ==> b in list
    {
      hide Coherent, Published, Settling, Unclosed;
      list := [];
      NoneUnclosed(View());
      var i := |order|;
      assert order[..i] == order;
      while i > 0
        invariant 0 <= i <= |order| && list + Unclosed(View(), order[..i]) == Unclosed(View(), order)
        invariant forall b :: b in list ==> b < |bodies| && bodies[b].handed && !bodies[b].closed
      {
        i := i - 1;
        UnclosedLast(View(), order, i);
        Sequences.Group(list, if !bodies[order[i]].closed then [order[i]] else [], Unclosed(View(), order[..i]));
        if !bodies[order[i]].closed {
          list := list + [order[i]];
        } else {
          Sequences.Nothing(Unclosed(View(), order[..i]));
        }
      }
      assert order[..0] == [];
      Sequences.Nothing(list);
      forall b | 0 <= b < |bodies| && bodies[b].handed && !bodies[b].closed
        ensures b in list
      {
        UnclosedHas(View(), order, b);
      }
    }
  }

  lemma NoneUnclosed(s: State)
    ensures Unclosed(s, []) == []
  {
  }

  lemma UnclosedLast(s: State, order: seq<nat>, i: nat)
    requires i < |order| && order[i] < |s.bodies|
    ensures Unclosed(s, order[..i + 1]) ==
      (if !s.bodies[order[i]].closed then [order[i]] else []) + Unclosed(s, order[..i])
  {
    assert order[..i + 1][..i] == order[..i] && Last(order[..i + 1]) == order[i];
  }
}
