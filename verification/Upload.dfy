/** The upload of a request body as a state machine: each step is what one thread does while it holds the lock, or one
    reading of a source outside it, and steps of any threads come in any order. */
module Upload {
  import opened Wrappers

  datatype Error = ClosedEarly | Canceled | Exceeds | UnexpectedEnd | Failure(code: int)

  /** What a reading of the source returns with its bytes. */
  datatype Read = More | Eof | Fails(error: Error)

  /** A generation of the body. got is what the Read in flight has from the source, once it has; sawEnd, that the
      source has ended. */
  datatype Body = Body(handed: bool, reading: bool, finished: bool, closed: bool, closing: bool, ended: bool,
                       result: Option<Error>, pos: nat, got: Option<Read>, sawEnd: bool)

  /** How far settle has come: closing holds the generations it is still to close, the first of them begun
      with begun. */
  datatype Settle = Idle | Waiting | Woken | Closing(todo: seq<nat>, begun: bool) | Closed | Settled

  /** size is the declared length, or negative; claimed, that the body is one the caller set. order is the generations
      handed over, the last of them last. */
  datatype State = State(size: int, claimed: bool, bodies: seq<Body>, order: seq<nat>, open: int, returned: bool,
                         done: bool, err: Option<Error>, canceled: bool, settle: Settle)

  datatype Step =
    | New
    | Hand(b: nat, checking: bool)
    | ReadBegin(b: nat)
    | Fetch(b: nat, n: nat, read: Read)
    | ReadEnd(b: nat)
    | CloseBegin(b: nat)
    | CloseEnd(b: nat)
    | Return
    | Cancel
    | SettleBegin
    | SettleWake
    | SettleList
    | SettleClose
    | SettleClosed
    | SettleEnd

  const FRESH := Body(false, false, false, false, false, false, None, 0, None, false)

  ghost function Start(size: int, claimed: bool): State {
    State(size, claimed, [FRESH], [], 0, false, false, None, false, Idle)
  }

  function Last(order: seq<nat>): nat
    requires order != []
  {
    order[|order| - 1]
  }

  /** The step that sets done: its err is the result of the last generation in order, if there is one. */
  function Publish(s: State): State {
    if s.done || !s.returned || s.open > 0 then s
    else
      s.(done := true,
         err := if s.order != [] && Last(s.order) < |s.bodies| then s.bodies[Last(s.order)].result else None)
  }

  /** Ends b once; its result is a failure (closed early) unless reading it finished or gave its declared length. */
  function End(s: State, b: nat): State
    requires b < |s.bodies|
  {
    var o := s.bodies[b];
    if o.ended then s
    else
      var early := !o.finished && (s.size < 0 || o.pos != s.size);
      var e := o.(ended := true, result := if early then Some(ClosedEarly) else o.result);
      var t := s.(bodies := s.bodies[b := e]);
      if o.handed then Publish(t.(open := t.open - 1)) else t
  }

  /** What a Read of a body of the declared length returns, at pos, where its source returns read: no end before that
      length, an end at it for a body the client made, and an error past it. */
  function Checked(s: State, pos: nat, read: Read): Read {
    if s.size < 0 then read
    else if pos > s.size && !read.Fails? then Fails(Exceeds)
    else if read.More? && pos == s.size && !s.claimed then Eof
    else if read.Eof? && pos < s.size then Fails(UnexpectedEnd)
    else read
  }

  /** What may happen: one Read at a time of each generation, none handed over after the return, and settle only
      then. A thread that began to close a generation ends closing it. */
  ghost predicate Enabled(s: State, step: Step) {
    match step
    case New => true
    case Hand(b, _) => b < |s.bodies| && !s.returned
    case ReadBegin(b) => b < |s.bodies| && !s.bodies[b].reading
    case Fetch(b, _, _) => b < |s.bodies| && s.bodies[b].reading && s.bodies[b].got.None?
    case ReadEnd(b) => b < |s.bodies| && s.bodies[b].reading && s.bodies[b].got.Some?
    case CloseBegin(b) => b < |s.bodies|
    case CloseEnd(b) => b < |s.bodies| && s.bodies[b].closing &&
      !(s.settle.Closing? && s.settle.begun && s.settle.todo != [] && s.settle.todo[0] == b)
    case Return => !s.returned
    case Cancel => true
    case SettleBegin => s.settle.Idle? && s.returned
    case SettleWake => s.settle.Waiting? && (s.done || s.canceled)
    case SettleList => s.settle.Woken?
    case SettleClose => s.settle.Closing? && !s.settle.begun
    case SettleClosed => s.settle.Closing? && s.settle.begun && s.settle.todo != [] && s.settle.todo[0] < |s.bodies|
    case SettleEnd => s.settle.Closed? && s.done
  }

  function HandOver(s: State, b: nat, checking: bool): State
    requires b < |s.bodies|
  {
    if s.bodies[b].handed || checking then s
    else
      s.(bodies := s.bodies[b := s.bodies[b].(handed := true)], order := s.order + [b],
         open := if s.bodies[b].ended then s.open else s.open + 1)
  }

  function BeginRead(s: State, b: nat): State
    requires b < |s.bodies|
  {
    var o := s.bodies[b];
    var p := if s.canceled && !o.closed && !o.finished then o.(finished := true, result := Some(Canceled)) else o;
    s.(bodies := s.bodies[b := if p.closed || p.finished then p else p.(reading := true, got := None)])
  }

  function TakeRead(s: State, b: nat, n: nat, read: Read): State
    requires b < |s.bodies|
  {
    var o := s.bodies[b];
    var got := Some(Checked(s, o.pos + n, read));
    s.(bodies := s.bodies[b := o.(pos := o.pos + n, got := got, sawEnd := o.sawEnd || read.Eof?)])
  }

  /** A Read that returns with an error, the end included, says how the reading finished. */
  function ReadOf(o: Body): Body
    requires o.got.Some?
  {
    var p := o.(reading := false, got := None);
    match o.got.value
    case More => p
    case Eof => p.(finished := true)
    case Fails(e) => p.(finished := true, result := Some(e))
  }

  function EndRead(s: State, b: nat): State
    requires b < |s.bodies| && s.bodies[b].got.Some?
  {
    var q := ReadOf(s.bodies[b]);
    var t := s.(bodies := s.bodies[b := q]);
    if q.closed && !q.closing then End(t, b) else t
  }

  function BeginClose(s: State, b: nat): State
    requires b < |s.bodies|
  {
    if s.bodies[b].closed then s else s.(bodies := s.bodies[b := s.bodies[b].(closed := true, closing := true)])
  }

  function EndClose(s: State, b: nat): State
    requires b < |s.bodies|
  {
    var t := s.(bodies := s.bodies[b := s.bodies[b].(closing := false)]);
    if t.bodies[b].reading then t else End(t, b)
  }

  /** Those of order that are not closed, in reverse. */
  function Unclosed(s: State, order: seq<nat>): seq<nat> {
    if order == [] then []
    else
      var b := Last(order);
      (if b < |s.bodies| && !s.bodies[b].closed then [b] else []) + Unclosed(s, order[..|order| - 1])
  }

  ghost function Apply(s: State, step: Step): State
    requires Enabled(s, step)
  {
    match step
    case New => s.(bodies := s.bodies + [FRESH])
    case Hand(b, checking) => HandOver(s, b, checking)
    case ReadBegin(b) => BeginRead(s, b)
    case Fetch(b, n, read) => TakeRead(s, b, n, read)
    case ReadEnd(b) => EndRead(s, b)
    case CloseBegin(b) => BeginClose(s, b)
    case CloseEnd(b) => EndClose(s, b)
    case Return => Publish(s.(returned := true))
    case Cancel => s.(canceled := true)
    case SettleBegin => s.(settle := if s.done then Settled else Waiting)
    case SettleWake => s.(settle := Woken)
    case SettleList => s.(settle := if s.done then Settled else Closing(Unclosed(s, s.order), false))
    case SettleClose =>
      if s.settle.todo == [] then s.(settle := Closed)
      else if s.settle.todo[0] >= |s.bodies| || s.bodies[s.settle.todo[0]].closed then
        s.(settle := Closing(s.settle.todo[1..], false))
      else BeginClose(s, s.settle.todo[0]).(settle := Closing(s.settle.todo, true))
    case SettleClosed => EndClose(s, s.settle.todo[0]).(settle := Closing(s.settle.todo[1..], false))
    case SettleEnd => s.(settle := Settled)
  }

  ghost predicate Run(tr: seq<State>, steps: seq<Step>) {
    && |tr| == |steps| + 1
    && (exists size: int, claimed: bool :: tr[0] == Start(size, claimed))
    && forall i :: 0 <= i < |steps| ==> Enabled(tr[i], steps[i]) && tr[i + 1] == Apply(tr[i], steps[i])
  }

  // What every step keeps.

  function Open(o: Body): nat {
    if o.handed && !o.ended then 1 else 0
  }

  function CountOpen(bodies: seq<Body>): nat {
    if bodies == [] then 0 else Open(bodies[0]) + CountOpen(bodies[1..])
  }

  lemma {:induction false} CountUpdate(bodies: seq<Body>, b: nat, o: Body)
    requires b < |bodies|
    ensures CountOpen(bodies[b := o]) == CountOpen(bodies) - Open(bodies[b]) + Open(o)
  {
    if b > 0 {
      CountUpdate(bodies[1..], b - 1, o);
      assert bodies[b := o][1..] == bodies[1..][b - 1 := o];
    } else {
      assert bodies[b := o][1..] == bodies[1..];
    }
  }

  lemma {:induction false} CountAppend(bodies: seq<Body>, o: Body)
    ensures CountOpen(bodies + [o]) == CountOpen(bodies) + Open(o)
  {
    if bodies != [] {
      CountAppend(bodies[1..], o);
      assert (bodies + [o])[1..] == bodies[1..] + [o];
    }
  }

  lemma {:induction false} CountMember(bodies: seq<Body>, b: nat)
    requires b < |bodies|
    ensures Open(bodies[b]) <= CountOpen(bodies)
  {
    if b > 0 {
      CountMember(bodies[1..], b - 1);
    }
  }

  /** It has given its declared length, or, with none declared, its source has ended. */
  predicate Complete(s: State, o: Body) {
    if s.size >= 0 then o.pos == s.size else o.sawEnd
  }

  /** One generation: it ends only closed, with no Read and no Close in flight, and then no Read can begin. */
  ghost predicate Coherent(s: State, o: Body) {
    && (o.ended ==> o.closed && !o.reading && !o.closing)
    && (o.closing ==> o.closed)
    && (o.closed && !o.ended ==> o.closing || o.reading)
    && (o.reading ==> !o.finished)
    && (o.got.Some? ==> o.reading)
    && (o.reading && o.got == Some(Eof) ==> Complete(s, o))
    && (!o.finished && !o.ended ==> o.result.None?)
    && (o.finished && o.result.None? ==> Complete(s, o))
    && (o.ended && o.result.None? ==> Complete(s, o))
  }

  ghost predicate Ordered(s: State) {
    && (forall i :: 0 <= i < |s.order| ==> s.order[i] < |s.bodies| && s.bodies[s.order[i]].handed)
    && (forall b :: 0 <= b < |s.bodies| && s.bodies[b].handed ==> b in s.order)
  }

  ghost predicate Published(s: State) {
    && s.open == CountOpen(s.bodies)
    && (s.done <==> s.returned && s.open == 0)
    && (s.done ==>
       s.err == if s.order != [] && Last(s.order) < |s.bodies| then s.bodies[Last(s.order)].result else None)
  }

  /** settle has yet to close each generation handed over that no one has closed. */
  ghost predicate Settling(s: State) {
    && (!s.settle.Idle? ==> s.returned)
    && (s.settle.Closing? ==>
          && (forall b :: 0 <= b < |s.bodies| && s.bodies[b].handed && !s.bodies[b].closed ==> b in s.settle.todo)
          && (s.settle.begun ==>
             s.settle.todo != [] && s.settle.todo[0] < |s.bodies| && s.bodies[s.settle.todo[0]].closing))
    && (s.settle.Closed? || s.settle.Settled? ==>
          forall b :: 0 <= b < |s.bodies| && s.bodies[b].handed ==> s.bodies[b].closed)
    && (s.settle.Settled? ==> s.done)
  }

  ghost predicate Invariant(s: State) {
    && (forall b :: 0 <= b < |s.bodies| ==> Coherent(s, s.bodies[b]))
    && Ordered(s)
    && Published(s)
    && Settling(s)
  }

  lemma StartKeeps(size: int, claimed: bool)
    ensures Invariant(Start(size, claimed))
  {
    assert CountOpen([FRESH]) == Open(FRESH) + CountOpen([]);
  }

  /** A generation whose hand-over and end do not change may read, or close. */
  lemma BodyKeeps(s: State, b: nat, o: Body)
    requires Invariant(s) && b < |s.bodies| && Coherent(s, o)
    requires o.handed == s.bodies[b].handed && o.ended == s.bodies[b].ended
    requires s.bodies[b].closed ==> o.closed
    requires s.bodies[b].ended ==> o.result == s.bodies[b].result
    requires s.settle.Closing? && s.settle.begun && s.settle.todo[0] == b ==> o.closing
    ensures Invariant(s.(bodies := s.bodies[b := o]))
  {
    hide Published, Ordered, Settling, CountOpen;
    var t := s.(bodies := s.bodies[b := o]);
    BodyCoherent(s, b, o);
    BodyOrdered(s, b, o);
    BodyPublished(s, b, o);
    BodySettling(s, b, o);
  }

  lemma BodyCoherent(s: State, b: nat, o: Body)
    requires b < |s.bodies| && Coherent(s, o) && forall c :: 0 <= c < |s.bodies| ==> Coherent(s, s.bodies[c])
    ensures var t := s.(bodies := s.bodies[b := o]); forall c :: 0 <= c < |t.bodies| ==> Coherent(t, t.bodies[c])
  {
    var t := s.(bodies := s.bodies[b := o]);
    forall c | 0 <= c < |t.bodies| ensures Coherent(t, t.bodies[c]) {
      assert Coherent(s, t.bodies[c]);
    }
  }

  lemma BodyOrdered(s: State, b: nat, o: Body)
    requires b < |s.bodies| && Ordered(s) && o.handed == s.bodies[b].handed
    ensures Ordered(s.(bodies := s.bodies[b := o]))
  {
  }

  lemma BodyPublished(s: State, b: nat, o: Body)
    requires b < |s.bodies| && Published(s) && Ordered(s) && o.handed == s.bodies[b].handed &&
      o.ended == s.bodies[b].ended
    requires s.bodies[b].ended ==> o.result == s.bodies[b].result
    ensures Published(s.(bodies := s.bodies[b := o]))
  {
    CountUpdate(s.bodies, b, o);
    assert Open(o) == Open(s.bodies[b]);
    if s.done && s.order != [] {
      CountMember(s.bodies, Last(s.order));
    }
  }

  lemma BodySettling(s: State, b: nat, o: Body)
    requires b < |s.bodies| && Settling(s) && o.handed == s.bodies[b].handed && (s.bodies[b].closed ==> o.closed)
    requires s.settle.Closing? && s.settle.begun && s.settle.todo[0] == b ==> o.closing
    ensures Settling(s.(bodies := s.bodies[b := o]))
  {
  }

  lemma EndPublished(s: State, b: nat, o: Body)
    requires b < |s.bodies| && Published(s) && Ordered(s) && !s.bodies[b].ended
    requires o.handed == s.bodies[b].handed && !o.ended
    ensures Published(End(s.(bodies := s.bodies[b := o]), b))
  {
    var u := End(s.(bodies := s.bodies[b := o]), b);
    var e := u.bodies[b];
    assert u.bodies == s.bodies[b := e];
    CountUpdate(s.bodies, b, e);
    CountMember(s.bodies, b);
  }

  lemma EndSettling(s: State, b: nat, o: Body)
    requires b < |s.bodies| && Settling(s)
    requires o.handed == s.bodies[b].handed && o.closed
    requires !(s.settle.Closing? && s.settle.begun && s.settle.todo[0] == b)
    ensures Settling(End(s.(bodies := s.bodies[b := o]), b))
  {
    var u := End(s.(bodies := s.bodies[b := o]), b);
    assert u.bodies == s.bodies[b := u.bodies[b]];
  }

  lemma EndKeeps(s: State, b: nat, o: Body)
    requires b < |s.bodies| && Invariant(s) && !s.bodies[b].ended
    requires o.handed == s.bodies[b].handed && !o.ended && o.closed && !o.closing && !o.reading && o.got.None?
    requires !o.finished ==> o.result.None?
    requires o.finished && o.result.None? ==> Complete(s, o)
    requires !(s.settle.Closing? && s.settle.begun && s.settle.todo[0] == b)
    ensures Invariant(End(s.(bodies := s.bodies[b := o]), b))
  {
    hide Published, Settling;
    EndPublished(s, b, o);
    EndSettling(s, b, o);
    var u := End(s.(bodies := s.bodies[b := o]), b);
    assert u.bodies == s.bodies[b := u.bodies[b]];
  }

  /** What b ends from: it is closed with nothing in flight, and all else is as it should be. */
  ghost predicate Ending(s: State, b: nat) {
    && b < |s.bodies| && Ordered(s) && Published(s) && Settling(s)
    && (forall c :: 0 <= c < |s.bodies| && c != b ==> Coherent(s, s.bodies[c]))
    && var o := s.bodies[b];
    && !o.ended && o.closed && !o.closing && !o.reading && o.got.None?
    && (!o.finished ==> o.result.None?) && (o.finished && o.result.None? ==> Complete(s, o))
  }

  lemma EndingKeeps(s: State, b: nat)
    requires Ending(s, b)
    ensures Invariant(End(s, b))
  {
    hide Published, Settling, End, Coherent, Ordered;
    var o := s.bodies[b];
    assert s.bodies[b := o] == s.bodies;
    SettlingApart(s, b);
    EndPublished(s, b, o);
    EndSettling(s, b, o);
    EndingCoherent(s, b);
    EndingOrdered(s, b);
  }

  lemma EndingCoherent(s: State, b: nat)
    requires Ending(s, b)
    ensures var u := End(s, b); forall c :: 0 <= c < |u.bodies| ==> Coherent(u, u.bodies[c])
  {
    hide Published, Settling, Ordered;
    var u := End(s, b);
    assert u.bodies == s.bodies[b := u.bodies[b]];
  }

  lemma EndingOrdered(s: State, b: nat)
    requires Ending(s, b)
    ensures Ordered(End(s, b))
  {
    hide Published, Settling, Coherent;
    var u := End(s, b);
    assert u.bodies == s.bodies[b := u.bodies[b]];
  }

  lemma SettlingApart(s: State, b: nat)
    requires Settling(s) && b < |s.bodies| && !s.bodies[b].closing
    ensures !(s.settle.Closing? && s.settle.begun && s.settle.todo[0] == b)
  {
  }

  /** What is published from: all is as it should be, but that the result may be due. */
  ghost predicate Due(s: State) {
    && (forall b :: 0 <= b < |s.bodies| ==> Coherent(s, s.bodies[b])) && Ordered(s) && Settling(s)
    && s.open == CountOpen(s.bodies)
    && (s.done ==> s.returned && s.open == 0)
    && (s.done ==>
       s.err == if s.order != [] && Last(s.order) < |s.bodies| then s.bodies[Last(s.order)].result else None)
  }

  lemma DueKeeps(s: State)
    requires Due(s)
    ensures Invariant(Publish(s))
  {
  }

  lemma HandKeeps(s: State, b: nat, checking: bool)
    requires Invariant(s) && Enabled(s, Step.Hand(b, checking))
    ensures Invariant(HandOver(s, b, checking))
  {
    if !s.bodies[b].handed && !checking {
      var t := HandOver(s, b, checking);
      CountUpdate(s.bodies, b, t.bodies[b]);
      assert t.order[|s.order|] == b;
      assert forall c :: c in s.order ==> c in t.order;
    }
  }

  lemma ReadKeeps(s: State, b: nat, n: nat, read: Read)
    requires Invariant(s) && b < |s.bodies|
    ensures !s.bodies[b].reading ==> Invariant(BeginRead(s, b))
    ensures s.bodies[b].reading && s.bodies[b].got.None? ==> Invariant(TakeRead(s, b, n, read))
  {
    if !s.bodies[b].reading {
      BodyKeeps(s, b, BeginRead(s, b).bodies[b]);
    } else if s.bodies[b].got.None? {
      BodyKeeps(s, b, TakeRead(s, b, n, read).bodies[b]);
    }
  }

  lemma ReadEndKeeps(s: State, b: nat)
    requires Invariant(s) && Enabled(s, Step.ReadEnd(b))
    ensures Invariant(EndRead(s, b))
  {
    var q := ReadOf(s.bodies[b]);
    if q.closed && !q.closing {
      EndKeeps(s, b, q);
    } else {
      BodyKeeps(s, b, q);
    }
  }

  lemma CloseBeginKeeps(s: State, b: nat)
    requires Invariant(s) && b < |s.bodies|
    ensures Invariant(BeginClose(s, b))
  {
    if !s.bodies[b].closed {
      BodyKeeps(s, b, s.bodies[b].(closed := true, closing := true));
    }
  }

  lemma CloseEndKeeps(s: State, b: nat)
    requires Invariant(s) && b < |s.bodies| && s.bodies[b].closing
    requires !(s.settle.Closing? && s.settle.begun && s.settle.todo[0] == b)
    ensures Invariant(EndClose(s, b))
  {
    var o := s.bodies[b].(closing := false);
    if o.reading {
      BodyKeeps(s, b, o);
    } else {
      EndKeeps(s, b, o);
    }
  }

  lemma {:induction false} UnclosedHas(s: State, order: seq<nat>, b: nat)
    requires b in order && b < |s.bodies| && !s.bodies[b].closed
    ensures b in Unclosed(s, order)
  {
    if Last(order) != b {
      var i :| 0 <= i < |order| && order[i] == b;
      assert order[..|order| - 1][i] == b;
      UnclosedHas(s, order[..|order| - 1], b);
    }
  }

  lemma DoneClosed(s: State)
    requires Invariant(s) && s.done
    ensures forall b :: 0 <= b < |s.bodies| && s.bodies[b].handed ==> s.bodies[b].ended && s.bodies[b].closed
  {
    forall b | 0 <= b < |s.bodies| && s.bodies[b].handed
      ensures s.bodies[b].ended && s.bodies[b].closed
    {
      CountMember(s.bodies, b);
      assert Coherent(s, s.bodies[b]);
    }
  }

  lemma SettleKeeps(s: State, step: Step)
    requires Invariant(s) && Enabled(s, step)
    requires step.SettleBegin? || step.SettleWake? || step.SettleList? || step.SettleEnd?
    ensures Invariant(Apply(s, step))
  {
    hide Coherent;
    if s.done {
      DoneClosed(s);
    }
    if step.SettleList? {
      forall b | 0 <= b < |s.bodies| && s.bodies[b].handed && !s.bodies[b].closed
        ensures b in Unclosed(s, s.order)
      {
        UnclosedHas(s, s.order, b);
      }
    }
    SameBodies(s, Apply(s, step));
  }

  lemma SameBodies(s: State, t: State)
    requires Invariant(s) && t == s.(settle := t.settle) && Settling(t)
    ensures Invariant(t)
  {
    hide Settling;
  }

  lemma SettleCloseKeeps(s: State)
    requires Invariant(s) && Enabled(s, SettleClose)
    ensures Invariant(Apply(s, SettleClose))
  {
    hide Coherent, Published, Ordered;
    if s.settle.todo != [] {
      var b := s.settle.todo[0];
      assert s.settle.todo == [b] + s.settle.todo[1..];
      if b < |s.bodies| && !s.bodies[b].closed {
        CloseBeginKeeps(s, b);
        SameBodies(BeginClose(s, b), Apply(s, SettleClose));
        return;
      }
    }
    SameBodies(s, Apply(s, SettleClose));
  }

  lemma SettleClosedKeeps(s: State)
    requires Invariant(s) && Enabled(s, SettleClosed)
    ensures Invariant(Apply(s, SettleClosed))
  {
    hide Coherent, Published, Ordered;
    var b := s.settle.todo[0];
    assert s.settle.todo == [b] + s.settle.todo[1..];
    var t := s.(settle := Closing(s.settle.todo[1..], false));
    BeingClosed(s, b);
    SameBodies(s, t);
    CloseEndKeeps(t, b);
    assert EndClose(t, b) == Apply(s, SettleClosed);
  }

  lemma BeingClosed(s: State, b: nat)
    requires Invariant(s) && b < |s.bodies| && s.bodies[b].closing
    ensures s.bodies[b].closed
  {
    assert Coherent(s, s.bodies[b]);
  }

  lemma CloseEndStep(s: State, b: nat)
    requires Invariant(s) && Enabled(s, CloseEnd(b))
    ensures Invariant(Apply(s, CloseEnd(b)))
  {
    hide Coherent, Published, Ordered, EndClose;
    CloseEndKeeps(s, b);
  }

  lemma NewKeeps(s: State)
    requires Invariant(s)
    ensures Invariant(Apply(s, New))
  {
    CountAppend(s.bodies, FRESH);
  }

  lemma ReturnKeeps(s: State)
    requires Invariant(s) && !s.returned
    ensures Invariant(Apply(s, Return))
  {
  }

  lemma CancelKeeps(s: State)
    requires Invariant(s)
    ensures Invariant(Apply(s, Cancel))
  {
  }

  /** Every step of every thread keeps the invariant. */
  lemma StepKeeps(s: State, step: Step)
    requires Invariant(s) && Enabled(s, step)
    ensures Invariant(Apply(s, step))
  {
    hide Invariant, HandOver, BeginRead, TakeRead, EndRead, BeginClose, EndClose, Publish;
    match step
    case New => NewKeeps(s);
    case Hand(b, checking) => HandKeeps(s, b, checking);
    case ReadBegin(b) => ReadKeeps(s, b, 0, More);
    case Fetch(b, n, read) => ReadKeeps(s, b, n, read);
    case ReadEnd(b) => ReadEndKeeps(s, b);
    case CloseBegin(b) => CloseBeginKeeps(s, b);
    case CloseEnd(b) => CloseEndStep(s, b);
    case Return => ReturnKeeps(s);
    case Cancel => CancelKeeps(s);
    case SettleClose => SettleCloseKeeps(s);
    case SettleClosed => SettleClosedKeeps(s);
    case _ => SettleKeeps(s, step);
  }

  lemma {:induction false} RunKeeps(tr: seq<State>, steps: seq<Step>, i: nat)
    requires Run(tr, steps) && i < |tr|
    ensures Invariant(tr[i])
  {
    if i == 0 {
      var size: int, claimed: bool :| tr[0] == Start(size, claimed);
      StartKeeps(size, claimed);
    } else {
      RunKeeps(tr, steps, i - 1);
      assert Enabled(tr[i - 1], steps[i - 1]) && tr[(i - 1) + 1] == Apply(tr[i - 1], steps[i - 1]);
      StepKeeps(tr[i - 1], steps[i - 1]);
    }
  }
}
