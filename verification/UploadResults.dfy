/** When an upload succeeds, and else which step it fails for: its published result, told from the steps of its run. */
module UploadResults {
  import opened Wrappers
  import opened Upload
  import opened UploadRuns

  /** How a step decides the reading of a generation. */
  datatype Cause = Breaks(error: Error) | Cancels | Completes

  /** How many bytes the source of b gave in these steps. */
  function Sent(steps: seq<Step>, b: nat): nat {
    if steps == [] then 0
    else
      var last := steps[|steps| - 1];
      Sent(steps[..|steps| - 1], b) + if last.Fetch? && last.b == b then last.n else 0
  }

  /** A Close of b begins: the transport's, or settle's of the generation it has come to. */
  ghost predicate Closes(s: State, step: Step, b: nat) {
    b < |s.bodies| &&
    (step == CloseBegin(b) || (step.SettleClose? && s.settle.Closing? && s.settle.todo != [] && s.settle.todo[0] == b))
  }

  ghost predicate Closed(tr: seq<State>, steps: seq<Step>, k: nat, b: nat)
    requires k <= |steps| <= |tr|
  {
    exists j :: 0 <= j < k && Closes(tr[j], steps[j], b)
  }

  ghost predicate CanceledBefore(steps: seq<Step>, k: nat)
    requires k <= |steps|
  {
    exists j :: 0 <= j < k && steps[j].Cancel?
  }

  /** What a source's answer read decides, with pos bytes given: of size bytes declared, if any, more are too many and
      less at its end too few; the client's own body, not claimed, is complete at its length before its end is read. */
  function Answer(size: int, claimed: bool, pos: nat, read: Read): Option<Cause> {
    if read.Fails? then Some(Breaks(read.error))
    else if 0 <= size < pos then Some(Breaks(Exceeds))
    else if read.Eof? then Some(if pos < size then Breaks(UnexpectedEnd) else Completes)
    else if pos == size && !claimed then Some(Completes)
    else None
  }

  /** Whether the kth step decides the reading of b: an answer of its source, or a Read that begins when the call is
      canceled and b is not closed. */
  ghost function Decides(tr: seq<State>, steps: seq<Step>, k: nat, b: nat): Option<Cause>
    requires k < |steps| <= |tr|
  {
    match steps[k]
    case Fetch(c, _, read) => if c == b then Answer(tr[0].size, tr[0].claimed, Sent(steps[..k + 1], b), read) else None
    case ReadBegin(c) => if c == b && CanceledBefore(steps, k) && !Closed(tr, steps, k, b) then Some(Cancels) else None
    case _ => None
  }

  /** The kth step is the first that decides the reading of b. */
  ghost predicate First(tr: seq<State>, steps: seq<Step>, k: nat, b: nat)
    requires k < |steps| <= |tr|
  {
    Decides(tr, steps, k, b).Some? && forall j :: 0 <= j < k ==> Decides(tr, steps, j, b).None?
  }

  function Outcome(c: Cause): Option<Error> {
    match c
    case Breaks(e) => Some(e)
    case Cancels => Some(Canceled)
    case Completes => None
  }

  /** r is the result of b after i steps: that of the first step that decided its reading, or, where none did, that it
      was closed early, unless it had given exactly its declared length. */
  ghost predicate ResultIs(tr: seq<State>, steps: seq<Step>, i: nat, b: nat, r: Option<Error>)
    requires i <= |steps| < |tr|
  {
    && (forall k :: 0 <= k < i && First(tr, steps, k, b) ==> r == Outcome(Decides(tr, steps, k, b).value))
    && ((forall k :: 0 <= k < i ==> Decides(tr, steps, k, b).None?) ==>
          r == if tr[0].size == Sent(steps[..i], b) then None else Some(ClosedEarly))
  }

  // What the state knows of the steps so far.

  /** The cause of the first of i steps that decides the reading of b. */
  ghost function CauseAt(tr: seq<State>, steps: seq<Step>, i: nat, b: nat): Option<Cause>
    requires i <= |steps| <= |tr|
  {
    if i == 0 then None
    else
      var c := CauseAt(tr, steps, i - 1, b);
      if c.Some? then c else Decides(tr, steps, i - 1, b)
  }

  lemma {:induction false} CauseFirst(tr: seq<State>, steps: seq<Step>, i: nat, b: nat)
    requires i <= |steps| <= |tr|
    ensures CauseAt(tr, steps, i, b).None? <==> forall k :: 0 <= k < i ==> Decides(tr, steps, k, b).None?
    ensures forall k :: 0 <= k < i && First(tr, steps, k, b) ==> CauseAt(tr, steps, i, b) == Decides(tr, steps, k, b)
  {
    hide Decides;
    if i > 0 {
      CauseFirst(tr, steps, i - 1, b);
      forall k | 0 <= k < i && First(tr, steps, k, b)
        ensures CauseAt(tr, steps, i, b) == Decides(tr, steps, k, b)
      {
        if k == i - 1 {
          assert CauseAt(tr, steps, k, b).None?;
        } else {
          assert Decides(tr, steps, k, b).Some?;
        }
      }
    }
  }

  function Gets(read: Read): Option<Cause> {
    match read
    case More => None
    case Eof => Some(Completes)
    case Fails(e) => Some(Breaks(e))
  }

  function Result(size: int, pos: nat, c: Option<Cause>): Option<Error> {
    if c.Some? then Outcome(c.value) else if size == pos then None else Some(ClosedEarly)
  }

  /** The fields of a generation say what decided its reading. */
  ghost predicate Tied(size: int, o: Body, c: Option<Cause>) {
    if o.ended then o.result == Result(size, o.pos, c)
    else if o.finished then c.Some? && o.result == Outcome(c.value)
    else c == if o.got.Some? then Gets(o.got.value) else None
  }

  ghost predicate Told(tr: seq<State>, steps: seq<Step>, i: nat, b: nat)
    requires i <= |steps| < |tr|
  {
    var o := if b < |tr[i].bodies| then tr[i].bodies[b] else FRESH;
    && o.pos == Sent(steps[..i], b) && (o.closed <==> Closed(tr, steps, i, b))
    && Tied(tr[0].size, o, CauseAt(tr, steps, i, b))
  }

  ghost predicate SameUpload(tr: seq<State>, steps: seq<Step>, i: nat)
    requires i <= |steps| < |tr|
  {
    tr[i].size == tr[0].size && tr[i].claimed == tr[0].claimed && (tr[i].canceled <==> CanceledBefore(steps, i))
  }

  /** What one step does to what b has given, and whether it is closed or its reading decided. */
  ghost predicate Stepped(s: State, step: Step, b: nat, t: State, c: Option<Cause>, d: Option<Cause>)
    requires b < |s.bodies| && b < |t.bodies|
  {
    var (o, p) := (s.bodies[b], t.bodies[b]);
    && p.pos == o.pos + (if step.Fetch? && step.b == b then step.n else 0)
    && (p.closed <==> o.closed || Closes(s, step, b))
    && Tied(s.size, p, if c.Some? then c else d)
  }

  // One step.

  /** Only the generation b is changed, if any. */
  ghost predicate Others(s: State, t: State, b: nat) {
    && t.size == s.size && t.claimed == s.claimed && t.canceled == s.canceled && |t.bodies| == |s.bodies|
    && forall c :: 0 <= c < |s.bodies| && c != b ==> t.bodies[c] == s.bodies[c]
  }

  lemma EndOthers(s: State, b: nat)
    requires b < |s.bodies|
    ensures Others(s, End(s, b), b) && End(s, b).order == s.order
  {
  }

  lemma ReadOthers(s: State, b: nat)
    requires b < |s.bodies| && s.bodies[b].got.Some?
    ensures Others(s, EndRead(s, b), b) && EndRead(s, b).order == s.order
  {
    hide End;
    EndOthers(s.(bodies := s.bodies[b := ReadOf(s.bodies[b])]), b);
  }

  lemma CloseOthers(s: State, b: nat)
    requires b < |s.bodies|
    ensures Others(s, EndClose(s, b), b) && EndClose(s, b).order == s.order
  {
    hide End;
    EndOthers(s.(bodies := s.bodies[b := s.bodies[b].(closing := false)]), b);
  }

  /** The generation a step is of, if it is of one. */
  ghost function Of(s: State, step: Step): Option<nat> {
    match step
    case Hand(b, _) => Some(b)
    case ReadBegin(b) => Some(b)
    case Fetch(b, _, _) => Some(b)
    case ReadEnd(b) => Some(b)
    case CloseBegin(b) => Some(b)
    case CloseEnd(b) => Some(b)
    case SettleClose => if s.settle.Closing? && s.settle.todo != [] then Some(s.settle.todo[0]) else None
    case SettleClosed => if s.settle.Closing? && s.settle.todo != [] then Some(s.settle.todo[0]) else None
    case _ => None
  }

  lemma StepOthers(s: State, step: Step)
    requires Enabled(s, step) && Of(s, step).Some?
    ensures Others(s, Apply(s, step), Of(s, step).value)
  {
    hide End, EndRead, EndClose, Unclosed;
    match step
    case ReadEnd(b) => ReadOthers(s, b);
    case CloseEnd(b) => CloseOthers(s, b);
    case SettleClosed => CloseOthers(s, s.settle.todo[0]);
    case _ =>
  }

  lemma StepNone(s: State, step: Step)
    requires Enabled(s, step) && Of(s, step).None?
    ensures var t := Apply(s, step);
      && t.size == s.size && t.claimed == s.claimed && t.canceled == (s.canceled || step.Cancel?)
      && |s.bodies| <= |t.bodies| && t.bodies[..|s.bodies|] == s.bodies
      && forall b :: |s.bodies| <= b < |t.bodies| ==> t.bodies[b] == FRESH
  {
    hide End, EndRead, EndClose, Unclosed;
  }

  lemma OtherStepped(s: State, step: Step, b: nat, c: Option<Cause>)
    requires Enabled(s, step) && b < |s.bodies| && Of(s, step) != Some(b) && Tied(s.size, s.bodies[b], c)
    ensures b < |Apply(s, step).bodies| && Stepped(s, step, b, Apply(s, step), c, None)
  {
    hide Apply, Enabled, Tied;
    if Of(s, step).Some? {
      StepOthers(s, step);
    } else {
      StepNone(s, step);
      assert Apply(s, step).bodies[..|s.bodies|][b] == s.bodies[b];
    }
  }

  /** What a step of b decides, its canceled and closed flags, and what it has given, being those of the steps. */
  ghost function Deciding(s: State, step: Step, b: nat): Option<Cause>
    requires b < |s.bodies|
  {
    match step
    case Fetch(c, n, read) => if c == b then Answer(s.size, s.claimed, s.bodies[b].pos + n, read) else None
    case ReadBegin(c) => if c == b && s.canceled && !s.bodies[b].closed then Some(Cancels) else None
    case _ => None
  }

  lemma EndTied(s: State, b: nat, c: Option<Cause>)
    requires b < |s.bodies| && !s.bodies[b].ended && s.bodies[b].got.None? && Tied(s.size, s.bodies[b], c)
    requires !s.bodies[b].finished ==> s.bodies[b].result.None?
    ensures var o := End(s, b).bodies[b];
      o.pos == s.bodies[b].pos && o.closed == s.bodies[b].closed && Tied(s.size, o, c)
  {
    hide Publish, Outcome, Gets;
    EndFields(s, b);
  }

  lemma EndFields(s: State, b: nat)
    requires b < |s.bodies| && !s.bodies[b].ended
    ensures var (o, p) := (s.bodies[b], End(s, b).bodies[b]);
      && p.ended && p.pos == o.pos && p.closed == o.closed
      && p.result == if !o.finished && (s.size < 0 || o.pos != s.size) then Some(ClosedEarly) else o.result
  {
  }

  lemma OwnStepped(s: State, step: Step, b: nat, c: Option<Cause>)
    requires Enabled(s, step) && b < |s.bodies| && Of(s, step) == Some(b) && Coherent(s, s.bodies[b])
    requires Settling(s) && Tied(s.size, s.bodies[b], c)
    ensures b < |Apply(s, step).bodies| && Stepped(s, step, b, Apply(s, step), c, Deciding(s, step, b))
  {
    hide End, EndRead, EndClose, BeginRead, TakeRead, Unclosed, Tied;
    match step
    case Hand(_, _) => HandTied(s, step, b, c);
    case ReadBegin(_) => BeginTied(s, b, c);
    case Fetch(_, n, read) => TakeTied(s, b, n, read, c);
    case ReadEnd(_) => ReadTied(s, b, c);
    case CloseEnd(_) => CloseTied(s, b, c);
    case SettleClosed => CloseTied(s, b, c);
    case CloseBegin(_) => CloseBegins(s, step, b, c);
    case SettleClose => CloseBegins(s, step, b, c);
  }

  lemma HandTied(s: State, step: Step, b: nat, c: Option<Cause>)
    requires b < |s.bodies| && step.Hand? && step.b == b && Tied(s.size, s.bodies[b], c)
    ensures b < |HandOver(s, b, step.checking).bodies|
    ensures Stepped(s, step, b, HandOver(s, b, step.checking), c, Deciding(s, step, b))
  {
    hide Result, Outcome, Gets, Answer;
    var o := HandOver(s, b, step.checking).bodies[b];
    assert o == s.bodies[b].(handed := o.handed);
  }

  lemma BeginTied(s: State, b: nat, c: Option<Cause>)
    requires b < |s.bodies| && Coherent(s, s.bodies[b]) && !s.bodies[b].reading && Tied(s.size, s.bodies[b], c)
    ensures b < |BeginRead(s, b).bodies|
    ensures Stepped(s, Step.ReadBegin(b), b, BeginRead(s, b), c, Deciding(s, Step.ReadBegin(b), b))
  {
  }

  lemma TakeTied(s: State, b: nat, n: nat, read: Read, c: Option<Cause>)
    requires b < |s.bodies| && Coherent(s, s.bodies[b]) && s.bodies[b].reading && s.bodies[b].got.None?
    requires Tied(s.size, s.bodies[b], c)
    ensures b < |TakeRead(s, b, n, read).bodies|
    ensures Stepped(s, Step.Fetch(b, n, read), b, TakeRead(s, b, n, read), c, Deciding(s, Step.Fetch(b, n, read), b))
  {
  }

  lemma ReadTied(s: State, b: nat, c: Option<Cause>)
    requires b < |s.bodies| && Coherent(s, s.bodies[b]) && s.bodies[b].got.Some? && Tied(s.size, s.bodies[b], c)
    ensures b < |EndRead(s, b).bodies|
    ensures Stepped(s, Step.ReadEnd(b), b, EndRead(s, b), c, Deciding(s, Step.ReadEnd(b), b))
  {
    hide End;
    var q := ReadOf(s.bodies[b]);
    var t := s.(bodies := s.bodies[b := q]);
    ReadOthers(s, b);
    ReadsTied(s, s.bodies[b], c);
    if q.closed && !q.closing {
      EndTied(t, b, c);
      assert EndRead(s, b) == End(t, b);
    } else {
      assert EndRead(s, b) == t;
    }
  }

  lemma ReadsTied(s: State, o: Body, c: Option<Cause>)
    requires Coherent(s, o) && o.got.Some? && Tied(s.size, o, c)
    ensures var q := ReadOf(o);
      && q.pos == o.pos && q.closed == o.closed && !q.ended && q.got.None? && Tied(s.size, q, c)
      && (!q.finished ==> q.result.None?)
  {
  }

  lemma CloseBegins(s: State, step: Step, b: nat, c: Option<Cause>)
    requires Enabled(s, step) && Of(s, step) == Some(b) && (step.CloseBegin? || step.SettleClose?)
    requires b < |s.bodies| && Tied(s.size, s.bodies[b], c) && Coherent(s, s.bodies[b])
    ensures b < |Apply(s, step).bodies| && Stepped(s, step, b, Apply(s, step), c, Deciding(s, step, b))
  {
    hide Unclosed;
  }

  lemma CloseTied(s: State, b: nat, c: Option<Cause>)
    requires b < |s.bodies| && Coherent(s, s.bodies[b]) && s.bodies[b].closing && Tied(s.size, s.bodies[b], c)
    ensures b < |EndClose(s, b).bodies|
    ensures var o := EndClose(s, b).bodies[b];
      o.pos == s.bodies[b].pos && o.closed == s.bodies[b].closed && Tied(s.size, o, c)
  {
    hide End;
    var o := s.bodies[b].(closing := false);
    CloseOthers(s, b);
    if !o.reading {
      EndTied(s.(bodies := s.bodies[b := o]), b, c);
    }
  }

  lemma {:induction false} RunSame(tr: seq<State>, steps: seq<Step>, i: nat)
    requires i <= |steps| < |tr| && Run(tr, steps)
    ensures SameUpload(tr, steps, i)
  {
    hide Run, Apply, Enabled;
    if i == 0 {
      NotCanceled(tr, steps);
    } else {
      RunSame(tr, steps, i - 1);
      RunStep(tr, steps, i - 1);
      if Of(tr[i - 1], steps[i - 1]).Some? {
        StepOthers(tr[i - 1], steps[i - 1]);
      } else {
        StepNone(tr[i - 1], steps[i - 1]);
      }
    }
  }

  lemma NotCanceled(tr: seq<State>, steps: seq<Step>)
    requires |steps| < |tr| && Run(tr, steps)
    ensures !tr[0].canceled && tr[0].bodies == [FRESH] && tr[0].order == []
  {
  }

  lemma SentNext(steps: seq<Step>, i: nat, b: nat)
    requires i < |steps|
    ensures Sent(steps[..i + 1], b) ==
      Sent(steps[..i], b) + if steps[i].Fetch? && steps[i].b == b then steps[i].n else 0
  {
    assert steps[..i + 1][..i] == steps[..i];
  }

  lemma NoneSent(tr: seq<State>, steps: seq<Step>, b: nat)
    requires |steps| < |tr|
    ensures Sent(steps[..0], b) == 0 && !Closed(tr, steps, 0, b)
  {
  }

  /** What the fields say a step decides, the steps before it say. */
  lemma DecidesAlike(tr: seq<State>, steps: seq<Step>, i: nat, b: nat)
    requires i < |steps| < |tr| && SameUpload(tr, steps, i) && Told(tr, steps, i, b) && b < |tr[i].bodies|
    ensures Decides(tr, steps, i, b) == Deciding(tr[i], steps[i], b)
  {
    hide Tied, Closed, CanceledBefore, Sent;
    SentNext(steps, i, b);
  }

  lemma {:induction false} RunTold(tr: seq<State>, steps: seq<Step>, i: nat, b: nat)
    requires i <= |steps| < |tr| && Run(tr, steps)
    ensures Told(tr, steps, i, b)
  {
    hide Run, Apply, Enabled, Sent, Closed;
    NoneSent(tr, steps, b);
    NotCanceled(tr, steps);
    if i > 0 {
      RunTold(tr, steps, i - 1, b);
      RunSame(tr, steps, i - 1);
      RunStep(tr, steps, i - 1);
      RunKeeps(tr, steps, i - 1);
      ToldNext(tr, steps, i - 1, b);
    }
  }

  lemma ToldNext(tr: seq<State>, steps: seq<Step>, i: nat, b: nat)
    requires i < |steps| < |tr| && SameUpload(tr, steps, i) && Told(tr, steps, i, b) && Invariant(tr[i])
    requires Enabled(tr[i], steps[i]) && tr[i + 1] == Apply(tr[i], steps[i])
    ensures Told(tr, steps, i + 1, b)
  {
    hide Sent, Apply, Tied, CanceledBefore, Coherent, Published, Ordered, Unclosed;
    var s, c := tr[i], CauseAt(tr, steps, i, b);
    SentNext(steps, i, b);
    ClosedNext(tr, steps, i, b);
    if b >= |s.bodies| {
      FreshNext(tr, steps, i, b);
    } else {
      DecidesAlike(tr, steps, i, b);
      assert Coherent(s, s.bodies[b]);
      if Of(s, steps[i]) == Some(b) {
        OwnStepped(s, steps[i], b, c);
      } else {
        OtherStepped(s, steps[i], b, c);
        assert Deciding(s, steps[i], b).None?;
      }
    }
  }

  lemma ClosedNext(tr: seq<State>, steps: seq<Step>, i: nat, b: nat)
    requires i < |steps| < |tr|
    ensures Closed(tr, steps, i + 1, b) <==> Closed(tr, steps, i, b) || Closes(tr[i], steps[i], b)
  {
    hide Closes;
  }

  lemma FreshNext(tr: seq<State>, steps: seq<Step>, i: nat, b: nat)
    requires i < |steps| < |tr| && Enabled(tr[i], steps[i]) && |tr[i].bodies| <= b
    requires tr[i + 1] == Apply(tr[i], steps[i])
    ensures !Closes(tr[i], steps[i], b) && Decides(tr, steps, i, b).None?
    ensures b < |tr[i + 1].bodies| ==> tr[i + 1].bodies[b] == FRESH
    ensures !(steps[i].Fetch? && steps[i].b == b)
  {
    hide Apply, Closed, CanceledBefore, Sent;
    if Of(tr[i], steps[i]).Some? {
      StepOthers(tr[i], steps[i]);
    } else {
      StepNone(tr[i], steps[i]);
    }
  }

  // The results.

  /** Every generation that has ended has the result of the steps that came before. */
  lemma EndedResult(tr: seq<State>, steps: seq<Step>, i: nat, b: nat)
    requires i <= |steps| < |tr| && Run(tr, steps) && b < |tr[i].bodies| && tr[i].bodies[b].ended
    ensures ResultIs(tr, steps, i, b, tr[i].bodies[b].result)
  {
    hide Run, Decides, Sent, Closed;
    RunTold(tr, steps, i, b);
    CauseFirst(tr, steps, i, b);
    forall k | 0 <= k < i && First(tr, steps, k, b)
      ensures tr[i].bodies[b].result == Outcome(Decides(tr, steps, k, b).value)
    {
    }
  }

  ghost predicate HandedBefore(steps: seq<Step>, k: nat, b: nat)
    requires k <= |steps|
  {
    exists j :: 0 <= j < k && steps[j] == Step.Hand(b, false)
  }

  /** Of the generations handed over in the first i steps, b was the last to be so for the first time. */
  ghost predicate LastHanded(steps: seq<Step>, i: nat, b: nat)
    requires i <= |steps|
  {
    exists k :: 0 <= k < i && steps[k] == Step.Hand(b, false) && !HandedBefore(steps, k, b) &&
      forall c :: HandedBefore(steps, i, c) ==> HandedBefore(steps, k + 1, c)
  }

  lemma {:induction false} OrderTold(tr: seq<State>, steps: seq<Step>, i: nat)
    requires i <= |steps| < |tr| && Run(tr, steps)
    ensures forall b :: b in tr[i].order <==> HandedBefore(steps, i, b)
    ensures tr[i].order != [] ==> LastHanded(steps, i, Last(tr[i].order))
  {
    hide Run, Apply, Enabled;
    NotCanceled(tr, steps);
    if i > 0 {
      OrderTold(tr, steps, i - 1);
      RunStep(tr, steps, i - 1);
      RunKeeps(tr, steps, i - 1);
      OrderStep(tr[i - 1], steps[i - 1]);
    }
  }

  lemma OrderStep(s: State, step: Step)
    requires Invariant(s) && Enabled(s, step)
    ensures Apply(s, step).order ==
      if step.Hand? && !step.checking && step.b !in s.order then s.order + [step.b] else s.order
  {
    hide Coherent, Published, Settling, Unclosed, End, EndRead, EndClose;
    match step
    case ReadEnd(b) => ReadOthers(s, b);
    case CloseEnd(b) => CloseOthers(s, b);
    case SettleClosed => CloseOthers(s, s.settle.todo[0]);
    case _ =>
  }

  lemma OneLast(steps: seq<Step>, i: nat, a: nat, b: nat)
    requires i <= |steps| && LastHanded(steps, i, a) && LastHanded(steps, i, b)
    ensures a == b
  {
    var k :| 0 <= k < i && steps[k] == Step.Hand(a, false) && !HandedBefore(steps, k, a) &&
      forall c :: HandedBefore(steps, i, c) ==> HandedBefore(steps, k + 1, c);
    var l :| 0 <= l < i && steps[l] == Step.Hand(b, false) && !HandedBefore(steps, l, b) &&
      forall c :: HandedBefore(steps, i, c) ==> HandedBefore(steps, l + 1, c);
    assert HandedBefore(steps, i, a) && HandedBefore(steps, i, b);
    assert HandedBefore(steps, k + 1, b) && HandedBefore(steps, l + 1, a);
  }

  /** What is published is the result of the generation handed over last, as the steps tell it, and none if none was. */
  lemma PublishedResult(tr: seq<State>, steps: seq<Step>, i: nat)
    requires i <= |steps| < |tr| && Run(tr, steps) && tr[i].done
    ensures (forall b :: !HandedBefore(steps, i, b)) ==> tr[i].err.None?
    ensures forall b :: LastHanded(steps, i, b) ==> ResultIs(tr, steps, i, b, tr[i].err)
    ensures (exists b :: HandedBefore(steps, i, b)) ==> exists b :: LastHanded(steps, i, b)
  {
    hide Run, ResultIs, LastHanded, HandedBefore, Coherent, Settling, CountOpen;
    var order := tr[i].order;
    RunKeeps(tr, steps, i);
    OrderTold(tr, steps, i);
    if order != [] {
      DoneClosed(tr[i]);
      assert order[|order| - 1] in order;
      EndedResult(tr, steps, i, Last(order));
      forall b | LastHanded(steps, i, b)
        ensures ResultIs(tr, steps, i, b, tr[i].err)
      {
        OneLast(steps, i, Last(order), b);
      }
    } else if b :| LastHanded(steps, i, b) {
      LastIsHanded(steps, i, b);
    }
  }

  lemma LastIsHanded(steps: seq<Step>, i: nat, b: nat)
    requires i <= |steps| && LastHanded(steps, i, b)
    ensures HandedBefore(steps, i, b)
  {
  }

  /** An upload succeeds exactly if the reading of its last generation was completed, or was not decided and gave
      exactly the declared length. */
  lemma SucceedsIf(tr: seq<State>, steps: seq<Step>, i: nat, b: nat)
    requires i <= |steps| < |tr| && Run(tr, steps) && tr[i].done && LastHanded(steps, i, b)
    ensures tr[i].err.None? <==>
      if exists k :: 0 <= k < i && Decides(tr, steps, k, b).Some?
      then exists k :: 0 <= k < i && First(tr, steps, k, b) && Decides(tr, steps, k, b).value.Completes?
      else tr[0].size == Sent(steps[..i], b)
  {
    hide Run, Decides, Sent, LastHanded;
    PublishedResult(tr, steps, i);
    if k :| 0 <= k < i && Decides(tr, steps, k, b).Some? {
      var f := FirstOf(tr, steps, k, b);
      assert tr[i].err == Outcome(Decides(tr, steps, f, b).value);
      forall k | 0 <= k < i && First(tr, steps, k, b)
        ensures k == f
      {
      }
    }
  }

  /** Of the steps that decide the reading of b, there is a first. */
  lemma {:induction false} FirstOf(tr: seq<State>, steps: seq<Step>, k: nat, b: nat) returns (f: nat)
    requires k < |steps| < |tr| && Decides(tr, steps, k, b).Some?
    ensures f <= k && First(tr, steps, f, b)
  {
    hide Decides;
    if j :| 0 <= j < k && Decides(tr, steps, j, b).Some? {
      f := FirstOf(tr, steps, j, b);
    } else {
      f := k;
    }
  }

  /** A generation closed at exactly its declared length completes the upload, if no answer of its source failed and no
      Read of it met a canceled call. */
  lemma CompletesAtLength(tr: seq<State>, steps: seq<Step>, i: nat, b: nat)
    requires i <= |steps| < |tr| && Run(tr, steps) && tr[i].done && LastHanded(steps, i, b)
    requires tr[0].size == Sent(steps[..i], b)
    requires forall k :: 0 <= k < i ==> Decides(tr, steps, k, b) in {None, Some(Completes)}
    ensures tr[i].err.None?
  {
    hide Run, Decides, Sent, LastHanded;
    PublishedResult(tr, steps, i);
    if k :| 0 <= k < i && Decides(tr, steps, k, b).Some? {
      var f := FirstOf(tr, steps, k, b);
    }
  }

  /** Each failure has its step: an answer of the source that failed, or a Read that met a canceled call, before
      anything else decided; or none, and the generation was closed with other than its declared length given. */
  lemma FailsFor(tr: seq<State>, steps: seq<Step>, i: nat, b: nat, e: Error)
    requires i <= |steps| < |tr| && Run(tr, steps) && tr[i].done && LastHanded(steps, i, b)
    ensures tr[i].err == Some(e) <==>
      || (exists k :: 0 <= k < i && First(tr, steps, k, b) &&
            (Decides(tr, steps, k, b) == Some(Breaks(e)) ||
             (Decides(tr, steps, k, b) == Some(Cancels) && e == Canceled)))
      || (e == ClosedEarly && tr[0].size != Sent(steps[..i], b) &&
          forall k :: 0 <= k < i ==> Decides(tr, steps, k, b).None?)
  {
    hide Run, Decides, Sent, LastHanded;
    PublishedResult(tr, steps, i);
    if k :| 0 <= k < i && Decides(tr, steps, k, b).Some? {
      var f := FirstOf(tr, steps, k, b);
      assert tr[i].err == Outcome(Decides(tr, steps, f, b).value);
      forall k | 0 <= k < i && First(tr, steps, k, b)
        ensures k == f
      {
      }
    }
  }
}
