/** An iterator body as a state machine: its Reads, one at a time, run the iterator; its Closes come from any threads;
    and whichever of them may stops the iterator, once. */
module Items {
  /** ending: a Read that found the body closed is to halt it. closers: so are as many Closes that found none reading.
      halted: a halt has run. stops counts what the iterator itself saw of them. */
  datatype State = State(reading: bool, closed: bool, started: bool, running: bool, ending: bool, closers: nat,
                         halted: bool, stops: nat)

  /** A Read begins, runs the iterator's next any number of times, ends, and halts; a Close marks, and halts. */
  datatype Step = ReadBegin | NextBegin | NextEnd | ReadEnd | ReaderHalt | Close | CloserHalt

  const START := State(false, false, false, false, false, 0, false, 0)

  ghost predicate Enabled(s: State, step: Step) {
    match step
    case ReadBegin => !s.reading && !s.ending
    case NextBegin => s.reading && !s.running
    case NextEnd => s.running
    case ReadEnd => s.reading && !s.running
    case ReaderHalt => s.ending
    case Close => true
    case CloserHalt => s.closers > 0
  }

  /** Halts once: an iterator that was started is stopped then. */
  function Halt(s: State): State {
    if s.halted then s else s.(halted := true, stops := if s.started then s.stops + 1 else s.stops)
  }

  function Apply(s: State, step: Step): State {
    match step
    case ReadBegin => if s.closed then s else s.(reading := true)
    case NextBegin => s.(running := true, started := true)
    case NextEnd => s.(running := false)
    case ReadEnd => s.(reading := false, ending := s.closed)
    case ReaderHalt => Halt(s).(ending := false)
    case Close => if s.reading then s.(closed := true) else s.(closed := true, closers := s.closers + 1)
    case CloserHalt => if s.closers == 0 then s else Halt(s).(closers := s.closers - 1)
  }

  ghost predicate Run(tr: seq<State>, steps: seq<Step>) {
    && |tr| == |steps| + 1
    && tr[0] == START
    && forall i :: 0 <= i < |steps| ==> Enabled(tr[i], steps[i]) && tr[i + 1] == Apply(tr[i], steps[i])
  }

  /** Halting, begun or over, excludes reading and needs a close; stops counts what halting did. */
  ghost predicate Invariant(s: State) {
    && (s.running ==> s.reading && s.started)
    && (s.ending || s.closers > 0 || s.halted ==> s.closed && !s.reading)
    && s.stops == (if s.halted && s.started then 1 else 0)
    && (s.closed && !s.reading ==> s.halted || s.ending || s.closers > 0)
  }

  lemma {:induction false} RunKeeps(tr: seq<State>, steps: seq<Step>, i: nat)
    requires Run(tr, steps) && i < |tr|
    ensures Invariant(tr[i])
  {
    if i > 0 {
      RunKeeps(tr, steps, i - 1);
      assert Enabled(tr[i - 1], steps[i - 1]) && tr[(i - 1) + 1] == Apply(tr[i - 1], steps[i - 1]);
    }
  }

  lemma {:induction false} RunCloses(tr: seq<State>, steps: seq<Step>, i: nat, j: nat)
    requires Run(tr, steps) && i <= j < |tr|
    ensures tr[i].closed ==> tr[j].closed
    ensures tr[i].closed && !tr[i].reading ==> !tr[j].reading && !tr[j].running
    ensures tr[i].stops <= tr[j].stops
  {
    RunKeeps(tr, steps, i);
    if i < j {
      RunCloses(tr, steps, i, j - 1);
      assert Enabled(tr[j - 1], steps[j - 1]) && tr[(j - 1) + 1] == Apply(tr[j - 1], steps[j - 1]);
    }
  }

  /** The iterator is stopped at most once, and never while its next runs, nor does its next run after. */
  lemma StoppedOnce(tr: seq<State>, steps: seq<Step>, i: nat, j: nat)
    requires Run(tr, steps) && i <= j < |tr|
    ensures tr[j].stops <= 1
    ensures i < |steps| && (steps[i].ReaderHalt? || steps[i].CloserHalt?) ==> !tr[i].running && !tr[j].running
    ensures tr[i].stops == 1 ==> !tr[j].running && tr[j].stops == 1
  {
    RunKeeps(tr, steps, i);
    RunKeeps(tr, steps, j);
    RunCloses(tr, steps, i, j);
    if i < |steps| {
      assert Enabled(tr[i], steps[i]);
    }
  }

  /** A closed body that no Read and no halt is left on has stopped its iterator, if it started. */
  lemma ClosedStops(tr: seq<State>, steps: seq<Step>, i: nat)
    requires Run(tr, steps) && i < |tr| && tr[i].closed && !tr[i].reading && !tr[i].ending && tr[i].closers == 0
    ensures tr[i].started ==> tr[i].stops == 1
  {
    RunKeeps(tr, steps, i);
  }
}
