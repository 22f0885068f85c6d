/**
  Bounded execution of an external process (the event handlers inside
  `executeControlledProcess`, src/agent/controlled-executor.ts) and the output
  budget a whole agent resolution carries across its processes (`runResolution`,
  src/agent/agent-resolution.layer.ts).

  A process is the sequence of events its handlers receive, in any order. The
  model follows the raw bytes delivered; redaction of the captured text happens
  after they are counted.
 */
module ControlledProcess {
  import opened Options

  type Chunk = seq<int>

  datatype InputFailure = BrokenPipe | StreamDestroyed | OtherInputFailure

  datatype Failure =
    | SpawnFailure | Cancelled | TimedOut | OutputLimit | InputWriteFailure | NeverSettled

  datatype Outcome =
    | Resolved(exitCode: Option<int>, outputBytes: nat, stdout: Chunk, stderr: Chunk)
    | Rejected(failure: Failure)

  datatype Event =
    | Stdout(chunk: Chunk)
    | Stderr(chunk: Chunk)
    | StdinError(cause: InputFailure)
    | SpawnError
    | Timer
    | Abort
    | Close(exitCode: Option<int>)
    /** The process tree termination that was started has finished. */
    | Terminated

  datatype State = State(
    stdout: Chunk,
    stderr: Chunk,
    capturedBytes: nat,
    settled: Option<Outcome>,
    limitExceeded: bool,
    timedOut: bool,
    wasCancelled: bool,
    inputError: Option<InputFailure>,
    terminating: bool,
    terminated: bool,
    closed: Option<Option<int>>,
    completed: bool)

  const START := State([], [], 0, None, false, false, false, None, false, false, None, false)

  function Settle(s: State, outcome: Outcome): State {
    if s.settled.Some? then s else s.(settled := Some(outcome))
  }

  function Capture(s: State, chunk: Chunk, toStdout: bool, maximum: nat): State {
    var counted := s.(capturedBytes := s.capturedBytes + |chunk|);
    if counted.capturedBytes > maximum then counted.(limitExceeded := true, terminating := true)
    else if toStdout then counted.(stdout := s.stdout + chunk) else counted.(stderr := s.stderr + chunk)
  }

  /** Whether a failed standard-input write decides the result. */
  predicate InputFailureDecides(cause: InputFailure, exitCode: Option<int>) {
    exitCode == Some(0) || (cause != BrokenPipe && cause != StreamDestroyed)
  }

  /** What a closed process whose termination, if any, has finished amounts to. */
  function Verdict(s: State, exitCode: Option<int>): Outcome {
    if s.wasCancelled then Rejected(Cancelled)
    else if s.timedOut then Rejected(TimedOut)
    else if s.limitExceeded then Rejected(OutputLimit)
    else if s.inputError.Some? && InputFailureDecides(s.inputError.value, exitCode) then Rejected(InputWriteFailure)
    else Resolved(exitCode, s.capturedBytes, s.stdout, s.stderr)
  }

  function Complete(s: State, exitCode: Option<int>): State {
    Settle(s, Verdict(s, exitCode)).(completed := true)
  }

  /** One event. The close and spawn-error handlers run once; the timer and the
      abort listeners are removed on completion. */
  function Handle(s: State, e: Event, maximum: nat): State {
    match e
    case Stdout(chunk) => Capture(s, chunk, true, maximum)
    case Stderr(chunk) => Capture(s, chunk, false, maximum)
    case StdinError(cause) =>
      s.(inputError := Some(cause), terminating := s.terminating || (cause != BrokenPipe && cause != StreamDestroyed))
    case SpawnError => Settle(s, Rejected(SpawnFailure))
    case Timer => if s.completed then s else s.(timedOut := true, terminating := true)
    case Abort => if s.completed then s else s.(wasCancelled := true, terminating := true)
    case Close(exitCode) =>
      if s.closed.Some? then s
      else
        var closed := s.(closed := Some(exitCode));
        if !s.terminating || s.terminated then Complete(closed, exitCode) else closed
    case Terminated =>
      if !s.terminating || s.terminated then s
      else
        var done := s.(terminated := true);
        if s.closed.Some? && !s.completed then Complete(done, s.closed.value) else done
  }

  function Run(events: seq<Event>, maximum: nat): State {
    if events == [] then START
    else Handle(Run(events[..|events| - 1], maximum), events[|events| - 1], maximum)
  }

  // ----- what was delivered -----

  function OnStdout(e: Event): Chunk { if e.Stdout? then e.chunk else [] }
  function OnStderr(e: Event): Chunk { if e.Stderr? then e.chunk else [] }

  function StdoutBytes(events: seq<Event>): Chunk {
    if events == [] then [] else StdoutBytes(events[..|events| - 1]) + OnStdout(events[|events| - 1])
  }

  function StderrBytes(events: seq<Event>): Chunk {
    if events == [] then [] else StderrBytes(events[..|events| - 1]) + OnStderr(events[|events| - 1])
  }

  function RawBytes(events: seq<Event>): nat {
    |StdoutBytes(events)| + |StderrBytes(events)|
  }

  /** The state counts the bytes of both streams. It holds them all while they fit;
      past the limit it holds what came first, never more than the limit. */
  ghost predicate Captured(s: State, stdout: Chunk, stderr: Chunk, maximum: nat) {
    && s.capturedBytes == |stdout| + |stderr|
    && (s.limitExceeded <==> s.capturedBytes > maximum)
    && (!s.limitExceeded ==> s.stdout == stdout && s.stderr == stderr)
    && s.stdout <= stdout && s.stderr <= stderr && |s.stdout| + |s.stderr| <= maximum
  }

  lemma HandleCaptures(s: State, e: Event, stdout: Chunk, stderr: Chunk, maximum: nat)
    requires Captured(s, stdout, stderr, maximum)
    ensures Captured(Handle(s, e, maximum), stdout + OnStdout(e), stderr + OnStderr(e), maximum)
  {
    assert stdout + [] == stdout && stderr + [] == stderr;
    match e
    case Stdout(chunk) => CaptureCounts(s, chunk, true, stdout, stderr, maximum);
    case Stderr(chunk) => CaptureCounts(s, chunk, false, stdout, stderr, maximum);
    case _ => OthersKeepOutput(s, e, maximum);
  }

  lemma CaptureCounts(s: State, chunk: Chunk, toStdout: bool, stdout: Chunk, stderr: Chunk, maximum: nat)
    requires Captured(s, stdout, stderr, maximum)
    ensures Captured(Capture(s, chunk, toStdout, maximum), if toStdout then stdout + chunk else stdout,
                     if toStdout then stderr else stderr + chunk, maximum)
  {
    assert s.stdout <= stdout + chunk && s.stderr <= stderr + chunk;
  }

  /** The two states differ in neither the output nor its count. */
  predicate SameOutput(s: State, t: State) {
    && t.capturedBytes == s.capturedBytes && t.limitExceeded == s.limitExceeded
    && t.stdout == s.stdout && t.stderr == s.stderr
  }

  lemma CompleteKeepsOutput(s: State, exitCode: Option<int>)
    ensures SameOutput(s, Complete(s, exitCode))
  {
  }

  lemma OthersKeepOutput(s: State, e: Event, maximum: nat)
    requires !e.Stdout? && !e.Stderr?
    ensures SameOutput(s, Handle(s, e, maximum))
  {
    match e
    case Close(exitCode) => CompleteKeepsOutput(s.(closed := Some(exitCode)), exitCode);
    case Terminated => if s.closed.Some? { CompleteKeepsOutput(s.(terminated := true), s.closed.value); }
    case _ =>
  }

  /** Every byte delivered is counted, and kept in order until the limit is passed. */
  lemma {:induction false} CaptureIsExact(events: seq<Event>, maximum: nat)
    ensures Captured(Run(events, maximum), StdoutBytes(events), StderrBytes(events), maximum)
  {
    if events != [] {
      var earlier := events[..|events| - 1];
      CaptureIsExact(earlier, maximum);
      HandleCaptures(Run(earlier, maximum), events[|events| - 1], StdoutBytes(earlier), StderrBytes(earlier), maximum);
    }
  }

  /** The step at which a run settles: the shortest prefix with an outcome. */
  lemma {:induction false} SettledAt(events: seq<Event>, maximum: nat) returns (k: nat)
    requires Run(events, maximum).settled.Some?
    ensures 0 < k <= |events| && Run(events[..k - 1], maximum).settled.None?
    ensures Run(events[..k], maximum).settled == Run(events, maximum).settled
  {
    var before := events[..|events| - 1];
    if Run(before, maximum).settled.Some? {
      k := SettledAt(before, maximum);
      assert before[..k] == events[..k] && before[..k - 1] == events[..k - 1];
      HandleSettlesOnce(Run(before, maximum), events[|events| - 1], maximum);
    } else {
      k := |events|;
      assert events[..k] == events && events[..k - 1] == before;
    }
  }

  /** No event changes an outcome once there is one. */
  lemma HandleSettlesOnce(s: State, e: Event, maximum: nat)
    ensures s.settled.Some? ==> Handle(s, e, maximum).settled == s.settled
  {
  }

  lemma {:induction false} RunSettlesOnce(events: seq<Event>, maximum: nat, k: nat)
    requires k <= |events| && Run(events[..k], maximum).settled.Some?
    ensures Run(events, maximum).settled == Run(events[..k], maximum).settled
    decreases |events|
  {
    if k == |events| {
      assert events[..k] == events;
    } else {
      var before := events[..|events| - 1];
      assert before[..k] == events[..k];
      RunSettlesOnce(before, maximum, k);
      HandleSettlesOnce(Run(before, maximum), events[|events| - 1], maximum);
    }
  }

  /** Facts every run keeps about closing, terminating and completing. */
  ghost predicate Shape(s: State) {
    && (s.completed ==> s.closed.Some? && s.settled.Some?)
    && (s.terminated ==> s.terminating)
    && (s.closed.Some? && (!s.terminating || s.terminated) ==> s.completed)
    && (s.settled.Some? && s.settled.value.Resolved? ==> s.completed)
  }

  lemma HandleKeepsShape(s: State, e: Event, maximum: nat)
    requires Shape(s)
    ensures Shape(Handle(s, e, maximum))
  {
  }

  lemma {:induction false} RunShape(events: seq<Event>, maximum: nat)
    ensures Shape(Run(events, maximum))
  {
    if events != [] {
      RunShape(events[..|events| - 1], maximum);
      HandleKeepsShape(Run(events[..|events| - 1], maximum), events[|events| - 1], maximum);
    }
  }

  /** The event that settles successfully closes the process, or ends its termination. */
  lemma SuccessfulEvent(s: State, e: Event, maximum: nat)
    requires Shape(s) && s.settled.None? && Handle(s, e, maximum).settled.Some?
    requires Handle(s, e, maximum).settled.value.Resolved?
    ensures var at := Handle(s, e, maximum);
              var r := at.settled.value;
              at.closed == Some(r.exitCode) && r == Resolved(r.exitCode, at.capturedBytes, at.stdout, at.stderr)
              && !at.wasCancelled && !at.timedOut && !at.limitExceeded && (at.terminating ==> at.terminated)
  {
    match e
    case Close(exitCode) => CompletedResolves(s.(closed := Some(exitCode)), exitCode);
    case Terminated => if s.closed.Some? { CompletedResolves(s.(terminated := true), s.closed.value); }
    case _ =>
  }

  /** A completion that resolves does so with what was captured. */
  lemma CompletedResolves(s: State, exitCode: Option<int>)
    requires s.settled.None? && Complete(s, exitCode).settled.value.Resolved?
    ensures var t := Complete(s, exitCode);
            t.settled.value == Resolved(exitCode, t.capturedBytes, t.stdout, t.stderr)
            && !t.wasCancelled && !t.timedOut && !t.limitExceeded && t.closed == s.closed
  {
  }

  /** A closed process is settled as soon as no termination is under way: no
      order of events leaves the caller waiting. */
  lemma ClosedRunIsSettled(events: seq<Event>, maximum: nat)
    requires Run(events, maximum).closed.Some?
    requires Run(events, maximum).terminating ==> Run(events, maximum).terminated
    ensures Run(events, maximum).settled.Some?
  {
    RunShape(events, maximum);
  }

  // ----- the outcome, read off the events -----

  predicate IsFatal(cause: InputFailure) {
    cause != BrokenPipe && cause != StreamDestroyed
  }

  /** Something among the events ends the process: a time-out, a cancellation, a
      failed input that is not an early exit, or more output than allowed. */
  ghost predicate Ends(events: seq<Event>, maximum: nat) {
    || Timer in events || Abort in events || (exists cause :: IsFatal(cause) && StdinError(cause) in events)
    || RawBytes(events) > maximum
  }

  /** The tree was reported gone after something had ended it. */
  ghost predicate HasEnded(events: seq<Event>, maximum: nat) {
    exists j :: 0 <= j < |events| && events[j].Terminated? && Ends(events[..j], maximum)
  }

  /** The exit code of the first close. */
  function FirstClose(events: seq<Event>): Option<Option<int>> {
    if events == [] then None else if events[0].Close? then Some(events[0].exitCode) else FirstClose(events[1..])
  }

  function LastInputFailure(events: seq<Event>): Option<InputFailure> {
    if events == [] then None
    else if events[|events| - 1].StdinError? then Some(events[|events| - 1].cause)
    else LastInputFailure(events[..|events| - 1])
  }

  /** The caller can be answered: the process never started, or it closed and what
      ended it, if anything, has finished. */
  ghost predicate CanSettle(events: seq<Event>, maximum: nat) {
    SpawnError in events || (FirstClose(events).Some? && (Ends(events, maximum) ==> HasEnded(events, maximum)))
  }

  /** The answer for the events up to the moment it is given. */
  ghost function AnswerTo(events: seq<Event>, maximum: nat): Outcome
    requires CanSettle(events, maximum)
  {
    var input := LastInputFailure(events);
    if SpawnError in events then Rejected(SpawnFailure)
    else if Abort in events then Rejected(Cancelled)
    else if Timer in events then Rejected(TimedOut)
    else if RawBytes(events) > maximum then Rejected(OutputLimit)
    else if input.Some? && (IsFatal(input.value) || FirstClose(events).value == Some(0))
    then Rejected(InputWriteFailure)
    else Resolved(FirstClose(events).value, RawBytes(events), StdoutBytes(events), StderrBytes(events))
  }

  lemma {:induction false} FirstCloseNext(events: seq<Event>, e: Event)
    ensures FirstClose(events + [e])
         == if FirstClose(events).Some? then FirstClose(events) else if e.Close? then Some(e.exitCode) else None
  {
    if events != [] {
      assert (events + [e])[1..] == events[1..] + [e];
      FirstCloseNext(events[1..], e);
    }
  }

  lemma BytesNext(events: seq<Event>, e: Event)
    ensures StdoutBytes(events + [e]) == StdoutBytes(events) + OnStdout(e)
    ensures StderrBytes(events + [e]) == StderrBytes(events) + OnStderr(e)
    ensures RawBytes(events + [e]) == RawBytes(events) + |OnStdout(e)| + |OnStderr(e)|
  {
    assert (events + [e])[..|events|] == events;
  }

  lemma EndsNext(events: seq<Event>, e: Event, maximum: nat)
    ensures Ends(events + [e], maximum)
       <==> Ends(events, maximum) || e.Timer? || e.Abort? || (e.StdinError? && IsFatal(e.cause))
            || RawBytes(events + [e]) > maximum
  {
    BytesNext(events, e);
    assert forall x :: x in events + [e] <==> x in events || x == e;
  }

  lemma HasEndedNext(events: seq<Event>, e: Event, maximum: nat)
    ensures HasEnded(events + [e], maximum) <==> HasEnded(events, maximum) || (e.Terminated? && Ends(events, maximum))
  {
    var all := events + [e];
    assert forall j :: 0 <= j <= |events| ==> all[..j] == events[..j];
    if j :| 0 <= j < |all| && all[j].Terminated? && Ends(all[..j], maximum) {
      assert j == |events| ==> all[..j] == events;
    }
    if e.Terminated? && Ends(events, maximum) {
      assert all[|events|] == e && all[..|events|] == events;
    }
  }

  /** What counts of the events so far. */
  datatype Past = Past(
    cancelled: bool, timedOut: bool, failedStart: bool, input: Option<InputFailure>, close: Option<Option<int>>,
    ends: bool, hasEnded: bool, bytes: nat)

  ghost function PastOf(events: seq<Event>, maximum: nat): Past {
    Past(Abort in events, Timer in events, SpawnError in events, LastInputFailure(events), FirstClose(events),
         Ends(events, maximum), HasEnded(events, maximum), RawBytes(events))
  }

  /** How it changes with one more event. */
  ghost predicate Extends(p: Past, e: Event, q: Past, maximum: nat) {
    && q.cancelled == (p.cancelled || e.Abort?) && q.timedOut == (p.timedOut || e.Timer?)
    && q.failedStart == (p.failedStart || e.SpawnError?)
    && q.input == (if e.StdinError? then Some(e.cause) else p.input)
    && q.close == (if p.close.Some? then p.close else if e.Close? then Some(e.exitCode) else None)
    && q.ends
       == (p.ends || e.Timer? || e.Abort? || (e.StdinError? && IsFatal(e.cause)) || q.bytes > maximum)
    && q.hasEnded == (p.hasEnded || (e.Terminated? && p.ends))
    && (p.bytes > maximum ==> p.ends) && q.bytes == p.bytes + |OnStdout(e)| + |OnStderr(e)|
  }

  lemma ExtendsByOne(events: seq<Event>, e: Event, maximum: nat)
    ensures Extends(PastOf(events, maximum), e, PastOf(events + [e], maximum), maximum)
  {
    FirstCloseNext(events, e);
    BytesNext(events, e);
    EndsNext(events, e, maximum);
    HasEndedNext(events, e, maximum);
    assert forall x :: x in events + [e] <==> x in events || x == e;
    assert (events + [e])[..|events|] == events;
  }

  /** What an uncompleted state remembers of the events. */
  predicate Tracks(s: State, p: Past) {
    && s.timedOut == p.timedOut && s.wasCancelled == p.cancelled && s.inputError == p.input && s.closed == p.close
    && s.terminating == p.ends && s.terminated == p.hasEnded && s.settled.Some? == p.failedStart
    && s.capturedBytes == p.bytes
  }

  lemma DataTracks(s: State, p: Past, e: Event, q: Past, maximum: nat)
    requires Tracks(s, p) && Extends(p, e, q, maximum) && (e.Stdout? || e.Stderr?)
    ensures Tracks(Handle(s, e, maximum), q)
  {
  }

  lemma CauseTracks(s: State, p: Past, e: Event, q: Past, maximum: nat)
    requires Tracks(s, p) && Extends(p, e, q, maximum) && !s.completed
    requires e.StdinError? || e.SpawnError? || e.Timer? || e.Abort?
    ensures Tracks(Handle(s, e, maximum), q)
  {
  }

  lemma CloseTracks(s: State, p: Past, e: Event, q: Past, maximum: nat)
    requires Tracks(s, p) && Extends(p, e, q, maximum) && !Handle(s, e, maximum).completed
    requires e.Close? || e.Terminated?
    ensures Tracks(Handle(s, e, maximum), q)
  {
  }

  lemma HandleTracks(s: State, p: Past, e: Event, q: Past, maximum: nat)
    requires Tracks(s, p) && Extends(p, e, q, maximum) && !Handle(s, e, maximum).completed && !s.completed
    ensures Tracks(Handle(s, e, maximum), q)
  {
    if e.Stdout? || e.Stderr? {
      DataTracks(s, p, e, q, maximum);
    } else if e.Close? || e.Terminated? {
      CloseTracks(s, p, e, q, maximum);
    } else {
      CauseTracks(s, p, e, q, maximum);
    }
  }

  lemma {:induction false} RunTracks(events: seq<Event>, maximum: nat)
    requires !Run(events, maximum).completed
    ensures Tracks(Run(events, maximum), PastOf(events, maximum))
  {
    if events != [] {
      var earlier, e := events[..|events| - 1], events[|events| - 1];
      assert events == earlier + [e];
      CompletedStays(Run(earlier, maximum), e, maximum);
      RunTracks(earlier, maximum);
      ExtendsByOne(earlier, e, maximum);
      HandleTracks(Run(earlier, maximum), PastOf(earlier, maximum), e, PastOf(events, maximum), maximum);
    }
  }

  lemma CompletedStays(s: State, e: Event, maximum: nat)
    ensures s.completed ==> Handle(s, e, maximum).completed
  {
  }

  /** The state by which a run completes still remembers what counts. */
  predicate Remembers(t: State, q: Past) {
    && t.timedOut == q.timedOut && t.wasCancelled == q.cancelled && t.inputError == q.input
    && t.closed == q.close && q.close.Some? && !q.failedStart && (q.ends ==> q.hasEnded)
  }

  lemma ClosingRemembers(s: State, p: Past, e: Event, q: Past, maximum: nat)
    requires Tracks(s, p) && Extends(p, e, q, maximum) && e.Close?
    requires s.settled.None? && !s.completed && Handle(s, e, maximum).completed
    ensures var t := Handle(s, e, maximum); Remembers(t, q) && t.settled == Some(Verdict(t, q.close.value))
  {
  }

  lemma EndingRemembers(s: State, p: Past, e: Event, q: Past, maximum: nat)
    requires Tracks(s, p) && Extends(p, e, q, maximum) && e.Terminated?
    requires s.settled.None? && !s.completed && Handle(s, e, maximum).completed
    ensures var t := Handle(s, e, maximum); Remembers(t, q) && t.settled == Some(Verdict(t, q.close.value))
  {
  }

  lemma CompletingRemembers(s: State, p: Past, e: Event, q: Past, maximum: nat)
    requires Tracks(s, p) && Extends(p, e, q, maximum)
    requires s.settled.None? && !s.completed && Handle(s, e, maximum).completed
    ensures var t := Handle(s, e, maximum); Remembers(t, q) && t.settled == Some(Verdict(t, q.close.value))
  {
    if e.Close? {
      ClosingRemembers(s, p, e, q, maximum);
    } else {
      assert e.Terminated?;
      EndingRemembers(s, p, e, q, maximum);
    }
  }

  lemma VerdictIsAnswer(t: State, events: seq<Event>, maximum: nat)
    requires Remembers(t, PastOf(events, maximum)) && Captured(t, StdoutBytes(events), StderrBytes(events), maximum)
    ensures CanSettle(events, maximum) && Verdict(t, FirstClose(events).value) == AnswerTo(events, maximum)
  {
  }

  lemma CompletingAnswers(events: seq<Event>, e: Event, maximum: nat)
    requires Run(events, maximum).settled.None? && !Run(events, maximum).completed
    requires Handle(Run(events, maximum), e, maximum).completed
    ensures CanSettle(events + [e], maximum)
    ensures Handle(Run(events, maximum), e, maximum).settled == Some(AnswerTo(events + [e], maximum))
  {
    var s, all := Run(events, maximum), events + [e];
    assert all[..|events|] == events;
    RunTracks(events, maximum);
    ExtendsByOne(events, e, maximum);
    CaptureIsExact(all, maximum);
    CompletingRemembers(s, PastOf(events, maximum), e, PastOf(all, maximum), maximum);
    VerdictIsAnswer(Handle(s, e, maximum), all, maximum);
  }

  lemma UncompletedAnswers(events: seq<Event>, maximum: nat)
    requires var s := Run(events, maximum); !s.completed && Tracks(s, PastOf(events, maximum)) && Shape(s)
    requires Run(events, maximum).settled.Some? ==> Run(events, maximum).settled == Some(Rejected(SpawnFailure))
    ensures Run(events, maximum).settled
         == if CanSettle(events, maximum) then Some(AnswerTo(events, maximum)) else None
  {
  }

  lemma NewOutcome(s: State, e: Event, maximum: nat)
    requires Shape(s) && s.settled.None? && Handle(s, e, maximum).settled.Some? && !Handle(s, e, maximum).completed
    ensures Handle(s, e, maximum).settled == Some(Rejected(SpawnFailure))
  {
  }

  /** The event by which a run settles is the first after which it can, and the
      outcome is the answer to the events so far. */
  lemma SettlesWithAnswer(events: seq<Event>, e: Event, maximum: nat)
    requires Run(events, maximum).settled.None?
    ensures var all := events + [e];
            Run(all, maximum).settled == if CanSettle(all, maximum) then Some(AnswerTo(all, maximum)) else None
  {
    var s, all := Run(events, maximum), events + [e];
    assert all[..|events|] == events;
    RunShape(events, maximum);
    RunShape(all, maximum);
    if Run(all, maximum).completed {
      CompletingAnswers(events, e, maximum);
    } else {
      RunTracks(all, maximum);
      if Run(all, maximum).settled.Some? {
        NewOutcome(s, e, maximum);
      }
      UncompletedAnswers(all, maximum);
    }
  }

  /** A run has no outcome exactly while no prefix of its events can be answered. */
  lemma {:induction false} OpenIffUnanswerable(events: seq<Event>, maximum: nat)
    ensures Run(events, maximum).settled.None? <==> forall k :: 0 <= k <= |events| ==> !CanSettle(events[..k], maximum)
  {
    assert events[..|events|] == events;
    if events == [] {
      assert !CanSettle([], maximum);
    } else {
      var earlier, e := events[..|events| - 1], events[|events| - 1];
      assert events == earlier + [e];
      assert forall k :: 0 <= k < |events| ==> events[..k] == earlier[..k];
      OpenIffUnanswerable(earlier, maximum);
      if Run(earlier, maximum).settled.None? {
        SettlesWithAnswer(earlier, e, maximum);
      } else {
        HandleSettlesOnce(Run(earlier, maximum), e, maximum);
        var k :| 0 <= k <= |earlier| && CanSettle(earlier[..k], maximum);
        assert CanSettle(events[..k], maximum);
      }
    }
  }

  /** The shortest prefix that can be answered. */
  ghost predicate FirstSettles(events: seq<Event>, k: nat, maximum: nat) {
    && k <= |events| && CanSettle(events[..k], maximum)
    && forall j :: 0 <= j < k ==> !CanSettle(events[..j], maximum)
  }

  /** The caller gets the answer to the shortest prefix that can be answered: the
      whole behaviour of the handlers, over the events alone. */
  lemma OutcomeOfEvents(events: seq<Event>, k: nat, maximum: nat)
    requires FirstSettles(events, k, maximum)
    ensures Executed(events, maximum) == AnswerTo(events[..k], maximum)
  {
    if k > 0 {
      var earlier := events[..k - 1];
      assert events[..k] == earlier + [events[k - 1]];
      assert forall j :: 0 <= j <= k - 1 ==> earlier[..j] == events[..j];
      OpenIffUnanswerable(earlier, maximum);
      SettlesWithAnswer(earlier, events[k - 1], maximum);
      RunSettlesOnce(events, maximum, k);
    }
  }

  /** A run succeeds exactly when the shortest prefix that can be answered holds a
      close and no failed start, cancellation, time-out or excess output, and no failed
      input but an early exit's with a failing code. */
  lemma SuccessIffUndisturbed(events: seq<Event>, k: nat, maximum: nat)
    requires FirstSettles(events, k, maximum)
    ensures var p := events[..k];
            Executed(events, maximum).Resolved?
            <==> SpawnError !in p && Abort !in p && Timer !in p && RawBytes(p) <= maximum
                 && (LastInputFailure(p).Some? ==>
                       !IsFatal(LastInputFailure(p).value) && FirstClose(p) != Some(Some(0)))
  {
    OutcomeOfEvents(events, k, maximum);
  }

  /** The event by which a run settles ends the shortest prefix that can be answered. */
  lemma SettlesFirst(events: seq<Event>, k: nat, maximum: nat)
    requires 0 < k <= |events| && Run(events[..k - 1], maximum).settled.None?
    requires Run(events[..k], maximum).settled.Some?
    ensures FirstSettles(events, k, maximum)
    ensures Run(events[..k], maximum).settled == Some(AnswerTo(events[..k], maximum))
  {
    var earlier := events[..k - 1];
    assert events[..k] == earlier + [events[k - 1]];
    SettlesWithAnswer(earlier, events[k - 1], maximum);
    OpenIffUnanswerable(earlier, maximum);
    assert forall j :: 0 <= j < k ==> earlier[..j] == events[..j];
  }

  /** A successful result holds exactly the raw bytes delivered before it settled,
      within the limit; the process was closed, and neither cancelled, timed out
      nor over the limit by then, whatever the order of the events. */
  lemma SuccessIsBounded(events: seq<Event>, maximum: nat) returns (k: nat)
    requires Run(events, maximum).settled.Some? && Run(events, maximum).settled.value.Resolved?
    ensures 0 < k <= |events| && Run(events[..k - 1], maximum).settled.None?
    ensures var r, at := Run(events, maximum).settled.value, Run(events[..k], maximum);
              at.settled == Some(r) && r.outputBytes == |r.stdout| + |r.stderr| == RawBytes(events[..k]) <= maximum
              && r.stdout == StdoutBytes(events[..k]) && r.stderr == StderrBytes(events[..k])
              && at.closed == Some(r.exitCode) && !at.wasCancelled && !at.timedOut && !at.limitExceeded
              && (at.terminating ==> at.terminated)
    ensures forall e :: e in events[..k] ==> !e.Timer? && !e.Abort? && !e.SpawnError?
    ensures FirstSettles(events, k, maximum)
  {
    k := SettledAt(events, maximum);
    var prefix := events[..k];
    assert prefix[..|prefix| - 1] == events[..k - 1];
    CaptureIsExact(prefix, maximum);
    RunShape(events[..k - 1], maximum);
    SuccessfulEvent(Run(events[..k - 1], maximum), prefix[k - 1], maximum);
    SettlesFirst(events, k, maximum);
  }

  // ----- the handlers -----

  class Process {
    const maximum: nat
    var stdout: Chunk
    var stderr: Chunk
    var capturedBytes: nat
    var settled: Option<Outcome>
    var limitExceeded: bool
    var timedOut: bool
    var wasCancelled: bool
    var inputError: Option<InputFailure>
    var terminating: bool
    var terminated: bool
    var closed: Option<Option<int>>
    var completed: bool

    ghost function Snapshot(): State
      reads this
    {
      State(stdout, stderr, capturedBytes, settled, limitExceeded, timedOut, wasCancelled, inputError, terminating,
          terminated, closed, completed)
    }

    constructor (maximum: nat)
      ensures this.maximum == maximum && Snapshot() == START
    {
      this.maximum := maximum;
      stdout, stderr, capturedBytes, settled, limitExceeded, timedOut := [], [], 0, None, false, false;
      wasCancelled, inputError, terminating, terminated, closed, completed := false, None, false, false, None, false;
    }

    method FinishWith(outcome: Outcome)
      modifies this`settled
      ensures Snapshot() == Settle(old(Snapshot()), outcome)
    {
      if settled.None? {
        settled := Some(outcome);
      }
    }

    method OnData(chunk: Chunk, toStdout: bool)
      modifies this
      ensures Snapshot() == Handle(old(Snapshot()), if toStdout then Stdout(chunk) else Stderr(chunk), maximum)
    {
      capturedBytes := capturedBytes + |chunk|;
      if capturedBytes > maximum {
        limitExceeded := true;
        terminating := true;
        return;
      }
      if toStdout {
        stdout := stdout + chunk;
      } else {
        stderr := stderr + chunk;
      }
    }

    method OnStdinError(cause: InputFailure)
      modifies this
      ensures Snapshot() == Handle(old(Snapshot()), StdinError(cause), maximum)
    {
      inputError := Some(cause);
      if cause != BrokenPipe && cause != StreamDestroyed {
        terminating := true;
      }
    }

    method OnTimer()
      modifies this
      ensures Snapshot() == Handle(old(Snapshot()), Timer, maximum)
    {
      if !completed {
        timedOut := true;
        terminating := true;
      }
    }

    method OnAbort()
      modifies this
      ensures Snapshot() == Handle(old(Snapshot()), Abort, maximum)
    {
      if !completed {
        wasCancelled := true;
        terminating := true;
      }
    }

    method CompleteRun(exitCode: Option<int>)
      modifies this
      ensures Snapshot() == Complete(old(Snapshot()), exitCode)
    {
      completed := true;
      if settled.Some? {
        return;
      }
      if wasCancelled {
        FinishWith(Rejected(Cancelled));
        return;
      }
      if timedOut {
        FinishWith(Rejected(TimedOut));
        return;
      }
      if limitExceeded {
        FinishWith(Rejected(OutputLimit));
        return;
      }
      if inputError.Some? && (exitCode == Some(0)
          || (inputError.value != BrokenPipe && inputError.value != StreamDestroyed)) {
        FinishWith(Rejected(InputWriteFailure));
        return;
      }
      settled := Some(Resolved(exitCode, capturedBytes, stdout, stderr));
    }

    method OnClose(exitCode: Option<int>)
      modifies this
      ensures Snapshot() == Handle(old(Snapshot()), Close(exitCode), maximum)
    {
      if closed.Some? {
        return;
      }
      closed := Some(exitCode);
      if !terminating || terminated {
        CompleteRun(exitCode);
      }
    }

    method OnTerminated()
      modifies this
      ensures Snapshot() == Handle(old(Snapshot()), Terminated, maximum)
    {
      if !terminating || terminated {
        return;
      }
      terminated := true;
      if closed.Some? && !completed {
        CompleteRun(closed.value);
      }
    }

    method Dispatch(e: Event)
      modifies this
      ensures Snapshot() == Handle(old(Snapshot()), e, maximum)
    {
      match e
      case Stdout(chunk) => OnData(chunk, true);
      case Stderr(chunk) => OnData(chunk, false);
      case StdinError(cause) => OnStdinError(cause);
      case SpawnError => FinishWith(Rejected(SpawnFailure));
      case Timer => OnTimer();
      case Abort => OnAbort();
      case Close(exitCode) => OnClose(exitCode);
      case Terminated => OnTerminated();
    }
  }

  /** What the caller of `executeControlledProcess` receives. */
  function Executed(events: seq<Event>, maximum: nat): Outcome {
    var s := Run(events, maximum);
    if s.settled.Some? then s.settled.value else Rejected(NeverSettled)
  }

  method ExecuteControlledProcess(events: seq<Event>, maximum: nat) returns (outcome: Outcome)
    ensures outcome == Executed(events, maximum)
  {
    var process := new Process(maximum);
    for k := 0 to |events|
      invariant process.maximum == maximum && process.Snapshot() == Run(events[..k], maximum)
    {
      assert events[..k + 1][..k] == events[..k];
      process.Dispatch(events[k]);
    }
    assert events[..|events|] == events;
    return if process.settled.Some? then process.settled.value else Rejected(NeverSettled);
  }

  // ----- the budget of a whole resolution -----

  datatype ActionRun = ActionRun(admitted: bool, events: seq<Event>)

  /** `authorize` decodes the harness's output into actions, if they are authorized;
      `events` is how an action would run. */
  datatype Resolution = Resolution(
    limit: nat,
    proposeOnly: bool,
    harness: seq<Event>,
    authorize: Chunk -> Option<seq<ActionRun>>,
    verifierAdmitted: bool,
    verifier: seq<Event>,
    matches: (Chunk, Chunk) -> bool)

  /** The actions the harness proposes with the output it was captured with. */
  function ProposalOf(r: Resolution): Option<seq<ActionRun>> {
    var harness := Executed(r.harness, r.limit);
    if harness.Resolved? then r.authorize(harness.stdout) else None
  }

  datatype ResolutionOutcome = Applied | Proposed | Refused

  /** The process ended with exit code zero after `bytes` raw bytes, under the limit `cap`. */
  ghost predicate SucceededWith(events: seq<Event>, cap: nat, bytes: nat) {
    var outcome := Executed(events, cap);
    outcome.Resolved? && outcome.exitCode == Some(0) && outcome.outputBytes == bytes
  }

  /** Those are the bytes its streams delivered before it settled, and they fit. */
  lemma SucceededBytes(events: seq<Event>, cap: nat, bytes: nat) returns (k: nat)
    requires SucceededWith(events, cap, bytes)
    ensures bytes <= cap && 0 < k <= |events| && RawBytes(events[..k]) == bytes
    ensures Run(events[..k], cap).settled == Some(Executed(events, cap)) && Run(events[..k - 1], cap).settled.None?
  {
    k := SuccessIsBounded(events, cap);
  }

  function Sum(amounts: seq<nat>): nat {
    if amounts == [] then 0 else Sum(amounts[..|amounts| - 1]) + amounts[|amounts| - 1]
  }

  /** The first `|used|` actions ran and succeeded, each capped by what the ones before it left. */
  ghost predicate ActionsFit(actions: seq<ActionRun>, caps: seq<nat>, used: seq<nat>) {
    && |caps| == |used| + 1 <= |actions| + 1
    && (forall k :: 0 <= k < |used| ==> actions[k].admitted && SucceededWith(actions[k].events, caps[k], used[k]))
    && (forall k :: 0 <= k < |used| ==> used[k] <= caps[k] && caps[k + 1] == caps[k] - used[k])
  }

  lemma {:induction false} CapsAreRemainders(actions: seq<ActionRun>, caps: seq<nat>, used: seq<nat>, k: nat)
    requires ActionsFit(actions, caps, used) && k <= |used|
    ensures caps[0] == caps[k] + Sum(used[..k])
  {
    if k > 0 {
      CapsAreRemainders(actions, caps, used, k - 1);
      assert used[..k][..k - 1] == used[..k - 1];
    }
  }

  /** An applied resolution ran the harness, every action and the verifier to
      success, each under the budget the others had left. */
  ghost predicate AppliedWith(r: Resolution, harnessBytes: nat, caps: seq<nat>, used: seq<nat>, verifierBytes: nat) {
    && ProposalOf(r).Some? && !r.proposeOnly
    && harnessBytes <= r.limit && SucceededWith(r.harness, r.limit, harnessBytes)
    && |used|
        == |ProposalOf(r).value| && ActionsFit(ProposalOf(r).value, caps, used) && caps[0] == r.limit - harnessBytes
    && r.verifierAdmitted && verifierBytes <= caps[|used|] && SucceededWith(r.verifier, caps[|used|], verifierBytes)
    && r.matches(Executed(r.verifier, caps[|used|]).stdout, Executed(r.verifier, caps[|used|]).stderr)
  }

  /** The caps and amounts of a run are determined by the budget it starts with. */
  lemma {:induction false} FitIsUnique(
      actions: seq<ActionRun>, caps: seq<nat>, used: seq<nat>, caps': seq<nat>, used': seq<nat>, k: nat)
    requires ActionsFit(actions, caps, used) && ActionsFit(actions, caps', used') && caps[0] == caps'[0]
    requires k <= |used| && k <= |used'|
    ensures caps[k] == caps'[k] && forall j :: 0 <= j < k ==> used[j] == used'[j]
  {
    if k > 0 {
      FitIsUnique(actions, caps, used, caps', used', k - 1);
      assert SucceededWith(actions[k - 1].events, caps[k - 1], used[k - 1]);
      assert SucceededWith(actions[k - 1].events, caps[k - 1], used'[k - 1]);
    }
  }

  /** An action that is not admitted, fails or overruns its cap ends every way to run them all. */
  lemma StuckAction(actions: seq<ActionRun>, caps: seq<nat>, used: seq<nat>)
    requires ActionsFit(actions, caps, used) && |used| < |actions|
    requires var a, cap := actions[|used|], caps[|used|];
               !a.admitted || Executed(a.events, cap).Rejected? || Executed(a.events, cap).exitCode != Some(0)
               || Executed(a.events, cap).outputBytes > cap
    ensures !CanRunAll(actions, caps[0])
  {
    forall caps', used' | ActionsFit(actions, caps', used') && caps'[0] == caps[0] && |used'| == |actions|
      ensures false
    {
      FitIsUnique(actions, caps, used, caps', used', |used|);
    }
  }

  ghost predicate CanRunAll(actions: seq<ActionRun>, budget: nat) {
    exists caps, used :: ActionsFit(actions, caps, used) && caps[0] == budget && |used| == |actions|
  }

  lemma OneMoreFits(actions: seq<ActionRun>, caps: seq<nat>, used: seq<nat>, bytes: nat)
    requires ActionsFit(actions, caps, used) && |used| < |actions| && bytes <= caps[|used|]
    requires actions[|used|].admitted && SucceededWith(actions[|used|].events, caps[|used|], bytes)
    ensures ActionsFit(actions, caps + [caps[|used|] - bytes], used + [bytes])
  {
  }

  method RunActions(actions: seq<ActionRun>, limit: nat, harnessBytes: nat)
      returns (ok: bool, consumed: nat, ghost caps: seq<nat>, ghost used: seq<nat>)
    requires harnessBytes <= limit
    ensures ok ==> |used| == |actions| && ActionsFit(actions, caps, used)
    ensures ok ==> consumed <= limit && caps[0] == limit - harnessBytes && caps[|used|] == limit - consumed
    ensures ok <==> CanRunAll(actions, limit - harnessBytes)
  {
    consumed, caps, used := harnessBytes, [limit - harnessBytes], [];
    for k := 0 to |actions|
      invariant |used| == k && ActionsFit(actions, caps, used)
      invariant consumed <= limit && caps[0] == limit - harnessBytes && caps[k] == limit - consumed
    {
      if !actions[k].admitted {
        StuckAction(actions, caps, used);
        ok := false;
        return;
      }
      var cap := limit - consumed;
      var outcome := ExecuteControlledProcess(actions[k].events, cap);
      if outcome.Rejected? || consumed + outcome.outputBytes > limit || outcome.exitCode != Some(0) {
        StuckAction(actions, caps, used);
        ok := false;
        return;
      }
      assert SucceededWith(actions[k].events, cap, outcome.outputBytes);
      OneMoreFits(actions, caps, used, outcome.outputBytes);
      consumed := consumed + outcome.outputBytes;
      caps, used := caps + [limit - consumed], used + [outcome.outputBytes];
    }
    ok := true;
  }

  ghost predicate CanBeApplied(r: Resolution) {
    exists harnessBytes, caps, used, verifierBytes :: AppliedWith(r, harnessBytes, caps, used, verifierBytes)
  }

  /** Any way to apply the resolution agrees with the run so far. */
  lemma AppliedAgrees(r: Resolution, caps: seq<nat>, used: seq<nat>)
    requires ProposalOf(r).Some? && Executed(r.harness, r.limit).Resolved?
    requires Executed(r.harness, r.limit).outputBytes <= r.limit
    requires ActionsFit(ProposalOf(r).value, caps, used) && |used| == |ProposalOf(r).value|
    requires caps[0] == r.limit - Executed(r.harness, r.limit).outputBytes
    ensures CanBeApplied(r) ==>
              var o := Executed(r.verifier, caps[|used|]);
              r.verifierAdmitted && o.Resolved? && o.exitCode == Some(0) && o.outputBytes <= caps[|used|]
                  && r.matches(o.stdout, o.stderr)
  {
    if h, caps', used', v :| AppliedWith(r, h, caps', used', v) {
      FitIsUnique(ProposalOf(r).value, caps, used, caps', used', |used|);
    }
  }

  /** Applied exactly when every process succeeds under the budget left to it
      and the verifier's output matches. */
  method RunResolution(r: Resolution) returns (outcome: ResolutionOutcome)
    ensures outcome.Applied? <==> CanBeApplied(r)
    ensures outcome.Proposed? <==>
              r.proposeOnly && ProposalOf(r).Some?
              && exists bytes: nat :: bytes <= r.limit && SucceededWith(r.harness, r.limit, bytes)
  {
    var harness := ExecuteControlledProcess(r.harness, r.limit);
    if harness.Rejected? || harness.exitCode != Some(0) || harness.outputBytes > r.limit {
      return Refused;
    }
    assert SucceededWith(r.harness, r.limit, harness.outputBytes);
    var proposal := r.authorize(harness.stdout);
    if proposal.None? {
      return Refused;
    }
    if r.proposeOnly {
      return Proposed;
    }
    var ok, consumed, caps, used := RunActions(proposal.value, r.limit, harness.outputBytes);
    if !ok {
      return Refused;
    }
    AppliedAgrees(r, caps, used);
    if !r.verifierAdmitted {
      return Refused;
    }
    var observed := ExecuteControlledProcess(r.verifier, r.limit - consumed);
    if observed.Rejected? || consumed + observed.outputBytes > r.limit {
      return Refused;
    }
    if observed.exitCode != Some(0) || !r.matches(observed.stdout, observed.stderr) {
      return Refused;
    }
    assert SucceededWith(r.verifier, r.limit - consumed, observed.outputBytes);
    assert AppliedWith(r, harness.outputBytes, caps, used, observed.outputBytes);
    return Applied;
  }

  /** Over harness, all actions and verifier, an applied resolution's raw output
      never exceeds the limit it was given. */
  lemma AppliedStaysWithinLimit(r: Resolution, harnessBytes: nat, caps: seq<nat>, used: seq<nat>, verifierBytes: nat)
    requires AppliedWith(r, harnessBytes, caps, used, verifierBytes)
    ensures harnessBytes + Sum(used) + verifierBytes <= r.limit
  {
    CapsAreRemainders(ProposalOf(r).value, caps, used, |used|);
    assert used[..|used|] == used;
  }
}
