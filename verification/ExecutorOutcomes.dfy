/** What a caller of the bounded executor is told, read off the schedule alone, and what closing the
  concurrency semaphore does. */
module ExecutorOutcomes {
  import opened Sets
  import opened BoundedExecutor

  /** The state before step `k` of a schedule. */
  function Before(n: nat, q: nat, trace: seq<Action>, k: nat): State
    requires k <= |trace|
  {
    Run(Init(n, q), trace[..k])
  }

  /** Step `k` is this action, and it takes place. */
  predicate OccursAt(n: nat, q: nat, trace: seq<Action>, k: nat, a: Action) {
    k < |trace| && trace[k] == a && Enabled(Before(n, q, trace, k), a)
  }

  predicate Occurs(n: nat, q: nat, trace: seq<Action>, a: Action) {
    exists k: nat | k < |trace| :: OccursAt(n, q, trace, k, a)
  }

  /** The gate finds the queue closed or without a free slot. */
  predicate NoRoom(s: State, c: Caller) {
    c in s.tasks && s.tasks[c].cfg.queued && (s.slots.closed || s.slots.free == 0)
  }

  predicate RefusedAt(n: nat, q: nat, trace: seq<Action>, k: nat, c: Caller) {
    OccursAt(n, q, trace, k, Gate(c)) && NoRoom(Before(n, q, trace, k), c)
  }

  predicate Refused(n: nat, q: nat, trace: seq<Action>, c: Caller) {
    exists k: nat | k < |trace| :: RefusedAt(n, q, trace, k, c)
  }

  /** What has happened to a caller. */
  datatype Signs = Signs(returned: bool, panicked: bool, timedOut: bool, sawClosed: bool, dropped: bool, refused: bool)

  function SignsOf(n: nat, q: nat, trace: seq<Action>, c: Caller): Signs {
    Signs(Occurs(n, q, trace, Finish(c, false)), Occurs(n, q, trace, Finish(c, true)),
          Occurs(n, q, trace, TimeOut(c)), Occurs(n, q, trace, ObserveClosed(c)),
          Occurs(n, q, trace, Drop(c)), Refused(n, q, trace, c))
  }

  const NOTHING := Signs(false, false, false, false, false, false)

  /** The signs that go with a phase. */
  predicate Explains(p: Phase, s: Signs) {
    match p
    case Calling => s == NOTHING
    case Waiting => s == NOTHING
    case HandOff => s == NOTHING
    case Spawned(awaited) => s == NOTHING.(dropped := !awaited)
    case Running(awaited) => s == NOTHING.(dropped := !awaited)
    case Done(Ok) => s == NOTHING.(returned := true)
    case Done(Join) => s == NOTHING.(panicked := true)
    case Done(Closed) => s == NOTHING.(sawClosed := true)
    case Done(QueueFull(_)) => s == NOTHING.(refused := true)
    case Done(QueueTimeout) => s == NOTHING.(timedOut := true)
    case Done(Dropped) => s.(returned := false, panicked := false) == NOTHING.(dropped := true)
  }

  /** How one more step changes the signs of a caller. */
  function MoreSigns(s: Signs, before: State, a: Action, c: Caller): Signs {
    if !Enabled(before, a) then s
    else Signs(s.returned || a == Finish(c, false), s.panicked || a == Finish(c, true), s.timedOut || a == TimeOut(c),
               s.sawClosed || a == ObserveClosed(c), s.dropped || a == Drop(c),
               s.refused || (a == Gate(c) && NoRoom(before, c)))
  }

  lemma RunNext(s: State, trace: seq<Action>, a: Action)
    ensures Run(s, trace + [a]) == Step(Run(s, trace), a)
  {
    RunAppend(s, trace, [a]);
    assert Run(Run(s, trace), [a]) == Run(Step(Run(s, trace), a), []);
  }

  lemma OccursNext(n: nat, q: nat, trace: seq<Action>, a: Action, b: Action)
    ensures Occurs(n, q, trace + [a], b)
            <==> Occurs(n, q, trace, b) || (a == b && Enabled(Run(Init(n, q), trace), a))
  {
    var longer := trace + [a];
    assert longer[..|trace|] == trace;
    assert forall k :: 0 <= k < |trace| ==> longer[..k] == trace[..k];
    if k: nat :| k < |longer| && OccursAt(n, q, longer, k, b) {
      assert k < |trace| ==> OccursAt(n, q, trace, k, b);
    }
    if k: nat :| k < |trace| && OccursAt(n, q, trace, k, b) {
      assert OccursAt(n, q, longer, k, b);
    }
    if a == b && Enabled(Run(Init(n, q), trace), a) {
      assert OccursAt(n, q, longer, |trace|, b);
    }
  }

  lemma RefusedNext(n: nat, q: nat, trace: seq<Action>, a: Action, c: Caller)
    ensures Refused(n, q, trace + [a], c)
            <==> Refused(n, q, trace, c)
                 || (a == Gate(c) && Enabled(Run(Init(n, q), trace), a) && NoRoom(Run(Init(n, q), trace), c))
  {
    var longer := trace + [a];
    assert longer[..|trace|] == trace;
    assert forall k :: 0 <= k < |trace| ==> longer[..k] == trace[..k];
    if k: nat :| k < |longer| && RefusedAt(n, q, longer, k, c) {
      assert k < |trace| ==> RefusedAt(n, q, trace, k, c);
    }
    if k: nat :| k < |trace| && RefusedAt(n, q, trace, k, c) {
      assert RefusedAt(n, q, longer, k, c);
    }
    if a == Gate(c) && Enabled(Run(Init(n, q), trace), a) && NoRoom(Run(Init(n, q), trace), c) {
      assert RefusedAt(n, q, longer, |trace|, c);
    }
  }

  lemma SignsNext(n: nat, q: nat, trace: seq<Action>, a: Action, c: Caller)
    ensures SignsOf(n, q, trace + [a], c) == MoreSigns(SignsOf(n, q, trace, c), Run(Init(n, q), trace), a, c)
  {
    OccursNext(n, q, trace, a, Finish(c, false));
    OccursNext(n, q, trace, a, Finish(c, true));
    OccursNext(n, q, trace, a, TimeOut(c));
    OccursNext(n, q, trace, a, ObserveClosed(c));
    OccursNext(n, q, trace, a, Drop(c));
    RefusedNext(n, q, trace, a, c);
  }

  /** One step keeps phase and signs in agreement, for callers that have arrived and others. */
  lemma StepExplains(s: State, a: Action, c: Caller, signs: Signs)
    requires if c in s.tasks then Explains(s.tasks[c].phase, signs) else signs == NOTHING
    ensures var s', signs' := Step(s, a), MoreSigns(signs, s, a, c);
            if c in s'.tasks then Explains(s'.tasks[c].phase, signs') else signs' == NOTHING
  {
  }

  lemma {:induction false} RunExplains(n: nat, q: nat, trace: seq<Action>, c: Caller)
    ensures var s, signs := Run(Init(n, q), trace), SignsOf(n, q, trace, c);
            if c in s.tasks then Explains(s.tasks[c].phase, signs) else signs == NOTHING
    decreases |trace|
  {
    if trace != [] {
      var front, a := trace[..|trace| - 1], trace[|trace| - 1];
      assert trace == front + [a];
      RunExplains(n, q, front, c);
      RunNext(Init(n, q), front, a);
      SignsNext(n, q, front, a, c);
      StepExplains(Run(Init(n, q), front), a, c, SignsOf(n, q, front, c));
    }
  }

  /** What a finished caller was told, over every schedule: `Ok` exactly when its closure returned and
      `Join` exactly when it panicked, in both cases without the caller having dropped the future;
      `QueueFull`, `QueueTimeout` and `Closed` exactly when it was refused at the gate, timed out or
      saw the semaphore closed. */
  lemma OutcomeExactly(n: nat, q: nat, trace: seq<Action>, c: Caller)
    requires c in Run(Init(n, q), trace).tasks && Run(Init(n, q), trace).tasks[c].phase.Done?
    ensures var told := Run(Init(n, q), trace).tasks[c].phase.outcome;
            && (told == Ok <==> Occurs(n, q, trace, Finish(c, false)) && !Occurs(n, q, trace, Drop(c)))
            && (told == Join <==> Occurs(n, q, trace, Finish(c, true)) && !Occurs(n, q, trace, Drop(c)))
            && (told.QueueFull? <==> Refused(n, q, trace, c))
            && (told == QueueTimeout <==> Occurs(n, q, trace, TimeOut(c)))
            && (told == Closed <==> Occurs(n, q, trace, ObserveClosed(c)))
            && (told == Dropped <==> Occurs(n, q, trace, Drop(c)))
  {
    RunExplains(n, q, trace, c);
  }

  /** A caller keeps the configuration it came with. */
  lemma {:induction false} ConfigIsOwn(n: nat, q: nat, trace: seq<Action>, c: Caller)
    requires c in Run(Init(n, q), trace).tasks
    ensures Occurs(n, q, trace, Arrive(c, Run(Init(n, q), trace).tasks[c].cfg))
    decreases |trace|
  {
    if trace != [] {
      var front, a := trace[..|trace| - 1], trace[|trace| - 1];
      assert trace == front + [a];
      RunNext(Init(n, q), front, a);
      OccursNext(n, q, front, a, Arrive(c, Run(Init(n, q), trace).tasks[c].cfg));
      if c in Run(Init(n, q), front).tasks {
        ConfigIsOwn(n, q, front, c);
      }
    }
  }

  // ---------------------------------------------------------------- closing

  /** Each semaphore is closed exactly when somebody has closed it. */
  lemma {:induction false} ClosedExactly(n: nat, q: nat, trace: seq<Action>)
    ensures Run(Init(n, q), trace).permits.closed <==> Occurs(n, q, trace, ClosePermits)
    ensures Run(Init(n, q), trace).slots.closed <==> Occurs(n, q, trace, CloseSlots)
    decreases |trace|
  {
    if trace != [] {
      var front, a := trace[..|trace| - 1], trace[|trace| - 1];
      assert trace == front + [a];
      ClosedExactly(n, q, front);
      RunNext(Init(n, q), front, a);
      OccursNext(n, q, front, a, ClosePermits);
      OccursNext(n, q, front, a, CloseSlots);
    }
  }

  lemma ClosedStep(s: State, a: Action)
    requires s.permits.closed
    ensures Step(s, a).permits.closed
    ensures Those(Step(s, a).tasks, HoldsPermit) <= Those(s.tasks, HoldsPermit)
  {
  }

  /** Once the concurrency semaphore is closed nobody else gets a permit, however long the run. */
  lemma {:induction false} ClosedAdmitsNobody(s: State, trace: seq<Action>)
    requires s.permits.closed
    ensures Run(s, trace).permits.closed
    ensures Those(Run(s, trace).tasks, HoldsPermit) <= Those(s.tasks, HoldsPermit)
    decreases |trace|
  {
    if trace != [] {
      ClosedStep(s, trace[0]);
      ClosedAdmitsNobody(Step(s, trace[0]), trace[1..]);
    }
  }
}
