/** The bounded blocking executor of crates/nagent-support/src/cpu.rs.

  `run_bounded` takes every caller through two counting semaphores: an optional fail-fast queue
  gate (`slots`) and the concurrency cap (`permits`).  The calls interleave freely, so the protocol
  is a transition system over a map from callers to their progress.  Which waiter receives a freed
  permit is left open, which covers the first-in-first-out order of tokio's semaphore. */
module BoundedExecutor {
  import opened Sets

  type Caller = nat

  /** The parts of `BoundedConfig` one caller brings along.  `maxWaiters` only labels the error. */
  datatype Config = Config(queued: bool, maxWaiters: nat, timed: bool)

  /** How a call ends.  `Dropped` is a future its owner stopped polling. */
  datatype Outcome = Ok | Join | Closed | QueueFull(maxWaiters: nat) | QueueTimeout | Dropped

  datatype Phase =
    | Calling                 // before the queue gate
    | Waiting                 // past the gate, awaiting `acquire_owned`
    | HandOff                 // owns a concurrency permit, queue permit not dropped yet
    | Spawned(awaited: bool)  // permit moved into the closure, closure not started
    | Running(awaited: bool)  // closure executing on the blocking pool
    | Done(outcome: Outcome)

  /** `runs` counts how often the closure was started. */
  datatype Task = Task(cfg: Config, phase: Phase, runs: nat)

  datatype Sem = Sem(free: nat, closed: bool)

  datatype State = State(permits: Sem, slots: Sem, tasks: map<Caller, Task>)

  datatype Action =
    | Arrive(c: Caller, cfg: Config)
    | Gate(c: Caller)
    | Acquire(c: Caller)
    | ObserveClosed(c: Caller)
    | TimeOut(c: Caller)
    | Spawn(c: Caller)
    | Start(c: Caller)
    | Finish(c: Caller, panics: bool)
    | Drop(c: Caller)
    | ClosePermits
    | CloseSlots

  function Init(n: nat, q: nat): State {
    State(Sem(n, false), Sem(q, false), map[])
  }

  predicate HoldsPermit(t: Task) {
    t.phase.HandOff? || t.phase.Spawned? || t.phase.Running?
  }

  predicate HoldsSlot(t: Task) {
    t.cfg.queued && (t.phase.Waiting? || t.phase.HandOff?)
  }

  predicate ClosureRunning(t: Task) { t.phase.Running? }

  predicate Admitted(t: Task) { t.phase.Waiting? || HoldsPermit(t) }

  // ---------------------------------------------------------------- steps

  predicate Enabled(s: State, a: Action) {
    match a
    case Arrive(c, _) => c !in s.tasks
    case ClosePermits => !s.permits.closed
    case CloseSlots => !s.slots.closed
    case _ =>
      a.c in s.tasks &&
      var t := s.tasks[a.c];
      match a
      case Gate(_) => t.phase.Calling?
      case Acquire(_) => t.phase.Waiting? && !s.permits.closed && s.permits.free > 0
      case ObserveClosed(_) => t.phase.Waiting? && s.permits.closed
      case TimeOut(_) => t.phase.Waiting? && t.cfg.timed
      case Spawn(_) => t.phase.HandOff?
      case Start(_) => t.phase.Spawned?
      case Finish(_, _) => t.phase.Running?
      case Drop(_) =>
        t.phase.Calling? || t.phase.Waiting? || t.phase == Spawned(true) || t.phase == Running(true)
  }

  function Take(sem: Sem): Sem requires sem.free > 0 { sem.(free := sem.free - 1) }
  function Release(sem: Sem): Sem { sem.(free := sem.free + 1) }
  function ReleaseIf(held: bool, sem: Sem): Sem { if held then Release(sem) else sem }

  function Move(s: State, c: Caller, phase: Phase): State
    requires c in s.tasks
  {
    s.(tasks := s.tasks[c := s.tasks[c].(phase := phase)])
  }

  /** Leaving the wait for any reason drops the queue permit. */
  function LeaveWait(s: State, c: Caller, outcome: Outcome): State
    requires c in s.tasks
  {
    Move(s, c, Done(outcome)).(slots := ReleaseIf(s.tasks[c].cfg.queued, s.slots))
  }

  function Apply(s: State, a: Action): State
    requires Enabled(s, a)
  {
    match a
    case Arrive(c, cfg) => s.(tasks := s.tasks[c := Task(cfg, Calling, 0)])
    case ClosePermits => s.(permits := s.permits.(closed := true))
    case CloseSlots => s.(slots := s.slots.(closed := true))
    case Gate(c) =>
      var cfg := s.tasks[c].cfg;
      if !cfg.queued then Move(s, c, Waiting)
      else if s.slots.closed || s.slots.free == 0 then Move(s, c, Done(QueueFull(cfg.maxWaiters)))
      else Move(s, c, Waiting).(slots := Take(s.slots))
    case Acquire(c) => Move(s, c, HandOff).(permits := Take(s.permits))
    case ObserveClosed(c) => LeaveWait(s, c, Closed)
    case TimeOut(c) => LeaveWait(s, c, QueueTimeout)
    case Spawn(c) => Move(s, c, Spawned(true)).(slots := ReleaseIf(s.tasks[c].cfg.queued, s.slots))
    case Start(c) =>
      var t := s.tasks[c];
      s.(tasks := s.tasks[c := t.(phase := Running(t.phase.awaited), runs := t.runs + 1)])
    case Finish(c, panics) =>
      var outcome := if !s.tasks[c].phase.awaited then Dropped else if panics then Join else Ok;
      Move(s, c, Done(outcome)).(permits := Release(s.permits))
    case Drop(c) =>
      match s.tasks[c].phase
      case Calling => Move(s, c, Done(Dropped))
      case Waiting => LeaveWait(s, c, Dropped)
      case Spawned(_) => Move(s, c, Spawned(false))
      case Running(_) => Move(s, c, Running(false))
  }

  function Step(s: State, a: Action): State {
    if Enabled(s, a) then Apply(s, a) else s
  }

  /** The state after a whole schedule; actions that are not enabled are skipped. */
  function Run(s: State, trace: seq<Action>): State
    decreases |trace|
  {
    if trace == [] then s else Run(Step(s, trace[0]), trace[1..])
  }

  // ---------------------------------------------------------------- counting callers

  ghost function Those(tasks: map<Caller, Task>, p: Task -> bool): set<Caller> {
    set c | c in tasks && p(tasks[c])
  }

  lemma SizeWithout(a: set<Caller>, c: Caller)
    ensures |a - {c}| + Bit(c in a) == |a|
  {
    if c !in a {
      assert a - {c} == a;
    }
  }

  lemma CountUpdate(tasks: map<Caller, Task>, c: Caller, t: Task, p: Task -> bool)
    ensures |Those(tasks[c := t], p)| + Bit(c in tasks && p(tasks[c])) == |Those(tasks, p)| + Bit(p(t))
  {
    var before, after := Those(tasks, p), Those(tasks[c := t], p);
    assert forall d :: d != c ==> (d in after <==> d in before);
    assert after - {c} == before - {c};
    SizeWithout(before, c);
    SizeWithout(after, c);
  }

  lemma CountMonotone(tasks: map<Caller, Task>, p: Task -> bool, q: Task -> bool)
    requires forall t :: p(t) ==> q(t)
    ensures |Those(tasks, p)| <= |Those(tasks, q)|
  {
    SubsetSize(Those(tasks, p), Those(tasks, q));
  }

  // ---------------------------------------------------------------- the invariant

  predicate OutcomeExplained(t: Task) {
    match t.phase
    case Running(_) => t.runs == 1
    case Done(Ok) => t.runs == 1
    case Done(Join) => t.runs == 1
    case Done(Dropped) => t.runs <= 1
    case Done(QueueFull(m)) => t.runs == 0 && t.cfg.queued && m == t.cfg.maxWaiters
    case Done(QueueTimeout) => t.runs == 0 && t.cfg.timed
    case _ => t.runs == 0
  }

  ghost predicate Inv(s: State, n: nat, q: nat) {
    && s.permits.free + |Those(s.tasks, HoldsPermit)| == n
    && s.slots.free + |Those(s.tasks, HoldsSlot)| == q
    && (forall c :: c in s.tasks ==> OutcomeExplained(s.tasks[c]))
    && ((exists c :: c in s.tasks && s.tasks[c].phase == Done(Closed)) ==> s.permits.closed)
  }

  lemma InvInit(n: nat, q: nat)
    ensures Inv(Init(n, q), n, q)
  {
    assert Those(map[], HoldsPermit) == {} && Those(map[], HoldsSlot) == {};
  }

  predicate OfCaller(a: Action) { !a.ClosePermits? && !a.CloseSlots? }

  /** One caller's step changes that caller only, and each semaphore by exactly what the caller
      stops or starts holding. */
  lemma StepBalance(s: State, a: Action)
    requires Enabled(s, a) && OfCaller(a)
    ensures a.c in Apply(s, a).tasks
    ensures var t := Apply(s, a).tasks[a.c]; Apply(s, a).tasks == s.tasks[a.c := t]
    ensures var t := Apply(s, a).tasks[a.c];
            Apply(s, a).permits.free + Bit(HoldsPermit(t))
            == s.permits.free + Bit(a.c in s.tasks && HoldsPermit(s.tasks[a.c]))
    ensures var t := Apply(s, a).tasks[a.c];
            Apply(s, a).slots.free + Bit(HoldsSlot(t))
            == s.slots.free + Bit(a.c in s.tasks && HoldsSlot(s.tasks[a.c]))
    ensures Apply(s, a).permits.closed == s.permits.closed
    ensures a.c in s.tasks && OutcomeExplained(s.tasks[a.c]) ==> OutcomeExplained(Apply(s, a).tasks[a.c])
    ensures a.c !in s.tasks ==> OutcomeExplained(Apply(s, a).tasks[a.c])
    ensures Apply(s, a).tasks[a.c].phase == Done(Closed) ==> s.permits.closed
  {
  }

  lemma InvStep(s: State, a: Action, n: nat, q: nat)
    requires Inv(s, n, q)
    ensures Inv(Step(s, a), n, q)
  {
    if Enabled(s, a) && OfCaller(a) {
      StepBalance(s, a);
      var t := Apply(s, a).tasks[a.c];
      CountUpdate(s.tasks, a.c, t, HoldsPermit);
      CountUpdate(s.tasks, a.c, t, HoldsSlot);
    }
  }

  lemma {:induction false} InvRun(s: State, trace: seq<Action>, n: nat, q: nat)
    requires Inv(s, n, q)
    ensures Inv(Run(s, trace), n, q)
    decreases |trace|
  {
    if trace != [] {
      InvStep(s, trace[0], n, q);
      InvRun(Step(s, trace[0]), trace[1..], n, q);
    }
  }

  // ---------------------------------------------------------------- safety over every run

  /** Whatever the interleaving, permits are conserved, so at most `n` closures run at once, and a
      queue slot is held exactly between the gate and the hand-off, never by a running closure. */
  lemma PermitsConserved(n: nat, q: nat, trace: seq<Action>)
    ensures var s := Run(Init(n, q), trace);
            && s.permits.free + |Those(s.tasks, HoldsPermit)| == n
            && s.slots.free + |Those(s.tasks, HoldsSlot)| == q
            && |Those(s.tasks, ClosureRunning)| <= n
            && Those(s.tasks, HoldsSlot) !! Those(s.tasks, ClosureRunning)
  {
    InvInit(n, q);
    InvRun(Init(n, q), trace, n, q);
    var s := Run(Init(n, q), trace);
    CountMonotone(s.tasks, ClosureRunning, HoldsPermit);
  }

  predicate AllDone(s: State) { forall c :: c in s.tasks ==> s.tasks[c].phase.Done? }

  /** Nothing leaks: once every call has ended both semaphores are back at full capacity. */
  lemma NothingLeaks(n: nat, q: nat, trace: seq<Action>)
    requires AllDone(Run(Init(n, q), trace))
    ensures Run(Init(n, q), trace).permits.free == n
    ensures Run(Init(n, q), trace).slots.free == q
  {
    InvInit(n, q);
    InvRun(Init(n, q), trace, n, q);
    var s := Run(Init(n, q), trace);
    assert Those(s.tasks, HoldsPermit) == {} && Those(s.tasks, HoldsSlot) == {};
  }

  predicate AllQueued(s: State) { forall c :: c in s.tasks ==> s.tasks[c].cfg.queued }

  /** When every caller uses the queue gate, at most permits + queue slots are past it. */
  lemma AdmissionBound(n: nat, q: nat, trace: seq<Action>)
    requires AllQueued(Run(Init(n, q), trace))
    ensures |Those(Run(Init(n, q), trace).tasks, Admitted)| <= n + q
  {
    InvInit(n, q);
    InvRun(Init(n, q), trace, n, q);
    var s := Run(Init(n, q), trace);
    var slots, permits := Those(s.tasks, HoldsSlot), Those(s.tasks, HoldsPermit);
    forall c | c in Those(s.tasks, Admitted) ensures c in slots + permits {
      assert s.tasks[c].cfg.queued;
    }
    SubsetSize(Those(s.tasks, Admitted), slots + permits);
    assert |slots + permits| + |slots * permits| == |slots| + |permits|;
  }

  /** The gate's verdict on a queued caller. */
  predicate Rejected(s: State, c: Caller)
    requires Enabled(s, Gate(c))
  {
    Step(s, Gate(c)).tasks[c].phase == Done(QueueFull(s.tasks[c].cfg.maxWaiters))
  }

  lemma RejectedExactly(s: State, c: Caller, n: nat, q: nat)
    requires Inv(s, n, q) && Enabled(s, Gate(c)) && s.tasks[c].cfg.queued
    ensures Rejected(s, c) <==> s.slots.closed || |Those(s.tasks, HoldsSlot)| == q
    ensures !Rejected(s, c) ==> c in Those(Step(s, Gate(c)).tasks, HoldsSlot)
  {
  }

  // ---------------------------------------------------------------- what QueueFull means

  predicate QueuedWaiting(t: Task) { t.cfg.queued && t.phase.Waiting? }

  predicate QueuedHandOff(t: Task) { t.cfg.queued && t.phase.HandOff? }

  /** A slot is held by a caller that waits for a permit or by one that has just got it. */
  lemma SlotHolders(s: State)
    ensures |Those(s.tasks, HoldsSlot)| == |Those(s.tasks, QueuedWaiting)| + |Those(s.tasks, QueuedHandOff)|
  {
    var waiting, handOff := Those(s.tasks, QueuedWaiting), Those(s.tasks, QueuedHandOff);
    assert Those(s.tasks, HoldsSlot) == waiting + handOff && waiting !! handOff;
  }

  /** In one state: a gate refusal coincides with a full queue of waiting callers exactly when a slot
      is free or no queued caller is between its permit and the release of its slot; at most `n` are,
      so a refusal means that at least `q - n` callers wait. */
  lemma RefusalMeansWaiting(s: State, c: Caller, n: nat, q: nat)
    requires Inv(s, n, q) && Enabled(s, Gate(c)) && s.tasks[c].cfg.queued && !s.slots.closed
    ensures (Rejected(s, c) <==> |Those(s.tasks, QueuedWaiting)| == q)
            <==> s.slots.free > 0 || Those(s.tasks, QueuedHandOff) == {}
    ensures |Those(s.tasks, QueuedHandOff)| <= n
    ensures Rejected(s, c) ==> |Those(s.tasks, QueuedWaiting)| >= q - n
  {
    SlotHolders(s);
    CountMonotone(s.tasks, QueuedHandOff, HoldsPermit);
  }

  /** The documented meaning of `QueueFull(m)`: `m` callers are already waiting for a permit. */
  ghost predicate RejectsAsDocumented(s: State, m: nat) {
    forall c :: Enabled(s, Gate(c)) && s.tasks[c].cfg.queued && s.tasks[c].cfg.maxWaiters == m
      ==> (Rejected(s, c) <==> |Those(s.tasks, QueuedWaiting)| == m)
  }

  /** A weaker reading: `m` callers hold queue slots. */
  ghost predicate RejectsBySlots(s: State, m: nat) {
    forall c :: Enabled(s, Gate(c)) && s.tasks[c].cfg.queued && s.tasks[c].cfg.maxWaiters == m
      ==> (Rejected(s, c) <==> |Those(s.tasks, HoldsSlot)| == m)
  }

  /** `k` queued callers arrive and pass the gate. */
  function Fill(k: nat): seq<Action> {
    if k == 0 then []
    else Fill(k - 1) + [Arrive(k - 1, Config(true, 0, false)), Gate(k - 1)]
  }

  function Waiters(k: nat): (tasks: map<Caller, Task>)
    ensures forall c: Caller :: c in tasks <==> c < k
  {
    if k == 0 then map[] else Waiters(k - 1)[k - 1 := Task(Config(true, 0, false), Waiting, 0)]
  }

  function Filled(n: nat, q: nat, k: nat): State
    requires k <= q
  {
    State(Sem(n, false), Sem(q - k, false), Waiters(k))
  }

  /** `k` callers wait, the queue is closed if asked, and caller `k` is at the gate. */
  function Witness(k: nat, m: nat, closed: bool): seq<Action> {
    Fill(k) + (if closed then [CloseSlots] else []) + [Arrive(k, Config(true, m, false))]
  }

  lemma {:induction false} RunAppend(s: State, a: seq<Action>, b: seq<Action>)
    ensures Run(s, a + b) == Run(Run(s, a), b)
    decreases |a|
  {
    if a == [] {
      assert a + b == b;
    } else {
      assert (a + b)[1..] == a[1..] + b;
      RunAppend(Step(s, a[0]), a[1..], b);
    }
  }

  lemma RunTwo(s: State, a: Action, b: Action)
    ensures Run(s, [a, b]) == Step(Step(s, a), b)
  {
    assert [a, b][1..] == [b];
    assert Run(Step(s, a), [b]) == Run(Step(Step(s, a), b), []);
  }

  lemma {:induction false} FillState(n: nat, q: nat, k: nat)
    requires k <= q
    ensures Run(Init(n, q), Fill(k)) == Filled(n, q, k)
    ensures |Those(Waiters(k), HoldsSlot)| == |Those(Waiters(k), QueuedWaiting)| == k
    decreases k
  {
    if k > 0 {
      FillState(n, q, k - 1);
      var s := Filled(n, q, k - 1);
      var last := [Arrive(k - 1, Config(true, 0, false)), Gate(k - 1)];
      RunAppend(Init(n, q), Fill(k - 1), last);
      RunTwo(s, last[0], last[1]);
      CountUpdate(s.tasks, k - 1, Task(Config(true, 0, false), Waiting, 0), HoldsSlot);
      CountUpdate(s.tasks, k - 1, Task(Config(true, 0, false), Waiting, 0), QueuedWaiting);
      var arrived := Step(s, last[0]);
      assert arrived.tasks == s.tasks[k - 1 := Task(Config(true, 0, false), Calling, 0)];
      assert Step(arrived, last[1]).tasks == Waiters(k);
    } else {
      assert Those(Waiters(k), HoldsSlot) == {} && Those(Waiters(k), QueuedWaiting) == {};
    }
  }

  lemma WitnessState(n: nat, q: nat, k: nat, m: nat, closed: bool)
    requires k <= q
    ensures var s := Run(Init(n, q), Witness(k, m, closed));
            && s.slots == Sem(q - k, closed)
            && k in s.tasks && s.tasks[k] == Task(Config(true, m, false), Calling, 0)
            && |Those(s.tasks, HoldsSlot)| == |Those(s.tasks, QueuedWaiting)| == k
  {
    FillState(n, q, k);
    var s := Filled(n, q, k);
    var close: seq<Action> := if closed then [CloseSlots] else [];
    var arrive := [Arrive(k, Config(true, m, false))];
    RunAppend(Init(n, q), Fill(k) + close, arrive);
    RunAppend(Init(n, q), Fill(k), close);
    var s1 := s.(slots := Sem(q - k, closed));
    assert Run(s, close) == s1;
    assert Run(s1, arrive) == Step(s1, arrive[0]);
    CountUpdate(s1.tasks, k, Task(Config(true, m, false), Calling, 0), HoldsSlot);
    CountUpdate(s1.tasks, k, Task(Config(true, m, false), Calling, 0), QueuedWaiting);
  }

  /** A queue filled with waiters of which the first has just got a permit. */
  function HandOffWitness(q: nat): seq<Action>
    requires q > 0
  {
    Fill(q) + [Acquire(0), Arrive(q, Config(true, q, false))]
  }

  lemma {:induction false} FirstWaiter(k: nat)
    requires k > 0
    ensures Waiters(k)[0] == Task(Config(true, 0, false), Waiting, 0)
  {
    if k > 1 {
      FirstWaiter(k - 1);
    }
  }

  lemma HandOffState(n: nat, q: nat)
    requires n > 0 && q > 0
    ensures var s := Run(Init(n, q), HandOffWitness(q));
            && s.slots == Sem(0, false)
            && q in s.tasks && s.tasks[q] == Task(Config(true, q, false), Calling, 0)
            && 0 in s.tasks && QueuedHandOff(s.tasks[0])
  {
    FillState(n, q, q);
    FirstWaiter(q);
    var s := Filled(n, q, q);
    var acquire, arrive := Acquire(0), Arrive(q, Config(true, q, false));
    RunAppend(Init(n, q), Fill(q), [acquire, arrive]);
    RunTwo(s, acquire, arrive);
  }

  /** A caller is refused with `QueueFull(q)` although not all of the `q` callers before it wait. */
  lemma RefusedWithoutWaiters(n: nat, q: nat)
    requires n > 0 && q > 0
    ensures var s := Run(Init(n, q), HandOffWitness(q));
            Enabled(s, Gate(q)) && Rejected(s, q) && |Those(s.tasks, QueuedWaiting)| < q
  {
    var s := Run(Init(n, q), HandOffWitness(q));
    HandOffState(n, q);
    InvInit(n, q);
    InvRun(Init(n, q), HandOffWitness(q), n, q);
    SlotHolders(s);
    assert 0 in Those(s.tasks, QueuedHandOff);
  }

  /** Exactly when the documented meaning holds in every state of every run: the label is the
      queue's capacity, a closed queue, which the code also reports as `QueueFull`, does not occur,
      and no caller can be between its permit and the release of its slot, as there are no permits
      or no slots. */
  lemma QueueFullMeaning(n: nat, q: nat, m: nat, closed: bool)
    ensures (forall trace :: Run(Init(n, q), trace).slots.closed == closed
                             ==> RejectsAsDocumented(Run(Init(n, q), trace), m))
            <==> m == q && (closed ==> q == 0) && (n == 0 || q == 0)
  {
    if m == q && (closed ==> q == 0) && (n == 0 || q == 0) {
      forall trace | Run(Init(n, q), trace).slots.closed == closed
        ensures RejectsAsDocumented(Run(Init(n, q), trace), m)
      {
        InvInit(n, q);
        InvRun(Init(n, q), trace, n, q);
        SlotHolders(Run(Init(n, q), trace));
        CountMonotone(Run(Init(n, q), trace).tasks, QueuedHandOff, HoldsPermit);
      }
    } else if m == q && !closed {
      var trace := HandOffWitness(q);
      RefusedWithoutWaiters(n, q);
      HandOffState(n, q);
      assert !RejectsAsDocumented(Run(Init(n, q), trace), m);
    } else {
      var k := if m == q then 0 else q;
      var trace := Witness(k, m, closed);
      WitnessState(n, q, k, m, closed);
      assert Enabled(Run(Init(n, q), trace), Gate(k));
      assert !RejectsAsDocumented(Run(Init(n, q), trace), m);
    }
  }

  /** Counting slot holders instead, the label and the open queue are enough. */
  lemma QueueFullCountsSlots(n: nat, q: nat, m: nat, closed: bool)
    ensures (forall trace :: Run(Init(n, q), trace).slots.closed == closed
                             ==> RejectsBySlots(Run(Init(n, q), trace), m))
            <==> m == q && (closed ==> q == 0)
  {
    if m == q && (closed ==> q == 0) {
      forall trace | Run(Init(n, q), trace).slots.closed == closed
        ensures RejectsBySlots(Run(Init(n, q), trace), m)
      {
        InvInit(n, q);
        InvRun(Init(n, q), trace, n, q);
        assert Run(Init(n, q), trace).slots.free + |Those(Run(Init(n, q), trace).tasks, HoldsSlot)| == q;
      }
    } else {
      var k := if m == q then 0 else q;
      var trace := Witness(k, m, closed);
      WitnessState(n, q, k, m, closed);
      assert Enabled(Run(Init(n, q), trace), Gate(k));
      assert !RejectsBySlots(Run(Init(n, q), trace), m);
    }
  }

  // ---------------------------------------------------------------- one outcome per call

  /** A finished call never changes again: the outcome is single and the closure is not rerun. */
  lemma {:induction false} OutcomeIsFinal(s: State, trace: seq<Action>, c: Caller)
    requires c in s.tasks && s.tasks[c].phase.Done?
    ensures c in Run(s, trace).tasks && Run(s, trace).tasks[c] == s.tasks[c]
    decreases |trace|
  {
    if trace != [] {
      OutcomeIsFinal(Step(s, trace[0]), trace[1..], c);
    }
  }

  /** `Ok` and `Join` mean the closure ran exactly once, the other errors that it never ran; a
      dropped future ran it at most once.  Each error has its documented cause. */
  lemma OutcomeMeaning(n: nat, q: nat, trace: seq<Action>, c: Caller)
    requires c in Run(Init(n, q), trace).tasks
    requires Run(Init(n, q), trace).tasks[c].phase.Done?
    ensures var s := Run(Init(n, q), trace);
            var t := s.tasks[c];
            match t.phase.outcome
            case Ok => t.runs == 1
            case Join => t.runs == 1
            case Dropped => t.runs <= 1
            case Closed => t.runs == 0 && s.permits.closed
            case QueueFull(m) => t.runs == 0 && t.cfg.queued && m == t.cfg.maxWaiters
            case QueueTimeout => t.runs == 0 && t.cfg.timed
  {
    InvInit(n, q);
    InvRun(Init(n, q), trace, n, q);
  }

  // ---------------------------------------------------------------- progress

  function Rank(t: Task): nat {
    match t.phase
    case Calling => 6
    case Waiting => 5
    case HandOff => 4
    case Spawned(awaited) => if awaited then 3 else 2
    case Running(awaited) => if awaited then 2 else 1
    case Done(_) => 0
  }

  function AtLeast(k: nat): Task -> bool { (t: Task) => Rank(t) >= k }

  ghost function CountAtLeast(s: State, k: nat): nat { |Those(s.tasks, AtLeast(k))| }

  /** The steps still to come: summed ranks, counted level by level, plus the closes. */
  ghost function Measure(s: State): nat {
    CountAtLeast(s, 1) + CountAtLeast(s, 2) + CountAtLeast(s, 3)
    + CountAtLeast(s, 4) + CountAtLeast(s, 5) + CountAtLeast(s, 6)
    + Bit(!s.permits.closed) + Bit(!s.slots.closed)
  }

  /** A caller's step lowers its rank, and each level count moves with that caller alone. */
  lemma LevelStep(s: State, a: Action, k: nat)
    requires Enabled(s, a) && OfCaller(a) && !a.Arrive?
    ensures a.c in Apply(s, a).tasks && Rank(Apply(s, a).tasks[a.c]) < Rank(s.tasks[a.c])
    ensures CountAtLeast(Apply(s, a), k) + Bit(Rank(s.tasks[a.c]) >= k)
            == CountAtLeast(s, k) + Bit(Rank(Apply(s, a).tasks[a.c]) >= k)
  {
    StepBalance(s, a);
    CountUpdate(s.tasks, a.c, Apply(s, a).tasks[a.c], AtLeast(k));
  }

  lemma RankDrop(before: nat, after: nat)
    requires after < before <= 6
    ensures Bit(after >= 1) + Bit(after >= 2) + Bit(after >= 3)
            + Bit(after >= 4) + Bit(after >= 5) + Bit(after >= 6)
            < Bit(before >= 1) + Bit(before >= 2) + Bit(before >= 3)
              + Bit(before >= 4) + Bit(before >= 5) + Bit(before >= 6)
  {
  }

  lemma ApplyKeepsClosed(s: State, a: Action)
    requires Enabled(s, a) && OfCaller(a)
    ensures Apply(s, a).slots.closed == s.slots.closed
  {
  }

  /** Every step of an existing caller or of the environment uses up some of the measure. */
  lemma MeasureDecreases(s: State, a: Action)
    requires Enabled(s, a) && !a.Arrive?
    ensures Measure(Apply(s, a)) < Measure(s)
  {
    if OfCaller(a) {
      var s' := Apply(s, a);
      LevelStep(s, a, 1);
      LevelStep(s, a, 2);
      LevelStep(s, a, 3);
      LevelStep(s, a, 4);
      LevelStep(s, a, 5);
      LevelStep(s, a, 6);
      StepBalance(s, a);
      ApplyKeepsClosed(s, a);
      RankDrop(Rank(s.tasks[a.c]), Rank(s'.tasks[a.c]));
    } else {
      assert Apply(s, a).tasks == s.tasks;
    }
  }

  function EffectiveSteps(s: State, trace: seq<Action>): nat
    decreases |trace|
  {
    if trace == [] then 0
    else Bit(Enabled(s, trace[0])) + EffectiveSteps(Step(s, trace[0]), trace[1..])
  }

  lemma MeasureBound(s: State)
    ensures Measure(s) <= 6 * |s.tasks| + 2
  {
    forall k: nat ensures CountAtLeast(s, k) <= |s.tasks| {
      SubsetSize(Those(s.tasks, AtLeast(k)), s.tasks.Keys);
      assert |s.tasks.Keys| == |s.tasks|;
    }
  }

  /** Without new arrivals every schedule is finite: it has at most six effective steps per caller
      and two closes. */
  lemma {:induction false} RunsAreFinite(s: State, trace: seq<Action>)
    requires forall i :: 0 <= i < |trace| ==> !trace[i].Arrive?
    ensures EffectiveSteps(s, trace) + Measure(Run(s, trace)) <= Measure(s)
    ensures Measure(s) <= 6 * |s.tasks| + 2
    decreases |trace|
  {
    MeasureBound(s);
    if trace != [] {
      if Enabled(s, trace[0]) {
        MeasureDecreases(s, trace[0]);
      }
      RunsAreFinite(Step(s, trace[0]), trace[1..]);
    }
  }

  /** The steps of `run_bounded` itself: no timeout, no dropped future, no closing. */
  predicate Own(a: Action) {
    a.Gate? || a.Acquire? || a.ObserveClosed? || a.Spawn? || a.Start? || a.Finish?
  }

  ghost predicate CanMove(s: State) { exists a :: Own(a) && Enabled(s, a) }

  function NextStep(s: State, c: Caller): Action
    requires c in s.tasks && !s.tasks[c].phase.Done?
  {
    match s.tasks[c].phase
    case Calling => Gate(c)
    case Waiting => if s.permits.closed then ObserveClosed(c) else Acquire(c)
    case HandOff => Spawn(c)
    case Spawned(_) => Start(c)
    case Running(_) => Finish(c, false)
  }

  /** Unfinished callers can move unless all of them wait on an open semaphore built without
      permits. */
  lemma CanMoveExactly(s: State, n: nat, q: nat)
    requires Inv(s, n, q) && !AllDone(s)
    ensures CanMove(s) <==>
            n > 0 || s.permits.closed
            || exists c :: c in s.tasks && !s.tasks[c].phase.Done? && !s.tasks[c].phase.Waiting?
  {
    if c :| c in s.tasks && !s.tasks[c].phase.Done? && !s.tasks[c].phase.Waiting? {
      assert Own(NextStep(s, c)) && Enabled(s, NextStep(s, c));
    } else {
      var c :| c in s.tasks && !s.tasks[c].phase.Done?;
      assert Those(s.tasks, HoldsPermit) == {};
      if n > 0 || s.permits.closed {
        assert Own(NextStep(s, c)) && Enabled(s, NextStep(s, c));
      }
    }
  }

  /** `trace` lets every caller of `s` finish by its own steps. */
  ghost predicate Completes(s: State, trace: seq<Action>) {
    && (forall i :: 0 <= i < |trace| ==> Own(trace[i]))
    && AllDone(Run(s, trace))
    && Run(s, trace).tasks.Keys == s.tasks.Keys
  }

  lemma CompletesCons(s: State, a: Action, rest: seq<Action>)
    requires Own(a) && Completes(Step(s, a), rest) && Step(s, a).tasks.Keys == s.tasks.Keys
    ensures Completes(s, [a] + rest)
  {
    var trace := [a] + rest;
    assert trace[1..] == rest;
    assert Run(s, trace) == Run(Step(s, a), rest);
  }

  lemma OwnMove(s: State, n: nat, q: nat) returns (a: Action)
    requires Inv(s, n, q) && n > 0 && !AllDone(s)
    ensures Own(a) && Enabled(s, a)
  {
    CanMoveExactly(s, n, q);
    a :| Own(a) && Enabled(s, a);
  }

  lemma OwnStep(s: State, a: Action, n: nat, q: nat)
    requires Inv(s, n, q) && Own(a) && Enabled(s, a)
    ensures Inv(Step(s, a), n, q) && Measure(Step(s, a)) < Measure(s)
    ensures Step(s, a).tasks.Keys == s.tasks.Keys
  {
    InvStep(s, a, n, q);
    MeasureDecreases(s, a);
    StepBalance(s, a);
  }

  /** From every reachable state the callers can all be brought to their outcome by their own
      steps, given at least one permit. */
  lemma {:induction false} CanComplete(s: State, n: nat, q: nat) returns (trace: seq<Action>)
    requires Inv(s, n, q) && n > 0
    ensures Completes(s, trace)
    decreases Measure(s)
  {
    if AllDone(s) {
      trace := [];
    } else {
      var a := OwnMove(s, n, q);
      OwnStep(s, a, n, q);
      var rest := CanComplete(Step(s, a), n, q);
      trace := [a] + rest;
      CompletesCons(s, a, rest);
    }
  }

  /** No run gets stuck exactly when the concurrency semaphore was built with a permit. */
  lemma StuckFreeExactly(n: nat, q: nat)
    ensures (forall trace :: AllDone(Run(Init(n, q), trace)) || CanMove(Run(Init(n, q), trace)))
            <==> n > 0
  {
    if n > 0 {
      forall trace ensures AllDone(Run(Init(n, q), trace)) || CanMove(Run(Init(n, q), trace)) {
        InvInit(n, q);
        InvRun(Init(n, q), trace, n, q);
        if !AllDone(Run(Init(n, q), trace)) {
          CanMoveExactly(Run(Init(n, q), trace), n, q);
        }
      }
    } else {
      var cfg := Config(false, 0, false);
      var trace := [Arrive(0, cfg), Gate(0)];
      var s := Init(n, q);
      RunTwo(s, trace[0], trace[1]);
      assert Run(s, trace).tasks == map[0 := Task(cfg, Waiting, 0)];
      assert !AllDone(Run(s, trace)) by {
        assert 0 in Run(s, trace).tasks;
      }
      assert !CanMove(Run(s, trace));
    }
  }

  // ---------------------------------------------------------------- the shared mutable form

  /** A tokio semaphore as `run_bounded` uses it. */
  class Semaphore {
    var free: nat
    var closed: bool

    constructor (n: nat)
      ensures Value() == Sem(n, false)
    {
      free, closed := n, false;
    }

    function Value(): Sem
      reads this
    {
      Sem(free, closed)
    }

    method TryAcquire() returns (ok: bool)
      modifies this
      ensures ok == (!old(closed) && old(free) > 0)
      ensures Value() == if ok then Take(old(Value())) else old(Value())
    {
      ok := !closed && free > 0;
      if ok {
        free := free - 1;
      }
    }

    method Return()
      modifies this`free
      ensures Value() == Release(old(Value()))
    {
      free := free + 1;
    }

    method Close()
      modifies this`closed
      ensures closed && free == old(free)
    {
      closed := true;
    }
  }

  /** The calls in flight over two shared semaphores.  `Perform` executes one statement of one call
      in place; the permits a call holds are dropped where the source drops them. */
  class Executor {
    const permits: Semaphore
    const slots: Semaphore
    var tasks: map<Caller, Task>

    constructor (n: nat, q: nat)
      ensures Valid() && fresh(permits) && fresh(slots)
      ensures Snapshot() == Init(n, q)
    {
      permits := new Semaphore(n);
      slots := new Semaphore(q);
      tasks := map[];
    }

    predicate Valid() { permits != slots }

    function Snapshot(): State
      reads this, permits, slots
    {
      State(permits.Value(), slots.Value(), tasks)
    }

    method SetPhase(c: Caller, phase: Phase)
      requires c in tasks
      modifies this`tasks
      ensures tasks == old(tasks)[c := old(tasks)[c].(phase := phase)]
    {
      tasks := tasks[c := tasks[c].(phase := phase)];
    }

    /** The early returns of the wait: the queue permit goes back with the call. */
    method Leave(c: Caller, outcome: Outcome)
      requires Valid() && c in tasks
      modifies this`tasks, slots
      ensures Snapshot() == LeaveWait(old(Snapshot()), c, outcome)
    {
      if tasks[c].cfg.queued {
        slots.Return();
      }
      SetPhase(c, Done(outcome));
    }

    method PassGate(c: Caller)
      requires Valid() && Enabled(Snapshot(), Gate(c))
      modifies this`tasks, slots
      ensures Snapshot() == Step(old(Snapshot()), Gate(c))
    {
      var cfg := tasks[c].cfg;
      if cfg.queued {
        var ok := slots.TryAcquire();
        if !ok {
          SetPhase(c, Done(QueueFull(cfg.maxWaiters)));
          return;
        }
      }
      SetPhase(c, Waiting);
    }

    /** Awaiting `acquire_owned`: a permit, or nothing yet. */
    method AwaitPermit(c: Caller) returns (ok: bool)
      requires Valid() && c in tasks && tasks[c].phase.Waiting?
      modifies this`tasks, permits
      ensures ok == Enabled(old(Snapshot()), Acquire(c))
      ensures Snapshot() == Step(old(Snapshot()), Acquire(c))
    {
      ok := permits.TryAcquire();
      if ok {
        SetPhase(c, HandOff);
      }
    }

    method FinishClosure(c: Caller, panics: bool)
      requires Valid() && Enabled(Snapshot(), Finish(c, panics))
      modifies this`tasks, permits
      ensures Snapshot() == Step(old(Snapshot()), Finish(c, panics))
    {
      permits.Return();
      SetPhase(c, Done(if !tasks[c].phase.awaited then Dropped else if panics then Join else Ok));
    }

    method DropFuture(c: Caller)
      requires Valid() && Enabled(Snapshot(), Drop(c))
      modifies this`tasks, slots
      ensures Snapshot() == Step(old(Snapshot()), Drop(c))
    {
      match tasks[c].phase
      case Calling => SetPhase(c, Done(Dropped));
      case Waiting => Leave(c, Dropped);
      case Spawned(_) => SetPhase(c, Spawned(false));
      case Running(_) => SetPhase(c, Running(false));
    }

    method Perform(a: Action) returns (moved: bool)
      requires Valid()
      modifies this`tasks, permits, slots
      ensures moved == Enabled(old(Snapshot()), a)
      ensures Snapshot() == Step(old(Snapshot()), a)
    {
      moved := Enabled(Snapshot(), a);
      if !moved {
        return;
      }
      match a
      case Arrive(c, cfg) => tasks := tasks[c := Task(cfg, Calling, 0)];
      case ClosePermits => permits.Close();
      case CloseSlots => slots.Close();
      case Gate(c) => PassGate(c);
      case Acquire(c) => var _ := AwaitPermit(c);
      case ObserveClosed(c) => Leave(c, Closed);
      case TimeOut(c) => Leave(c, QueueTimeout);
      case Spawn(c) =>
        if tasks[c].cfg.queued {
          slots.Return();
        }
        SetPhase(c, Spawned(true));
      case Start(c) =>
        var t := tasks[c];
        tasks := tasks[c := t.(phase := Running(t.phase.awaited), runs := t.runs + 1)];
      case Finish(c, panics) => FinishClosure(c, panics);
      case Drop(c) => DropFuture(c);
    }

    /** Any schedule played on the shared semaphores ends where `Run` says. */
    method Play(trace: seq<Action>)
      requires Valid()
      modifies this`tasks, permits, slots
      ensures Snapshot() == Run(old(Snapshot()), trace)
    {
      for i := 0 to |trace|
        invariant Run(Snapshot(), trace[i..]) == Run(old(Snapshot()), trace)
      {
        assert trace[i..][1..] == trace[i + 1..];
        var _ := Perform(trace[i]);
      }
    }
  }
}
