/** The memory store at the granularity of SQL statements: a store looks up and then writes, a recall
  selects and then bumps.  As long as no two calls of one user overlap, the schedule is
  serialisable: it has the tables and the outcomes of a run of atomic calls. */
module MemoryStatements {
  import opened Wrappers
  import opened Sorting
  import M = MemoryStore
  import opened MemoryRuns

  /** How far a call has come. */
  datatype Progress =
    | Todo
    | Looked(existing: Option<M.Uuid>)  // a store after its SELECT
    | Selected(rows: seq<M.Row>)        // a recall after its SELECT
    | Finished(outcome: Outcome)

  datatype Machine = Machine(table: Table, progress: seq<Progress>)

  /** Call `call` runs its next statement; `rows` is the engine's answer if that is the SELECT of a
      recall. */
  datatype Event = Event(call: nat, rows: seq<M.Row>)

  predicate Fits(op: Op, p: Progress) {
    (p.Looked? ==> op.Store?) && (p.Selected? ==> op.Recall?)
  }

  /** One statement: the new table and how far the call is then.  A recall that selects nothing has
      no second statement. */
  function Statement(t: Table, op: Op, p: Progress, rows: seq<M.Row>): (Table, Progress)
    requires Fits(op, p)
  {
    match p
    case Todo =>
      (match op
       case Store(user, req, _, _) => (t, Looked(M.Lookup(t, user, req)))
       case Recall(_, _, _) => (t, if rows == [] then Finished(Recalled([])) else Selected(rows))
       case Forget(user, id) => (M.Forget(t, user, id).0, Finished(Forgotten(M.Forget(t, user, id).1))))
    case Looked(existing) =>
      var (t', id) := M.UpsertCommit(t, op.user, op.req, existing, op.newId, op.now);
      (t', Finished(Stored(id)))
    case Selected(selected) => (M.Touch(t, op.query.user, selected, op.now), Finished(Recalled(selected)))
    case Finished(_) => (t, p)
  }

  ghost predicate WellFormed(m: Machine, ops: seq<Op>) {
    |m.progress| == |ops| && forall i :: 0 <= i < |ops| ==> Fits(ops[i], m.progress[i])
  }

  ghost function Advance(m: Machine, ops: seq<Op>, e: Event): Machine
    requires WellFormed(m, ops) && e.call < |ops|
  {
    var (t, p) := Statement(m.table, ops[e.call], m.progress[e.call], e.rows);
    Machine(t, m.progress[e.call := p])
  }

  predicate IsSchedule(ops: seq<Op>, schedule: seq<Event>) {
    forall k :: 0 <= k < |schedule| ==> schedule[k].call < |ops|
  }

  ghost function After(ops: seq<Op>, schedule: seq<Event>): (m: Machine)
    requires IsSchedule(ops, schedule)
    ensures WellFormed(m, ops)
    decreases |schedule|
  {
    if schedule == [] then Machine([], seq(|ops|, _ => Todo))
    else Advance(After(ops, schedule[..|schedule| - 1]), ops, schedule[|schedule| - 1])
  }

  predicate Pending(p: Progress) { p.Looked? || p.Selected? }

  /** The engine answers a recall as the ranked and capped query may. */
  ghost predicate Answers(t: Table, op: Op, p: Progress, rows: seq<M.Row>, eq: CharEq) {
    p.Todo? && op.Recall? ==> M.IsRecall(t, op.query, op.limit, eq, rows)
  }

  /** While a call is between its statements, no other call of its user runs one. */
  ghost predicate Alone(m: Machine, ops: seq<Op>, i: nat)
    requires WellFormed(m, ops) && i < |ops|
  {
    forall j :: 0 <= j < |ops| && j != i && Pending(m.progress[j]) ==> UserOf(ops[j]) != UserOf(ops[i])
  }

  ghost predicate Proper(m: Machine, ops: seq<Op>, e: Event, eq: CharEq)
    requires WellFormed(m, ops) && e.call < |ops|
  {
    Alone(m, ops, e.call) && Answers(m.table, ops[e.call], m.progress[e.call], e.rows, eq)
  }

  ghost predicate NoOverlap(ops: seq<Op>, schedule: seq<Event>, eq: CharEq)
    requires IsSchedule(ops, schedule)
  {
    forall k :: 0 <= k < |schedule| ==> Proper(After(ops, schedule[..k]), ops, schedule[k], eq)
  }

  // ---------------------------------------------------------------- the serial run

  /** A run of atomic calls, and which call each of its operations is. */
  datatype Serial = Serial(run: History, order: seq<nat>)

  ghost predicate IsSerial(s: Serial, ops: seq<Op>, eq: CharEq) {
    && IsRun(s.run, eq)
    && |s.order| == |s.run.ops|
    && Distinct(s.order)
    && forall k :: 0 <= k < |s.order| ==> s.order[k] < |ops| && s.run.ops[k] == ops[s.order[k]]
  }

  function LastTable(h: History): Table
    requires |h.tables| > 0
  {
    h.tables[|h.tables| - 1]
  }

  /** The call takes effect at its last statement: a store at its write, a recall at its bump. */
  predicate Commits(t: Table, op: Op, p: Progress, rows: seq<M.Row>)
    requires Fits(op, p)
  {
    !p.Finished? && Statement(t, op, p, rows).1.Finished?
  }

  /** The serial run after the next statement. */
  function Effected(s: Serial, m: Machine, ops: seq<Op>, e: Event): Serial
    requires e.call < |ops| == |m.progress| && Fits(ops[e.call], m.progress[e.call])
  {
    if !Commits(m.table, ops[e.call], m.progress[e.call], e.rows) then s
    else
      var (t, p) := Statement(m.table, ops[e.call], m.progress[e.call], e.rows);
      Serial(History(s.run.tables + [t], s.run.ops + [ops[e.call]], s.run.outs + [p.outcome]), s.order + [e.call])
  }

  ghost function SerialRun(ops: seq<Op>, schedule: seq<Event>): Serial
    requires IsSchedule(ops, schedule)
    decreases |schedule|
  {
    if schedule == [] then Serial(History([[]], [], []), [])
    else
      var front := schedule[..|schedule| - 1];
      Effected(SerialRun(ops, front), After(ops, front), ops, schedule[|schedule| - 1])
  }

  /** Operation `k` of the run is call `i`, with this outcome. */
  ghost predicate Placed(s: Serial, k: nat, i: nat, outcome: Outcome) {
    k < |s.order| && k < |s.run.outs| && s.order[k] == i && s.run.outs[k] == outcome
  }

  /** A call that has not taken effect has read what it may read now; one that has, has its place. */
  ghost predicate CallLinked(t: Table, s: Serial, op: Op, i: nat, p: Progress, eq: CharEq)
    requires Fits(op, p)
  {
    match p
    case Todo => i !in s.order
    case Looked(existing) => i !in s.order && existing == M.Lookup(t, op.user, op.req)
    case Selected(rows) => i !in s.order && M.IsRecall(t, op.query, op.limit, eq, rows)
    case Finished(outcome) => exists k :: Placed(s, k, i, outcome)
  }

  ghost predicate Linked(m: Machine, s: Serial, ops: seq<Op>, eq: CharEq) {
    && WellFormed(m, ops)
    && IsSerial(s, ops, eq)
    && m.table == LastTable(s.run)
    && forall i :: 0 <= i < |ops| ==> CallLinked(m.table, s, ops[i], i, m.progress[i], eq)
  }

  /** The call that takes effect does what it might do atomically, with the same outcome. */
  lemma CommitIsAtomic(t: Table, s: Serial, op: Op, i: nat, p: Progress, rows: seq<M.Row>, eq: CharEq)
    requires Fits(op, p) && CallLinked(t, s, op, i, p, eq) && Answers(t, op, p, rows, eq)
    requires Commits(t, op, p, rows)
    ensures Step(t, op, Statement(t, op, p, rows).0, Statement(t, op, p, rows).1.outcome, eq)
  {
    if op.Recall? {
      M.TouchNothing(t, op.query.user, op.now);
    }
  }

  /** What a call between its statements has read is a matter of its user's rows alone. */
  lemma ReadsOwnRows(t: Table, t': Table, op: Op, p: Progress, s: Serial, i: nat, eq: CharEq)
    requires Fits(op, p) && Pending(p) && CallLinked(t, s, op, i, p, eq)
    requires View(t, UserOf(op)) == View(t', UserOf(op))
    ensures CallLinked(t', s, op, i, p, eq)
  {
    var u := UserOf(op);
    match p
    case Looked(_) =>
      FilterStronger(M.Triple(u, op.req.subject, op.req.pred), OwnedBy(u), t);
      FilterStronger(M.Triple(u, op.req.subject, op.req.pred), OwnedBy(u), t');
    case Selected(_) =>
      FilterStronger(M.Matching(op.query, eq), OwnedBy(u), t);
      FilterStronger(M.Matching(op.query, eq), OwnedBy(u), t');
      assert M.Matches(t, op.query, eq) == M.Matches(t', op.query, eq);
  }

  /** The serial run stays one. */
  lemma RunLinked(m: Machine, s: Serial, ops: seq<Op>, e: Event, eq: CharEq)
    requires Linked(m, s, ops, eq) && e.call < |ops| && Proper(m, ops, e, eq)
    ensures IsSerial(Effected(s, m, ops, e), ops, eq)
    ensures Advance(m, ops, e).table == LastTable(Effected(s, m, ops, e).run)
  {
    var i := e.call;
    assert CallLinked(m.table, s, ops[i], i, m.progress[i], eq);
    if Commits(m.table, ops[i], m.progress[i], e.rows) {
      var (t, p) := Statement(m.table, ops[i], m.progress[i], e.rows);
      CommitIsAtomic(m.table, s, ops[i], i, m.progress[i], e.rows, eq);
      Extended(s.run, eq, ops[i], t, p.outcome);
    }
  }

  /** A step of the acting call. */
  lemma OwnLinked(m: Machine, s: Serial, ops: seq<Op>, e: Event, eq: CharEq)
    requires Linked(m, s, ops, eq) && e.call < |ops| && Proper(m, ops, e, eq)
    ensures var (t, p) := Statement(m.table, ops[e.call], m.progress[e.call], e.rows);
            CallLinked(t, Effected(s, m, ops, e), ops[e.call], e.call, p, eq)
  {
    var i := e.call;
    assert CallLinked(m.table, s, ops[i], i, m.progress[i], eq);
    if Commits(m.table, ops[i], m.progress[i], e.rows) {
      var p := Statement(m.table, ops[i], m.progress[i], e.rows).1;
      assert Placed(Effected(s, m, ops, e), |s.order|, i, p.outcome);
    }
  }

  /** A call of another user, and one that is not between its statements, does not notice. */
  lemma OtherLinked(m: Machine, s: Serial, ops: seq<Op>, e: Event, j: nat, eq: CharEq)
    requires Linked(m, s, ops, eq) && e.call < |ops| && Proper(m, ops, e, eq) && j < |ops| && j != e.call
    ensures CallLinked(Advance(m, ops, e).table, Effected(s, m, ops, e), ops[j], j, m.progress[j], eq)
  {
    var i := e.call;
    var p := m.progress[j];
    assert CallLinked(m.table, s, ops[j], j, p, eq);
    if Commits(m.table, ops[i], m.progress[i], e.rows) {
      var (t, done) := Statement(m.table, ops[i], m.progress[i], e.rows);
      var s' := Effected(s, m, ops, e);
      if Pending(p) {
        assert CallLinked(m.table, s, ops[i], i, m.progress[i], eq);
        CommitIsAtomic(m.table, s, ops[i], i, m.progress[i], e.rows, eq);
        RunInv(s.run, eq, |s.run.ops|);
        ForeignStepInvisible(m.table, ops[i], t, done.outcome, eq, UserOf(ops[j]));
        ReadsOwnRows(m.table, t, ops[j], p, s, j, eq);
      }
      if p.Finished? {
        var k :| Placed(s, k, j, p.outcome);
        assert Placed(s', k, j, p.outcome);
      }
    }
  }

  lemma StepLinked(m: Machine, s: Serial, ops: seq<Op>, e: Event, eq: CharEq)
    requires Linked(m, s, ops, eq) && e.call < |ops| && Proper(m, ops, e, eq)
    ensures Linked(Advance(m, ops, e), Effected(s, m, ops, e), ops, eq)
  {
    var m', s' := Advance(m, ops, e), Effected(s, m, ops, e);
    RunLinked(m, s, ops, e, eq);
    OwnLinked(m, s, ops, e, eq);
    forall j | 0 <= j < |ops| ensures CallLinked(m'.table, s', ops[j], j, m'.progress[j], eq) {
      if j != e.call {
        OtherLinked(m, s, ops, e, j, eq);
      }
    }
  }

  lemma AfterNext(ops: seq<Op>, schedule: seq<Event>, n: nat)
    requires IsSchedule(ops, schedule) && n < |schedule|
    ensures After(ops, schedule[..n + 1]) == Advance(After(ops, schedule[..n]), ops, schedule[n])
    ensures SerialRun(ops, schedule[..n + 1])
            == Effected(SerialRun(ops, schedule[..n]), After(ops, schedule[..n]), ops, schedule[n])
  {
    assert schedule[..n + 1][..n] == schedule[..n];
  }

  lemma StartLinked(ops: seq<Op>, eq: CharEq)
    ensures Linked(Machine([], seq(|ops|, _ => Todo)), Serial(History([[]], [], []), []), ops, eq)
  {
  }

  /** The link holds after any number of statements. */
  lemma {:induction false} ScheduleLinked(ops: seq<Op>, schedule: seq<Event>, n: nat, eq: CharEq)
    requires IsSchedule(ops, schedule) && NoOverlap(ops, schedule, eq) && n <= |schedule|
    ensures Linked(After(ops, schedule[..n]), SerialRun(ops, schedule[..n]), ops, eq)
    decreases n
  {
    if n == 0 {
      StartLinked(ops, eq);
    } else {
      ScheduleLinked(ops, schedule, n - 1, eq);
      AfterNext(ops, schedule, n - 1);
      StepLinked(After(ops, schedule[..n - 1]), SerialRun(ops, schedule[..n - 1]), ops, schedule[n - 1], eq);
    }
  }

  // ---------------------------------------------------------------- serialisability

  /** A run of the atomic calls in this order ends in the table, each call at most once, and every
      finished call has the outcome it has there. */
  ghost predicate SerialisedBy(m: Machine, s: Serial, ops: seq<Op>, eq: CharEq)
    requires |m.progress| == |ops|
  {
    && IsSerial(s, ops, eq)
    && m.table == LastTable(s.run)
    && forall i :: 0 <= i < |ops| && m.progress[i].Finished? ==> exists k :: Placed(s, k, i, m.progress[i].outcome)
  }

  lemma LinkedIsSerialised(m: Machine, s: Serial, ops: seq<Op>, eq: CharEq)
    requires Linked(m, s, ops, eq)
    ensures SerialisedBy(m, s, ops, eq)
  {
    forall i | 0 <= i < |ops| && m.progress[i].Finished?
      ensures exists k :: Placed(s, k, i, m.progress[i].outcome)
    {
      assert CallLinked(m.table, s, ops[i], i, m.progress[i], eq);
    }
  }

  /** Serialisability: a schedule of single statements in which calls of one user do not overlap has
      the table and the outcomes of a run of the atomic calls.  Every property of such runs, one row
      per triple and the last write among them, therefore holds of it. */
  lemma Serialisable(ops: seq<Op>, schedule: seq<Event>, eq: CharEq)
    requires IsSchedule(ops, schedule) && NoOverlap(ops, schedule, eq)
    ensures SerialisedBy(After(ops, schedule), SerialRun(ops, schedule), ops, eq)
  {
    var n := |schedule|;
    ScheduleLinked(ops, schedule, n, eq);
    LinkedIsSerialised(After(ops, schedule[..n]), SerialRun(ops, schedule[..n]), ops, eq);
    assert schedule[..n] == schedule;
  }

  /** So one row per triple, ids unique, after every schedule without overlap. */
  lemma ScheduleInv(ops: seq<Op>, schedule: seq<Event>, eq: CharEq)
    requires IsSchedule(ops, schedule) && NoOverlap(ops, schedule, eq)
    ensures M.Inv(After(ops, schedule).table)
  {
    Serialisable(ops, schedule, eq);
    var s := SerialRun(ops, schedule);
    RunInv(s.run, eq, |s.run.ops|);
  }

  lemma {:induction false} OrderGrows(ops: seq<Op>, schedule: seq<Event>, n: nat)
    requires IsSchedule(ops, schedule) && n <= |schedule|
    ensures SerialRun(ops, schedule[..n]).order <= SerialRun(ops, schedule).order
    decreases |schedule|
  {
    if n < |schedule| {
      OrderGrows(ops, schedule[..|schedule| - 1], n);
      assert schedule[..|schedule| - 1][..n] == schedule[..n];
    } else {
      assert schedule[..n] == schedule;
    }
  }

  lemma PlacedOrNot(m: Machine, s: Serial, ops: seq<Op>, i: nat, eq: CharEq)
    requires Linked(m, s, ops, eq) && i < |ops|
    ensures m.progress[i].Finished? ==> i in s.order
    ensures m.progress[i].Todo? ==> i !in s.order
  {
    assert CallLinked(m.table, s, ops[i], i, m.progress[i], eq);
  }

  /** The serial order respects real time: a call finished before another one starts comes first. */
  lemma RespectsRealTime(ops: seq<Op>, schedule: seq<Event>, n: nat, a: nat, b: nat, eq: CharEq)
    requires IsSchedule(ops, schedule) && NoOverlap(ops, schedule, eq) && n <= |schedule|
    requires var order := SerialRun(ops, schedule).order;
             a < |order| && b < |order| && order[a] < |ops| && order[b] < |ops|
             && After(ops, schedule[..n]).progress[order[a]].Finished?
             && After(ops, schedule[..n]).progress[order[b]].Todo?
    ensures a < b
  {
    var m, early, late := After(ops, schedule[..n]), SerialRun(ops, schedule[..n]), SerialRun(ops, schedule);
    ScheduleLinked(ops, schedule, n, eq);
    Serialisable(ops, schedule, eq);
    OrderGrows(ops, schedule, n);
    PlacedOrNot(m, early, ops, late.order[a], eq);
    PlacedOrNot(m, early, ops, late.order[b], eq);
    PlaceInPrefix(late.order, early.order, a);
    PlaceInPrefix(late.order, early.order, b);
  }

  // ---------------------------------------------------------------- overlapping calls

  /** Two stores that both look before either writes. */
  const INTERLEAVED: seq<Event> := [Event(0, []), Event(1, []), Event(0, []), Event(1, [])]

  lemma BothLook(a: Op, b: Op)
    requires a.Store? && b.Store? && a.user == b.user
    ensures After([a, b], INTERLEAVED[..2]) == Machine([], [Looked(None), Looked(None)])
  {
    AfterNext([a, b], INTERLEAVED, 0);
    assert After([a, b], INTERLEAVED[..1]) == Machine([], [Looked(None), Todo]);
    AfterNext([a, b], INTERLEAVED, 1);
  }

  lemma BothWrite(a: Op, b: Op)
    requires a.Store? && b.Store? && a.user == b.user
    ensures var t := M.UpsertCommit([], a.user, a.req, None, a.newId, a.now).0;
            After([a, b], INTERLEAVED).table == M.UpsertCommit(t, b.user, b.req, None, b.newId, b.now).0
  {
    BothLook(a, b);
    AfterNext([a, b], INTERLEAVED, 2);
    AfterNext([a, b], INTERLEAVED, 3);
    assert INTERLEAVED[..4] == INTERLEAVED;
  }

  /** Overlap of one user's calls is what breaks serialisability: two first stores of one triple end
      in a table no run of atomic calls produces. */
  lemma OverlapBreaks(a: Op, b: Op, h: History, eq: CharEq)
    requires a.Store? && b.Store? && a.user == b.user && a.newId != b.newId
    requires a.req.subject == b.req.subject && a.req.pred == b.req.pred
    requires IsRun(h, eq)
    ensures LastTable(h) != After([a, b], INTERLEAVED).table
  {
    BothWrite(a, b);
    var ra, rb := M.Row(a.newId, a.user, a.req, a.now, None, None), M.Row(b.newId, b.user, b.req, b.now, None, None);
    var t := After([a, b], INTERLEAVED).table;
    assert t == [ra] + [rb];
    assert !M.Apart(t[0], t[1]);
    RunInv(h, eq, |h.ops|);
  }
}
