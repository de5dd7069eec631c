/** The chat message repository at the granularity of SQL statements: calls of many clients run
  their statements in any order.  As long as no two calls of one user and conversation overlap, the
  schedule is serialisable: it has the table and the outcomes of some order of atomic calls. */
module ChatStatements {
  import opened Wrappers
  import opened Sorting
  import opened ChatLog
  import opened ChatRuns

  /** How far a call has come. */
  datatype Progress =
    | Todo
    | NextRead(ordinal: int)  // an append after its SELECT
    | Checked                 // an edit after its SELECT
    | Updated                 // an edit after its UPDATE
    | Finished(outcome: Outcome)

  datatype Machine = Machine(table: seq<Row>, progress: seq<Progress>)

  /** One statement of a call on SQLite: the new table and how far the call is then. */
  function Statement(t: seq<Row>, call: Call, p: Progress): (seq<Row>, Progress)
    requires p.NextRead? ==> call.op.Append?
    requires p.Checked? || p.Updated? ==> call.op.Edit?
  {
    var Call(user, op) := call;
    match p
    case Todo =>
      (match op
       case Append(session, _, role, _, _, _) =>
         (t, if KnownRole(role) then NextRead(NextOrdinal(t, user, session)) else Finished(BadRole(role)))
       case Edit(_, _, _, _) =>
         (t, match EditCheck(t, user, op) case Some(refused) => Finished(refused) case None => Checked)
       case _ => (Apply(t, user, op).0, Finished(Apply(t, user, op).1)))
    case NextRead(ordinal) => (Insert1(t, user, op, ordinal).0, Finished(Insert1(t, user, op, ordinal).1))
    case Checked => (EditUpdate(t, user, op), Updated)
    case Updated => (t, Finished(EditReread(t, user, op)))
    case Finished(_) => (t, p)
  }

  predicate Fits(call: Call, p: Progress) {
    (p.NextRead? ==> call.op.Append?) && (p.Checked? || p.Updated? ==> call.op.Edit?)
  }

  predicate Pending(p: Progress) { p.NextRead? || p.Checked? || p.Updated? }

  ghost predicate WellFormed(m: Machine, calls: seq<Call>) {
    |m.progress| == |calls| && forall i :: 0 <= i < |calls| ==> Fits(calls[i], m.progress[i])
  }

  ghost function Advance(m: Machine, calls: seq<Call>, i: nat): Machine
    requires WellFormed(m, calls) && i < |calls|
  {
    var (t, p) := Statement(m.table, calls[i], m.progress[i]);
    Machine(t, m.progress[i := p])
  }

  /** A schedule names the call that runs its next statement. */
  predicate IsSchedule(calls: seq<Call>, schedule: seq<nat>) {
    forall k :: 0 <= k < |schedule| ==> schedule[k] < |calls|
  }

  ghost function After(calls: seq<Call>, schedule: seq<nat>): (m: Machine)
    requires IsSchedule(calls, schedule)
    ensures WellFormed(m, calls)
    decreases |schedule|
  {
    if schedule == [] then Machine([], seq(|calls|, _ => Todo))
    else Advance(After(calls, schedule[..|schedule| - 1]), calls, schedule[|schedule| - 1])
  }

  predicate SameConversation(a: Call, b: Call) {
    a.user == b.user && a.op.session == b.op.session
  }

  /** While a call is between its statements, no other call of its user and conversation runs one. */
  ghost predicate Alone(m: Machine, calls: seq<Call>, i: nat)
    requires WellFormed(m, calls) && i < |calls|
  {
    forall j :: 0 <= j < |calls| && j != i && Pending(m.progress[j]) ==> !SameConversation(calls[i], calls[j])
  }

  ghost predicate NoOverlap(calls: seq<Call>, schedule: seq<nat>)
    requires IsSchedule(calls, schedule)
  {
    forall k :: 0 <= k < |schedule| ==> Alone(After(calls, schedule[..k]), calls, schedule[k])
  }

  // ---------------------------------------------------------------- other conversations

  lemma {:induction false} ScopeOfUpdate(t: seq<Row>, user: Uuid, session: Uuid, id: Uuid, content: string,
                                         u: Uuid, s: Uuid)
    requires u != user || s != session
    ensures Scope(Update(t, user, session, id, content), u, s) == Scope(t, u, s)
    decreases |t|
  {
    if t != [] {
      ScopeOfUpdate(t[1..], user, session, id, content, u, s);
      var t' := Update(t, user, session, id, content);
      assert t'[1..] == Update(t[1..], user, session, id, content);
    }
  }

  lemma ScopeOfInsert(t: seq<Row>, user: Uuid, op: Op, ordinal: int, u: Uuid, s: Uuid)
    requires op.Append? && (u != user || s != op.session)
    ensures Scope(Insert1(t, user, op, ordinal).0, u, s) == Scope(t, u, s)
  {
    if !HasId(t, op.id) {
      var r := Insert1(t, user, op, ordinal).1.row;
      FilterAppend(Scoped(u, s), t, [r]);
      FilterOne(Scoped(u, s), r);
    }
  }

  /** A statement changes no other conversation. */
  lemma StatementIsLocal(t: seq<Row>, call: Call, p: Progress, u: Uuid, s: Uuid)
    requires Fits(call, p) && (u != call.user || s != call.op.session)
    ensures Scope(Statement(t, call, p).0, u, s) == Scope(t, u, s)
  {
    var Call(user, op) := call;
    match p
    case NextRead(ordinal) => ScopeOfInsert(t, user, op, ordinal, u, s);
    case Checked => ScopeOfUpdate(t, user, op.session, op.id, op.content, u, s);
    case Todo =>
      match op {
        case Delete(session, id) => FilterStronger(Scoped(u, s), Not(Keyed(user, session, id)), t);
        case TruncateAfter(session, cutoff) => FilterStronger(Scoped(u, s), Not(Tail(user, session, cutoff)), t);
        case _ =>
      }
    case Updated =>
    case Finished(_) =>
  }

  /** What the first and last statements read is a matter of the conversation alone. */
  lemma ReadsConversation(t: seq<Row>, t': seq<Row>, user: Uuid, op: Op)
    requires Scope(t, user, op.session) == Scope(t', user, op.session)
    ensures NextOrdinal(t, user, op.session) == NextOrdinal(t', user, op.session)
    ensures op.Edit? ==> EditCheck(t, user, op) == EditCheck(t', user, op)
    ensures op.Edit? ==> EditReread(t, user, op) == EditReread(t', user, op)
  {
    if op.Edit? {
      var key, scope := Keyed(user, op.session, op.id), Scoped(user, op.session);
      FilterStronger(key, scope, t);
      FilterStronger(key, scope, t');
    }
  }

  // ---------------------------------------------------------------- the serial order

  /** Whether the call's next statement is the one at which it takes effect: the insert, the update,
      or the only statement it runs. */
  predicate Commits(t: seq<Row>, call: Call, p: Progress)
    requires Fits(call, p)
  {
    p.NextRead? || p.Checked? || (p.Todo? && Statement(t, call, p).1.Finished?)
  }

  /** The order after the next statement of call `i`. */
  function Effected(m: Machine, calls: seq<Call>, order: seq<nat>, i: nat): seq<nat>
    requires i < |calls| == |m.progress| && Fits(calls[i], m.progress[i])
  {
    order + if Commits(m.table, calls[i], m.progress[i]) then [i] else []
  }

  /** The calls in the order in which they took effect. */
  ghost function Order(calls: seq<Call>, schedule: seq<nat>): seq<nat>
    requires IsSchedule(calls, schedule)
    decreases |schedule|
  {
    if schedule == [] then []
    else
      var front, i := schedule[..|schedule| - 1], schedule[|schedule| - 1];
      Effected(After(calls, front), calls, Order(calls, front), i)
  }

  function Pick(calls: seq<Call>, order: seq<nat>): (picked: seq<Call>)
    requires IsSchedule(calls, order)
    ensures |picked| == |order| && forall k :: 0 <= k < |order| ==> picked[k] == calls[order[k]]
  {
    seq(|order|, k requires 0 <= k < |order| => calls[order[k]])
  }

  /** Position `k` of the order is call `i`, with this outcome. */
  ghost predicate Placed(calls: seq<Call>, order: seq<nat>, k: nat, i: nat, outcome: Outcome)
    requires IsSchedule(calls, order)
  {
    k < |order| && order[k] == i && OutcomeAt(Pick(calls, order), k) == outcome
  }

  /** A call that has not taken effect has read what it would read now; one that has, has its place
      and will be told, or has been told, the outcome there. */
  ghost predicate CallLinked(t: seq<Row>, calls: seq<Call>, order: seq<nat>, i: nat, p: Progress)
    requires IsSchedule(calls, order) && i < |calls| && Fits(calls[i], p)
  {
    var Call(user, op) := calls[i];
    match p
    case Todo => i !in order
    case NextRead(ordinal) => i !in order && KnownRole(op.role) && ordinal == NextOrdinal(t, user, op.session)
    case Checked => i !in order && EditCheck(t, user, op).None?
    case Updated => exists k :: Placed(calls, order, k, i, EditReread(t, user, op))
    case Finished(outcome) => exists k :: Placed(calls, order, k, i, outcome)
  }

  ghost predicate Linked(m: Machine, calls: seq<Call>, order: seq<nat>) {
    && WellFormed(m, calls)
    && IsSchedule(calls, order)
    && Distinct(order)
    && m.table == Table(Pick(calls, order))
    && forall i :: 0 <= i < |calls| ==> CallLinked(m.table, calls, order, i, m.progress[i])
  }

  /** A longer order leaves the outcomes of the earlier calls alone. */
  lemma StaysPlaced(calls: seq<Call>, order: seq<nat>, more: seq<nat>, k: nat, i: nat, outcome: Outcome)
    requires IsSchedule(calls, order + more) && IsSchedule(calls, order) && Placed(calls, order, k, i, outcome)
    ensures Placed(calls, order + more, k, i, outcome)
  {
    assert Pick(calls, order + more)[..k] == Pick(calls, order)[..k];
  }

  /** The call that takes effect does what it would do atomically, and is told the same. */
  lemma CommitIsAtomic(t: seq<Row>, calls: seq<Call>, order: seq<nat>, i: nat, p: Progress)
    requires IsSchedule(calls, order) && i < |calls| && Fits(calls[i], p)
    requires t == Table(Pick(calls, order)) && CallLinked(t, calls, order, i, p) && Commits(t, calls[i], p)
    ensures var (t', p') := Statement(t, calls[i], p);
            && t' == Table(Pick(calls, order + [i]))
            && CallLinked(t', calls, order + [i], i, p')
  {
    var Call(user, op) := calls[i];
    var (t', p') := Statement(t, calls[i], p);
    var longer := Pick(calls, order + [i]);
    assert longer[..|order|] == Pick(calls, order) && longer[|order|] == calls[i];
    assert OutcomeAt(longer, |order|) == Apply(t, user, op).1;
    if p.Checked? {
      assert Apply(t, user, op) == EditCommit(t, user, op);
      assert Placed(calls, order + [i], |order|, i, EditReread(t', user, op));
    } else {
      assert Placed(calls, order + [i], |order|, i, p'.outcome);
    }
  }

  /** A step of the acting call. */
  lemma OwnLinked(m: Machine, calls: seq<Call>, order: seq<nat>, i: nat)
    requires Linked(m, calls, order) && i < |calls|
    ensures var (t, p) := Statement(m.table, calls[i], m.progress[i]);
            var order' := Effected(m, calls, order, i);
            && t == Table(Pick(calls, order'))
            && CallLinked(t, calls, order', i, p)
  {
    if Commits(m.table, calls[i], m.progress[i]) {
      CommitIsAtomic(m.table, calls, order, i, m.progress[i]);
    } else {
      assert order + [] == order;
    }
  }

  /** Another call that is alone with its conversation does not notice. */
  lemma OtherLinked(m: Machine, calls: seq<Call>, order: seq<nat>, i: nat, j: nat)
    requires Linked(m, calls, order) && i < |calls| && j < |calls| && i != j && Alone(m, calls, i)
    ensures var t := Statement(m.table, calls[i], m.progress[i]).0;
            var order' := Effected(m, calls, order, i);
            CallLinked(t, calls, order', j, m.progress[j])
  {
    var t := Statement(m.table, calls[i], m.progress[i]).0;
    var more: seq<nat> := if Commits(m.table, calls[i], m.progress[i]) then [i] else [];
    var Call(user, op) := calls[j];
    if Pending(m.progress[j]) {
      StatementIsLocal(m.table, calls[i], m.progress[i], user, op.session);
      ReadsConversation(m.table, t, user, op);
    }
    if m.progress[j].Updated? || m.progress[j].Finished? {
      var outcome := if m.progress[j].Updated? then EditReread(t, user, op) else m.progress[j].outcome;
      var k :| Placed(calls, order, k, j, outcome);
      StaysPlaced(calls, order, more, k, j, outcome);
    }
  }

  /** A call takes effect at most once. */
  lemma OrderStaysDistinct(m: Machine, calls: seq<Call>, order: seq<nat>, i: nat)
    requires Linked(m, calls, order) && i < |calls|
    ensures IsSchedule(calls, Effected(m, calls, order, i)) && Distinct(Effected(m, calls, order, i))
  {
    if Commits(m.table, calls[i], m.progress[i]) {
      assert CallLinked(m.table, calls, order, i, m.progress[i]);
      assert i !in order;
    }
  }

  lemma StepLinked(m: Machine, calls: seq<Call>, order: seq<nat>, i: nat)
    requires Linked(m, calls, order) && i < |calls| && Alone(m, calls, i)
    ensures Linked(Advance(m, calls, i), calls, Effected(m, calls, order, i))
  {
    var m', order' := Advance(m, calls, i), Effected(m, calls, order, i);
    OrderStaysDistinct(m, calls, order, i);
    OwnLinked(m, calls, order, i);
    forall j | 0 <= j < |calls| ensures CallLinked(m'.table, calls, order', j, m'.progress[j]) {
      if j != i {
        OtherLinked(m, calls, order, i, j);
      }
    }
  }

  lemma StartLinked(calls: seq<Call>)
    ensures Linked(Machine([], seq(|calls|, _ => Todo)), calls, [])
  {
    assert Pick(calls, []) == [];
  }

  lemma AfterNext(calls: seq<Call>, schedule: seq<nat>, n: nat)
    requires IsSchedule(calls, schedule) && n < |schedule|
    ensures After(calls, schedule[..n + 1]) == Advance(After(calls, schedule[..n]), calls, schedule[n])
    ensures Order(calls, schedule[..n + 1])
            == Effected(After(calls, schedule[..n]), calls, Order(calls, schedule[..n]), schedule[n])
  {
    assert schedule[..n + 1][..n] == schedule[..n];
  }

  /** The link holds after any number of statements. */
  lemma {:induction false} ScheduleLinked(calls: seq<Call>, schedule: seq<nat>, n: nat)
    requires IsSchedule(calls, schedule) && NoOverlap(calls, schedule) && n <= |schedule|
    ensures Linked(After(calls, schedule[..n]), calls, Order(calls, schedule[..n]))
    decreases n
  {
    if n == 0 {
      StartLinked(calls);
    } else {
      ScheduleLinked(calls, schedule, n - 1);
      AfterNext(calls, schedule, n - 1);
      StepLinked(After(calls, schedule[..n - 1]), calls, Order(calls, schedule[..n - 1]), schedule[n - 1]);
    }
  }

  /** The table is that of the atomic calls in this order, each call at most once, and every
      finished call has been told the outcome it has there. */
  ghost predicate SerialisedBy(m: Machine, calls: seq<Call>, order: seq<nat>)
    requires |m.progress| == |calls|
  {
    && IsSchedule(calls, order)
    && Distinct(order)
    && m.table == Table(Pick(calls, order))
    && forall i :: 0 <= i < |calls| && m.progress[i].Finished?
         ==> exists k :: Placed(calls, order, k, i, m.progress[i].outcome)
  }

  lemma LinkedIsSerialised(m: Machine, calls: seq<Call>, order: seq<nat>)
    requires Linked(m, calls, order)
    ensures SerialisedBy(m, calls, order)
  {
    forall i | 0 <= i < |calls| && m.progress[i].Finished?
      ensures exists k :: Placed(calls, order, k, i, m.progress[i].outcome)
    {
      assert CallLinked(m.table, calls, order, i, m.progress[i]);
    }
  }

  /** Serialisability: a schedule of single statements in which calls of one conversation do not
      overlap has the table and the outcomes of the atomic calls in the order of their effects. */
  lemma Serialisable(calls: seq<Call>, schedule: seq<nat>)
    requires IsSchedule(calls, schedule) && NoOverlap(calls, schedule)
    ensures SerialisedBy(After(calls, schedule), calls, Order(calls, schedule))
  {
    var n := |schedule|;
    ScheduleLinked(calls, schedule, n);
    LinkedIsSerialised(After(calls, schedule[..n]), calls, Order(calls, schedule[..n]));
    assert schedule[..n] == schedule;
  }

  lemma {:induction false} OrderGrows(calls: seq<Call>, schedule: seq<nat>, n: nat)
    requires IsSchedule(calls, schedule) && n <= |schedule|
    ensures Order(calls, schedule[..n]) <= Order(calls, schedule)
    decreases |schedule|
  {
    if n < |schedule| {
      OrderGrows(calls, schedule[..|schedule| - 1], n);
      assert schedule[..|schedule| - 1][..n] == schedule[..n];
    } else {
      assert schedule[..n] == schedule;
    }
  }

  lemma PlacedOrNot(m: Machine, calls: seq<Call>, order: seq<nat>, i: nat)
    requires Linked(m, calls, order) && i < |calls|
    ensures m.progress[i].Finished? ==> i in order
    ensures m.progress[i].Todo? ==> i !in order
  {
    assert CallLinked(m.table, calls, order, i, m.progress[i]);
  }

  /** The serial order respects real time: a call finished before another one starts comes first. */
  lemma RespectsRealTime(calls: seq<Call>, schedule: seq<nat>, n: nat, a: nat, b: nat)
    requires IsSchedule(calls, schedule) && NoOverlap(calls, schedule) && n <= |schedule|
    requires var order := Order(calls, schedule);
             a < |order| && b < |order| && order[a] < |calls| && order[b] < |calls|
             && After(calls, schedule[..n]).progress[order[a]].Finished?
             && After(calls, schedule[..n]).progress[order[b]].Todo?
    ensures a < b
  {
    var order, early, m := Order(calls, schedule), Order(calls, schedule[..n]), After(calls, schedule[..n]);
    ScheduleLinked(calls, schedule, n);
    Serialisable(calls, schedule);
    OrderGrows(calls, schedule, n);
    PlacedOrNot(m, calls, early, order[a]);
    PlacedOrNot(m, calls, early, order[b]);
    PlaceInPrefix(order, early, a);
    PlaceInPrefix(order, early, b);
  }

  // ---------------------------------------------------------------- overlapping calls

  /** Two appends to one conversation, each reading before either inserts. */
  function TwoAppends(user: Uuid, a: Op, b: Op): seq<Call> { [Call(user, a), Call(user, b)] }

  lemma BothRead(user: Uuid, a: Op, b: Op)
    requires a.Append? && b.Append? && KnownRole(a.role) && KnownRole(b.role) && a.session == b.session
    ensures var next := NextRead(NextOrdinal([], user, a.session));
            After(TwoAppends(user, a, b), [0, 1, 0, 1][..2]) == Machine([], [next, next])
  {
    var calls, schedule := TwoAppends(user, a, b), [0, 1, 0, 1];
    var next := NextRead(NextOrdinal([], user, a.session));
    AfterNext(calls, schedule, 0);
    assert After(calls, schedule[..1]) == Machine([], [next, Todo]);
    AfterNext(calls, schedule, 1);
  }

  lemma BothInsert(user: Uuid, a: Op, b: Op)
    requires a.Append? && b.Append? && KnownRole(a.role) && KnownRole(b.role) && a.session == b.session
    ensures var next := NextOrdinal([], user, a.session);
            After(TwoAppends(user, a, b), [0, 1, 0, 1]).table == Insert1(Insert1([], user, a, next).0, user, b, next).0
  {
    var calls, schedule := TwoAppends(user, a, b), [0, 1, 0, 1];
    BothRead(user, a, b);
    AfterNext(calls, schedule, 2);
    AfterNext(calls, schedule, 3);
    assert schedule[..4] == schedule;
  }

  /** Overlap in a conversation is what breaks serialisability: such a schedule ends in a table no
      sequence of atomic calls produces. */
  lemma OverlapBreaks(user: Uuid, a: Op, b: Op)
    requires a.Append? && b.Append? && KnownRole(a.role) && KnownRole(b.role) && a.id != b.id
    requires a.session == b.session
    ensures forall atomic :: After(TwoAppends(user, a, b), [0, 1, 0, 1]).table != Table(atomic)
  {
    BothInsert(user, a, b);
    RacingAppendsCollide([], user, a, b);
    forall atomic ensures After(TwoAppends(user, a, b), [0, 1, 0, 1]).table != Table(atomic) {
      RunInv(atomic);
    }
  }
}
