/** Whole runs over the chat message table: versions, isolation of users, and what happens when the
  two statements of one call are interleaved with other calls. */
module ChatRuns {
  import opened Wrappers
  import opened Sorting
  import opened ChatLog

  datatype Call = Call(user: Uuid, op: Op)

  /** The table after the calls, starting empty. */
  function Table(calls: seq<Call>): seq<Row>
    decreases |calls|
  {
    if calls == [] then []
    else var last := calls[|calls| - 1]; Apply(Table(calls[..|calls| - 1]), last.user, last.op).0
  }

  function OutcomeAt(calls: seq<Call>, i: nat): Outcome
    requires i < |calls|
  {
    Apply(Table(calls[..i]), calls[i].user, calls[i].op).1
  }

  lemma {:induction false} RunInv(calls: seq<Call>)
    ensures Inv(Table(calls))
    decreases |calls|
  {
    if calls != [] {
      var front := calls[..|calls| - 1];
      RunInv(front);
      ApplyInv(Table(front), calls[|calls| - 1].user, calls[|calls| - 1].op);
    }
  }

  lemma TableStep(calls: seq<Call>, i: nat)
    requires i < |calls|
    ensures Table(calls[..i + 1]) == Apply(Table(calls[..i]), calls[i].user, calls[i].op).0
  {
    assert calls[..i + 1][..i] == calls[..i] && calls[..i + 1][i] == calls[i];
  }

  /** A run on the mutable repository. */
  method Play(repository: ChatMessages, calls: seq<Call>) returns (outcomes: seq<Outcome>)
    requires repository.rows == []
    modifies repository
    ensures repository.rows == Table(calls) && |outcomes| == |calls|
    ensures forall i :: 0 <= i < |calls| ==> outcomes[i] == OutcomeAt(calls, i)
  {
    outcomes := [];
    for i := 0 to |calls|
      invariant repository.rows == Table(calls[..i]) && |outcomes| == i
      invariant forall j :: 0 <= j < i ==> outcomes[j] == OutcomeAt(calls, j)
    {
      TableStep(calls, i);
      var out := repository.Perform(calls[i].user, calls[i].op);
      outcomes := outcomes + [out];
    }
    assert calls[..|calls|] == calls;
  }

  // ---------------------------------------------------------------- versions

  /** Call `i` inserted a row with this id. */
  predicate Creates(calls: seq<Call>, i: nat, id: Uuid)
    requires i < |calls|
  {
    calls[i].op.Append? && calls[i].op.id == id && OutcomeAt(calls, i).Record?
  }

  /** Call `i` edited the row with this id. */
  predicate Edits(calls: seq<Call>, i: nat, id: Uuid)
    requires i < |calls|
  {
    calls[i].op.Edit? && calls[i].op.id == id && OutcomeAt(calls, i).Record?
  }

  /** Successful edits of `id` among the first `n` calls since it was last created. */
  function EditsSince(calls: seq<Call>, n: nat, id: Uuid): nat
    requires n <= |calls|
  {
    if n == 0 || Creates(calls, n - 1, id) then 0
    else EditsSince(calls, n - 1, id) + (if Edits(calls, n - 1, id) then 1 else 0)
  }

  /** Where a row of the next table comes from. */
  datatype Origin = Inserted | Edited(before: Row) | Kept

  lemma IdsDiffer(t: seq<Row>, i: nat, j: nat)
    requires Inv(t) && i < |t| && j < |t| && i != j
    ensures t[i].id != t[j].id
  {
    assert Apart(t[if i < j then i else j], t[if i < j then j else i]);
  }

  lemma EditOrigin(t: seq<Row>, user: Uuid, op: Op, r: Row) returns (origin: Origin)
    requires Inv(t) && op.Edit? && r in Apply(t, user, op).0
    ensures match origin
            case Inserted => false
            case Edited(before) =>
              Apply(t, user, op).1.Record? && op.id == r.id && before in t
              && before.id == r.id && r.version == before.version + 1
            case Kept => r in t && !(Apply(t, user, op).1.Record? && op.id == r.id)
  {
    origin := Kept;
    var (t', out) := Apply(t, user, op);
    EditTouchesOneRow(t, user, op);
    if out.Record? {
      var i :| 0 <= i < |t| && t' == t[i := Revised(t[i], op.content)] && t[i].id == op.id;
      var j :| 0 <= j < |t'| && t'[j] == r;
      if i == j {
        origin := Edited(t[i]);
      } else {
        IdsDiffer(t, i, j);
      }
    }
  }

  lemma RowOrigin(t: seq<Row>, user: Uuid, op: Op, r: Row) returns (origin: Origin)
    requires Inv(t) && r in Apply(t, user, op).0
    ensures var out := Apply(t, user, op).1;
            match origin
            case Inserted => op.Append? && out == Record(r) && op.id == r.id
            case Edited(before) =>
              op.Edit? && out.Record? && op.id == r.id && before in t
              && before.id == r.id && r.version == before.version + 1
            case Kept => r in t && !((op.Append? || op.Edit?) && out.Record? && op.id == r.id)
  {
    origin := Kept;
    match op {
      case Append(_, _, _, _, _, _) =>
        if r !in t {
          origin := Inserted;
        } else {
          var i :| 0 <= i < |t| && t[i] == r;
          assert op.id == r.id ==> HasId(t, op.id);
        }
      case Edit(_, _, _, _) => origin := EditOrigin(t, user, op, r);
      case Delete(session, id) => FilterMembers(Not(Keyed(user, session, id)), t, r);
      case TruncateAfter(session, cutoff) => FilterMembers(Not(Tail(user, session, cutoff)), t, r);
      case _ =>
    }
  }

  /** At every moment of every run a row's version is one more than the number of its successful edits
      since it was created. */
  lemma {:induction false} VersionIsOnePlusEdits(calls: seq<Call>, n: nat, r: Row)
    requires n <= |calls| && r in Table(calls[..n])
    ensures r.version == 1 + EditsSince(calls, n, r.id)
    decreases n
  {
    if n > 0 {
      TableStep(calls, n - 1);
      RunInv(calls[..n - 1]);
      var origin := RowOrigin(Table(calls[..n - 1]), calls[n - 1].user, calls[n - 1].op, r);
      match origin
      case Inserted =>
      case Edited(before) => VersionIsOnePlusEdits(calls, n - 1, before);
      case Kept => VersionIsOnePlusEdits(calls, n - 1, r);
    }
  }

  lemma {:induction false} EditsGrow(calls: seq<Call>, a: nat, b: nat, id: Uuid)
    requires a <= b <= |calls|
    requires forall k :: a <= k < b ==> !Creates(calls, k, id)
    ensures EditsSince(calls, a, id) <= EditsSince(calls, b, id)
    ensures EditsSince(calls, a, id) == EditsSince(calls, b, id) <==> forall k :: a <= k < b ==> !Edits(calls, k, id)
    decreases b
  {
    if a < b {
      EditsGrow(calls, a, b - 1, id);
    }
  }

  lemma EditExpected(calls: seq<Call>, i: nat, id: Uuid)
    requires i < |calls| && Edits(calls, i, id)
    ensures calls[i].op.expected == 1 + EditsSince(calls, i, id)
  {
    var t := Table(calls[..i]);
    RunInv(calls[..i]);
    EditTouchesOneRow(t, calls[i].user, calls[i].op);
    var k :| 0 <= k < |t| && t[k].id == id && t[k].version == calls[i].op.expected;
    assert t[k] in t;
    VersionIsOnePlusEdits(calls, i, t[k]);
  }

  /** Optimistic concurrency: no two edits of a row are accepted on the same expected version,
      unless the id was created anew in between. */
  lemma VersionAcceptedOnce(calls: seq<Call>, i: nat, j: nat, id: Uuid)
    requires i < j < |calls| && Edits(calls, i, id) && Edits(calls, j, id)
    requires calls[i].op.expected == calls[j].op.expected
    ensures exists k :: i < k < j && Creates(calls, k, id)
  {
    EditExpected(calls, i, id);
    EditExpected(calls, j, id);
    if forall k :: i < k < j ==> !Creates(calls, k, id) {
      EditsGrow(calls, i + 1, j, id);
    }
  }

  // ---------------------------------------------------------------- isolation of users

  function OwnedBy(user: Uuid): Row -> bool { (r: Row) => r.user == user }

  function View(t: seq<Row>, user: Uuid): seq<Row> { Filter(OwnedBy(user), t) }

  lemma {:induction false} UpdateForeign(t: seq<Row>, user: Uuid, session: Uuid, id: Uuid, content: string, u: Uuid)
    requires u != user
    ensures View(Update(t, user, session, id, content), u) == View(t, u)
    decreases |t|
  {
    if t != [] {
      UpdateForeign(t[1..], user, session, id, content, u);
      assert Update(t, user, session, id, content)[1..] == Update(t[1..], user, session, id, content);
    }
  }

  lemma {:induction false} UpdateOwn(t: seq<Row>, user: Uuid, session: Uuid, id: Uuid, content: string)
    ensures View(Update(t, user, session, id, content), user) == Update(View(t, user), user, session, id, content)
    decreases |t|
  {
    if t != [] {
      UpdateOwn(t[1..], user, session, id, content);
      assert Update(t, user, session, id, content)[1..] == Update(t[1..], user, session, id, content);
      var rest := View(t[1..], user);
      if t[0].user == user {
        assert View(t, user) == [t[0]] + rest;
        assert ([t[0]] + rest)[1..] == rest;
      } else {
        assert View(t, user) == rest;
      }
    }
  }

  /** Another user's call leaves `u`'s rows as they are. */
  lemma ForeignCallInvisible(t: seq<Row>, user: Uuid, op: Op, u: Uuid)
    requires user != u
    ensures View(Apply(t, user, op).0, u) == View(t, u)
  {
    match op
    case Append(_, _, _, _, _, _) =>
      if KnownRole(op.role) && !HasId(t, op.id) {
        var r := Insert1(t, user, op, NextOrdinal(t, user, op.session)).1.row;
        FilterAppend(OwnedBy(u), t, [r]);
        FilterOne(OwnedBy(u), r);
      }
    case Edit(session, id, content, _) => UpdateForeign(t, user, session, id, content, u);
    case Delete(session, id) => FilterStronger(OwnedBy(u), Not(Keyed(user, session, id)), t);
    case TruncateAfter(session, cutoff) => FilterStronger(OwnedBy(u), Not(Tail(user, session, cutoff)), t);
    case _ =>
  }

  /** The append would collide with the id of another user's row. */
  predicate ForeignId(t: seq<Row>, user: Uuid, op: Op) {
    op.Append? && KnownRole(op.role) && exists i :: 0 <= i < |t| && t[i].id == op.id && t[i].user != user
  }

  lemma ReadsOwn(t: seq<Row>, user: Uuid, session: Uuid, id: Uuid)
    ensures Scope(View(t, user), user, session) == Scope(t, user, session)
    ensures Find(View(t, user), user, session, id) == Find(t, user, session, id)
  {
    FilterStronger(Scoped(user, session), OwnedBy(user), t);
    FilterStronger(Keyed(user, session, id), OwnedBy(user), t);
  }

  lemma HasIdOwn(t: seq<Row>, user: Uuid, op: Op)
    requires op.Append? && KnownRole(op.role) && !ForeignId(t, user, op)
    ensures HasId(View(t, user), op.id) <==> HasId(t, op.id)
  {
    var own := View(t, user);
    if i :| 0 <= i < |t| && t[i].id == op.id {
      FilterMembers(OwnedBy(user), t, t[i]);
      var j :| 0 <= j < |own| && own[j] == t[i];
    }
    if i :| 0 <= i < |own| && own[i].id == op.id {
      FilterMembers(OwnedBy(user), t, own[i]);
      var j :| 0 <= j < |t| && t[j] == own[i];
    }
  }

  lemma OwnAppendLocal(t: seq<Row>, user: Uuid, op: Op)
    requires op.Append? && KnownRole(op.role) && !ForeignId(t, user, op)
    ensures Apply(t, user, op).1 == Apply(View(t, user), user, op).1
    ensures View(Apply(t, user, op).0, user) == Apply(View(t, user), user, op).0
  {
    ReadsOwn(t, user, op.session, op.id);
    HasIdOwn(t, user, op);
    if !HasId(t, op.id) {
      var r := Insert1(t, user, op, NextOrdinal(t, user, op.session)).1.row;
      FilterAppend(OwnedBy(user), t, [r]);
      FilterOne(OwnedBy(user), r);
    }
  }

  lemma OwnEditLocal(t: seq<Row>, user: Uuid, op: Op)
    requires op.Edit?
    ensures Apply(t, user, op).1 == Apply(View(t, user), user, op).1
    ensures View(Apply(t, user, op).0, user) == Apply(View(t, user), user, op).0
  {
    ReadsOwn(t, user, op.session, op.id);
    UpdateOwn(t, user, op.session, op.id, op.content);
    ReadsOwn(Update(t, user, op.session, op.id, op.content), user, op.session, op.id);
  }

  /** A call sees and changes only its own user's rows. */
  lemma OwnCallLocal(t: seq<Row>, user: Uuid, op: Op)
    requires !ForeignId(t, user, op)
    ensures Apply(t, user, op).1 == Apply(View(t, user), user, op).1
    ensures View(Apply(t, user, op).0, user) == Apply(View(t, user), user, op).0
  {
    match op
    case Append(_, _, role, _, _, _) =>
      if KnownRole(role) {
        OwnAppendLocal(t, user, op);
      }
    case Edit(_, _, _, _) => OwnEditLocal(t, user, op);
    case Delete(session, id) =>
      FilterCommute(OwnedBy(user), Not(Keyed(user, session, id)), t);
      FilterStronger(Keyed(user, session, id), OwnedBy(user), t);
    case TruncateAfter(session, cutoff) =>
      FilterCommute(OwnedBy(user), Not(Tail(user, session, cutoff)), t);
      FilterStronger(Tail(user, session, cutoff), OwnedBy(user), t);
    case List(session) => ReadsOwn(t, user, session, 0);
    case Get(session, id) => ReadsOwn(t, user, session, id);
    case LastOrdinal(session) => ReadsOwn(t, user, session, 0);
  }

  /** Other users' rows influence the outcome of a call exactly when it inserts an id one of them
      already uses. */
  lemma ForeignInfluenceExactly(t: seq<Row>, user: Uuid, op: Op)
    requires Inv(t)
    ensures Apply(t, user, op).1 == Apply(View(t, user), user, op).1 <==> !ForeignId(t, user, op)
  {
    if ForeignId(t, user, op) {
      var i :| 0 <= i < |t| && t[i].id == op.id && t[i].user != user;
      var own := View(t, user);
      forall j | 0 <= j < |own| ensures own[j].id != op.id {
        FilterMembers(OwnedBy(user), t, own[j]);
        var k :| 0 <= k < |t| && t[k] == own[j];
        IdsDiffer(t, i, k);
      }
      assert HasId(t, op.id) && !HasId(own, op.id);
    } else {
      OwnCallLocal(t, user, op);
    }
  }

  function Own(calls: seq<Call>, u: Uuid): seq<Call>
    decreases |calls|
  {
    if calls == [] then []
    else
      var front := calls[..|calls| - 1];
      Own(front, u) + (if calls[|calls| - 1].user == u then [calls[|calls| - 1]] else [])
  }

  /** No insert of `u` in the run meets an id held by another user. */
  ghost predicate NoForeignIds(calls: seq<Call>, u: Uuid) {
    forall i :: 0 <= i < |calls| && calls[i].user == u ==> !ForeignId(Table(calls[..i]), u, calls[i].op)
  }

  lemma {:induction false} ViewIsOwnRun(calls: seq<Call>, u: Uuid)
    requires NoForeignIds(calls, u)
    ensures View(Table(calls), u) == Table(Own(calls, u))
    decreases |calls|
  {
    if calls != [] {
      var front, last := calls[..|calls| - 1], calls[|calls| - 1];
      forall i | 0 <= i < |front| && front[i].user == u ensures !ForeignId(Table(front[..i]), u, front[i].op) {
        assert front[..i] == calls[..i];
      }
      ViewIsOwnRun(front, u);
      if last.user == u {
        assert !ForeignId(Table(front), u, last.op);
        OwnCallLocal(Table(front), u, last.op);
        assert (Own(front, u) + [last])[..|Own(front, u)|] == Own(front, u);
      } else {
        ForeignCallInvisible(Table(front), last.user, last.op, u);
        assert Own(calls, u) == Own(front, u);
      }
    }
  }

  lemma {:induction false} OwnPrefix(calls: seq<Call>, u: Uuid, i: nat)
    requires i <= |calls|
    ensures Own(calls[..i], u) <= Own(calls, u)
    decreases |calls|
  {
    if i < |calls| {
      OwnPrefix(calls[..|calls| - 1], u, i);
      assert calls[..|calls| - 1][..i] == calls[..i];
    } else {
      assert calls[..i] == calls;
    }
  }

  lemma OwnAt(calls: seq<Call>, u: Uuid, i: nat)
    requires i < |calls| && calls[i].user == u
    ensures var m := |Own(calls[..i], u)|;
            m < |Own(calls, u)| && Own(calls, u)[m] == calls[i] && Own(calls, u)[..m] == Own(calls[..i], u)
  {
    OwnPrefix(calls, u, i + 1);
    assert calls[..i + 1][..i] == calls[..i] && calls[..i + 1][i] == calls[i];
    assert Own(calls[..i + 1], u) == Own(calls[..i], u) + [calls[i]];
  }

  /** Non-interference: in any interleaved run every outcome a user sees is the one of running that
      user's calls alone. */
  lemma NonInterference(calls: seq<Call>, u: Uuid, i: nat)
    requires NoForeignIds(calls, u) && i < |calls| && calls[i].user == u
    ensures |Own(calls[..i], u)| < |Own(calls, u)| && Own(calls, u)[|Own(calls[..i], u)|] == calls[i]
    ensures OutcomeAt(calls, i) == OutcomeAt(Own(calls, u), |Own(calls[..i], u)|)
  {
    var front := calls[..i];
    forall k | 0 <= k < |front| && front[k].user == u ensures !ForeignId(Table(front[..k]), u, front[k].op) {
      assert front[..k] == calls[..k];
    }
    ViewIsOwnRun(front, u);
    OwnCallLocal(Table(front), u, calls[i].op);
    OwnAt(calls, u, i);
  }

  /** Server-minted ids never repeat. */
  ghost predicate FreshIds(calls: seq<Call>) {
    forall i, j :: 0 <= i < j < |calls| && calls[i].op.Append? && calls[j].op.Append?
      ==> calls[i].op.id != calls[j].op.id
  }

  lemma {:induction false} RowsWereAppended(calls: seq<Call>, r: Row)
    requires r in Table(calls)
    ensures exists k :: 0 <= k < |calls| && calls[k].op.Append? && calls[k].op.id == r.id
    decreases |calls|
  {
    var front, last := calls[..|calls| - 1], calls[|calls| - 1];
    var t := Table(front);
    var before := r;
    match last.op {
      case Edit(session, id, content, _) =>
        var i :| 0 <= i < |Table(calls)| && Table(calls)[i] == r;
        before := t[i];
      case Delete(session, id) => FilterMembers(Not(Keyed(last.user, session, id)), t, r);
      case TruncateAfter(session, cutoff) => FilterMembers(Not(Tail(last.user, session, cutoff)), t, r);
      case _ =>
    }
    if before in t {
      RowsWereAppended(front, before);
      var k :| 0 <= k < |front| && front[k].op.Append? && front[k].op.id == before.id;
      assert calls[k] == front[k];
    }
  }

  lemma FreshIdsSuffice(calls: seq<Call>, u: Uuid)
    requires FreshIds(calls)
    ensures NoForeignIds(calls, u)
  {
    forall i | 0 <= i < |calls| && calls[i].user == u ensures !ForeignId(Table(calls[..i]), u, calls[i].op) {
      var t := Table(calls[..i]);
      if calls[i].op.Append? {
        forall j | 0 <= j < |t| ensures t[j].id != calls[i].op.id {
          assert t[j] in t;
          RowsWereAppended(calls[..i], t[j]);
          var k :| 0 <= k < i && calls[..i][k].op.Append? && calls[..i][k].op.id == t[j].id;
          assert calls[k] == calls[..i][k];
        }
      }
    }
  }

  // ---------------------------------------------------------------- interleaved statements

  /** `edit` reads the version in one statement, updates, without naming the version, in another,
      and reads the row back in a third.  With other calls in between it does and answers what an
      atomic edit would exactly when the row is gone at the update and the re-read, or has the
      expected version at the update and is as updated at the re-read. */
  lemma SplitEditExactly(read: seq<Row>, write: seq<Row>, later: seq<Row>, user: Uuid, op: Op)
    requires Inv(write) && op.Edit? && EditCheck(read, user, op).None?
    ensures (EditUpdate(write, user, op), EditReread(later, user, op)) == Apply(write, user, op)
            <==> match Find(write, user, op.session, op.id)
                 case None => Find(later, user, op.session, op.id).None?
                 case Some(r) =>
                   r.version == op.expected && Find(later, user, op.session, op.id) == Some(Revised(r, op.content))
  {
    var t' := EditUpdate(write, user, op);
    match Find(write, user, op.session, op.id)
    case None =>
      forall i | 0 <= i < |write| ensures !Keyed(user, op.session, op.id)(write[i]) {
        FilterMembers(Keyed(user, op.session, op.id), write, write[i]);
      }
      assert t' == write;
    case Some(r) =>
      var i := FoundOnce(write, user, op.session, op.id);
      FindOnly(t', user, op.session, op.id, i);
      assert t'[i].version != write[i].version;
  }

  /** The reported version over a run of other calls.  The edit checks before call `h`, its update
      is the edit at `i` (with whatever version the row has by then), and it re-reads before call
      `j`.  The version it reports is the documented one, the expected one plus one, exactly when no
      other edit of the row was accepted from the check to the re-read. */
  lemma RereadVersionExactly(calls: seq<Call>, h: nat, i: nat, j: nat, user: Uuid, op: Op, r: Row)
    requires h <= i < j <= |calls| && op.Edit?
    requires EditCheck(Table(calls[..h]), user, op).None?
    requires Edits(calls, i, op.id) && calls[i] == Call(user, op.(expected := calls[i].op.expected))
    requires EditReread(Table(calls[..j]), user, op) == Record(r)
    requires forall k :: h <= k < j ==> !Creates(calls, k, op.id)
    ensures r.version == op.expected + 1 <==> forall k :: h <= k < j && k != i ==> !Edits(calls, k, op.id)
  {
    RunInv(calls[..h]);
    var checked := FoundOnce(Table(calls[..h]), user, op.session, op.id);
    VersionIsOnePlusEdits(calls, h, Table(calls[..h])[checked]);
    FilterMembers(Keyed(user, op.session, op.id), Table(calls[..j]), r);
    VersionIsOnePlusEdits(calls, j, r);
    EditsGrow(calls, h, i, op.id);
    EditsGrow(calls, i + 1, j, op.id);
  }

  /** So two clients can both be told that their edit on the same version succeeded; the first
      content is lost. */
  lemma RacingEditsBothAccepted(t: seq<Row>, user: Uuid, a: Op, b: Op)
    requires Inv(t) && a.Edit? && b.Edit? && (a.session, a.id, a.expected) == (b.session, b.id, b.expected)
    requires EditCheck(t, user, a).None? && EditCheck(t, user, b).None?
    ensures var (t1, out1) := EditCommit(t, user, a);
            var (t2, out2) := EditCommit(t1, user, b);
            && out1.Record? && out2.Record?
            && out2.row.version == a.expected + 2
            && out2.row.content == b.content
  {
    EditTouchesOneRow(t, user, a);
    var (t1, out1) := EditCommit(t, user, a);
    UpdateInv(t, user, a.session, a.id, a.content);
    assert Find(t1, user, a.session, a.id) == Some(out1.row);
    var again := b.(expected := out1.row.version);
    EditTouchesOneRow(t1, user, again);
  }

  /** On SQLite `append` computes the ordinal in one statement and inserts in another.  The insert
      is what an atomic append would do exactly when the next ordinal is still the same or the id
      is refused anyway. */
  lemma SplitAppendExactly(read: seq<Row>, write: seq<Row>, user: Uuid, op: Op)
    requires op.Append? && KnownRole(op.role)
    ensures Insert1(write, user, op, NextOrdinal(read, user, op.session)) == Apply(write, user, op)
            <==> NextOrdinal(read, user, op.session) == NextOrdinal(write, user, op.session)
                 || HasId(write, op.id)
  {
    if !HasId(write, op.id) {
      var a := Insert1(write, user, op, NextOrdinal(read, user, op.session)).1;
      var b := Apply(write, user, op).1;
      assert a.row.ordinal == NextOrdinal(read, user, op.session);
      assert b.row.ordinal == NextOrdinal(write, user, op.session);
    }
  }

  ghost predicate OrdinalsDistinct(t: seq<Row>) {
    forall i, j :: 0 <= i < j < |t| && t[i].user == t[j].user && t[i].session == t[j].session
      ==> t[i].ordinal != t[j].ordinal
  }

  lemma AppendedDistinct(t: seq<Row>, r: Row)
    requires OrdinalsDistinct(t)
    ensures OrdinalsDistinct(t + [r]) <==>
            forall s :: s in Scope(t, r.user, r.session) ==> s.ordinal != r.ordinal
  {
    var t' := t + [r];
    forall s ensures s in Scope(t, r.user, r.session) <==> s in t && s.user == r.user && s.session == r.session {
      FilterMembers(Scoped(r.user, r.session), t, s);
    }
    if OrdinalsDistinct(t') {
      forall s | s in Scope(t, r.user, r.session) ensures s.ordinal != r.ordinal {
        var i :| 0 <= i < |t| && t[i] == s;
        assert t'[i] == s && t'[|t|] == r;
      }
    } else {
      var i, j :| 0 <= i < j < |t'| && t'[i].user == t'[j].user && t'[i].session == t'[j].session
                  && t'[i].ordinal == t'[j].ordinal;
      assert t[i] in t;
    }
  }

  /** And it keeps ordinals distinct and ascending in insertion order exactly when the insert is
      refused or no row has reached the ordinal it read; it repeats no ordinal exactly when no row
      has taken that one. */
  lemma SplitAppendKeepsInvExactly(read: seq<Row>, write: seq<Row>, user: Uuid, op: Op)
    requires Inv(read) && Inv(write) && op.Append? && KnownRole(op.role)
    ensures var next := NextOrdinal(read, user, op.session);
            var t' := Insert1(write, user, op, next).0;
            && (Inv(t') <==> HasId(write, op.id) || NextOrdinal(write, user, op.session) <= next)
            && (OrdinalsDistinct(t') <==>
                  HasId(write, op.id) || forall r :: r in Scope(write, user, op.session) ==> r.ordinal != next)
  {
    var next := NextOrdinal(read, user, op.session);
    NextOrdinalFresh(read, user, op.session);
    var rows := Scope(write, user, op.session);
    assert OrdinalsDistinct(write);
    if !HasId(write, op.id) {
      var (t', out) := Insert1(write, user, op, next);
      forall r ensures r in rows <==> r in write && r.user == user && r.session == op.session {
        FilterMembers(Scoped(user, op.session), write, r);
      }
      if NextOrdinal(write, user, op.session) <= next {
        NextOrdinalFresh(write, user, op.session);
        forall i, j | 0 <= i < j < |t'| ensures Apart(t'[i], t'[j]) {
          assert t'[i] in write;
        }
      } else {
        MaxIsAttained(rows);
        var r :| r in rows && r.ordinal == MaxOrdinal(rows);
        var i :| 0 <= i < |write| && write[i] == r;
        assert !Apart(t'[i], t'[|write|]);
      }
      AppendedDistinct(write, out.row);
    }
  }

  /** Two appends to one conversation that both read before either inserts give two rows with the
      same ordinal; the index on (session_id, ordinal) is not unique and does not refuse them. */
  lemma RacingAppendsCollide(t: seq<Row>, user: Uuid, a: Op, b: Op)
    requires a.Append? && b.Append? && KnownRole(a.role) && KnownRole(b.role)
    requires a.session == b.session && a.id != b.id && !HasId(t, a.id) && !HasId(t, b.id)
    ensures var next := NextOrdinal(t, user, a.session);
            var (t1, out1) := Insert1(t, user, a, next);
            var (t2, out2) := Insert1(t1, user, b, next);
            && out1.Record? && out2.Record? && out1.row in t2 && out2.row in t2
            && out1.row.ordinal == out2.row.ordinal
            && !Inv(t2)
  {
    var next := NextOrdinal(t, user, a.session);
    var (t1, out1) := Insert1(t, user, a, next);
    var (t2, out2) := Insert1(t1, user, b, next);
    assert t2[|t|] == out1.row && t2[|t| + 1] == out2.row;
    assert !Apart(t2[|t|], t2[|t| + 1]);
  }
}
