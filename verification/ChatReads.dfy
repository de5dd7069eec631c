/** What every call of the chat message repository answers, over every run, and that what was written
  is what is read. */
module ChatReads {
  import opened Wrappers
  import opened Sorting
  import opened ChatLog
  import opened ChatRuns

  /** The row is in the user's conversation. */
  predicate Belongs(r: Row, user: Uuid, session: Uuid) { r.user == user && r.session == session }

  // ---------------------------------------------------------------- reads

  /** `list` answers the conversation's rows, all of them and no others, in strictly ascending order. */
  lemma ListAnswers(calls: seq<Call>, i: nat) returns (rows: seq<Row>)
    requires i < |calls| && calls[i].op.List?
    ensures OutcomeAt(calls, i) == Rows(rows)
    ensures forall a, b :: 0 <= a < b < |rows| ==> rows[a].ordinal < rows[b].ordinal
    ensures forall r :: r in rows <==> r in Table(calls[..i]) && Belongs(r, calls[i].user, calls[i].op.session)
    ensures Table(calls[..i + 1]) == Table(calls[..i])
  {
    TableStep(calls, i);
    RunInv(calls[..i]);
    ListExactly(Table(calls[..i]), calls[i].user, calls[i].op.session);
    rows := Listed(Table(calls[..i]), calls[i].user, calls[i].op.session);
  }

  lemma FindAnswers(t: seq<Row>, user: Uuid, session: Uuid, id: Uuid)
    requires Inv(t)
    ensures forall r :: Find(t, user, session, id) == Some(r) <==> r in t && Belongs(r, user, session) && r.id == id
    ensures Find(t, user, session, id) == None
            <==> forall r :: r in t ==> !(Belongs(r, user, session) && r.id == id)
  {
    var key := Keyed(user, session, id);
    forall r ensures r in Filter(key, t) <==> r in t && key(r) {
      FilterMembers(key, t, r);
    }
    if Find(t, user, session, id).Some? {
      var i := FoundOnce(t, user, session, id);
      forall r | r in t && key(r) ensures r == t[i] {
        var j :| 0 <= j < |t| && t[j] == r;
      }
    }
  }

  /** `get` answers a row exactly when it is there under this user, session and id, and `NotFound`
      exactly when none is. */
  lemma GetAnswers(calls: seq<Call>, i: nat)
    requires i < |calls| && calls[i].op.Get?
    ensures var t, out, op := Table(calls[..i]), OutcomeAt(calls, i), calls[i].op;
            && (forall r :: out == Record(r) <==> r in t && Belongs(r, calls[i].user, op.session) && r.id == op.id)
            && (out == NotFound(op.id, op.session)
                <==> forall r :: r in t ==> !(Belongs(r, calls[i].user, op.session) && r.id == op.id))
    ensures Table(calls[..i + 1]) == Table(calls[..i])
  {
    TableStep(calls, i);
    RunInv(calls[..i]);
    FindAnswers(Table(calls[..i]), calls[i].user, calls[i].op.session, calls[i].op.id);
  }

  ghost predicate IsLast(t: seq<Row>, user: Uuid, session: Uuid, r: Row) {
    r in t && Belongs(r, user, session) && forall s :: s in t && Belongs(s, user, session) ==> s.ordinal <= r.ordinal
  }

  /** `last_ordinal` answers id, ordinal and role of the row with the greatest ordinal, and nothing
      exactly when the conversation is empty. */
  lemma LastOrdinalAnswers(calls: seq<Call>, i: nat) returns (last: Option<(Uuid, int, string)>)
    requires i < |calls| && calls[i].op.LastOrdinal?
    ensures OutcomeAt(calls, i) == Last(last)
    ensures last == None <==> forall r :: r in Table(calls[..i]) ==> !Belongs(r, calls[i].user, calls[i].op.session)
    ensures last.Some? ==> exists r :: IsLast(Table(calls[..i]), calls[i].user, calls[i].op.session, r)
                                       && last.value == (r.id, r.ordinal, r.role)
    ensures Table(calls[..i + 1]) == Table(calls[..i])
  {
    var t, user, session := Table(calls[..i]), calls[i].user, calls[i].op.session;
    TableStep(calls, i);
    RunInv(calls[..i]);
    LatestIsGreatest(t, user, session);
    forall r ensures r in Scope(t, user, session) <==> r in t && Belongs(r, user, session) {
      FilterMembers(Scoped(user, session), t, r);
    }
    last := Latest(t, user, session);
    if last.None? {
      forall r | r in t ensures !Belongs(r, user, session) {
        assert r !in Scope(t, user, session);
      }
    } else {
      var r :| r in Scope(t, user, session) && (r.id, r.ordinal, r.role) == last.value;
      assert IsLast(t, user, session, r);
    }
  }

  // ---------------------------------------------------------------- writes

  /** The next ordinal of a conversation: one more than the greatest, or one. */
  ghost predicate IsNext(t: seq<Row>, user: Uuid, session: Uuid, ordinal: int) {
    && (forall r :: r in t && Belongs(r, user, session) ==> r.ordinal < ordinal)
    && (ordinal == 1 || exists r :: r in t && Belongs(r, user, session) && r.ordinal == ordinal - 1)
  }

  lemma NextIsNext(t: seq<Row>, user: Uuid, session: Uuid)
    requires Inv(t)
    ensures IsNext(t, user, session, NextOrdinal(t, user, session))
  {
    NextOrdinalFresh(t, user, session);
    var rows := Scope(t, user, session);
    if rows != [] {
      MaxIsAttained(rows);
      var r :| r in rows && r.ordinal == MaxOrdinal(rows);
      FilterMembers(Scoped(user, session), t, r);
    }
  }

  /** `append` refuses an unknown role and a taken id; otherwise it answers and adds the row it was
      sent, with the next ordinal and version 1. */
  lemma AppendAnswers(calls: seq<Call>, i: nat)
    requires i < |calls| && calls[i].op.Append?
    ensures var t, t', out := Table(calls[..i]), Table(calls[..i + 1]), OutcomeAt(calls, i);
            var Append(session, id, role, content, model, ts) := calls[i].op;
            if role !in {"user", "assistant", "system"} then out == BadRole(role) && t' == t
            else if exists r :: r in t && r.id == id then out == DatabaseError && t' == t
            else
              && out.Record? && t' == t + [out.row]
              && IsNext(t, calls[i].user, session, out.row.ordinal)
              && out.row == Row(id, session, calls[i].user, role, content, model, ts, out.row.ordinal, 1)
  {
    var t, user, op := Table(calls[..i]), calls[i].user, calls[i].op;
    TableStep(calls, i);
    RunInv(calls[..i]);
    assert HasId(t, op.id) <==> exists r :: r in t && r.id == op.id by {
      if r :| r in t && r.id == op.id {
        var k :| 0 <= k < |t| && t[k] == r;
      }
    }
    NextIsNext(t, user, op.session);
  }

  /** The found row decides what an edit does and says. */
  predicate EditedTo(t: seq<Row>, k: nat, expected: int, content: string, t': seq<Row>, out: Outcome)
    requires k < |t|
  {
    if t[k].version != expected then out == VersionMismatch(t[k].id, expected, t[k].version) && t' == t
    else
      var r := t[k].(content := content, version := expected + 1);
      out == Record(r) && t' == t[k := r]
  }

  /** `edit` answers `NotFound` when the row is not there, `VersionMismatch` with the version found
      when that is not the expected one, and otherwise the row with the new content and version. */
  lemma EditAnswers(calls: seq<Call>, i: nat)
    requires i < |calls| && calls[i].op.Edit?
    ensures var t, t', out := Table(calls[..i]), Table(calls[..i + 1]), OutcomeAt(calls, i);
            var Edit(session, id, content, expected) := calls[i].op;
            if exists r :: r in t && Belongs(r, calls[i].user, session) && r.id == id then
              exists k :: 0 <= k < |t| && Belongs(t[k], calls[i].user, session) && t[k].id == id
                          && EditedTo(t, k, expected, content, t', out)
            else
              out == NotFound(id, session) && t' == t
  {
    var t, user, op := Table(calls[..i]), calls[i].user, calls[i].op;
    TableStep(calls, i);
    RunInv(calls[..i]);
    FindAnswers(t, user, op.session, op.id);
    assert Find(t, user, op.session, op.id).Some?
      <==> exists r :: r in t && Belongs(r, user, op.session) && r.id == op.id;
    if Find(t, user, op.session, op.id).Some? {
      var k := FoundOnce(t, user, op.session, op.id);
      if t[k].version == op.expected {
        var t' := EditUpdate(t, user, op);
        FindOnly(t', user, op.session, op.id, k);
        assert t' == t[k := t[k].(content := op.content, version := op.expected + 1)];
      }
      assert EditedTo(t, k, op.expected, op.content, Table(calls[..i + 1]), OutcomeAt(calls, i));
    }
  }

  // ---------------------------------------------------------------- what was written is read

  /** The call edits, deletes or cuts off the row. */
  predicate Disturbs(call: Call, r: Row) {
    Belongs(r, call.user, call.op.session)
    && match call.op
       case Edit(_, id, _, _) => id == r.id
       case Delete(_, id) => id == r.id
       case TruncateAfter(_, cutoff) => r.ordinal > cutoff
       case _ => false
  }

  lemma RowStays(t: seq<Row>, call: Call, r: Row)
    requires r in t && !Disturbs(call, r)
    ensures r in Apply(t, call.user, call.op).0
  {
    var Call(user, op) := call;
    match op
    case Edit(session, id, content, _) =>
      var k :| 0 <= k < |t| && t[k] == r;
      var t' := Update(t, user, session, id, content);
      assert t'[k] == r;
      assert r in t';
    case Delete(session, id) => FilterMembers(Not(Keyed(user, session, id)), t, r);
    case TruncateAfter(session, cutoff) => FilterMembers(Not(Tail(user, session, cutoff)), t, r);
    case _ =>
  }

  lemma {:induction false} RowStaysInRun(calls: seq<Call>, i: nat, j: nat, r: Row)
    requires i <= j <= |calls| && r in Table(calls[..i])
    requires forall k :: i <= k < j ==> !Disturbs(calls[k], r)
    ensures r in Table(calls[..j])
    decreases j
  {
    if i < j {
      RowStaysInRun(calls, i, j - 1, r);
      TableStep(calls, j - 1);
      RowStays(Table(calls[..j - 1]), calls[j - 1], r);
    }
  }

  /** The row a successful append or edit answers is the row in the table. */
  lemma WrittenIsStored(calls: seq<Call>, i: nat, r: Row)
    requires i < |calls| && (calls[i].op.Append? || calls[i].op.Edit?) && OutcomeAt(calls, i) == Record(r)
    ensures r in Table(calls[..i + 1]) && Belongs(r, calls[i].user, calls[i].op.session) && r.id == calls[i].op.id
  {
    if calls[i].op.Append? {
      AppendAnswers(calls, i);
    } else {
      EditAnswers(calls, i);
      var t, t', op := Table(calls[..i]), Table(calls[..i + 1]), calls[i].op;
      var k :| 0 <= k < |t| && Belongs(t[k], calls[i].user, op.session) && t[k].id == op.id
               && EditedTo(t, k, op.expected, op.content, t', OutcomeAt(calls, i));
      assert t'[k] == r;
    }
  }

  /** Read your writes: until the row is edited, deleted or cut off, whatever else happens, `get`
      answers the very row that a successful append or edit answered, and `list` has it. */
  lemma WrittenIsRead(calls: seq<Call>, i: nat, j: nat, r: Row)
    requires i < j < |calls| && (calls[i].op.Append? || calls[i].op.Edit?) && OutcomeAt(calls, i) == Record(r)
    requires forall k :: i < k < j ==> !Disturbs(calls[k], r)
    requires calls[j].user == calls[i].user && calls[j].op.session == calls[i].op.session
    ensures calls[j].op == Get(calls[i].op.session, calls[i].op.id) ==> OutcomeAt(calls, j) == Record(r)
    ensures calls[j].op == List(calls[i].op.session) ==> OutcomeAt(calls, j).Rows? && r in OutcomeAt(calls, j).rows
  {
    WrittenIsStored(calls, i, r);
    RowStaysInRun(calls, i + 1, j, r);
    if calls[j].op.Get? {
      GetAnswers(calls, j);
    } else if calls[j].op.List? {
      var rows := ListAnswers(calls, j);
    }
  }
}
