/** Whole runs over the memory table.  Recall may break ties as it likes, so a run is a sequence of
  tables related step by step. */
module MemoryRuns {
  import opened Wrappers
  import opened Sorting
  import M = MemoryStore

  type Table = seq<M.Row>
  type CharEq = (char, char) -> bool

  datatype Op =
    | Store(user: M.Uuid, req: M.Request, newId: M.Uuid, now: int)
    | Recall(query: M.Query, limit: nat, now: int)
    | Forget(user: M.Uuid, id: M.Uuid)

  datatype Outcome = Stored(id: Option<M.Uuid>) | Recalled(rows: seq<M.Row>) | Forgotten(count: nat)

  ghost predicate Step(t: Table, op: Op, t': Table, out: Outcome, eq: CharEq) {
    match op
    case Store(user, req, newId, now) =>
      t' == M.Upsert(t, user, req, newId, now).0 && out == Stored(M.Upsert(t, user, req, newId, now).1)
    case Recall(q, limit, now) =>
      out.Recalled? && M.IsRecall(t, q, limit, eq, out.rows) && t' == M.Touch(t, q.user, out.rows, now)
    case Forget(user, id) =>
      t' == M.Forget(t, user, id).0 && out == Forgotten(M.Forget(t, user, id).1)
  }

  /** `tables[i]` is the table before operation `i`. */
  datatype History = History(tables: seq<Table>, ops: seq<Op>, outs: seq<Outcome>)

  ghost predicate IsRun(h: History, eq: CharEq) {
    && |h.tables| == |h.ops| + 1 == |h.outs| + 1
    && h.tables[0] == []
    && forall i :: 0 <= i < |h.ops| ==> Step(h.tables[i], h.ops[i], h.tables[i + 1], h.outs[i], eq)
  }

  lemma StepInv(t: Table, op: Op, t': Table, out: Outcome, eq: CharEq)
    requires M.Inv(t) && Step(t, op, t', out, eq)
    ensures M.Inv(t')
  {
    match op
    case Store(user, req, newId, now) => M.UpsertInv(t, user, req, newId, now);
    case Recall(q, _, now) => M.TouchInv(t, q.user, out.rows, now);
    case Forget(user, id) => M.ForgetInv(t, user, id);
  }

  /** At every moment of every run, ids are unique and no user has two rows for one triple. */
  lemma {:induction false} RunInv(h: History, eq: CharEq, i: nat)
    requires IsRun(h, eq) && i <= |h.ops|
    ensures M.Inv(h.tables[i])
    decreases i
  {
    if i > 0 {
      RunInv(h, eq, i - 1);
      StepInv(h.tables[i - 1], h.ops[i - 1], h.tables[i], h.outs[i - 1], eq);
    }
  }

  method Play(memories: M.Memories, ops: seq<Op>, eq: CharEq) returns (outs: seq<Outcome>, ghost tables: seq<Table>)
    requires memories.rows == []
    modifies memories
    ensures IsRun(History(tables, ops, outs), eq) && memories.rows == tables[|ops|]
  {
    outs, tables := [], [[]];
    for i := 0 to |ops|
      invariant IsRun(History(tables, ops[..i], outs), eq) && memories.rows == tables[i]
    {
      RunInv(History(tables, ops[..i], outs), eq, i);
      match ops[i] {
        case Store(user, req, newId, now) =>
          var id := memories.Store(user, req, newId, now);
          outs := outs + [Stored(id)];
        case Recall(q, limit, now) =>
          var rows := memories.Recall(q, limit, eq, now);
          outs := outs + [Recalled(rows)];
        case Forget(user, id) =>
          var count := memories.ForgetRow(user, id);
          outs := outs + [Forgotten(count)];
      }
      ghost var before := tables;
      tables := tables + [memories.rows];
      assert Step(before[i], ops[i], memories.rows, outs[i], eq);
    }
    assert ops[..|ops|] == ops;
  }

  /** The user's triple is stored under `id`; with `payload`, also what is stored. */
  ghost predicate Held(t: Table, id: M.Uuid, user: M.Uuid, req: M.Request, payload: bool) {
    exists i :: 0 <= i < |t| && t[i].id == id && M.Triple(user, req.subject, req.pred)(t[i])
                && (payload ==> t[i].req == req)
  }

  predicate Forgets(op: Op, user: M.Uuid, id: M.Uuid) { op == Forget(user, id) }

  predicate Overwrites(op: Op, user: M.Uuid, req: M.Request) {
    op.Store? && op.user == user && op.req.subject == req.subject && op.req.pred == req.pred
  }

  /** One operation keeps a stored triple and its id unless it forgets it, and the payload too
      unless it stores the same triple. */
  lemma StepHolds(t: Table, op: Op, t': Table, out: Outcome, eq: CharEq,
                  id: M.Uuid, user: M.Uuid, req: M.Request, payload: bool)
    requires M.Inv(t) && Step(t, op, t', out, eq) && Held(t, id, user, req, payload)
    requires !Forgets(op, user, id) && (payload ==> !Overwrites(op, user, req))
    ensures Held(t', id, user, req, payload)
  {
    var i :| 0 <= i < |t| && t[i].id == id && M.Triple(user, req.subject, req.pred)(t[i])
             && (payload ==> t[i].req == req);
    match op
    case Store(u, q, newId, now) =>
      M.UpsertReplacesOrInserts(t, u, q, newId, now);
      assert i < |t'| && t'[i].id == id && M.Triple(user, req.subject, req.pred)(t'[i]);
    case Recall(q, _, now) =>
      assert t'[i].req == t[i].req && t'[i].id == id && t'[i].user == user;
    case Forget(u, forgotten) =>
      FilterMembers(M.Other(u, forgotten), t, t[i]);
      assert t[i] in t';
      var j :| 0 <= j < |t'| && t'[j] == t[i];
  }

  lemma {:induction false} RunHolds(h: History, eq: CharEq, i: nat, j: nat,
                                    id: M.Uuid, user: M.Uuid, req: M.Request, payload: bool)
    requires IsRun(h, eq) && i <= j <= |h.ops| && Held(h.tables[i], id, user, req, payload)
    requires forall k :: i <= k < j ==>
               !Forgets(h.ops[k], user, id) && (payload ==> !Overwrites(h.ops[k], user, req))
    ensures Held(h.tables[j], id, user, req, payload)
    decreases j
  {
    if i < j {
      RunHolds(h, eq, i, j - 1, id, user, req, payload);
      RunInv(h, eq, j - 1);
      StepHolds(h.tables[j - 1], h.ops[j - 1], h.tables[j], h.outs[j - 1], eq, id, user, req, payload);
    }
  }

  lemma StoreHolds(h: History, eq: CharEq, i: nat)
    requires IsRun(h, eq) && i < |h.ops| && h.ops[i].Store? && h.outs[i].Stored? && h.outs[i].id.Some?
    ensures Held(h.tables[i + 1], h.outs[i].id.value, h.ops[i].user, h.ops[i].req, true)
  {
    RunInv(h, eq, i);
    var t, op := h.tables[i], h.ops[i];
    assert Step(t, op, h.tables[i + 1], h.outs[i], eq);
    M.UpsertReplacesOrInserts(t, op.user, op.req, op.newId, op.now);
    var t' := h.tables[i + 1];
    if k :| 0 <= k < |t| && t[k].id == h.outs[i].id.value && M.Triple(op.user, op.req.subject, op.req.pred)(t[k])
            && t' == t[k := t[k].(req := op.req, lastUsedAt := None)] {
      assert t'[k].req == op.req;
    } else {
      assert t'[|t|].req == op.req;
    }
  }

  /** Stores of one triple return one id for as long as that row is not forgotten. */
  lemma StoreKeepsId(h: History, eq: CharEq, i: nat, j: nat)
    requires IsRun(h, eq) && i < j < |h.ops| && h.ops[i].Store? && Overwrites(h.ops[j], h.ops[i].user, h.ops[i].req)
    requires h.outs[i].Stored? && h.outs[i].id.Some?
    requires forall k :: i < k < j ==> !Forgets(h.ops[k], h.ops[i].user, h.outs[i].id.value)
    ensures h.outs[j] == h.outs[i]
  {
    var id, op := h.outs[i].id.value, h.ops[i];
    StoreHolds(h, eq, i);
    assert Held(h.tables[i + 1], id, op.user, op.req, false);
    RunHolds(h, eq, i + 1, j, id, op.user, op.req, false);
    RunInv(h, eq, j);
    var t := h.tables[j];
    var k: nat :| k < |t| && t[k].id == id && M.Triple(op.user, op.req.subject, op.req.pred)(t[k]);
    M.LookupIs(t, op.user, h.ops[j].req, k);
    assert Step(t, h.ops[j], h.tables[j + 1], h.outs[j], eq);
  }

  lemma SameTripleSameRow(t: Table, i: nat, j: nat)
    requires M.Inv(t) && i < |t| && j < |t|
    requires t[i].user == t[j].user && t[i].req.subject == t[j].req.subject && t[i].req.pred == t[j].req.pred
    ensures i == j
  {
  }

  /** The last write wins: until the triple is stored again or its row forgotten, the table holds
      exactly what was stored, whatever recalls and other stores come in between. */
  lemma LastWriteWins(h: History, eq: CharEq, i: nat, j: nat)
    requires IsRun(h, eq) && i < j <= |h.ops| && h.ops[i].Store?
    requires h.outs[i].Stored? && h.outs[i].id.Some?
    requires forall k :: i < k < j ==> !Forgets(h.ops[k], h.ops[i].user, h.outs[i].id.value)
                                       && !Overwrites(h.ops[k], h.ops[i].user, h.ops[i].req)
    ensures exists r :: r in h.tables[j] && r.id == h.outs[i].id.value && r.user == h.ops[i].user
                        && r.req == h.ops[i].req
    ensures forall r :: r in h.tables[j] && M.Triple(h.ops[i].user, h.ops[i].req.subject, h.ops[i].req.pred)(r)
              ==> r.id == h.outs[i].id.value && r.req == h.ops[i].req
  {
    var id, op := h.outs[i].id.value, h.ops[i];
    StoreHolds(h, eq, i);
    RunHolds(h, eq, i + 1, j, id, op.user, op.req, true);
    RunInv(h, eq, j);
    var t := h.tables[j];
    var k: nat :| k < |t| && t[k].id == id && M.Triple(op.user, op.req.subject, op.req.pred)(t[k])
                  && t[k].req == op.req;
    assert t[k] in t;
    forall r | r in t && M.Triple(op.user, op.req.subject, op.req.pred)(r) ensures r == t[k] {
      var m: nat :| m < |t| && t[m] == r;
      SameTripleSameRow(t, k, m);
    }
  }

  /** Forgetting removes at most the one row, and only its owner can remove it. */
  lemma ForgetExactly(t: Table, user: M.Uuid, id: M.Uuid)
    requires M.Inv(t)
    ensures var (t', n) := M.Forget(t, user, id);
            && (forall r :: r in t' <==> r in t && !(r.user == user && r.id == id))
            && n == (if exists r :: r in t && r.user == user && r.id == id then 1 else 0)
  {
    forall r ensures r in M.Forget(t, user, id).0 <==> r in t && !(r.user == user && r.id == id) {
      FilterMembers(M.Other(user, id), t, r);
    }
    var owned := Filter(M.Owned(user, id), t);
    FilterPairwise(M.Apart, M.Owned(user, id), t);
    if |owned| > 1 {
      FilterMembers(M.Owned(user, id), t, owned[0]);
      FilterMembers(M.Owned(user, id), t, owned[1]);
      assert false;
    }
    if owned != [] {
      FilterMembers(M.Owned(user, id), t, owned[0]);
    }
    forall r ensures r in owned <==> r in t && r.user == user && r.id == id {
      FilterMembers(M.Owned(user, id), t, r);
    }
  }

  // ---------------------------------------------------------------- a recall in two statements

  /** Every row of the user with a returned id is as it was returned. */
  ghost predicate AsReturned(t: Table, user: M.Uuid, rows: seq<M.Row>) {
    forall r :: r in t && r.user == user && M.Listed(r.id, rows) ==> r in rows
  }

  predicate SameTriple(r: M.Row, req: M.Request) { r.req.subject == req.subject && r.req.pred == req.pred }

  /** The operation of the same user stores a returned triple, or reuses its id, or returns it anew. */
  ghost predicate Disturbs(op: Op, out: Outcome, user: M.Uuid, rows: seq<M.Row>) {
    match op
    case Store(u, req, newId, _) => u == user && (M.Listed(newId, rows) || exists r :: r in rows && SameTriple(r, req))
    case Recall(q, _, _) =>
        q.user == user && out.Recalled? && exists k :: 0 <= k < |out.rows| && M.Listed(out.rows[k].id, rows)
    case Forget(_, _) => false
  }

  lemma StoreUndisturbed(t: Table, op: Op, t': Table, out: Outcome, eq: CharEq, user: M.Uuid, rows: seq<M.Row>)
    requires M.Inv(t) && op.Store? && Step(t, op, t', out, eq) && AsReturned(t, user, rows)
    requires !Disturbs(op, out, user, rows)
    ensures AsReturned(t', user, rows)
  {
    M.UpsertReplacesOrInserts(t, op.user, op.req, op.newId, op.now);
    forall r | r in t' && r.user == user && M.Listed(r.id, rows) ensures r in rows {
      var i :| 0 <= i < |t'| && t'[i] == r;
      if i < |t| {
        assert t[i] in t;
        if t'[i] != t[i] {
          assert SameTriple(t[i], op.req);
        }
      }
    }
  }

  lemma StepUndisturbed(t: Table, op: Op, t': Table, out: Outcome, eq: CharEq, user: M.Uuid, rows: seq<M.Row>)
    requires M.Inv(t) && Step(t, op, t', out, eq) && AsReturned(t, user, rows)
    requires !Disturbs(op, out, user, rows)
    ensures AsReturned(t', user, rows)
  {
    match op
    case Store(u, req, newId, now) => StoreUndisturbed(t, op, t', out, eq, user, rows);
    case Recall(q, _, now) =>
      forall r | r in t' && r.user == user && M.Listed(r.id, rows) ensures r in rows {
        var i :| 0 <= i < |t'| && t'[i] == r;
        assert t[i] in t;
      }
    case Forget(u, id) =>
      forall r | r in t' ensures r in t {
        FilterMembers(M.Other(u, id), t, r);
      }
  }

  /** While other operations run, what a recall selected stays as returned, or is forgotten. */
  lemma {:induction false} RunUndisturbed(
      h: History, eq: CharEq, i: nat, j: nat, q: M.Query, limit: nat, rows: seq<M.Row>)
    requires IsRun(h, eq) && i <= j <= |h.ops| && M.IsRecall(h.tables[i], q, limit, eq, rows)
    requires forall k :: i <= k < j ==> !Disturbs(h.ops[k], h.outs[k], q.user, rows)
    ensures AsReturned(h.tables[j], q.user, rows)
    decreases j
  {
    if i == j {
      RunInv(h, eq, i);
      forall r | r in h.tables[i] && r.user == q.user && M.Listed(r.id, rows) ensures r in rows {
        var k: nat :| k < |h.tables[i]| && h.tables[i][k] == r;
        M.ReturnedById(h.tables[i], q, limit, eq, rows, k);
      }
    } else {
      RunUndisturbed(h, eq, i, j - 1, q, limit, rows);
      RunInv(h, eq, j - 1);
      StepUndisturbed(h.tables[j - 1], h.ops[j - 1], h.tables[j], h.outs[j - 1], eq, q.user, rows);
    }
  }

  /** A recall that selects at moment `i` of a run and bumps at moment `j` bumps exactly what it
      returned, as documented, unless an operation of the same user in between stored one of the
      returned triples, reused an id, or returned one of the rows itself. */
  lemma SplitRecallInRun(
      h: History, eq: CharEq, i: nat, j: nat, q: M.Query, limit: nat, rows: seq<M.Row>, now: int)
    requires IsRun(h, eq) && i <= j <= |h.ops| && M.IsRecall(h.tables[i], q, limit, eq, rows)
    requires forall k :: i <= k < j ==> !Disturbs(h.ops[k], h.outs[k], q.user, rows)
    ensures M.BumpsReturned(h.tables[j], M.Touch(h.tables[j], q.user, rows, now), rows, now)
  {
    RunUndisturbed(h, eq, i, j, q, limit, rows);
    forall r | r in rows ensures r.user == q.user {
      M.MatchingIsEquality(h.tables[i], q, eq, r);
    }
    M.SplitRecallExactly(h.tables[j], q.user, rows, now);
  }

  /** Which single operation of the same user breaks the promise: a store that changes a returned row,
      or a recall that gives one another time than this one will. */
  ghost predicate Breaks(op: Op, out: Outcome, user: M.Uuid, rows: seq<M.Row>, now: int) {
    match op
    case Store(u, req, _, _) =>
      u == user && exists r :: r in rows && SameTriple(r, req) && M.Refreshed(r, req) != r
    case Recall(q, _, again) =>
      q.user == user && out.Recalled? && again != now
      && exists r :: r in rows && r in out.rows && r.lastUsedAt != Some(again)
    case Forget(_, _) => false
  }

  /** A refreshed row is one the bump should not reach exactly when it was returned and changed. */
  lemma RefreshedRow(t: Table, u: M.Uuid, req: M.Request, k: nat, t': Table,
                     user: M.Uuid, rows: seq<M.Row>, now: int)
    requires M.Inv(t) && k < |t| && t[k].user == u && t' == M.Refresh(t, t[k].id, req) && AsReturned(t, user, rows)
    requires forall r :: r in rows ==> r in t && r.user == user
    ensures M.ReachesReturned(t', user, rows, now)
            <==> !(u == user && t[k] in rows && M.Refreshed(t[k], req) != t[k])
  {
    forall i: nat | i < |t| && i != k ensures t'[i] == t[i] && t[i] in t {
      M.RowsApart(t, i, k);
    }
    assert t'[k] == M.Refreshed(t[k], req) && t'[k] in t';
    if t[k] in rows {
      var m :| 0 <= m < |rows| && rows[m] == t[k];
      assert rows[m].id == t'[k].id;
    }
    if t'[k] in rows {
      var m: nat :| m < |t| && t[m] == t'[k];
      M.SameIdSameRow(t, m, k);
    }
    forall r | r in t' && r != t'[k] ensures r in t {
      var i :| 0 <= i < |t'| && t'[i] == r;
    }
    assert t[k] in t;
  }

  lemma StoreBreaksExactly(
      t: Table, op: Op, t': Table, out: Outcome, eq: CharEq, user: M.Uuid, rows: seq<M.Row>, now: int)
    requires M.Inv(t) && op.Store? && Step(t, op, t', out, eq) && AsReturned(t, user, rows)
    requires forall r :: r in rows ==> r in t && r.user == user
    ensures M.ReachesReturned(t', user, rows, now) <==> !Breaks(op, out, user, rows, now)
  {
    M.LookupExactly(t, op.user, op.req);
    match M.Lookup(t, op.user, op.req)
    case None =>
      forall r | r in t' && r.user == user && M.Listed(r.id, rows) ensures r in t {
        var k :| 0 <= k < |rows| && rows[k].id == r.id;
        assert rows[k] in rows;
      }
    case Some(id) =>
      var k: nat :| k < |t| && t[k].id == id && M.Triple(op.user, op.req.subject, op.req.pred)(t[k]);
      RefreshedRow(t, op.user, op.req, k, t', user, rows, now);
      forall r | r in rows && op.user == user && SameTriple(r, op.req) ensures r == t[k] {
        var m: nat :| m < |t| && t[m] == r;
        SameTripleSameRow(t, k, m);
      }
  }

  /** A row the later bump reaches, after another recall touched it or not. */
  lemma TouchedRow(t: Table, r: M.Row, touched: bool, rows: seq<M.Row>, again: int, now: int)
    requires M.Inv(t) && r in t && r in rows && forall x :: x in rows ==> x in t
    ensures var r' := if touched then r.(lastUsedAt := Some(again)) else r;
            r' in rows || r'.lastUsedAt == Some(now) <==> !(touched && r.lastUsedAt != Some(again) && again != now)
  {
    var r' := if touched then r.(lastUsedAt := Some(again)) else r;
    if r' in rows {
      var i: nat :| i < |t| && t[i] == r;
      var j: nat :| j < |t| && t[j] == r';
      M.SameIdSameRow(t, i, j);
    }
  }

  lemma ListedMember(r: M.Row, rows: seq<M.Row>)
    requires r in rows
    ensures M.Listed(r.id, rows)
  {
    var k :| 0 <= k < |rows| && rows[k] == r;
    assert rows[k].id == r.id;
  }

  lemma RecallBreaksExactly(
      t: Table, op: Op, t': Table, out: Outcome, eq: CharEq, user: M.Uuid, rows: seq<M.Row>, now: int)
    requires M.Inv(t) && op.Recall? && Step(t, op, t', out, eq) && AsReturned(t, user, rows)
    requires forall r :: r in rows ==> r in t && r.user == user
    ensures M.ReachesReturned(t', user, rows, now) <==> !Breaks(op, out, user, rows, now)
  {
    M.RecallTouchesReturned(t, op.query, op.limit, eq, out.rows, op.now);
    forall r | r in out.rows ensures r.user == op.query.user {
      M.MatchingIsEquality(t, op.query, eq, r);
    }
    if Breaks(op, out, user, rows, now) {
      var r :| r in rows && r in out.rows && r.lastUsedAt != Some(op.now);
      var i: nat :| i < |t| && t[i] == r;
      TouchedRow(t, r, true, rows, op.now, now);
      ListedMember(r, rows);
      assert t'[i] in t' && t'[i] == r.(lastUsedAt := Some(op.now));
    } else {
      forall r | r in t' && r.user == user && M.Listed(r.id, rows)
        ensures r in rows || r.lastUsedAt == Some(now)
      {
        var i :| 0 <= i < |t'| && t'[i] == r;
        assert t[i] in t;
        TouchedRow(t, t[i], t[i] in out.rows, rows, op.now, now);
      }
    }
  }

  /** With one operation between its two statements, a recall bumps exactly what it returned if and
      only if that operation is not one of these. */
  lemma SplitRecallOneOpExactly(
      t: Table, op: Op, t': Table, out: Outcome, eq: CharEq, q: M.Query, limit: nat, rows: seq<M.Row>, now: int)
    requires M.Inv(t) && Step(t, op, t', out, eq) && M.IsRecall(t, q, limit, eq, rows)
    ensures M.BumpsReturned(t', M.Touch(t', q.user, rows, now), rows, now) <==> !Breaks(op, out, q.user, rows, now)
  {
    forall r | r in rows ensures r in t && r.user == q.user {
      M.MatchingIsEquality(t, q, eq, r);
    }
    M.SplitRecallExactly(t', q.user, rows, now);
    forall i: nat | i < |t| && t[i].user == q.user && M.Listed(t[i].id, rows) ensures t[i] in rows {
      M.ReturnedById(t, q, limit, eq, rows, i);
    }
    assert AsReturned(t, q.user, rows);
    match op
    case Store(_, _, _, _) => StoreBreaksExactly(t, op, t', out, eq, q.user, rows, now);
    case Recall(_, _, _) => RecallBreaksExactly(t, op, t', out, eq, q.user, rows, now);
    case Forget(user, id) =>
      forall r | r in t' ensures r in t {
        FilterMembers(M.Other(user, id), t, r);
      }
  }

  // ---------------------------------------------------------------- isolation of users

  function OwnedBy(u: M.Uuid): M.Row -> bool { (r: M.Row) => r.user == u }

  function View(t: Table, u: M.Uuid): Table { Filter(OwnedBy(u), t) }

  function UserOf(op: Op): M.Uuid { if op.Recall? then op.query.user else op.user }

  /** Refreshing by id commutes with looking at one user's rows, although the statement names no user. */
  lemma {:induction false} RefreshView(t: Table, id: M.Uuid, req: M.Request, u: M.Uuid)
    ensures View(M.Refresh(t, id, req), u) == M.Refresh(View(t, u), id, req)
    decreases |t|
  {
    if t != [] {
      RefreshView(t[1..], id, req, u);
      var t' := M.Refresh(t, id, req);
      assert t'[1..] == M.Refresh(t[1..], id, req);
      if t[0].user == u {
        assert View(t, u)[1..] == View(t[1..], u);
      } else {
        assert View(t, u) == View(t[1..], u) && View(t', u) == View(t'[1..], u);
      }
    }
  }

  lemma {:induction false} TouchView(t: Table, user: M.Uuid, rows: Table, now: int, u: M.Uuid)
    ensures View(M.Touch(t, user, rows, now), u) == M.Touch(View(t, u), user, rows, now)
    decreases |t|
  {
    if t != [] {
      TouchView(t[1..], user, rows, now, u);
      var t' := M.Touch(t, user, rows, now);
      assert t'[1..] == M.Touch(t[1..], user, rows, now);
      if t[0].user == u {
        assert View(t, u)[1..] == View(t[1..], u);
      } else {
        assert View(t, u) == View(t[1..], u) && View(t', u) == View(t'[1..], u);
      }
    }
  }

  lemma ViewMembers(t: Table, u: M.Uuid)
    ensures forall r :: r in View(t, u) <==> r in t && r.user == u
  {
    forall r ensures r in View(t, u) <==> r in t && r.user == u {
      FilterMembers(OwnedBy(u), t, r);
    }
  }

  lemma ViewAppend(t: Table, r: M.Row, u: M.Uuid)
    ensures View(t + [r], u) == if r.user == u then View(t, u) + [r] else View(t, u)
  {
    FilterAppend(OwnedBy(u), t, [r]);
    assert [r][1..] == [];
    assert View([r], u) == (if r.user == u then [r] else []) + View([], u);
    assert View(t, u) + [] == View(t, u);
  }

  /** The row a user's store refreshes is not among another user's rows. */
  lemma ForeignIdAbsent(t: Table, user: M.Uuid, req: M.Request, u: M.Uuid)
    requires M.Inv(t) && M.Lookup(t, user, req).Some? && user != u
    ensures M.Refresh(View(t, u), M.Lookup(t, user, req).value, req) == View(t, u)
  {
    var id, v := M.Lookup(t, user, req).value, View(t, u);
    M.LookupExactly(t, user, req);
    ViewMembers(t, u);
    forall i | 0 <= i < |v| ensures v[i].id != id {
      assert v[i] in v;
      var j: nat :| j < |t| && t[j] == v[i];
      var k: nat :| k < |t| && t[k].id == id && t[k].user == user;
      if t[j].id == id {
        M.SameIdSameRow(t, j, k);
      }
    }
    assert M.Refresh(v, id, req) == v;
  }

  /** Another user's operation leaves a user's rows as they are. */
  lemma ForeignStepInvisible(t: Table, op: Op, t': Table, out: Outcome, eq: CharEq, u: M.Uuid)
    requires M.Inv(t) && Step(t, op, t', out, eq) && UserOf(op) != u
    ensures View(t', u) == View(t, u)
  {
    match op
    case Store(user, req, newId, now) =>
      match M.Lookup(t, user, req) {
        case Some(id) =>
          RefreshView(t, id, req, u);
          ForeignIdAbsent(t, user, req, u);
        case None =>
          if !M.HasId(t, newId) {
            ViewAppend(t, M.Row(newId, user, req, now, None, None), u);
          }
      }
    case Recall(q, _, now) =>
      TouchView(t, q.user, out.rows, now, u);
      ViewMembers(t, u);
      var v := View(t, u);
      assert forall i :: 0 <= i < |v| ==> v[i] in v;
      assert M.Touch(v, q.user, out.rows, now) == v;
    case Forget(user, id) =>
      FilterStronger(OwnedBy(u), M.Other(user, id), t);
  }

  /** The operation would insert an id another user's row already has. */
  predicate ForeignId(t: Table, op: Op) {
    op.Store? && exists i :: 0 <= i < |t| && t[i].id == op.newId && t[i].user != op.user
  }

  lemma HasIdView(t: Table, op: Op)
    requires op.Store? && !ForeignId(t, op)
    ensures M.HasId(View(t, op.user), op.newId) <==> M.HasId(t, op.newId)
  {
    var v := View(t, op.user);
    ViewMembers(t, op.user);
    if i :| 0 <= i < |t| && t[i].id == op.newId {
      assert t[i] in v;
      var k :| 0 <= k < |v| && v[k] == t[i];
    }
    if k :| 0 <= k < |v| && v[k].id == op.newId {
      assert v[k] in v;
      var i :| 0 <= i < |t| && t[i] == v[k];
    }
  }

  /** A user's own operation does on that user's rows alone what it does on the whole table, with
      the same outcome. */
  lemma OwnStepLocal(t: Table, op: Op, t': Table, out: Outcome, eq: CharEq)
    requires Step(t, op, t', out, eq) && !ForeignId(t, op)
    ensures Step(View(t, UserOf(op)), op, View(t', UserOf(op)), out, eq)
  {
    var u := UserOf(op);
    match op
    case Store(user, req, newId, now) =>
      FilterStronger(M.Triple(user, req.subject, req.pred), OwnedBy(u), t);
      assert M.Lookup(View(t, u), user, req) == M.Lookup(t, user, req);
      match M.Lookup(t, user, req) {
        case Some(id) => RefreshView(t, id, req, u);
        case None =>
          HasIdView(t, op);
          ViewAppend(t, M.Row(newId, user, req, now, None, None), u);
      }
    case Recall(q, limit, now) =>
      FilterStronger(M.Matching(q, eq), OwnedBy(u), t);
      assert M.Matches(View(t, u), q, eq) == M.Matches(t, q, eq);
      TouchView(t, q.user, out.rows, now, u);
    case Forget(user, id) =>
      FilterCommute(OwnedBy(u), M.Other(user, id), t);
      FilterStronger(M.Owned(user, id), OwnedBy(u), t);
  }

  /** A user's part of the first `n` operations: that user's operations and outcomes, and the user's
      rows before and after each. */
  function Projected(h: History, n: nat, u: M.Uuid): (p: History)
    requires n <= |h.ops| == |h.outs| && |h.tables| == |h.ops| + 1
    ensures |p.tables| == |p.ops| + 1 == |p.outs| + 1
  {
    if n == 0 then History([[]], [], [])
    else
      var p := Projected(h, n - 1, u);
      if UserOf(h.ops[n - 1]) != u then p
      else History(p.tables + [View(h.tables[n], u)], p.ops + [h.ops[n - 1]], p.outs + [h.outs[n - 1]])
  }

  lemma Extended(h: History, eq: CharEq, op: Op, t': Table, out: Outcome)
    requires IsRun(h, eq) && Step(h.tables[|h.ops|], op, t', out, eq)
    ensures IsRun(History(h.tables + [t'], h.ops + [op], h.outs + [out]), eq)
  {
    var h' := History(h.tables + [t'], h.ops + [op], h.outs + [out]);
    forall i | 0 <= i < |h'.ops| ensures Step(h'.tables[i], h'.ops[i], h'.tables[i + 1], h'.outs[i], eq) {
      if i < |h.ops| {
        assert Step(h.tables[i], h.ops[i], h.tables[i + 1], h.outs[i], eq);
      }
    }
  }

  /** Isolation: in every run of all users' operations, what one user stores, recalls and forgets,
      outcome by outcome, is a run of that user alone on that user's rows. */
  lemma {:induction false} Isolation(h: History, eq: CharEq, n: nat, u: M.Uuid)
    requires IsRun(h, eq) && n <= |h.ops|
    requires forall i :: 0 <= i < n && UserOf(h.ops[i]) == u ==> !ForeignId(h.tables[i], h.ops[i])
    ensures IsRun(Projected(h, n, u), eq)
    ensures Projected(h, n, u).tables[|Projected(h, n, u).ops|] == View(h.tables[n], u)
  {
    if n > 0 {
      Isolation(h, eq, n - 1, u);
      var t, op, t', out := h.tables[n - 1], h.ops[n - 1], h.tables[n], h.outs[n - 1];
      assert Step(t, op, t', out, eq);
      if UserOf(op) == u {
        OwnStepLocal(t, op, t', out, eq);
        Extended(Projected(h, n - 1, u), eq, op, View(t', u), out);
      } else {
        RunInv(h, eq, n - 1);
        ForeignStepInvisible(t, op, t', out, eq, u);
      }
    }
  }

  /** Minted ids never repeat. */
  ghost predicate FreshIds(ops: seq<Op>) {
    forall i, j :: 0 <= i < j < |ops| && ops[i].Store? && ops[j].Store? ==> ops[i].newId != ops[j].newId
  }

  lemma RowOrigin(t: Table, op: Op, t': Table, out: Outcome, eq: CharEq, r: M.Row) returns (before: Option<M.Row>)
    requires Step(t, op, t', out, eq) && r in t'
    ensures match before
            case Some(b) => b in t && b.id == r.id
            case None => op.Store? && op.newId == r.id
  {
    var i :| 0 <= i < |t'| && t'[i] == r;
    match op
    case Store(user, req, newId, now) => before := if i < |t| then Some(t[i]) else None;
    case Recall(_, _, _) => before := Some(t[i]);
    case Forget(user, id) =>
      FilterMembers(M.Other(user, id), t, r);
      before := Some(r);
  }

  /** Every row came from an earlier store that minted its id. */
  lemma {:induction false} RowsWereStored(h: History, eq: CharEq, n: nat, r: M.Row)
    requires IsRun(h, eq) && n <= |h.ops| && r in h.tables[n]
    ensures exists k :: 0 <= k < n && h.ops[k].Store? && h.ops[k].newId == r.id
    decreases n
  {
    if n > 0 {
      var t, op, t' := h.tables[n - 1], h.ops[n - 1], h.tables[n];
      assert Step(t, op, t', h.outs[n - 1], eq);
      var before := RowOrigin(t, op, t', h.outs[n - 1], eq, r);
      if before.Some? {
        RowsWereStored(h, eq, n - 1, before.value);
      }
    }
  }

  /** With minted ids that never repeat, isolation holds of every run and every user. */
  lemma FreshIdsIsolate(h: History, eq: CharEq, n: nat, u: M.Uuid)
    requires IsRun(h, eq) && n <= |h.ops| && FreshIds(h.ops)
    ensures IsRun(Projected(h, n, u), eq)
    ensures Projected(h, n, u).tables[|Projected(h, n, u).ops|] == View(h.tables[n], u)
  {
    forall i | 0 <= i < n ensures !ForeignId(h.tables[i], h.ops[i]) {
      var t := h.tables[i];
      if h.ops[i].Store? {
        forall k | 0 <= k < |t| ensures t[k].id != h.ops[i].newId {
          RowsWereStored(h, eq, i, t[k]);
        }
      }
    }
    Isolation(h, eq, n, u);
  }
}
