/** The per-user memory table of crates/nagent-db/src/memories.rs.

  Rows are kept in insertion order; the schema has no unique index on (user, subject, predicate),
  so the one-row-per-triple rule rests on `upsert` alone.  A repository call is one atomic step
  except where the split of `upsert` or `recall` into two statements is the subject. */
module MemoryStore {
  import opened Wrappers
  import opened Sorting
  import opened LikePattern

  type Uuid = nat
  type Blob = seq<nat>

  const RECALL_HARD_LIMIT: nat := 64

  /** `NewMemoryRequest`; encrypted columns are opaque. */
  datatype Request = Request(subject: string, pred: string, valueNonce: Blob, valueCiphertext: Blob,
                             notesNonce: Option<Blob>, notesCiphertext: Option<Blob>, tags: string,
                             confidence: real, sourceSession: Option<string>, sourceKind: string)

  datatype Row = Row(id: Uuid, user: Uuid, req: Request, createdAt: int, lastUsedAt: Option<int>,
                     expiresAt: Option<int>)

  /** The optional recall filters */
  datatype Query = Query(user: Uuid, subject: Option<string>, pred: Option<string>, tags: Option<string>)

  // ---------------------------------------------------------------- statements

  function Triple(user: Uuid, subject: string, pred: string): Row -> bool {
    (r: Row) => r.user == user && r.req.subject == subject && r.req.pred == pred
  }

  predicate HasId(t: seq<Row>, id: Uuid) { exists i :: 0 <= i < |t| && t[i].id == id }

  /** `SELECT id ... WHERE user_id, subject, predicate` */
  function Lookup(t: seq<Row>, user: Uuid, req: Request): Option<Uuid> {
    var found := Filter(Triple(user, req.subject, req.pred), t);
    if found == [] then None else Some(found[0].id)
  }

  /** `UPDATE memories SET ... , last_used_at = NULL WHERE id`; subject and predicate stay. */
  function Refreshed(r: Row, req: Request): Row {
    r.(req := req.(subject := r.req.subject, pred := r.req.pred), lastUsedAt := None)
  }

  function Refresh(t: seq<Row>, id: Uuid, req: Request): (t': seq<Row>)
    ensures |t'| == |t|
    ensures forall i :: 0 <= i < |t| ==> t'[i] == if t[i].id == id then Refreshed(t[i], req) else t[i]
  {
    if t == [] then []
    else [if t[0].id == id then Refreshed(t[0], req) else t[0]] + Refresh(t[1..], id, req)
  }

  /** `None` is the insert refused by the primary key. */
  function UpsertCommit(t: seq<Row>, user: Uuid, req: Request, existing: Option<Uuid>, newId: Uuid, now: int)
    : (seq<Row>, Option<Uuid>)
  {
    match existing
    case Some(id) => (Refresh(t, id, req), Some(id))
    case None =>
      if HasId(t, newId) then (t, None) else (t + [Row(newId, user, req, now, None, None)], Some(newId))
  }

  function Upsert(t: seq<Row>, user: Uuid, req: Request, newId: Uuid, now: int): (seq<Row>, Option<Uuid>) {
    UpsertCommit(t, user, req, Lookup(t, user, req), newId, now)
  }

  function Owned(user: Uuid, id: Uuid): Row -> bool { (r: Row) => r.user == user && r.id == id }

  function Other(user: Uuid, id: Uuid): Row -> bool { (r: Row) => !(r.user == user && r.id == id) }

  /** `forget` and its affected-row count */
  function Forget(t: seq<Row>, user: Uuid, id: Uuid): (seq<Row>, nat) {
    (Filter(Other(user, id), t), |Filter(Owned(user, id), t)|)
  }

  // ---------------------------------------------------------------- recall

  predicate FilterMatches(filter: Option<string>, column: string, eq: (char, char) -> bool) {
    filter.None? || FilterAsCoded(filter.value, column, eq)
  }

  function Matching(q: Query, eq: (char, char) -> bool): Row -> bool {
    (r: Row) => r.user == q.user
                && FilterMatches(q.subject, r.req.subject, eq)
                && FilterMatches(q.pred, r.req.pred, eq)
                && FilterMatches(q.tags, r.req.tags, eq)
  }

  function Matches(t: seq<Row>, q: Query, eq: (char, char) -> bool): seq<Row> { Filter(Matching(q, eq), t) }

  /** `last_used_at DESC NULLS LAST` */
  predicate UsedLater(a: Option<int>, b: Option<int>) {
    a.Some? && (b.None? || a.value > b.value)
  }

  /** `confidence DESC, last_used_at DESC NULLS LAST, created_at DESC` */
  predicate Outranks(a: Row, b: Row) {
    a.req.confidence > b.req.confidence
    || (a.req.confidence == b.req.confidence
        && (UsedLater(a.lastUsedAt, b.lastUsedAt)
            || (a.lastUsedAt == b.lastUsedAt && a.createdAt > b.createdAt)))
  }

  /** What a ranked and capped recall may return; the engine is free among ties. */
  ghost predicate IsRecall(t: seq<Row>, q: Query, limit: nat, eq: (char, char) -> bool, out: seq<Row>) {
    IsBest(Outranks, Matches(t, q, eq), Min(limit, RECALL_HARD_LIMIT), out)
  }

  predicate Listed(id: Uuid, rows: seq<Row>) { exists i :: 0 <= i < |rows| && rows[i].id == id }

  /** `UPDATE ... SET last_used_at WHERE user_id AND id IN (...)` */
  function Touch(t: seq<Row>, user: Uuid, rows: seq<Row>, now: int): (t': seq<Row>)
    ensures |t'| == |t|
    ensures forall i :: 0 <= i < |t| ==>
              t'[i] == if t[i].user == user && Listed(t[i].id, rows) then t[i].(lastUsedAt := Some(now)) else t[i]
  {
    if t == [] then []
    else [if t[0].user == user && Listed(t[0].id, rows) then t[0].(lastUsedAt := Some(now)) else t[0]]
         + Touch(t[1..], user, rows, now)
  }

  // ---------------------------------------------------------------- the invariant

  /** Ids are unique and no user has two rows for one (subject, predicate). */
  predicate Apart(a: Row, b: Row) {
    a.id != b.id && !(a.user == b.user && a.req.subject == b.req.subject && a.req.pred == b.req.pred)
  }

  ghost predicate Inv(t: seq<Row>) { Pairwise(Apart, t) }

  lemma RowsApart(t: seq<Row>, i: nat, j: nat)
    requires Inv(t) && i < |t| && j < |t| && i != j
    ensures Apart(t[i], t[j])
  {
    assert Apart(t[if i < j then i else j], t[if i < j then j else i]);
  }

  lemma SameIdSameRow(t: seq<Row>, i: nat, j: nat)
    requires Inv(t) && i < |t| && j < |t| && t[i].id == t[j].id
    ensures i == j
  {
  }

  /** Where the triple's row is, if it is anywhere. */
  lemma LookupExactly(t: seq<Row>, user: Uuid, req: Request)
    requires Inv(t)
    ensures match Lookup(t, user, req)
            case Some(id) => exists i :: 0 <= i < |t| && t[i].id == id && Triple(user, req.subject, req.pred)(t[i])
            case None => forall r :: r in t ==> !Triple(user, req.subject, req.pred)(r)
  {
    var p := Triple(user, req.subject, req.pred);
    match Lookup(t, user, req)
    case Some(id) =>
      var r := Filter(p, t)[0];
      FilterMembers(p, t, r);
      var i :| 0 <= i < |t| && t[i] == r;
      assert t[i].id == id;
    case None =>
      forall r | r in t ensures !p(r) {
        FilterMembers(p, t, r);
      }
  }

  lemma UpsertInv(t: seq<Row>, user: Uuid, req: Request, newId: Uuid, now: int)
    requires Inv(t)
    ensures Inv(Upsert(t, user, req, newId, now).0)
  {
    LookupExactly(t, user, req);
    var t' := Upsert(t, user, req, newId, now).0;
    forall i, j | 0 <= i < j < |t'| ensures Apart(t'[i], t'[j]) {
      if j < |t| {
        RowsApart(t, i, j);
      } else {
        assert t[i] in t;
      }
    }
  }

  lemma LookupIs(t: seq<Row>, user: Uuid, req: Request, i: nat)
    requires Inv(t) && i < |t| && Triple(user, req.subject, req.pred)(t[i])
    ensures Lookup(t, user, req) == Some(t[i].id)
  {
    LookupExactly(t, user, req);
    assert t[i] in t;
    var id := Lookup(t, user, req).value;
    var j :| 0 <= j < |t| && t[j].id == id && Triple(user, req.subject, req.pred)(t[j]);
    if j != i {
      RowsApart(t, i, j);
    }
  }

  /** `upsert` as promised: the triple's row keeps its id and takes the new payload, or a new row is
      inserted; every other row stays as it is. */
  lemma UpsertReplacesOrInserts(t: seq<Row>, user: Uuid, req: Request, newId: Uuid, now: int)
    requires Inv(t)
    ensures var (t', out) := Upsert(t, user, req, newId, now);
            match out
            case None => t' == t && HasId(t, newId) && Lookup(t, user, req) == None
            case Some(id) =>
              Lookup(t', user, req) == Some(id)
              && ((exists i :: 0 <= i < |t| && t[i].id == id && Triple(user, req.subject, req.pred)(t[i])
                               && t' == t[i := t[i].(req := req, lastUsedAt := None)])
                  || (id == newId && !HasId(t, id) && Lookup(t, user, req) == None
                      && t' == t + [Row(id, user, req, now, None, None)]))
  {
    LookupExactly(t, user, req);
    var (t', out) := Upsert(t, user, req, newId, now);
    UpsertInv(t, user, req, newId, now);
    match Lookup(t, user, req)
    case Some(id) =>
      var i :| 0 <= i < |t| && t[i].id == id && Triple(user, req.subject, req.pred)(t[i]);
      forall j | 0 <= j < |t| && j != i ensures t[j].id != id {
        RowsApart(t, i, j);
      }
      assert t' == t[i := t[i].(req := req, lastUsedAt := None)];
      LookupIs(t', user, req, i);
    case None =>
      if out.Some? {
        LookupIs(t', user, req, |t|);
      }
  }

  lemma ForgetInv(t: seq<Row>, user: Uuid, id: Uuid)
    requires Inv(t)
    ensures Inv(Forget(t, user, id).0)
  {
    FilterPairwise(Apart, Other(user, id), t);
  }

  lemma TouchInv(t: seq<Row>, user: Uuid, rows: seq<Row>, now: int)
    requires Inv(t)
    ensures Inv(Touch(t, user, rows, now))
  {
    var t' := Touch(t, user, rows, now);
    forall i, j | 0 <= i < j < |t'| ensures Apart(t'[i], t'[j]) {
      RowsApart(t, i, j);
    }
  }

  // ---------------------------------------------------------------- recall as promised

  /** A filter selects by equality: no caller-supplied character is a wildcard. */
  lemma MatchingIsEquality(t: seq<Row>, q: Query, eq: (char, char) -> bool, r: Row)
    ensures r in Matches(t, q, eq) <==>
            && r in t && r.user == q.user
            && (q.subject.Some? ==> SameText(q.subject.value, r.req.subject, eq))
            && (q.pred.Some? ==> SameText(q.pred.value, r.req.pred, eq))
            && (q.tags.Some? ==> SameText(q.tags.value, r.req.tags, eq))
  {
    FilterMembers(Matching(q, eq), t, r);
    if q.subject.Some? {
      EscapedMatchesExactly(q.subject.value, r.req.subject, eq);
    }
    if q.pred.Some? {
      EscapedMatchesExactly(q.pred.value, r.req.pred, eq);
    }
    if q.tags.Some? {
      EscapedMatchesExactly(q.tags.value, r.req.tags, eq);
    }
  }

  /** The documented side effect: the rows returned, and only they, get the new `last_used_at`; no
      other column of any row changes. */
  ghost predicate BumpsReturned(t: seq<Row>, t': seq<Row>, out: seq<Row>, now: int) {
    |t'| == |t| && forall i :: 0 <= i < |t| ==>
      t'[i] == if t[i] in out then t[i].(lastUsedAt := Some(now)) else t[i]
  }

  lemma ReturnedById(t: seq<Row>, q: Query, limit: nat, eq: (char, char) -> bool, out: seq<Row>, i: nat)
    requires Inv(t) && IsRecall(t, q, limit, eq, out) && i < |t| && Listed(t[i].id, out)
    ensures t[i] in out
  {
    var k :| 0 <= k < |out| && out[k].id == t[i].id;
    assert out[k] in out;
    MatchingIsEquality(t, q, eq, out[k]);
    var j: nat :| j < |t| && t[j] == out[k];
    SameIdSameRow(t, i, j);
  }

  lemma RecallTouchesReturned(t: seq<Row>, q: Query, limit: nat, eq: (char, char) -> bool, out: seq<Row>, now: int)
    requires Inv(t) && IsRecall(t, q, limit, eq, out)
    ensures BumpsReturned(t, Touch(t, q.user, out, now), out, now)
  {
    forall i | 0 <= i < |t| ensures (t[i].user == q.user && Listed(t[i].id, out)) <==> t[i] in out {
      if t[i] in out {
        MatchingIsEquality(t, q, eq, t[i]);
        var k :| 0 <= k < |out| && out[k] == t[i];
        assert out[k].id == t[i].id;
      }
      if Listed(t[i].id, out) {
        ReturnedById(t, q, limit, eq, out, i);
      }
    }
  }

  lemma OutranksIsOrder()
    ensures StrictWeak(Outranks)
  {
  }

  /** The ranking leaves the engine no choice but among ties: any two valid answers agree, position
      by position, up to rows neither of which outranks the other. */
  lemma RecallUniqueUpToTies(t: seq<Row>, q: Query, limit: nat, eq: (char, char) -> bool, a: seq<Row>, b: seq<Row>)
    requires IsRecall(t, q, limit, eq, a) && IsRecall(t, q, limit, eq, b)
    ensures |a| == |b| && forall i :: 0 <= i < |a| ==> !Outranks(a[i], b[i]) && !Outranks(b[i], a[i])
  {
    OutranksIsOrder();
    BestUniqueUpToTies(Outranks, Matches(t, q, eq), Min(limit, RECALL_HARD_LIMIT), a, b);
  }

  lemma {:induction false} BestExists(rows: seq<Row>) returns (b: nat)
    requires rows != []
    ensures b < |rows| && forall i :: 0 <= i < |rows| ==> !Outranks(rows[i], rows[b])
    decreases |rows|
  {
    if |rows| == 1 {
      b := 0;
    } else {
      var rest := rows[1..];
      b := BestExists(rest);
      b := b + 1;
      forall i | 0 < i < |rows| ensures !Outranks(rows[i], rows[b]) {
        assert rows[i] == rest[i - 1];
      }
      if Outranks(rows[0], rows[b]) {
        forall i | 0 <= i < |rows| ensures !Outranks(rows[i], rows[0]) {
          assert i > 0 ==> !Outranks(rows[i], rows[b]);
        }
        b := 0;
      }
    }
  }

  /** A store keeps the confidence of a triple it finds exactly when it brings the same value: every
      request carries one. */
  lemma ConfidenceKeptExactly(t: seq<Row>, user: Uuid, req: Request, newId: Uuid, now: int, i: nat)
    requires Inv(t) && i < |t| && Triple(user, req.subject, req.pred)(t[i])
    ensures var t' := Upsert(t, user, req, newId, now).0;
            |t'| == |t| && (t'[i].req.confidence == t[i].req.confidence <==> req.confidence == t[i].req.confidence)
  {
    LookupIs(t, user, req, i);
  }

  // ---------------------------------------------------------------- interleaved statements

  /** Every row a bump by id reaches is as it was returned, or carries the new time already. */
  ghost predicate ReachesReturned(t: seq<Row>, user: Uuid, out: seq<Row>, now: int) {
    forall r | r in t && r.user == user && Listed(r.id, out) :: r in out || r.lastUsedAt == Some(now)
  }

  /** `recall` selects in one statement and bumps in another, by id.  On a table that moved on in
      between, the bump is still the documented one exactly when every row it reaches is as it was
      returned, or carries the new time already. */
  lemma SplitRecallExactly(write: seq<Row>, user: Uuid, out: seq<Row>, now: int)
    requires forall r :: r in out ==> r.user == user
    ensures BumpsReturned(write, Touch(write, user, out, now), out, now)
            <==> ReachesReturned(write, user, out, now)
  {
  }

  /** So a store of a returned triple between the two statements is bumped although its payload was
      never returned and the store had cleared `last_used_at`. */
  lemma StoreDuringRecallIsBumped(t: seq<Row>, q: Query, limit: nat, eq: (char, char) -> bool, out: seq<Row>,
                                  r: Row, req: Request, newId: Uuid, storedAt: int, now: int)
    requires Inv(t) && IsRecall(t, q, limit, eq, out) && r in out
    requires req.subject == r.req.subject && req.pred == r.req.pred && req != r.req
    ensures var write := Upsert(t, q.user, req, newId, storedAt).0;
            var t' := Touch(write, q.user, out, now);
            && (exists i :: 0 <= i < |write| && write[i].id == r.id && write[i].req == req
                            && write[i].lastUsedAt == None && write[i] !in out
                            && t'[i] == write[i].(lastUsedAt := Some(now)))
            && !BumpsReturned(write, t', out, now)
  {
    MatchingIsEquality(t, q, eq, r);
    var i: nat :| i < |t| && t[i] == r;
    LookupIs(t, q.user, req, i);
    var write := Upsert(t, q.user, req, newId, storedAt).0;
    assert write[i] == r.(req := req, lastUsedAt := None);
    assert Listed(r.id, out) by {
      var k :| 0 <= k < |out| && out[k] == r;
      assert out[k].id == r.id;
    }
    if write[i] in out {
      MatchingIsEquality(t, q, eq, write[i]);
      var j: nat :| j < |t| && t[j] == write[i];
      SameIdSameRow(t, i, j);
    }
  }

  /** `upsert` looks the triple up in one statement and writes in another.  Committed on a table
      that moved on, it does what an atomic upsert would do exactly when the lookup would still
      find the same. */
  lemma SplitUpsertExactly(read: seq<Row>, write: seq<Row>, user: Uuid, req: Request, newId: Uuid, now: int)
    requires Inv(write)
    ensures UpsertCommit(write, user, req, Lookup(read, user, req), newId, now)
            == Upsert(write, user, req, newId, now)
            <==> Lookup(read, user, req) == Lookup(write, user, req)
  {
    LookupExactly(write, user, req);
  }

  /** And it keeps one row per triple exactly when the lookup found a row, there is still none, or
      the insert is refused anyway. */
  lemma SplitUpsertKeepsInvExactly(read: seq<Row>, write: seq<Row>, user: Uuid, req: Request, newId: Uuid, now: int)
    requires Inv(write)
    ensures Inv(UpsertCommit(write, user, req, Lookup(read, user, req), newId, now).0)
            <==> Lookup(read, user, req).Some? || Lookup(write, user, req).None? || HasId(write, newId)
  {
    var t' := UpsertCommit(write, user, req, Lookup(read, user, req), newId, now).0;
    LookupExactly(write, user, req);
    if Lookup(read, user, req).Some? {
      forall i, j | 0 <= i < j < |t'| ensures Apart(t'[i], t'[j]) {
        RowsApart(write, i, j);
      }
    } else if !HasId(write, newId) {
      if Lookup(write, user, req).None? {
        forall i, j | 0 <= i < j < |t'| ensures Apart(t'[i], t'[j]) {
          assert t'[i] in write;
        }
      } else {
        var i :| 0 <= i < |write| && Triple(user, req.subject, req.pred)(write[i]);
        assert !Apart(t'[i], t'[|write|]);
      }
    }
  }

  /** With nothing unique in the schema, two first stores of one triple that both look before
      either inserts leave two rows for it. */
  lemma RacingUpsertsDuplicate(t: seq<Row>, user: Uuid, a: Request, b: Request, idA: Uuid, idB: Uuid, now: int)
    requires a.subject == b.subject && a.pred == b.pred
    requires Lookup(t, user, a) == None && idA != idB && !HasId(t, idA) && !HasId(t, idB)
    ensures var (t1, outA) := UpsertCommit(t, user, a, Lookup(t, user, a), idA, now);
            var (t2, outB) := UpsertCommit(t1, user, b, Lookup(t, user, b), idB, now);
            && outA == Some(idA) && outB == Some(idB)
            && |Filter(Triple(user, a.subject, a.pred), t2)| == 2
            && !Inv(t2)
  {
    var p := Triple(user, a.subject, a.pred);
    var ra, rb := Row(idA, user, a, now, None, None), Row(idB, user, b, now, None, None);
    FilterAppend(p, t + [ra], [rb]);
    FilterAppend(p, t, [ra]);
    assert [ra][1..] == [] && [rb][1..] == [];
    assert Filter(p, [ra]) == [ra] + Filter(p, []) && Filter(p, [rb]) == [rb] + Filter(p, []);
    var t2 := t + [ra] + [rb];
    assert !Apart(t2[|t|], t2[|t| + 1]);
  }

  // ---------------------------------------------------------------- the mutable form

  lemma TouchNothing(t: seq<Row>, user: Uuid, now: int)
    ensures Touch(t, user, [], now) == t
  {
  }

  class Memories {
    var rows: seq<Row>

    constructor ()
      ensures rows == []
    {
      rows := [];
    }

    method Store(user: Uuid, req: Request, newId: Uuid, now: int) returns (out: Option<Uuid>)
      modifies this
      ensures (rows, out) == Upsert(old(rows), user, req, newId, now)
    {
      match Lookup(rows, user, req)
      case Some(id) =>
        rows := Refresh(rows, id, req);
        out := Some(id);
      case None =>
        if HasId(rows, newId) {
          return None;
        }
        rows := rows + [Row(newId, user, req, now, None, None)];
        out := Some(newId);
    }

    method ForgetRow(user: Uuid, id: Uuid) returns (removed: nat)
      modifies this
      ensures (rows, removed) == Forget(old(rows), user, id)
    {
      removed := |Filter(Owned(user, id), rows)|;
      rows := Filter(Other(user, id), rows);
    }

    /** ORDER BY and LIMIT as repeated choice of a best remaining row. */
    method SelectBest(all: seq<Row>, bounded: nat) returns (out: seq<Row>)
      requires Distinct(all)
      ensures IsBest(Outranks, all, bounded, out)
    {
      out := [];
      var rest := all;
      while |out| < bounded && rest != []
        invariant |out| + |rest| == |all| && |out| <= bounded
        invariant Distinct(out) && Distinct(rest) && Sorted(Outranks, out)
        invariant forall r :: r in all <==> r in out || r in rest
        invariant forall r :: r in out ==> r !in rest
        invariant forall r, later :: r in out && later in rest ==> !Outranks(later, r)
        decreases |rest|
      {
        ghost var best := BestExists(rest);
        var b :| 0 <= b < |rest| && forall i :: 0 <= i < |rest| ==> !Outranks(rest[i], rest[b]);
        var r := rest[b];
        var left := rest[..b] + rest[b + 1..];
        assert forall x :: x in rest <==> x == r || x in left;
        assert r !in left;
        out := out + [r];
        rest := left;
      }
    }

    method Recall(q: Query, limit: nat, eq: (char, char) -> bool, now: int) returns (out: seq<Row>)
      requires Inv(rows)
      modifies this
      ensures IsRecall(old(rows), q, limit, eq, out)
      ensures rows == Touch(old(rows), q.user, out, now)
    {
      var bounded := if limit < RECALL_HARD_LIMIT then limit else RECALL_HARD_LIMIT;
      FilterPairwise(Apart, Matching(q, eq), rows);
      assert Distinct(Matches(rows, q, eq));
      out := SelectBest(Matches(rows, q, eq), bounded);
      if out != [] {
        rows := Touch(rows, q.user, out, now);
      } else {
        TouchNothing(rows, q.user, now);
      }
    }
  }
}
