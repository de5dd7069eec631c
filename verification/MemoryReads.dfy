/** What a recall answers, over every run, said of the columns alone, and that what was stored is what
  is recalled. */
module MemoryReads {
  import opened Wrappers
  import opened Sets
  import opened Sorting
  import opened LikePattern
  import M = MemoryStore
  import opened MemoryRuns

  /** The row passes the query's filters. */
  predicate Selected(q: M.Query, eq: CharEq, r: M.Row) {
    && r.user == q.user
    && (q.subject.Some? ==> SameText(q.subject.value, r.req.subject, eq))
    && (q.pred.Some? ==> SameText(q.pred.value, r.req.pred, eq))
    && (q.tags.Some? ==> SameText(q.tags.value, r.req.tags, eq))
  }

  /** More confident rows first; among equally confident ones those used later, never used ones
      last; among those the newer. */
  predicate NotBehind(a: M.Row, b: M.Row) {
    && a.req.confidence >= b.req.confidence
    && (a.req.confidence == b.req.confidence && b.lastUsedAt.Some? ==>
          a.lastUsedAt.Some? && a.lastUsedAt.value >= b.lastUsedAt.value)
    && (a.req.confidence == b.req.confidence && a.lastUsedAt == b.lastUsedAt ==> a.createdAt >= b.createdAt)
  }

  lemma NotOutranked(a: M.Row, b: M.Row)
    ensures NotBehind(a, b) <==> !M.Outranks(b, a)
  {
  }

  lemma AllListed(all: seq<M.Row>, rows: seq<M.Row>)
    requires Distinct(all) && Distinct(rows) && |rows| == |all| && forall r :: r in rows ==> r in all
    ensures forall r :: r in all ==> r in rows
  {
    DistinctSize(all);
    DistinctSize(rows);
    Covers(Elements(rows), Elements(all));
    assert forall r :: r in all <==> r in Elements(all);
  }

  /** In every run a recall answers at most 64 rows and at most as many as asked for, all of them
      selected and distinct, in the documented order; a selected row is missing only if the answer is
      full, and then it is not ahead of any row in it. */
  lemma RecallAnswers(h: History, eq: CharEq, i: nat)
    requires IsRun(h, eq) && i < |h.ops| && h.ops[i].Recall?
    ensures h.outs[i].Recalled?
    ensures var t, q, limit, rows := h.tables[i], h.ops[i].query, h.ops[i].limit, h.outs[i].rows;
            && |rows| <= limit && |rows| <= 64 && Distinct(rows)
            && (forall r :: r in rows ==> r in t && Selected(q, eq, r))
            && (forall a, b :: 0 <= a < b < |rows| ==> NotBehind(rows[a], rows[b]))
            && (forall r :: r in t && Selected(q, eq, r) && r !in rows ==>
                  (|rows| == limit || |rows| == 64) && forall s :: s in rows ==> NotBehind(s, r))
  {
    assert Step(h.tables[i], h.ops[i], h.tables[i + 1], h.outs[i], eq);
    var t, q, rows := h.tables[i], h.ops[i].query, h.outs[i].rows;
    var all := M.Matches(t, q, eq);
    forall r ensures r in all <==> r in t && Selected(q, eq, r) {
      M.MatchingIsEquality(t, q, eq, r);
    }
    forall a, b | 0 <= a < b < |rows| ensures NotBehind(rows[a], rows[b]) {
      NotOutranked(rows[a], rows[b]);
    }
    forall s, r | s in rows && r in all && r !in rows ensures NotBehind(s, r) {
      NotOutranked(s, r);
    }
    RunInv(h, eq, i);
    FilterPairwise(M.Apart, M.Matching(q, eq), t);
    if |rows| < h.ops[i].limit && |rows| < 64 {
      AllListed(all, rows);
    }
  }

  lemma ExactText(s: string, t: string, eq: CharEq)
    requires (forall a, b :: eq(a, b) <==> a == b) && SameText(s, t, eq)
    ensures s == t
  {
    assert forall i :: 0 <= i < |s| ==> eq(s[i], t[i]);
  }

  lemma OneRow(rows: seq<M.Row>, r: M.Row)
    requires rows != [] && Distinct(rows) && forall s :: s in rows ==> s == r
    ensures rows == [r]
  {
    DistinctSize(rows);
    assert rows[0] in rows;
    assert Elements(rows) == {r};
  }

  lemma SameTextRefl(s: string, eq: CharEq)
    requires forall a, b :: eq(a, b) <==> a == b
    ensures SameText(s, s, eq)
  {
  }

  /** Recall what was stored: asked for its subject and predicate, the store answers exactly the row
      last stored there, under its id and with its payload, until it is forgotten or overwritten. */
  lemma StoredIsRecalled(h: History, eq: CharEq, i: nat, j: nat) returns (r: M.Row)
    requires IsRun(h, eq) && i < j < |h.ops| && h.ops[i].Store? && h.outs[i].Stored? && h.outs[i].id.Some?
    requires forall k :: i < k < j ==> !Forgets(h.ops[k], h.ops[i].user, h.outs[i].id.value)
                                       && !Overwrites(h.ops[k], h.ops[i].user, h.ops[i].req)
    requires forall a, b :: eq(a, b) <==> a == b
    requires h.ops[j].Recall? && h.ops[j].limit >= 1
    requires h.ops[j].query
             == M.Query(h.ops[i].user, Some(h.ops[i].req.subject), Some(h.ops[i].req.pred), None)
    ensures r.id == h.outs[i].id.value && r.user == h.ops[i].user && r.req == h.ops[i].req
    ensures h.outs[j] == Recalled([r])
  {
    var op, t := h.ops[i], h.tables[j];
    LastWriteWins(h, eq, i, j);
    r :| r in t && r.id == h.outs[i].id.value && r.user == op.user && r.req == op.req;
    RecallAnswers(h, eq, j);
    var rows := h.outs[j].rows;
    RunInv(h, eq, j);
    forall s | s in rows ensures s == r {
      ExactText(op.req.subject, s.req.subject, eq);
      ExactText(op.req.pred, s.req.pred, eq);
      var a: nat :| a < |t| && t[a] == s;
      var b: nat :| b < |t| && t[b] == r;
      SameTripleSameRow(t, a, b);
    }
    SameTextRefl(op.req.subject, eq);
    SameTextRefl(op.req.pred, eq);
    assert Selected(h.ops[j].query, eq, r);
    OneRow(rows, r);
  }
}
