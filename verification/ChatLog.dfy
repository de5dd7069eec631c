/** The chat message repository of crates/nagent-db/src/chat_messages.rs.

  The table is a sequence of rows in insertion order with `id` as primary key.  Each repository
  call is one atomic step here; `ChatRuns` looks at runs and at the separate statements. */
module ChatLog {
  import opened Wrappers
  import opened Sorting

  type Uuid = nat

  datatype Row = Row(id: Uuid, session: Uuid, user: Uuid, role: string, content: string,
                     model: Option<string>, ts: int, ordinal: int, version: int)

  datatype Op =
    | Append(session: Uuid, id: Uuid, role: string, content: string, model: Option<string>, ts: int)
    | Edit(session: Uuid, id: Uuid, content: string, expected: int)
    | Delete(session: Uuid, id: Uuid)
    | TruncateAfter(session: Uuid, cutoff: int)
    | List(session: Uuid)
    | Get(session: Uuid, id: Uuid)
    | LastOrdinal(session: Uuid)

  datatype Outcome =
    | Record(row: Row)
    | Deleted
    | Removed(count: nat)
    | Rows(rows: seq<Row>)
    | Last(last: Option<(Uuid, int, string)>)
    | NotFound(id: Uuid, session: Uuid)
    | VersionMismatch(id: Uuid, expected: int, found: int)
    | BadRole(role: string)
    | DatabaseError        // the primary key refuses the insert

  // ---------------------------------------------------------------- the statements

  predicate KnownRole(role: string) { role == "user" || role == "assistant" || role == "system" }

  function Scoped(user: Uuid, session: Uuid): Row -> bool {
    (r: Row) => r.user == user && r.session == session
  }

  function Keyed(user: Uuid, session: Uuid, id: Uuid): Row -> bool {
    (r: Row) => r.user == user && r.session == session && r.id == id
  }

  function Not(p: Row -> bool): Row -> bool { (r: Row) => !p(r) }

  function Tail(user: Uuid, session: Uuid, cutoff: int): Row -> bool {
    (r: Row) => r.user == user && r.session == session && r.ordinal > cutoff
  }

  function Scope(t: seq<Row>, user: Uuid, session: Uuid): seq<Row> { Filter(Scoped(user, session), t) }

  /** `COALESCE(MAX(ordinal), 0)` */
  function MaxOrdinal(rows: seq<Row>): int {
    if rows == [] then 0
    else if |rows| == 1 then rows[0].ordinal
    else var m := MaxOrdinal(rows[1..]); if rows[0].ordinal > m then rows[0].ordinal else m
  }

  function NextOrdinal(t: seq<Row>, user: Uuid, session: Uuid): int { MaxOrdinal(Scope(t, user, session)) + 1 }

  predicate HasId(t: seq<Row>, id: Uuid) { exists i :: 0 <= i < |t| && t[i].id == id }

  /** `SELECT ... WHERE user_id, session_id, id` */
  function Find(t: seq<Row>, user: Uuid, session: Uuid, id: Uuid): Option<Row> {
    var found := Filter(Keyed(user, session, id), t);
    if found == [] then None else Some(found[0])
  }

  function Revised(r: Row, content: string): Row { r.(content := content, version := r.version + 1) }

  /** `UPDATE ... SET content, version = version + 1 WHERE user_id, session_id, id` */
  function Update(t: seq<Row>, user: Uuid, session: Uuid, id: Uuid, content: string): (t': seq<Row>)
    ensures |t'| == |t|
    ensures forall i :: 0 <= i < |t| ==>
              t'[i] == if Keyed(user, session, id)(t[i]) then Revised(t[i], content) else t[i]
  {
    if t == [] then []
    else [if Keyed(user, session, id)(t[0]) then Revised(t[0], content) else t[0]]
         + Update(t[1..], user, session, id, content)
  }

  predicate ByOrdinal(a: Row, b: Row) { a.ordinal < b.ordinal }

  function Listed(t: seq<Row>, user: Uuid, session: Uuid): seq<Row> {
    Sort(ByOrdinal, Scope(t, user, session))
  }

  function Fetch(t: seq<Row>, user: Uuid, session: Uuid, id: Uuid): Outcome {
    match Find(t, user, session, id)
    case Some(r) => Record(r)
    case None => NotFound(id, session)
  }

  /** `ORDER BY ordinal DESC LIMIT 1` */
  function Latest(t: seq<Row>, user: Uuid, session: Uuid): Option<(Uuid, int, string)> {
    var rows := Listed(t, user, session);
    if rows == [] then None
    else var r := rows[|rows| - 1]; Some((r.id, r.ordinal, r.role))
  }

  // ---------------------------------------------------------------- one call

  function Insert1(t: seq<Row>, user: Uuid, op: Op, ordinal: int): (seq<Row>, Outcome)
    requires op.Append?
  {
    if HasId(t, op.id) then (t, DatabaseError)
    else
      var r := Row(op.id, op.session, user, op.role, op.content, op.model, op.ts, ordinal, 1);
      (t + [r], Record(r))
  }

  /** What the first statement of `edit` already decides. */
  function EditCheck(t: seq<Row>, user: Uuid, op: Op): Option<Outcome>
    requires op.Edit?
  {
    match Find(t, user, op.session, op.id)
    case None => Some(NotFound(op.id, op.session))
    case Some(r) =>
      if r.version != op.expected then Some(VersionMismatch(op.id, op.expected, r.version)) else None
  }

  /** The second statement of `edit`. */
  function EditUpdate(t: seq<Row>, user: Uuid, op: Op): seq<Row>
    requires op.Edit?
  {
    Update(t, user, op.session, op.id, op.content)
  }

  /** The third statement: what the caller is told. */
  function EditReread(t: seq<Row>, user: Uuid, op: Op): Outcome
    requires op.Edit?
  {
    Fetch(t, user, op.session, op.id)
  }

  function EditCommit(t: seq<Row>, user: Uuid, op: Op): (seq<Row>, Outcome)
    requires op.Edit?
  {
    (EditUpdate(t, user, op), EditReread(EditUpdate(t, user, op), user, op))
  }

  function Apply(t: seq<Row>, user: Uuid, op: Op): (seq<Row>, Outcome) {
    match op
    case Append(session, _, role, _, _, _) =>
      if !KnownRole(role) then (t, BadRole(role))
      else Insert1(t, user, op, NextOrdinal(t, user, session))
    case Edit(_, _, _, _) =>
      (match EditCheck(t, user, op)
       case Some(refused) => (t, refused)
       case None => EditCommit(t, user, op))
    case Delete(session, id) =>
      var t' := Filter(Not(Keyed(user, session, id)), t);
      (t', if Filter(Keyed(user, session, id), t) == [] then NotFound(id, session) else Deleted)
    case TruncateAfter(session, cutoff) =>
      (Filter(Not(Tail(user, session, cutoff)), t), Removed(|Filter(Tail(user, session, cutoff), t)|))
    case List(session) => (t, Rows(Listed(t, user, session)))
    case Get(session, id) => (t, Fetch(t, user, session, id))
    case LastOrdinal(session) => (t, Last(Latest(t, user, session)))
  }

  // ---------------------------------------------------------------- the invariant

  /** Ids are unique, and within a conversation rows were inserted in ascending ordinal order. */
  predicate Apart(a: Row, b: Row) {
    a.id != b.id && (a.user == b.user && a.session == b.session ==> a.ordinal < b.ordinal)
  }

  predicate Sound(r: Row) { r.ordinal >= 1 && r.version >= 1 && KnownRole(r.role) }

  ghost predicate Inv(t: seq<Row>) {
    Pairwise(Apart, t) && forall r :: r in t ==> Sound(r)
  }

  lemma {:induction false} MaxIsBound(rows: seq<Row>, r: Row)
    requires r in rows
    ensures r.ordinal <= MaxOrdinal(rows)
    decreases |rows|
  {
    if |rows| > 1 && r != rows[0] {
      MaxIsBound(rows[1..], r);
    }
  }

  lemma {:induction false} MaxIsAttained(rows: seq<Row>)
    requires rows != []
    ensures exists r :: r in rows && r.ordinal == MaxOrdinal(rows)
    decreases |rows|
  {
    if |rows| == 1 {
      assert rows[0] in rows;
    } else {
      MaxIsAttained(rows[1..]);
      assert rows[0] in rows;
    }
  }

  lemma NextOrdinalFresh(t: seq<Row>, user: Uuid, session: Uuid)
    requires Inv(t)
    ensures NextOrdinal(t, user, session) >= 1
    ensures forall r :: r in t && r.user == user && r.session == session
              ==> r.ordinal < NextOrdinal(t, user, session)
  {
    var rows := Scope(t, user, session);
    forall r | r in t && r.user == user && r.session == session ensures r.ordinal <= MaxOrdinal(rows) {
      FilterMembers(Scoped(user, session), t, r);
      MaxIsBound(rows, r);
    }
    if rows != [] {
      FilterMembers(Scoped(user, session), t, rows[0]);
      MaxIsBound(rows, rows[0]);
    }
  }

  lemma FilterInv(p: Row -> bool, t: seq<Row>)
    requires Inv(t)
    ensures Inv(Filter(p, t))
  {
    FilterPairwise(Apart, p, t);
    forall r | r in Filter(p, t) ensures Sound(r) {
      FilterMembers(p, t, r);
    }
  }

  lemma InsertInv(t: seq<Row>, user: Uuid, op: Op)
    requires Inv(t) && op.Append? && KnownRole(op.role)
    ensures Inv(Insert1(t, user, op, NextOrdinal(t, user, op.session)).0)
  {
    NextOrdinalFresh(t, user, op.session);
    var t' := Insert1(t, user, op, NextOrdinal(t, user, op.session)).0;
    forall i, j | 0 <= i < j < |t'| ensures Apart(t'[i], t'[j]) {
      assert t'[i] in t;
    }
  }

  lemma UpdateInv(t: seq<Row>, user: Uuid, session: Uuid, id: Uuid, content: string)
    requires Inv(t)
    ensures Inv(Update(t, user, session, id, content))
  {
    var t' := Update(t, user, session, id, content);
    forall i, j | 0 <= i < j < |t'| ensures Apart(t'[i], t'[j]) {
      assert Apart(t[i], t[j]);
    }
    forall r | r in t' ensures Sound(r) {
      var i :| 0 <= i < |t'| && t'[i] == r;
      assert t[i] in t;
    }
  }

  lemma ApplyInv(t: seq<Row>, user: Uuid, op: Op)
    requires Inv(t)
    ensures Inv(Apply(t, user, op).0)
  {
    match op
    case Append(_, _, _, _, _, _) =>
      if KnownRole(op.role) {
        InsertInv(t, user, op);
      }
    case Edit(session, id, content, _) => UpdateInv(t, user, session, id, content);
    case Delete(session, id) => FilterInv(Not(Keyed(user, session, id)), t);
    case TruncateAfter(session, cutoff) => FilterInv(Not(Tail(user, session, cutoff)), t);
    case _ =>
  }

  // ---------------------------------------------------------------- what each call promises

  ghost predicate Ascending(rows: seq<Row>) {
    forall i, j :: 0 <= i < j < |rows| ==> rows[i].ordinal < rows[j].ordinal
  }

  lemma OrdinalIsOrder()
    ensures StrictWeak(ByOrdinal)
  {
  }

  lemma AscendingSortsToItself(rows: seq<Row>)
    requires Ascending(rows)
    ensures Sort(ByOrdinal, rows) == rows
  {
    OrdinalIsOrder();
    SortSorts(ByOrdinal, rows);
    assert Sorted(ByOrdinal, rows);
    SortedUnique(ByOrdinal, rows, Sort(ByOrdinal, rows));
  }

  /** In a sound table `list` is the conversation in insertion order, strictly ascending. */
  lemma ListedIsScope(t: seq<Row>, user: Uuid, session: Uuid)
    requires Inv(t)
    ensures Listed(t, user, session) == Scope(t, user, session)
    ensures Ascending(Listed(t, user, session))
  {
    var rows := Scope(t, user, session);
    FilterPairwise(Apart, Scoped(user, session), t);
    forall i, j | 0 <= i < j < |rows| ensures rows[i].ordinal < rows[j].ordinal {
      FilterMembers(Scoped(user, session), t, rows[i]);
      FilterMembers(Scoped(user, session), t, rows[j]);
      assert Apart(rows[i], rows[j]);
    }
    AscendingSortsToItself(rows);
  }

  /** `list` returns exactly the conversation's rows, in strictly ascending positive ordinals. */
  lemma ListExactly(t: seq<Row>, user: Uuid, session: Uuid)
    requires Inv(t)
    ensures Ascending(Listed(t, user, session))
    ensures forall r :: r in Listed(t, user, session) <==> r in t && r.user == user && r.session == session
    ensures forall r :: r in Listed(t, user, session) ==> r.ordinal >= 1
  {
    ListedIsScope(t, user, session);
    forall r ensures r in Listed(t, user, session) <==> r in t && r.user == user && r.session == session {
      FilterMembers(Scoped(user, session), t, r);
    }
  }

  lemma FilterOne(p: Row -> bool, r: Row)
    ensures Filter(p, [r]) == if p(r) then [r] else []
  {
    assert [r][1..] == [];
    assert Filter(p, [r]) == (if p(r) then [r] else []) + Filter(p, []);
  }

  lemma ListedAppend(t: seq<Row>, r: Row, user: Uuid, session: Uuid)
    requires Inv(t) && Inv(t + [r])
    ensures Listed(t + [r], user, session)
            == Listed(t, user, session) + (if Scoped(user, session)(r) then [r] else [])
  {
    ListedIsScope(t, user, session);
    ListedIsScope(t + [r], user, session);
    FilterAppend(Scoped(user, session), t, [r]);
    FilterOne(Scoped(user, session), r);
  }

  /** A successful append lands last in its conversation and leaves every other one alone. */
  lemma AppendLandsLast(t: seq<Row>, user: Uuid, op: Op, user': Uuid, session': Uuid)
    requires Inv(t) && op.Append? && Apply(t, user, op).1.Record?
    ensures var (t', out) := Apply(t, user, op);
            && Listed(t', user', session')
               == Listed(t, user', session') + (if user' == user && session' == op.session then [out.row] else [])
            && Latest(t', user, op.session) == Some((op.id, out.row.ordinal, op.role))
            && out.row.version == 1
  {
    var (t', out) := Apply(t, user, op);
    ApplyInv(t, user, op);
    assert t' == t + [out.row];
    ListedAppend(t, out.row, user', session');
    ListedAppend(t, out.row, user, op.session);
  }

  /** `LastOrdinal` returns the row with the greatest ordinal of the conversation. */
  lemma LatestIsGreatest(t: seq<Row>, user: Uuid, session: Uuid)
    requires Inv(t)
    ensures match Latest(t, user, session)
            case None => Scope(t, user, session) == []
            case Some((id, ordinal, role)) =>
              && (exists r :: r in Scope(t, user, session) && (r.id, r.ordinal, r.role) == (id, ordinal, role))
              && forall r :: r in Scope(t, user, session) ==> r.ordinal <= ordinal
  {
    ListedIsScope(t, user, session);
    var rows := Scope(t, user, session);
    if rows != [] {
      assert rows[|rows| - 1] in rows;
    }
  }

  lemma {:induction false} CutoffPoint(rows: seq<Row>, cutoff: int) returns (k: nat)
    requires Ascending(rows)
    ensures k <= |rows|
    ensures forall i :: 0 <= i < |rows| ==> (rows[i].ordinal <= cutoff <==> i < k)
    decreases |rows|
  {
    if rows == [] || rows[|rows| - 1].ordinal <= cutoff {
      k := |rows|;
    } else {
      k := CutoffPoint(rows[..|rows| - 1], cutoff);
    }
  }

  /** Of ascending rows a cutoff keeps a prefix and drops the rest. */
  lemma CutoffSplits(rows: seq<Row>, user: Uuid, session: Uuid, cutoff: int) returns (k: nat)
    requires Ascending(rows)
    requires forall r :: r in rows ==> r.user == user && r.session == session
    ensures k <= |rows|
    ensures Filter(Not(Tail(user, session, cutoff)), rows) == rows[..k]
    ensures |Filter(Tail(user, session, cutoff), rows)| == |rows| - k
    ensures forall i :: 0 <= i < |rows| ==> (rows[i].ordinal <= cutoff <==> i < k)
  {
    k := CutoffPoint(rows, cutoff);
    var keep, drop := Not(Tail(user, session, cutoff)), Tail(user, session, cutoff);
    assert rows == rows[..k] + rows[k..];
    forall r | r in rows[..k] ensures keep(r) && !drop(r) && r in rows {
    }
    forall r | r in rows[k..] ensures drop(r) && !keep(r) {
      assert r in rows;
    }
    FilterAppend(keep, rows[..k], rows[k..]);
    FilterAppend(drop, rows[..k], rows[k..]);
    FilterAll(keep, rows[..k]);
    FilterNone(keep, rows[k..]);
    FilterNone(drop, rows[..k]);
    FilterAll(drop, rows[k..]);
  }

  /** `truncate_after(c)` keeps exactly the prefix of the conversation with ordinals up to `c`,
      returns how many rows it removed, and touches no other conversation. */
  lemma TruncateKeepsPrefix(t: seq<Row>, user: Uuid, session: Uuid, cutoff: int) returns (k: nat)
    requires Inv(t)
    ensures var (t', out) := Apply(t, user, TruncateAfter(session, cutoff));
            var before := Listed(t, user, session);
            && k <= |before|
            && (forall i :: 0 <= i < |before| ==> (before[i].ordinal <= cutoff <==> i < k))
            && Listed(t', user, session) == before[..k]
            && out == Removed(|before| - k)
            && forall user', session' :: user' != user || session' != session
                 ==> Listed(t', user', session') == Listed(t, user', session')
  {
    var (t', out) := Apply(t, user, TruncateAfter(session, cutoff));
    ApplyInv(t, user, TruncateAfter(session, cutoff));
    ListedIsScope(t, user, session);
    ListedIsScope(t', user, session);
    var rows := Scope(t, user, session);
    forall r | r in rows ensures r.user == user && r.session == session {
      FilterMembers(Scoped(user, session), t, r);
    }
    k := CutoffSplits(rows, user, session, cutoff);
    FilterCommute(Scoped(user, session), Not(Tail(user, session, cutoff)), t);
    FilterStronger(Tail(user, session, cutoff), Scoped(user, session), t);
    forall user', session' | user' != user || session' != session
      ensures Listed(t', user', session') == Listed(t, user', session')
    {
      FilterStronger(Scoped(user', session'), Not(Tail(user, session, cutoff)), t);
    }
  }

  /** The primary key makes the selected row the only one. */
  lemma FoundOnce(t: seq<Row>, user: Uuid, session: Uuid, id: Uuid) returns (i: nat)
    requires Inv(t) && Find(t, user, session, id).Some?
    ensures i < |t| && Find(t, user, session, id) == Some(t[i])
    ensures forall j :: 0 <= j < |t| ==> (Keyed(user, session, id)(t[j]) <==> j == i)
  {
    var p := Keyed(user, session, id);
    var r := Filter(p, t)[0];
    FilterMembers(p, t, r);
    i :| 0 <= i < |t| && t[i] == r;
    forall j | 0 <= j < |t| && j != i ensures !p(t[j]) {
      assert Apart(t[if i < j then i else j], t[if i < j then j else i]);
    }
  }

  lemma FindOnly(t: seq<Row>, user: Uuid, session: Uuid, id: Uuid, i: nat)
    requires i < |t|
    requires forall j :: 0 <= j < |t| ==> (Keyed(user, session, id)(t[j]) <==> j == i)
    ensures Find(t, user, session, id) == Some(t[i])
  {
    var p := Keyed(user, session, id);
    FilterMembers(p, t, t[i]);
    FilterMembers(p, t, Filter(p, t)[0]);
  }

  /** A successful edit changes the content and bumps the version of its one row; a refused call
      changes nothing. */
  lemma EditTouchesOneRow(t: seq<Row>, user: Uuid, op: Op)
    requires Inv(t) && op.Edit?
    ensures var (t', out) := Apply(t, user, op);
            if out.Record? then
              exists i :: 0 <= i < |t| && t' == t[i := Revised(t[i], op.content)] && out.row == t'[i]
                          && Keyed(user, op.session, op.id)(t[i]) && t[i].version == op.expected
            else t' == t
  {
    if EditCheck(t, user, op).None? {
      var i := FoundOnce(t, user, op.session, op.id);
      var t' := Update(t, user, op.session, op.id, op.content);
      assert t' == t[i := Revised(t[i], op.content)];
      FindOnly(t', user, op.session, op.id, i);
    }
  }

  lemma {:induction false} FilterOut(p: Row -> bool, t: seq<Row>, i: nat)
    requires i < |t| && forall j :: 0 <= j < |t| ==> (p(t[j]) <==> j == i)
    ensures Filter(Not(p), t) == t[..i] + t[i + 1..]
    decreases |t|
  {
    var rest := t[1..];
    if i == 0 {
      forall r | r in rest ensures Not(p)(r) {
        var j :| 0 <= j < |rest| && rest[j] == r;
        assert t[j + 1] == r;
      }
      FilterAll(Not(p), rest);
    } else {
      forall j | 0 <= j < |rest| ensures p(rest[j]) <==> j == i - 1 {
        assert rest[j] == t[j + 1];
      }
      FilterOut(p, rest, i - 1);
      assert t[..i] == [t[0]] + rest[..i - 1];
    }
  }

  /** A successful delete removes its one row; a refused one changes nothing. */
  lemma DeleteRemovesOneRow(t: seq<Row>, user: Uuid, session: Uuid, id: Uuid)
    requires Inv(t)
    ensures var (t', out) := Apply(t, user, Delete(session, id));
            if out == Deleted then
              exists i :: 0 <= i < |t| && t' == t[..i] + t[i + 1..] && Keyed(user, session, id)(t[i])
            else out == NotFound(id, session) && t' == t && forall r :: r in t ==> !Keyed(user, session, id)(r)
  {
    if Find(t, user, session, id).Some? {
      var i := FoundOnce(t, user, session, id);
      FilterOut(Keyed(user, session, id), t, i);
    } else {
      forall r | r in t ensures !Keyed(user, session, id)(r) {
        FilterMembers(Keyed(user, session, id), t, r);
      }
      FilterAll(Not(Keyed(user, session, id)), t);
    }
  }

  // ---------------------------------------------------------------- the mutable form

  class ChatMessages {
    var rows: seq<Row>

    constructor ()
      ensures rows == []
    {
      rows := [];
    }

    method AppendMessage(user: Uuid, op: Op) returns (out: Outcome)
      requires op.Append?
      modifies this
      ensures (rows, out) == Apply(old(rows), user, op)
    {
      if op.role != "user" && op.role != "assistant" && op.role != "system" {
        return BadRole(op.role);
      }
      var next := NextOrdinal(rows, user, op.session);
      if HasId(rows, op.id) {
        return DatabaseError;
      }
      var r := Row(op.id, op.session, user, op.role, op.content, op.model, op.ts, next, 1);
      rows := rows + [r];
      out := Record(r);
    }

    method EditMessage(user: Uuid, op: Op) returns (out: Outcome)
      requires op.Edit?
      modifies this
      ensures (rows, out) == Apply(old(rows), user, op)
    {
      match Find(rows, user, op.session, op.id)
      case None => out := NotFound(op.id, op.session);
      case Some(r) =>
        if r.version != op.expected {
          return VersionMismatch(op.id, op.expected, r.version);
        }
        rows := Update(rows, user, op.session, op.id, op.content);
        out := Fetch(rows, user, op.session, op.id);
    }

    method DeleteMessage(user: Uuid, session: Uuid, id: Uuid) returns (out: Outcome)
      modifies this
      ensures (rows, out) == Apply(old(rows), user, Delete(session, id))
    {
      var affected := |Filter(Keyed(user, session, id), rows)|;
      rows := Filter(Not(Keyed(user, session, id)), rows);
      out := if affected == 0 then NotFound(id, session) else Deleted;
    }

    method Truncate(user: Uuid, session: Uuid, cutoff: int) returns (out: Outcome)
      modifies this
      ensures (rows, out) == Apply(old(rows), user, TruncateAfter(session, cutoff))
    {
      var affected := |Filter(Tail(user, session, cutoff), rows)|;
      rows := Filter(Not(Tail(user, session, cutoff)), rows);
      out := Removed(affected);
    }

    method Perform(user: Uuid, op: Op) returns (out: Outcome)
      modifies this
      ensures (rows, out) == Apply(old(rows), user, op)
    {
      match op
      case Append(_, _, _, _, _, _) => out := AppendMessage(user, op);
      case Edit(_, _, _, _) => out := EditMessage(user, op);
      case Delete(session, id) => out := DeleteMessage(user, session, id);
      case TruncateAfter(session, cutoff) => out := Truncate(user, session, cutoff);
      case List(session) => out := Rows(Listed(rows, user, session));
      case Get(session, id) => out := Fetch(rows, user, session, id);
      case LastOrdinal(session) => out := Last(Latest(rows, user, session));
    }
  }
}
