/** When the per-IP limiter denies, said of the clock readings and the admissions alone. */
module RateDenials {
  import opened RateLimiter

  // ---------------------------------------------------------------- bookkeeping over a window

  /** The last reading of an address, starting from the reading `from`. */
  function Last(ip: Ip, from: int, trace: seq<Visit>): int
    decreases |trace|
  {
    if trace == [] then from else Last(ip, if trace[0].ip == ip then trace[0].now else from, trace[1..])
  }

  lemma {:induction false} ForwardNext(ip: Ip, from: int, trace: seq<Visit>, v: Visit)
    ensures Forward(ip, from, trace + [v])
            == Forward(ip, from, trace) + if v.ip == ip then Elapsed(Last(ip, from, trace), v.now) else 0
    ensures Last(ip, from, trace + [v]) == if v.ip == ip then v.now else Last(ip, from, trace)
    decreases |trace|
  {
    if trace == [] {
      assert ([v])[1..] == [];
      assert [] + [v] == [v];
      assert Forward(ip, v.now, []) == 0 && Forward(ip, from, []) == 0;
    } else {
      assert (trace + [v])[1..] == trace[1..] + [v];
      ForwardNext(ip, if trace[0].ip == ip then trace[0].now else from, trace[1..], v);
    }
  }

  function Cost(d: Decision): nat { if d.Allow? then 1 else 0 }

  lemma {:induction false} AdmittedNext(ip: Ip, trace: seq<Visit>, answers: seq<Decision>, v: Visit, d: Decision)
    requires |trace| == |answers|
    ensures Admitted(ip, trace + [v], answers + [d])
            == Admitted(ip, trace, answers) + if v.ip == ip then Cost(d) else 0
    decreases |trace|
  {
    if trace == [] {
      assert [] + [v] == [v] && [] + [d] == [d];
      assert Admitted(ip, [v][1..], [d][1..]) == 0;
    } else {
      assert (trace + [v])[1..] == trace[1..] + [v] && (answers + [d])[1..] == answers[1..] + [d];
      AdmittedNext(ip, trace[1..], answers[1..], v, d);
    }
  }

  /** How far the clock moves forward for an address from its visit `i` to the visits before `n`. */
  function Motion(ip: Ip, trace: seq<Visit>, i: nat, n: nat): nat
    requires i < n <= |trace|
  {
    Forward(ip, trace[i].now, trace[i + 1..n])
  }

  /** Its admissions from visit `i` on and before visit `n`. */
  function Spent(ip: Ip, trace: seq<Visit>, answers: seq<Decision>, i: nat, n: nat): nat
    requires i <= n <= |trace| == |answers|
  {
    Admitted(ip, trace[i..n], answers[i..n])
  }

  /** What a bucket that was full at visit `i` would hold before visit `n`, had it never overflowed. */
  function Balance(cap: nat, ip: Ip, trace: seq<Visit>, answers: seq<Decision>, i: nat, n: nat): int
    requires i < n <= |trace| == |answers|
  {
    cap * MINUTE + cap * Motion(ip, trace, i, n) - Spent(ip, trace, answers, i, n) * MINUTE
  }

  lemma SpentNext(ip: Ip, trace: seq<Visit>, answers: seq<Decision>, i: nat, n: nat)
    requires i <= n < |trace| == |answers|
    ensures Spent(ip, trace, answers, i, n + 1)
            == Spent(ip, trace, answers, i, n) + if trace[n].ip == ip then Cost(answers[n]) else 0
  {
    assert trace[i..n + 1] == trace[i..n] + [trace[n]] && answers[i..n + 1] == answers[i..n] + [answers[n]];
    AdmittedNext(ip, trace[i..n], answers[i..n], trace[n], answers[n]);
  }

  function LastAt(ip: Ip, trace: seq<Visit>, i: nat, n: nat): int
    requires i < n <= |trace|
  {
    Last(ip, trace[i].now, trace[i + 1..n])
  }

  lemma MotionNext(ip: Ip, trace: seq<Visit>, i: nat, n: nat)
    requires i < n < |trace|
    ensures Motion(ip, trace, i, n + 1)
            == Motion(ip, trace, i, n) + if trace[n].ip == ip then Elapsed(LastAt(ip, trace, i, n), trace[n].now) else 0
    ensures LastAt(ip, trace, i, n + 1) == if trace[n].ip == ip then trace[n].now else LastAt(ip, trace, i, n)
  {
    assert trace[i + 1..n + 1] == trace[i + 1..n] + [trace[n]];
    ForwardNext(ip, trace[i].now, trace[i + 1..n], trace[n]);
  }

  lemma BalanceNext(cap: nat, ip: Ip, trace: seq<Visit>, answers: seq<Decision>, i: nat, n: nat)
    requires i < n < |trace| == |answers|
    ensures Balance(cap, ip, trace, answers, i, n + 1) == Balance(cap, ip, trace, answers, i, n)
              + if trace[n].ip == ip
                then cap * Elapsed(LastAt(ip, trace, i, n), trace[n].now) - Cost(answers[n]) * MINUTE
                else 0
  {
    MotionNext(ip, trace, i, n);
    SpentNext(ip, trace, answers, i, n);
    var m, e := Motion(ip, trace, i, n), Elapsed(LastAt(ip, trace, i, n), trace[n].now);
    assert cap * (m + e) == cap * m + cap * e;
  }

  lemma BalanceStart(cap: nat, ip: Ip, trace: seq<Visit>, answers: seq<Decision>, n: nat)
    requires n < |trace| == |answers| && trace[n].ip == ip
    ensures Balance(cap, ip, trace, answers, n, n + 1) == cap * MINUTE - Cost(answers[n]) * MINUTE
    ensures LastAt(ip, trace, n, n + 1) == trace[n].now
  {
    assert trace[n + 1..n + 1] == [];
    SpentNext(ip, trace, answers, n, n);
    assert Spent(ip, trace, answers, n, n) == 0;
  }

  // ---------------------------------------------------------------- the bucket is the least balance

  function KeepFrom(buckets: map<Ip, Bucket>, cap: nat, trace: seq<Visit>): map<Ip, Bucket>
    decreases |trace|
  {
    if trace == [] then buckets else KeepFrom(Keep(buckets, cap, trace[0]), cap, trace[1..])
  }

  lemma {:induction false} KeepNext(buckets: map<Ip, Bucket>, cap: nat, trace: seq<Visit>, v: Visit)
    ensures KeepFrom(buckets, cap, trace + [v]) == Keep(KeepFrom(buckets, cap, trace), cap, v)
    ensures KeepAnswers(buckets, cap, trace + [v])
            == KeepAnswers(buckets, cap, trace) + [KeepAnswer(KeepFrom(buckets, cap, trace), cap, v)]
    decreases |trace|
  {
    if trace == [] {
      assert [] + [v] == [v] && [v][1..] == [];
    } else {
      assert (trace + [v])[1..] == trace[1..] + [v];
      KeepNext(Keep(buckets, cap, trace[0]), cap, trace[1..], v);
    }
  }

  /** The buckets before visit `n`, in the limiter that never evicts. */
  function Kept(cap: nat, trace: seq<Visit>, n: nat): map<Ip, Bucket>
    requires n <= |trace|
  {
    KeepFrom(map[], cap, trace[..n])
  }

  lemma KeptNext(cap: nat, trace: seq<Visit>, n: nat)
    requires n < |trace|
    ensures Kept(cap, trace, n + 1) == Keep(Kept(cap, trace, n), cap, trace[n])
  {
    assert trace[..n + 1] == trace[..n] + [trace[n]];
    KeepNext(map[], cap, trace[..n], trace[n]);
  }

  lemma {:induction false} AnswerAt(cap: nat, trace: seq<Visit>, n: nat)
    requires n < |trace|
    ensures Answers(EMPTY, cap, trace)[n] == KeepAnswer(Kept(cap, trace, n), cap, trace[n])
    decreases |trace|
  {
    var front, v := trace[..|trace| - 1], trace[|trace| - 1];
    assert trace == front + [v];
    SweepInvisible(EMPTY, cap, trace);
    SweepInvisible(EMPTY, cap, front);
    KeepNext(map[], cap, front, v);
    if n < |front| {
      AnswerAt(cap, front, n);
      assert front[..n] == trace[..n];
    }
  }

  /** No balance since a visit is lower than what the bucket holds. */
  ghost predicate Below(b: Bucket, cap: nat, ip: Ip, trace: seq<Visit>, answers: seq<Decision>, n: nat)
    requires n <= |trace| == |answers|
  {
    forall i: nat :: i < n && trace[i].ip == ip ==>
      b.last == LastAt(ip, trace, i, n) && b.tokens <= Balance(cap, ip, trace, answers, i, n)
  }

  /** The bucket of an address holds the least of the balances since its visits; `m` is a visit since
      which it did not overflow, or `n` if there is none. */
  ghost predicate Tracks(cap: nat, ip: Ip, trace: seq<Visit>, answers: seq<Decision>, n: nat, m: nat)
    requires n <= |trace| == |answers|
  {
    var buckets := Kept(cap, trace, n);
    if m < n then
      && ip in buckets && ValidBucket(buckets[ip], cap)
      && Below(buckets[ip], cap, ip, trace, answers, n)
      && trace[m].ip == ip && buckets[ip].tokens == Balance(cap, ip, trace, answers, m, n)
    else
      ip !in buckets && forall i :: 0 <= i < n ==> trace[i].ip != ip
  }

  lemma TracksOther(cap: nat, ip: Ip, trace: seq<Visit>, answers: seq<Decision>, n: nat, m: nat)
    requires n < |trace| == |answers| && trace[n].ip != ip && m <= n && Tracks(cap, ip, trace, answers, n, m)
    ensures Tracks(cap, ip, trace, answers, n + 1, if m < n then m else n + 1)
  {
    KeptNext(cap, trace, n);
    forall i: nat | i < n && trace[i].ip == ip
      ensures Balance(cap, ip, trace, answers, i, n + 1) == Balance(cap, ip, trace, answers, i, n)
      ensures LastAt(ip, trace, i, n + 1) == LastAt(ip, trace, i, n)
    {
      BalanceNext(cap, ip, trace, answers, i, n);
      MotionNext(ip, trace, i, n);
    }
  }

  /** What a visit of the address finds: the least of capacity and the old balances refilled. */
  lemma VisitFinds(cap: nat, ip: Ip, trace: seq<Visit>, answers: seq<Decision>, n: nat, m: nat)
    requires n < |trace| == |answers| && trace[n].ip == ip && m < n && Tracks(cap, ip, trace, answers, n, m)
    ensures var b := Kept(cap, trace, n)[ip];
            var grown := b.tokens + cap * Elapsed(b.last, trace[n].now);
            && Refilled(b, cap, trace[n].now) == (if grown < cap * MINUTE then grown else cap * MINUTE)
            && Balance(cap, ip, trace, answers, m, n + 1) == grown - Cost(answers[n]) * MINUTE
            && forall i: nat :: i < n && trace[i].ip == ip ==>
                 Balance(cap, ip, trace, answers, i, n + 1) >= grown - Cost(answers[n]) * MINUTE
  {
    forall i: nat | i < n && trace[i].ip == ip
      ensures Balance(cap, ip, trace, answers, i, n + 1) == Balance(cap, ip, trace, answers, i, n)
              + cap * Elapsed(LastAt(ip, trace, i, n), trace[n].now) - Cost(answers[n]) * MINUTE
    {
      BalanceNext(cap, ip, trace, answers, i, n);
    }
  }

  lemma TracksOwn(cap: nat, ip: Ip, trace: seq<Visit>, answers: seq<Decision>, n: nat, m: nat) returns (m': nat)
    requires n < |trace| == |answers| && trace[n].ip == ip && !IsLoopback(ip)
    requires m <= n && Tracks(cap, ip, trace, answers, n, m)
    requires answers[n] == KeepAnswer(Kept(cap, trace, n), cap, trace[n])
    ensures m' <= n && Tracks(cap, ip, trace, answers, n + 1, m')
  {
    var buckets, v := Kept(cap, trace, n), trace[n];
    var b := BucketOf(buckets, cap, ip, v.now);
    KeptNext(cap, trace, n);
    BalanceStart(cap, ip, trace, answers, n);
    TouchValid(b, cap, v.now);
    m' := n;
    if m < n {
      VisitFinds(cap, ip, trace, answers, n, m);
      forall i: nat | i < n && trace[i].ip == ip ensures LastAt(ip, trace, i, n + 1) == v.now {
        MotionNext(ip, trace, i, n);
      }
      if b.tokens + cap * Elapsed(b.last, v.now) < cap * MINUTE {
        m' := m;
      }
    }
  }

  lemma {:induction false} BucketTracks(cap: nat, ip: Ip, trace: seq<Visit>, n: nat) returns (m: nat)
    requires n <= |trace| && !IsLoopback(ip)
    ensures m <= n && Tracks(cap, ip, trace, Answers(EMPTY, cap, trace), n, m)
    decreases n
  {
    if n == 0 {
      m := 0;
    } else {
      m := BucketTracks(cap, ip, trace, n - 1);
      if trace[n - 1].ip == ip {
        AnswerAt(cap, trace, n - 1);
        m := TracksOwn(cap, ip, trace, Answers(EMPTY, cap, trace), n - 1, m);
      } else {
        TracksOther(cap, ip, trace, Answers(EMPTY, cap, trace), n - 1, m);
        m := if m < n - 1 then m else n;
      }
    }
  }

  // ---------------------------------------------------------------- denials

  /** From visit `i` to visit `j` one more admission would be more than capacity and refill allow. */
  predicate Exhausted(cap: nat, ip: Ip, trace: seq<Visit>, answers: seq<Decision>, i: nat, j: nat)
    requires i <= j < |trace| == |answers|
  {
    (Spent(ip, trace, answers, i, j) + 1) * MINUTE > cap * MINUTE + cap * Motion(ip, trace, i, j + 1)
  }

  /** A visit is denied if and only if, counted from some visit of the same address up to it, one more
      admission would exceed the capacity and the refill since: every denial is justified, and
      everything the budget allows is admitted.  The refill follows the forward motion of the
      readings, whatever their order and whatever other addresses do. */
  lemma DenialExactly(cap: nat, trace: seq<Visit>, ip: Ip, j: nat)
    requires j < |trace| && trace[j].ip == ip && !IsLoopback(ip)
    ensures var answers := Answers(EMPTY, cap, trace);
            answers[j].Deny? <==>
              exists i: nat | i <= j :: trace[i].ip == ip && Exhausted(cap, ip, trace, answers, i, j)
  {
    var answers := Answers(EMPTY, cap, trace);
    var m := BucketTracks(cap, ip, trace, j);
    AnswerAt(cap, trace, j);
    BalanceStart(cap, ip, trace, answers, j);
    forall i: nat | i <= j && trace[i].ip == ip
      ensures Exhausted(cap, ip, trace, answers, i, j)
              <==> Balance(cap, ip, trace, answers, i, j + 1) + Cost(answers[j]) * MINUTE < MINUTE
    {
      SpentNext(ip, trace, answers, i, j);
    }
    if m < j {
      VisitFinds(cap, ip, trace, answers, j, m);
      assert Exhausted(cap, ip, trace, answers, m, j)
        <==> Balance(cap, ip, trace, answers, m, j + 1) + Cost(answers[j]) * MINUTE < MINUTE;
    }
    assert Exhausted(cap, ip, trace, answers, j, j)
      <==> Balance(cap, ip, trace, answers, j, j + 1) + Cost(answers[j]) * MINUTE < MINUTE;
  }

  /** The readings of an address come in order. */
  predicate InSequence(ip: Ip, trace: seq<Visit>) {
    forall a, b :: 0 <= a < b < |trace| && trace[a].ip == ip && trace[b].ip == ip ==> trace[a].now <= trace[b].now
  }

  lemma {:induction false} MotionInSequence(ip: Ip, trace: seq<Visit>, i: nat, n: nat)
    requires i < n <= |trace| && trace[i].ip == ip && InSequence(ip, trace)
    ensures Motion(ip, trace, i, n) == LastAt(ip, trace, i, n) - trace[i].now
    ensures exists k: nat | i <= k < n :: trace[k].ip == ip && LastAt(ip, trace, i, n) == trace[k].now
    ensures trace[n - 1].ip == ip ==> LastAt(ip, trace, i, n) == trace[n - 1].now
    decreases n
  {
    if n == i + 1 {
      assert trace[i + 1..n] == [];
    } else {
      MotionInSequence(ip, trace, i, n - 1);
      MotionNext(ip, trace, i, n - 1);
      var k: nat :| i <= k < n - 1 && trace[k].ip == ip && LastAt(ip, trace, i, n - 1) == trace[k].now;
      assert trace[n - 1].ip == ip ==> trace[k].now <= trace[n - 1].now;
    }
  }

  /** On readings in order: visit `j` is denied if and only if, for some visit `i` of the address up to
      it, the admissions since and one more exceed the capacity and the refill of the time between. */
  lemma DenialInSequence(cap: nat, trace: seq<Visit>, ip: Ip, j: nat)
    requires j < |trace| && trace[j].ip == ip && !IsLoopback(ip) && InSequence(ip, trace)
    ensures var answers := Answers(EMPTY, cap, trace);
            answers[j].Deny? <==>
              exists i: nat | i <= j ::
                trace[i].ip == ip
                && (Spent(ip, trace, answers, i, j) + 1 - cap) * 60_000_000_000 > cap * (trace[j].now - trace[i].now)
  {
    DenialExactly(cap, trace, ip, j);
    forall i: nat | i <= j && trace[i].ip == ip ensures Motion(ip, trace, i, j + 1) == trace[j].now - trace[i].now {
      MotionInSequence(ip, trace, i, j + 1);
    }
  }
}
