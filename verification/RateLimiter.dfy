/** The per-IP token bucket of crates/nagent-server/src/rate_limit.rs over the shared bucket map of
  crates/nagent-support/src/ratelimit.rs.

  Time is in nanoseconds.  A bucket of `cap` tokens that refills `cap` tokens a minute is kept in
  exact integers: one token is `MINUTE` units and every nanosecond refills `cap` units. */
module RateLimiter {

  /** Sixty seconds: the refill window, the idle threshold, and the units of one token. */
  const MINUTE: int := 60_000_000_000
  const NANOS_PER_MS: int := 1_000_000
  const SWEEP_EVERY: int := 1024
  const U64_MAX: nat := 0xFFFF_FFFF_FFFF_FFFF

  datatype Ip = V4(first: nat, rest: nat) | V6(addr: nat)

  predicate IsLoopback(ip: Ip) {
    match ip
    case V4(first, _) => first == 127
    case V6(addr) => addr == 1
  }

  datatype Bucket = Bucket(tokens: int, last: int)

  datatype Decision = Allow | Deny(retryAfterMs: nat)

  /** One call of `check`: the clock is read for the sweep and then again for the bucket. */
  datatype Visit = Visit(ip: Ip, sweptAt: int, now: int)

  datatype State = State(buckets: map<Ip, Bucket>, ops: nat)

  const EMPTY := State(map[], 0)

  // ---------------------------------------------------------------- one bucket

  predicate ValidBucket(b: Bucket, cap: nat) { 0 <= b.tokens <= cap * MINUTE }

  /** `saturating_duration_since` */
  function Elapsed(from: int, to: int): nat { if from < to then to - from else 0 }

  function Full(cap: nat, now: int): Bucket { Bucket(cap * MINUTE, now) }

  function Refilled(b: Bucket, cap: nat, now: int): int {
    var grown := b.tokens + Elapsed(b.last, now) * cap;
    if grown < cap * MINUTE then grown else cap * MINUTE
  }

  function Touch(b: Bucket, cap: nat, now: int): Bucket {
    var r := Refilled(b, cap, now);
    Bucket(if r >= MINUTE then r - MINUTE else r, now)
  }

  /** Units refilled per millisecond */
  function PerMs(cap: nat): (units: int)
    ensures cap > 0 ==> units > 0
  {
    cap * NANOS_PER_MS
  }

  lemma DivNonNegative(x: nat, d: int)
    requires d > 0
    ensures x / d >= 0
  {
  }

  function WaitMs(missing: nat, cap: nat): nat
    requires cap > 0
  {
    var unit := PerMs(cap);
    DivNonNegative(missing, unit);
    missing / unit
  }

  function Decide(b: Bucket, cap: nat, now: int): Decision {
    var r := Refilled(b, cap, now);
    if r >= MINUTE then Allow
    else if cap == 0 then Deny(U64_MAX)
    else Deny(WaitMs(MINUTE - r, cap))
  }

  lemma TouchValid(b: Bucket, cap: nat, now: int)
    requires ValidBucket(b, cap)
    ensures ValidBucket(Touch(b, cap, now), cap)
    ensures cap > 0 ==> Touch(b, cap, now).tokens < cap * MINUTE
    ensures Decide(b, cap, now).Allow? ==> Touch(b, cap, now).tokens == Refilled(b, cap, now) - MINUTE
    ensures cap == 0 ==> Decide(b, cap, now) == Deny(U64_MAX)
  {
    assert Elapsed(b.last, now) * cap >= 0;
    if cap > 0 {
      assert cap * MINUTE >= MINUTE;
    }
  }

  /** The same answer and the same bucket afterwards as for a full one. */
  predicate LikeFresh(b: Bucket, cap: nat, now: int) {
    && Touch(b, cap, now) == Touch(Full(cap, now), cap, now)
    && Decide(b, cap, now) == Decide(Full(cap, now), cap, now)
  }

  lemma ScaleStrict(a: int, b: int, cap: nat)
    requires a < b && cap > 0
    ensures a * cap < b * cap
  {
  }

  lemma Scale(a: int, b: int, cap: nat)
    requires a <= b
    ensures a * cap <= b * cap
  {
  }

  lemma IdleIsFull(b: Bucket, cap: nat, now: int)
    requires ValidBucket(b, cap) && now - b.last >= MINUTE
    ensures Refilled(b, cap, now) == Refilled(Full(cap, now), cap, now) == cap * MINUTE
  {
    Scale(MINUTE, Elapsed(b.last, now), cap);
  }

  /** A bucket left alone for `d` ns or more is indistinguishable from a freshly created one,
      exactly when `d` is at least the sixty seconds of the sweep. */
  lemma IdleWindowIsExact(cap: nat, d: int)
    requires cap > 0
    ensures (forall b, now :: ValidBucket(b, cap) && now - b.last >= d
                              ==> LikeFresh(b, cap, now))
            <==> d >= MINUTE
  {
    if d >= MINUTE {
      forall b, now | ValidBucket(b, cap) && now - b.last >= d
        ensures LikeFresh(b, cap, now)
      {
        IdleIsFull(b, cap, now);
      }
    } else {
      var dt := if d < 0 then 0 else d;
      var b := Bucket(0, -dt);
      assert dt * cap < MINUTE * cap by { ScaleStrict(dt, MINUTE, cap); }
      assert Refilled(b, cap, 0) == dt * cap;
      Scale(1, cap, MINUTE);
      assert Decide(Full(cap, 0), cap, 0).Allow?;
      assert ValidBucket(b, cap) && 0 - b.last >= d;
      assert !LikeFresh(b, cap, 0);
    }
  }

  /** The hint is the exact wait rounded down to milliseconds: one millisecond more always
      suffices, the hint itself suffices exactly when the wait is a whole number of milliseconds,
      and no shorter wait does. */
  lemma RetryHint(b: Bucket, cap: nat, now: int, wait: nat)
    requires ValidBucket(b, cap) && cap > 0 && Decide(b, cap, now).Deny?
    ensures var h := Decide(b, cap, now).retryAfterMs;
            var missing := MINUTE - Refilled(b, cap, now);
            var again := Decide(Touch(b, cap, now), cap, now + wait * NANOS_PER_MS);
            && (wait > h ==> again.Allow?)
            && (wait < h ==> again.Deny?)
            && (wait == h ==> (again.Allow? <==> missing % PerMs(cap) == 0))
  {
    var missing := MINUTE - Refilled(b, cap, now);
    var unit := PerMs(cap);
    var h := missing / unit;
    var b' := Touch(b, cap, now);
    var later := now + wait * NANOS_PER_MS;
    assert Elapsed(b'.last, later) == wait * NANOS_PER_MS;
    assert wait * NANOS_PER_MS * cap == wait * unit;
    Scale(1, cap, MINUTE);
    assert Decide(b', cap, later).Allow? <==> wait * unit >= missing;
    assert missing == h * unit + missing % unit;
    if wait > h {
      Scale(h + 1, wait, unit);
      assert (h + 1) * unit == h * unit + unit;
    } else if wait < h {
      ScaleStrict(wait, h, unit);
    }
  }

  // ---------------------------------------------------------------- the bucket map

  /** `sweep_idle` keeps what was touched recently or whose stored tokens are below capacity. */
  predicate Keeps(b: Bucket, cap: nat, now: int) {
    Elapsed(b.last, now) < MINUTE || b.tokens < cap * MINUTE
  }

  function Swept(buckets: map<Ip, Bucket>, cap: nat, now: int): map<Ip, Bucket> {
    map ip | ip in buckets && Keeps(buckets[ip], cap, now) :: buckets[ip]
  }

  /** `entry(key).or_insert_with(full)` */
  function BucketOf(buckets: map<Ip, Bucket>, cap: nat, ip: Ip, now: int): Bucket {
    if ip in buckets then buckets[ip] else Full(cap, now)
  }

  function Ticks(ops: nat): bool { ops % SWEEP_EVERY == SWEEP_EVERY - 1 }

  function BeforeVisit(s: State, cap: nat, v: Visit): map<Ip, Bucket> {
    if Ticks(s.ops) then Swept(s.buckets, cap, v.sweptAt) else s.buckets
  }

  function Check(s: State, cap: nat, v: Visit): State {
    if IsLoopback(v.ip) then s
    else
      var buckets := BeforeVisit(s, cap, v);
      State(buckets[v.ip := Touch(BucketOf(buckets, cap, v.ip, v.now), cap, v.now)], s.ops + 1)
  }

  function Answer(s: State, cap: nat, v: Visit): Decision {
    if IsLoopback(v.ip) then Allow
    else Decide(BucketOf(BeforeVisit(s, cap, v), cap, v.ip, v.now), cap, v.now)
  }

  function After(s: State, cap: nat, trace: seq<Visit>): State
    decreases |trace|
  {
    if trace == [] then s else After(Check(s, cap, trace[0]), cap, trace[1..])
  }

  function Answers(s: State, cap: nat, trace: seq<Visit>): (r: seq<Decision>)
    ensures |r| == |trace|
    decreases |trace|
  {
    if trace == [] then [] else [Answer(s, cap, trace[0])] + Answers(Check(s, cap, trace[0]), cap, trace[1..])
  }

  /** The limiter that never evicts. */
  function Keep(buckets: map<Ip, Bucket>, cap: nat, v: Visit): map<Ip, Bucket> {
    if IsLoopback(v.ip) then buckets
    else buckets[v.ip := Touch(BucketOf(buckets, cap, v.ip, v.now), cap, v.now)]
  }

  function KeepAnswer(buckets: map<Ip, Bucket>, cap: nat, v: Visit): Decision {
    if IsLoopback(v.ip) then Allow else Decide(BucketOf(buckets, cap, v.ip, v.now), cap, v.now)
  }

  function KeepAnswers(buckets: map<Ip, Bucket>, cap: nat, trace: seq<Visit>): (r: seq<Decision>)
    ensures |r| == |trace|
    decreases |trace|
  {
    if trace == [] then []
    else [KeepAnswer(buckets, cap, trace[0])] + KeepAnswers(Keep(buckets, cap, trace[0]), cap, trace[1..])
  }

  /** The whole of 127.0.0.0/8 and the IPv6 loopback address are let through without a trace, and
      nobody else is: any other visit is counted. */
  lemma LoopbackIsFreeExactly(s: State, cap: nat, v: Visit)
    ensures Check(s, cap, v) == s && Answer(s, cap, v) == Allow
            <==> (v.ip.V4? && v.ip.first == 127) || v.ip == V6(1)
  {
    assert Check(s, cap, v) == s ==> Check(s, cap, v).ops == s.ops;
  }

  /** The sweep gate opens exactly once in any 1024 consecutive counted calls. */
  lemma SweepsOncePerCycle(n: nat) returns (k: nat)
    ensures n <= k < n + 1024
    ensures forall j: nat | n <= j < n + 1024 :: Ticks(j) <==> j == k
  {
    k := n + 1023 - n % 1024;
    assert k % 1024 == 1023;
    forall j: nat | n <= j < n + 1024 && Ticks(j) ensures j == k {
      assert (j - k) % 1024 == 0;
    }
  }

  // ---------------------------------------------------------------- what the sweep does

  /** After any touch a bucket of positive capacity stores less than its capacity. */
  predicate Drained(buckets: map<Ip, Bucket>, cap: nat) {
    forall ip :: ip in buckets ==>
      ValidBucket(buckets[ip], cap) && (cap > 0 ==> buckets[ip].tokens < cap * MINUTE)
  }

  lemma DrainedStep(s: State, cap: nat, v: Visit)
    requires Drained(s.buckets, cap)
    ensures Drained(Check(s, cap, v).buckets, cap)
    ensures Drained(BeforeVisit(s, cap, v), cap)
  {
    if !IsLoopback(v.ip) {
      TouchValid(BucketOf(BeforeVisit(s, cap, v), cap, v.ip, v.now), cap, v.now);
    }
  }

  lemma {:induction false} DrainedRun(s: State, cap: nat, trace: seq<Visit>)
    requires Drained(s.buckets, cap)
    ensures Drained(After(s, cap, trace).buckets, cap)
    decreases |trace|
  {
    if trace != [] {
      DrainedStep(s, cap, trace[0]);
      DrainedRun(Check(s, cap, trace[0]), cap, trace[1..]);
    }
  }

  /** In every reachable state a sweep removes a bucket exactly when the budget is zero and the
      bucket idle: with a positive budget the stored tokens never return to capacity, so the
      documented eviction of idle buckets never happens. */
  lemma SweepRemovesExactly(cap: nat, trace: seq<Visit>, ip: Ip, now: int)
    requires ip in After(EMPTY, cap, trace).buckets
    ensures var buckets := After(EMPTY, cap, trace).buckets;
            ip !in Swept(buckets, cap, now) <==> cap == 0 && now - buckets[ip].last >= MINUTE
  {
    DrainedRun(EMPTY, cap, trace);
  }

  /** One visit, then a minute of silence: the bucket is idle and full again by any reckoning, and
      the sweep keeps it. */
  lemma IdleBucketSurvives(cap: nat, ip: Ip, now: int)
    requires cap > 0 && !IsLoopback(ip) && now >= MINUTE
    ensures var buckets := After(EMPTY, cap, [Visit(ip, 0, 0)]).buckets;
            && ip in buckets && now - buckets[ip].last >= MINUTE
            && Refilled(buckets[ip], cap, now) == cap * MINUTE
            && ip in Swept(buckets, cap, now)
  {
    var trace := [Visit(ip, 0, 0)];
    var s := Check(EMPTY, cap, trace[0]);
    assert After(EMPTY, cap, trace) == After(s, cap, []);
    TouchValid(Full(cap, 0), cap, 0);
    IdleIsFull(s.buckets[ip], cap, now);
  }

  predicate Visited(trace: seq<Visit>, ip: Ip) {
    !IsLoopback(ip) && exists i :: 0 <= i < |trace| && trace[i].ip == ip
  }

  /** So memory is not bounded by the sweep: with a positive budget the limiter keeps a bucket for
      every address it has ever counted, and for no other. */
  lemma {:induction false} KeepsAllVisitedExactly(s: State, cap: nat, trace: seq<Visit>, ip: Ip)
    requires cap > 0 && Drained(s.buckets, cap)
    ensures ip in After(s, cap, trace).buckets <==> ip in s.buckets || Visited(trace, ip)
    decreases |trace|
  {
    if trace != [] {
      var v, rest := trace[0], trace[1..];
      assert BeforeVisit(s, cap, v) == s.buckets;
      DrainedStep(s, cap, v);
      KeepsAllVisitedExactly(Check(s, cap, v), cap, rest, ip);
      assert trace == [v] + rest;
      assert Visited(trace, ip) <==> (!IsLoopback(ip) && v.ip == ip) || Visited(rest, ip) by {
        if i :| 0 <= i < |trace| && trace[i].ip == ip {
          assert i > 0 ==> rest[i - 1].ip == ip;
        }
        if i :| 0 <= i < |rest| && rest[i].ip == ip {
          assert trace[i + 1].ip == ip;
        }
      }
    }
  }

  /** A zero budget denies every visit that is not from loopback. */
  lemma {:induction false} BothStarve(s: State, kept: map<Ip, Bucket>, trace: seq<Visit>)
    requires Drained(s.buckets, 0) && Drained(kept, 0)
    ensures Answers(s, 0, trace) == KeepAnswers(kept, 0, trace)
    decreases |trace|
  {
    if trace != [] {
      var v := trace[0];
      DrainedStep(s, 0, v);
      DrainedStep(State(kept, 0), 0, v);
      if !IsLoopback(v.ip) {
        TouchValid(BucketOf(BeforeVisit(s, 0, v), 0, v.ip, v.now), 0, v.now);
        TouchValid(BucketOf(kept, 0, v.ip, v.now), 0, v.now);
      }
      BothStarve(Check(s, 0, v), Keep(kept, 0, v), trace[1..]);
    }
  }

  /** The code's sweep changes no answer, on any trace and in any order of clock readings. */
  lemma {:induction false} SweepInvisible(s: State, cap: nat, trace: seq<Visit>)
    requires Drained(s.buckets, cap)
    ensures Answers(s, cap, trace) == KeepAnswers(s.buckets, cap, trace)
    decreases |trace|
  {
    if cap == 0 {
      BothStarve(s, s.buckets, trace);
    } else if trace != [] {
      var v := trace[0];
      assert BeforeVisit(s, cap, v) == s.buckets;
      DrainedStep(s, cap, v);
      assert Check(s, cap, v).buckets == Keep(s.buckets, cap, v);
      SweepInvisible(Check(s, cap, v), cap, trace[1..]);
    }
  }

  // ---------------------------------------------------------------- the documented sweep

  /** A visit before which a sweep drops the given buckets. */
  datatype SweptVisit = SweptVisit(visit: Visit, dropped: set<Ip>)

  /** The documented contract: whatever a sweep drops has been idle for the whole refill window. */
  predicate DropsIdle(buckets: map<Ip, Bucket>, e: SweptVisit) {
    forall ip :: ip in e.dropped && ip in buckets ==> e.visit.sweptAt - buckets[ip].last >= MINUTE
  }

  function DropStep(buckets: map<Ip, Bucket>, cap: nat, e: SweptVisit): map<Ip, Bucket> {
    Keep(buckets - e.dropped, cap, e.visit)
  }

  function DropAnswers(buckets: map<Ip, Bucket>, cap: nat, trace: seq<SweptVisit>): (r: seq<Decision>)
    ensures |r| == |trace|
    decreases |trace|
  {
    if trace == [] then []
    else [KeepAnswer(buckets - trace[0].dropped, cap, trace[0].visit)]
         + DropAnswers(DropStep(buckets, cap, trace[0]), cap, trace[1..])
  }

  predicate AllDropIdle(buckets: map<Ip, Bucket>, cap: nat, trace: seq<SweptVisit>)
    decreases |trace|
  {
    trace == [] ||
    (DropsIdle(buckets, trace[0]) && AllDropIdle(DropStep(buckets, cap, trace[0]), cap, trace[1..]))
  }

  /** Clock readings from `t` on never go back. */
  predicate Ordered(t: int, trace: seq<SweptVisit>)
    decreases |trace|
  {
    trace == [] ||
    (t <= trace[0].visit.sweptAt <= trace[0].visit.now && Ordered(trace[0].visit.now, trace[1..]))
  }

  function Visits(trace: seq<SweptVisit>): (r: seq<Visit>)
    ensures |r| == |trace|
    decreases |trace|
  {
    if trace == [] then [] else [trace[0].visit] + Visits(trace[1..])
  }

  /** `some` lacks only buckets that have been idle long enough to be full again at time `t`. */
  predicate Shadows(some: map<Ip, Bucket>, kept: map<Ip, Bucket>, cap: nat, t: int) {
    && (forall ip :: ip in some ==> ip in kept && some[ip] == kept[ip])
    && (forall ip :: ip in kept ==> ValidBucket(kept[ip], cap) && kept[ip].last <= t)
    && (forall ip :: ip in kept && ip !in some ==> t - kept[ip].last >= MINUTE)
  }

  lemma ShadowStep(some: map<Ip, Bucket>, kept: map<Ip, Bucket>, cap: nat, t: int, e: SweptVisit)
    requires Shadows(some, kept, cap, t) && DropsIdle(some, e)
    requires t <= e.visit.sweptAt <= e.visit.now
    ensures KeepAnswer(some - e.dropped, cap, e.visit) == KeepAnswer(kept, cap, e.visit)
    ensures Shadows(DropStep(some, cap, e), Keep(kept, cap, e.visit), cap, e.visit.now)
  {
    var v := e.visit;
    var left := some - e.dropped;
    if !IsLoopback(v.ip) {
      if v.ip in kept && v.ip !in left {
        IdleIsFull(kept[v.ip], cap, v.now);
      }
      if v.ip in kept {
        TouchValid(kept[v.ip], cap, v.now);
      } else {
        TouchValid(Full(cap, v.now), cap, v.now);
      }
    }
  }

  /** Any sweep that keeps to the documented contract is invisible on every trace whose clock
      readings are in order. */
  lemma {:induction false} DocumentedSweepInvisible(
      some: map<Ip, Bucket>, kept: map<Ip, Bucket>, cap: nat, t: int, trace: seq<SweptVisit>)
    requires Shadows(some, kept, cap, t)
    requires Ordered(t, trace) && AllDropIdle(some, cap, trace)
    ensures DropAnswers(some, cap, trace) == KeepAnswers(kept, cap, Visits(trace))
    decreases |trace|
  {
    if trace != [] {
      ShadowStep(some, kept, cap, t, trace[0]);
      DocumentedSweepInvisible(DropStep(some, cap, trace[0]), Keep(kept, cap, trace[0].visit), cap,
                               trace[0].visit.now, trace[1..]);
      assert Visits(trace)[0] == trace[0].visit && Visits(trace)[1..] == Visits(trace[1..]);
    }
  }

  // ---------------------------------------------------------------- the rate bound

  function Admitted(ip: Ip, trace: seq<Visit>, answers: seq<Decision>): nat
    requires |trace| == |answers|
    decreases |trace|
  {
    if trace == [] then 0
    else (if trace[0].ip == ip && answers[0].Allow? then 1 else 0)
         + Admitted(ip, trace[1..], answers[1..])
  }

  /** How far the clock readings of `ip` move forward, starting from the reading `from`. */
  function Forward(ip: Ip, from: int, trace: seq<Visit>): nat
    decreases |trace|
  {
    if trace == [] then 0
    else if trace[0].ip == ip then Elapsed(from, trace[0].now) + Forward(ip, trace[0].now, trace[1..])
    else Forward(ip, from, trace[1..])
  }

  /** The forward motion counted from the first visit of `ip`. */
  function Span(ip: Ip, trace: seq<Visit>): nat
    decreases |trace|
  {
    if trace == [] then 0
    else if trace[0].ip == ip then Forward(ip, trace[0].now, trace[1..])
    else Span(ip, trace[1..])
  }

  /** Admissions are paid for by the tokens present and the refill since. */
  lemma {:induction false} TokensPay(buckets: map<Ip, Bucket>, cap: nat, ip: Ip, trace: seq<Visit>)
    requires ip in buckets && ValidBucket(buckets[ip], cap) && !IsLoopback(ip)
    ensures Admitted(ip, trace, KeepAnswers(buckets, cap, trace)) * MINUTE
            <= buckets[ip].tokens + cap * Forward(ip, buckets[ip].last, trace)
    decreases |trace|
  {
    if trace != [] {
      var v := trace[0];
      var next := Keep(buckets, cap, v);
      if v.ip == ip {
        TouchValid(buckets[ip], cap, v.now);
        var dt, rest := Elapsed(buckets[ip].last, v.now), Forward(ip, v.now, trace[1..]);
        assert cap * (dt + rest) == dt * cap + cap * rest;
      }
      TokensPay(next, cap, ip, trace[1..]);
      assert KeepAnswers(buckets, cap, trace)[1..] == KeepAnswers(next, cap, trace[1..]);
    }
  }

  lemma {:induction false} WindowPays(buckets: map<Ip, Bucket>, cap: nat, ip: Ip, trace: seq<Visit>)
    requires (ip in buckets ==> ValidBucket(buckets[ip], cap)) && !IsLoopback(ip)
    ensures Admitted(ip, trace, KeepAnswers(buckets, cap, trace)) * MINUTE
            <= cap * MINUTE + cap * Span(ip, trace)
    decreases |trace|
  {
    if trace != [] {
      var v := trace[0];
      var next := Keep(buckets, cap, v);
      assert KeepAnswers(buckets, cap, trace)[1..] == KeepAnswers(next, cap, trace[1..]);
      if v.ip == ip {
        TouchValid(BucketOf(buckets, cap, ip, v.now), cap, v.now);
        TokensPay(next, cap, ip, trace[1..]);
      } else {
        WindowPays(next, cap, ip, trace[1..]);
      }
    }
  }

  lemma {:induction false} AnswersSplit(s: State, cap: nat, a: seq<Visit>, b: seq<Visit>)
    ensures Answers(s, cap, a + b) == Answers(s, cap, a) + Answers(After(s, cap, a), cap, b)
    decreases |a|
  {
    if a == [] {
      assert a + b == b;
    } else {
      assert (a + b)[1..] == a[1..] + b;
      AnswersSplit(Check(s, cap, a[0]), cap, a[1..], b);
    }
  }

  /** Over any window of any run, whatever other addresses do and however the clock readings of
      concurrent calls interleave, an address is admitted at most its capacity plus the refill of
      the clock's forward motion. */
  lemma RateBound(cap: nat, before: seq<Visit>, window: seq<Visit>, ip: Ip)
    requires !IsLoopback(ip)
    ensures Answers(EMPTY, cap, before + window)[|before|..] == Answers(After(EMPTY, cap, before), cap, window)
    ensures Admitted(ip, window, Answers(After(EMPTY, cap, before), cap, window)) * MINUTE
            <= cap * MINUTE + cap * Span(ip, window)
  {
    AnswersSplit(EMPTY, cap, before, window);
    DrainedRun(EMPTY, cap, before);
    var s := After(EMPTY, cap, before);
    SweepInvisible(s, cap, window);
    WindowPays(s.buckets, cap, ip, window);
  }

  /** The readings of `ip` come in order and lie between `from` and `to`. */
  predicate InOrder(ip: Ip, from: int, to: int, trace: seq<Visit>)
    decreases |trace|
  {
    trace == [] ||
    (if trace[0].ip == ip then from <= trace[0].now <= to && InOrder(ip, trace[0].now, to, trace[1..])
     else InOrder(ip, from, to, trace[1..]))
  }

  lemma {:induction false} ForwardInOrder(ip: Ip, from: int, to: int, trace: seq<Visit>)
    requires from <= to && InOrder(ip, from, to, trace)
    ensures Forward(ip, from, trace) <= to - from
    ensures Span(ip, trace) <= to - from
    decreases |trace|
  {
    if trace != [] {
      ForwardInOrder(ip, if trace[0].ip == ip then trace[0].now else from, to, trace[1..]);
    }
  }

  lemma DivBound(x: int, y: int)
    requires x * MINUTE <= y
    ensures x <= y / MINUTE
  {
  }

  lemma BoundByTime(admitted: nat, cap: nat, span: nat, t: nat)
    requires admitted * MINUTE <= cap * MINUTE + cap * span && span <= t
    ensures admitted <= cap + t * cap / MINUTE
  {
    Scale(span, t, cap);
    assert (admitted - cap) * MINUTE <= t * cap;
    DivBound(admitted - cap, t * cap);
  }

  /** The limit as promised: in any `t` nanoseconds of ordered readings, at most
      `cap + t * cap / 60 s` admissions. */
  lemma RatePerWindow(cap: nat, before: seq<Visit>, window: seq<Visit>, ip: Ip, from: int, t: nat)
    requires !IsLoopback(ip) && InOrder(ip, from, from + t, window)
    ensures Admitted(ip, window, Answers(After(EMPTY, cap, before), cap, window)) <= cap + t * cap / MINUTE
  {
    RateBound(cap, before, window, ip);
    ForwardInOrder(ip, from, from + t, window);
    BoundByTime(Admitted(ip, window, Answers(After(EMPTY, cap, before), cap, window)), cap, Span(ip, window), t);
  }

  // ---------------------------------------------------------------- readings out of order

  const U32_MAX: nat := 0xFFFF_FFFF

  /** Two calls that read the clock one nanosecond apart and reach the bucket in turn, `s` times:
      the later reading first. */
  function Flicker(ip: Ip, s: nat): seq<Visit> {
    if s == 0 then [] else [Visit(ip, 1, 1), Visit(ip, 0, 0)] + Flicker(ip, s - 1)
  }

  /** `k` visits at time zero, then the flicker. */
  function Squeeze(ip: Ip, k: nat, s: nat): seq<Visit> {
    if k == 0 then Flicker(ip, s) else [Visit(ip, 0, 0)] + Squeeze(ip, k - 1, s)
  }

  /** All readings of `ip` lie between zero and `t`. */
  predicate Within(ip: Ip, t: nat, trace: seq<Visit>) {
    forall i :: 0 <= i < |trace| && trace[i].ip == ip ==> 0 <= trace[i].now <= t
  }

  lemma {:induction false} SqueezeShape(ip: Ip, k: nat, s: nat)
    ensures Within(ip, 1, Squeeze(ip, k, s))
    ensures Forward(ip, 0, Squeeze(ip, k, s)) == s
    decreases k, s
  {
    var trace := Squeeze(ip, k, s);
    if k > 0 {
      SqueezeShape(ip, k - 1, s);
      assert trace[1..] == Squeeze(ip, k - 1, s);
    } else if s > 0 {
      SqueezeShape(ip, 0, s - 1);
      assert trace[1..] == [Visit(ip, 0, 0)] + Flicker(ip, s - 1);
      assert trace[1..][1..] == Flicker(ip, s - 1);
    }
  }

  /** What one visit adds to the admissions of its address. */
  lemma AdmittedCons(buckets: map<Ip, Bucket>, cap: nat, v: Visit, rest: seq<Visit>)
    requires !IsLoopback(v.ip)
    ensures var b := BucketOf(buckets, cap, v.ip, v.now);
            Admitted(v.ip, [v] + rest, KeepAnswers(buckets, cap, [v] + rest))
            == (if Refilled(b, cap, v.now) >= MINUTE then 1 else 0)
               + Admitted(v.ip, rest, KeepAnswers(Keep(buckets, cap, v), cap, rest))
  {
    var trace := [v] + rest;
    assert trace[1..] == rest;
    assert KeepAnswers(buckets, cap, trace)[1..] == KeepAnswers(Keep(buckets, cap, v), cap, rest);
  }

  lemma Carry(x: nat)
    ensures (x + MINUTE) / MINUTE == x / MINUTE + 1
  {
  }

  /** A drained bucket one nanosecond later, and back at time zero. */
  lemma OneRound(b: Bucket, cap: nat)
    requires 0 < cap <= U32_MAX && b.last == 0 && 0 <= b.tokens < MINUTE
    ensures var high, r := Touch(b, cap, 1), b.tokens + cap;
            && Refilled(b, cap, 1) == r
            && high == Bucket(if r >= MINUTE then r - MINUTE else r, 1)
            && Refilled(high, cap, 0) == high.tokens < MINUTE
            && Touch(high, cap, 0) == Bucket(high.tokens, 0)
  {
    Scale(if cap == 1 then 1 else 2, cap, MINUTE);
  }

  lemma CarryRound(tokens: nat, cap: nat, s: nat)
    requires s > 0
    ensures (tokens + s * cap) / MINUTE
            == if tokens + cap >= MINUTE then 1 + (tokens + cap - MINUTE + (s - 1) * cap) / MINUTE
               else (tokens + cap + (s - 1) * cap) / MINUTE
  {
    assert s * cap == cap + (s - 1) * cap && (s - 1) * cap >= 0;
    if tokens + cap >= MINUTE {
      Carry(tokens + cap - MINUTE + (s - 1) * cap);
    }
  }

  /** Every round of the flicker is credited with the refill of one nanosecond. */
  lemma {:induction false} FlickerAdmits(buckets: map<Ip, Bucket>, cap: nat, ip: Ip, s: nat)
    requires 0 < cap <= U32_MAX && !IsLoopback(ip)
    requires ip in buckets && buckets[ip].last == 0 && 0 <= buckets[ip].tokens < MINUTE
    ensures Admitted(ip, Flicker(ip, s), KeepAnswers(buckets, cap, Flicker(ip, s)))
            == (buckets[ip].tokens + s * cap) / MINUTE
  {
    if s > 0 {
      var up, down, rest := Visit(ip, 1, 1), Visit(ip, 0, 0), Flicker(ip, s - 1);
      OneRound(buckets[ip], cap);
      var high := Keep(buckets, cap, up);
      var low := Keep(high, cap, down);
      AdmittedCons(buckets, cap, up, [down] + rest);
      AdmittedCons(high, cap, down, rest);
      assert Flicker(ip, s) == [up] + ([down] + rest);
      FlickerAdmits(low, cap, ip, s - 1);
      CarryRound(buckets[ip].tokens, cap, s);
    }
  }

  lemma {:induction false} SqueezeAdmits(buckets: map<Ip, Bucket>, cap: nat, ip: Ip, k: nat, s: nat)
    requires 0 < cap <= U32_MAX && !IsLoopback(ip) && k <= cap
    requires BucketOf(buckets, cap, ip, 0) == Bucket(k * MINUTE, 0) && (k == 0 ==> ip in buckets)
    ensures Admitted(ip, Squeeze(ip, k, s), KeepAnswers(buckets, cap, Squeeze(ip, k, s))) == k + s * cap / MINUTE
    decreases k
  {
    if k == 0 {
      FlickerAdmits(buckets, cap, ip, s);
    } else {
      var v, rest := Visit(ip, 0, 0), Squeeze(ip, k - 1, s);
      Scale(k, cap, MINUTE);
      assert Refilled(BucketOf(buckets, cap, ip, 0), cap, 0) == k * MINUTE;
      assert k * MINUTE - MINUTE == (k - 1) * MINUTE;
      AdmittedCons(buckets, cap, v, rest);
      SqueezeAdmits(Keep(buckets, cap, v), cap, ip, k - 1, s);
    }
  }

  /** The bound by forward motion is attained, however short the stretch of time the readings come
      from: the clock is read before the bucket is locked, so concurrent calls may go back and forth. */
  lemma RateBoundIsTight(cap: nat, ip: Ip, s: nat) returns (trace: seq<Visit>)
    requires 0 < cap <= U32_MAX && !IsLoopback(ip)
    ensures Within(ip, 1, trace) && Span(ip, trace) == s
    ensures Admitted(ip, trace, Answers(EMPTY, cap, trace)) == cap + s * cap / MINUTE
  {
    trace := Squeeze(ip, cap, s);
    SqueezeShape(ip, cap, s);
    SqueezeShape(ip, cap - 1, s);
    assert trace[1..] == Squeeze(ip, cap - 1, s);
    SqueezeAdmits(map[], cap, ip, cap, s);
    SweepInvisible(EMPTY, cap, trace);
  }

  /** The admissions of an address in a window of a run. */
  function AdmittedAfter(cap: nat, before: seq<Visit>, window: seq<Visit>, ip: Ip): nat {
    Admitted(ip, window, Answers(After(EMPTY, cap, before), cap, window))
  }

  /** The promised bound for a window of `t` nanoseconds, anywhere in a run, holds of all windows
      whose readings move forward by at most `s` in all, exactly when `s` refills no more tokens
      than `t`. */
  lemma WindowBoundExactly(cap: nat, ip: Ip, t: nat, s: nat)
    requires 0 < cap <= U32_MAX && !IsLoopback(ip) && t >= 1
    ensures (forall before, window :: Within(ip, t, window) && Span(ip, window) <= s
                                      ==> AdmittedAfter(cap, before, window, ip) <= cap + t * cap / MINUTE)
            <==> s * cap / MINUTE <= t * cap / MINUTE
  {
    if s * cap / MINUTE <= t * cap / MINUTE {
      forall before, window | Within(ip, t, window) && Span(ip, window) <= s
        ensures AdmittedAfter(cap, before, window, ip) <= cap + t * cap / MINUTE
      {
        RateBound(cap, before, window, ip);
        BoundByTime(AdmittedAfter(cap, before, window, ip), cap, Span(ip, window), s);
      }
    } else {
      var window := RateBoundIsTight(cap, ip, s);
      assert Within(ip, t, window) && Span(ip, window) <= s;
      assert After(EMPTY, cap, []) == EMPTY;
      assert AdmittedAfter(cap, [], window, ip) > cap + t * cap / MINUTE;
    }
  }

  // ---------------------------------------------------------------- the shared mutable form

  class Limiter {
    const cap: nat
    var buckets: map<Ip, Bucket>
    var ops: nat

    constructor (tokensPerMinute: nat)
      ensures Snapshot() == EMPTY && cap == tokensPerMinute
    {
      cap := tokensPerMinute;
      buckets, ops := map[], 0;
    }

    function Snapshot(): State
      reads this
    {
      State(buckets, ops)
    }

    method SweepIdle(now: int) returns (removed: int)
      modifies this`buckets
      ensures buckets == Swept(old(buckets), cap, now)
      ensures removed == |old(buckets)| - |buckets|
    {
      var before := |buckets|;
      var rest := buckets.Keys;
      while rest != {}
        invariant rest <= old(buckets).Keys
        invariant buckets == map ip | ip in old(buckets) && (ip in rest || Keeps(old(buckets)[ip], cap, now))
                             :: old(buckets)[ip]
        decreases |rest|
      {
        var ip :| ip in rest;
        if !Keeps(buckets[ip], cap, now) {
          buckets := buckets - {ip};
        }
        rest := rest - {ip};
      }
      removed := before - |buckets|;
    }

    method ShouldSweep() returns (sweep: bool)
      modifies this`ops
      ensures ops == old(ops) + 1 && sweep == Ticks(old(ops))
    {
      sweep := Ticks(ops);
      ops := ops + 1;
    }

    method TryConsume(ip: Ip, now: int) returns (decision: Decision)
      modifies this`buckets
      ensures decision == Decide(BucketOf(old(buckets), cap, ip, now), cap, now)
      ensures buckets == old(buckets)[ip := Touch(BucketOf(old(buckets), cap, ip, now), cap, now)]
    {
      if ip !in buckets {
        buckets := buckets[ip := Full(cap, now)];
      }
      var b := buckets[ip];
      decision := Decide(b, cap, now);
      buckets := buckets[ip := Touch(b, cap, now)];
    }

    method CheckIp(v: Visit) returns (decision: Decision)
      modifies this
      ensures Snapshot() == Check(old(Snapshot()), cap, v)
      ensures decision == Answer(old(Snapshot()), cap, v)
    {
      if IsLoopback(v.ip) {
        return Allow;
      }
      var sweep := ShouldSweep();
      if sweep {
        var _ := SweepIdle(v.sweptAt);
      }
      decision := TryConsume(v.ip, v.now);
    }
  }
}
