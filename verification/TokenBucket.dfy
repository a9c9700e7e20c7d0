/**
 The per-address token bucket.

 Calls are serialised by the mutex around `allow`, so a run is a sequence of calls. Times are
 milliseconds. Redis answers every command, and drops a bucket one hour after its last write.
 The floating-point refill is taken as exact rational arithmetic.
 */
module TokenBucket {
  import opened Common

  datatype Config = Config(enabled: bool, rps: nat, rpm: nat, burst: nat)

  datatype Bucket = Bucket(tokens: nat, last: nat)

  /** `EXPIRE key 3600`, in milliseconds. */
  const BUCKET_TTL := 3_600_000

  predicate Limits(c: Config) { c.enabled && c.rps > 0 }

  function Min(a: int, b: int): int { if a <= b then a else b }

  function RealMin(a: real, b: real): real { if a <= b then a else b }

  /** What Redis still holds of a bucket at `now`. */
  function Kept(b: Option<Bucket>, now: nat): Option<Bucket> {
    if b.Some? && now < b.value.last + BUCKET_TTL then b else None
  }

  /** Tokens after the refill: the sum is capped, then the fraction is thrown away. */
  function Refilled(c: Config, b: Option<Bucket>, now: nat): int {
    var (tokens, last) := if b.Some? then (b.value.tokens, b.value.last) else (c.burst, now);
    var elapsed := if now >= last then now - last else 0;
    var refill := (elapsed as real / 1000.0) * c.rps as real;
    RealMin(tokens as real + refill, c.burst as real).Floor
  }

  lemma ProductOfReals(a: nat, b: nat)
    ensures (a as real / 1000.0) * b as real == (a * b) as real / 1000.0
  {
    assert (a * b) as real == a as real * b as real;
  }

  lemma FloorOfQuotient(t: nat, n: nat, cap: nat)
    ensures RealMin(t as real + n as real / 1000.0, cap as real).Floor == Min(t + n / 1000, cap)
  {
    var whole, part := n / 1000, n % 1000;
    assert n == 1000 * whole + part;
    var x := t as real + n as real / 1000.0;
    assert n as real == 1000.0 * whole as real + part as real;
    assert x == (t + whole) as real + part as real / 1000.0;
    assert x.Floor == t + whole;
  }

  /** The same, without reals. */
  lemma RefilledExactly(c: Config, b: Option<Bucket>, now: nat)
    ensures b.None? ==> Refilled(c, b, now) == c.burst
    ensures b.Some? && b.value.last <= now ==>
              Refilled(c, b, now) == Min(b.value.tokens + (now - b.value.last) * c.rps / 1000, c.burst)
    ensures 0 <= Refilled(c, b, now) <= c.burst
  {
    var (tokens, last) := if b.Some? then (b.value.tokens, b.value.last) else (c.burst, now);
    var elapsed := if now >= last then now - last else 0;
    ProductOfReals(elapsed, c.rps);
    FloorOfQuotient(tokens, elapsed * c.rps, c.burst);
  }

  predicate Admits(c: Config, tokens: int) { tokens >= 1 && (c.rpm > 0 ==> tokens <= c.rpm) }

  /** One call on a bucket that Redis still holds, or on none: the answer and the bucket written back. */
  function Take(c: Config, b: Option<Bucket>, now: nat): (r: (bool, Bucket)) {
    RefilledExactly(c, b, now);
    var tokens := Refilled(c, b, now);
    if Admits(c, tokens) then (true, Bucket(tokens - 1, now))
    else (false, Bucket(if c.rpm > 0 then Min(tokens, c.rpm) else tokens, now))
  }

  /** One call, with buckets dropped after an hour. */
  function Call(c: Config, b: Option<Bucket>, now: nat): (bool, Bucket) { Take(c, Kept(b, now), now) }

  // ---------------------------------------------------------------- runs of one address

  predicate NonDecreasing(ts: seq<nat>) {
    forall i, j | 0 <= i <= j < |ts| :: ts[i] <= ts[j]
  }

  /** Calls in order, between two instants. */
  predicate Within(ts: seq<nat>, from: nat, to: nat) {
    NonDecreasing(ts) && forall i | 0 <= i < |ts| :: from <= ts[i] <= to
  }

  lemma WithinCons(t: nat, ts: seq<nat>, from: nat, to: nat)
    requires from <= t <= to && Within(ts, t, to)
    ensures Within([t] + ts, from, to) && Within(ts, from, to)
  {
  }

  function Admitted(c: Config, b: Option<Bucket>, ts: seq<nat>): nat
    decreases |ts|
  {
    if ts == [] then 0
    else (if Call(c, b, ts[0]).0 then 1 else 0) + Admitted(c, Some(Call(c, b, ts[0]).1), ts[1..])
  }

  function After(c: Config, b: Option<Bucket>, ts: seq<nat>): Option<Bucket>
    decreases |ts|
  {
    if ts == [] then b else After(c, Some(Call(c, b, ts[0]).1), ts[1..])
  }

  /** Milliseconds from the first to the last call. */
  function Span(ts: seq<nat>): int {
    if ts == [] then 0 else ts[|ts| - 1] as int - ts[0] as int
  }

  /** An hour refills the whole bucket. */
  predicate HourFills(c: Config) { c.burst <= 3600 * c.rps }

  /** The per-minute setting never stands in the way of a full bucket. */
  predicate RpmIdle(c: Config) { c.rpm == 0 || c.burst <= c.rpm }

  /** The most that one instant can admit: a fuller bucket is denied and cut down to the per-minute setting. */
  function Cap(c: Config): nat { if c.rpm > 0 then Min(c.burst, c.rpm) else c.burst }

  /** An hour earns whatever one instant can admit. */
  predicate HourEarns(c: Config) { Cap(c) <= 3600 * c.rps }

  lemma MulMono(a: nat, b: nat, c: nat)
    requires a <= b
    ensures c * a <= c * b
  {
  }

  lemma HourRefill(c: Config, elapsed: nat)
    requires elapsed >= BUCKET_TTL
    ensures elapsed * c.rps >= 1000 * (3600 * c.rps) && elapsed * c.rps / 1000 >= 3600 * c.rps
  {
    MulMono(BUCKET_TTL, elapsed, c.rps);
  }

  /** A call pays for its answer out of what one instant can admit, and out of the refilled bucket. */
  lemma CallPays(c: Config, b: Option<Bucket>, now: nat)
    ensures var (ok, b1) := Call(c, b, now);
            var paid := (if ok then 1 else 0) + b1.tokens;
            b1.last == now && paid <= Cap(c) && paid <= Refilled(c, Kept(b, now), now)
  {
  }

  /** Tokens never appear faster than the rate, even when Redis drops the bucket. */
  lemma CallConserves(c: Config, b: Bucket, now: nat)
    requires b.last <= now && (HourEarns(c) || now - b.last < BUCKET_TTL)
    ensures var (ok, b1) := Call(c, Some(b), now);
            1000 * ((if ok then 1 else 0) + b1.tokens) <= 1000 * b.tokens + c.rps * (now - b.last)
  {
    CallPays(c, Some(b), now);
    RefilledExactly(c, Kept(Some(b), now), now);
    if now - b.last >= BUCKET_TTL { HourRefill(c, now - b.last); }
  }

  lemma Distribute(a: int, x: int, y: int, z: int)
    requires x + y == z
    ensures a * x + a * y == a * z
  {
  }

  /** Conservation: what a run admits was in the bucket at its start or was refilled since. */
  lemma {:induction false} AdmittedIsPaid(c: Config, b: Bucket, ts: seq<nat>)
    requires NonDecreasing(ts) && (ts != [] ==> b.last <= ts[0])
    requires HourEarns(c) || (ts != [] ==> ts[|ts| - 1] - b.last < BUCKET_TTL)
    ensures ts == [] ==> Admitted(c, Some(b), ts) == 0
    ensures ts != [] ==> 1000 * Admitted(c, Some(b), ts) <= 1000 * b.tokens + c.rps * (ts[|ts| - 1] - b.last)
    decreases |ts|
  {
    if ts != [] {
      var b1 := Call(c, Some(b), ts[0]).1;
      CallConserves(c, b, ts[0]);
      AdmittedIsPaid(c, b1, ts[1..]);
      Distribute(c.rps, ts[0] - b.last, ts[|ts| - 1] - ts[0], ts[|ts| - 1] - b.last);
    }
  }

  /**
   From any bucket, or from none: at most one instant's worth, and the rate over the run. Within an
   hour no bucket is dropped, so this needs nothing of the configuration.
   */
  lemma RunBound(c: Config, b: Option<Bucket>, ts: seq<nat>)
    requires NonDecreasing(ts) && (HourEarns(c) || Span(ts) < BUCKET_TTL)
    ensures 1000 * Admitted(c, b, ts) <= 1000 * Cap(c) + c.rps * Span(ts)
  {
    if ts != [] {
      CallPays(c, b, ts[0]);
      AdmittedIsPaid(c, Call(c, b, ts[0]).1, ts[1..]);
    }
  }

  /**
   In every run and every window of it, at most a bucketful plus the rate times the length of the
   window is admitted, although idle buckets are dropped.
   */
  lemma WindowBound(c: Config, ts: seq<nat>, i: nat, j: nat)
    requires HourEarns(c) && NonDecreasing(ts) && i < j <= |ts|
    ensures var admitted := Admitted(c, After(c, None, ts[..i]), ts[i..j]);
            && 1000 * admitted <= 1000 * Cap(c) + c.rps * (ts[j - 1] - ts[i])
            && 1000 * admitted <= 1000 * c.burst + c.rps * (ts[j - 1] - ts[i])
  {
    RunBound(c, After(c, None, ts[..i]), ts[i..j]);
  }

  function Repeat(t: nat, n: nat): seq<nat> { seq(n, _ => t) }

  /** One call at `t` on a bucket with tokens left takes exactly one. */
  lemma TakeOne(c: Config, b: Option<Bucket>, t: nat)
    requires Admits(c, Refilled(c, Kept(b, t), t))
    ensures var k := Refilled(c, Kept(b, t), t);
            && Call(c, b, t) == (true, Bucket(k - 1, t))
            && Refilled(c, Kept(Some(Bucket(k - 1, t)), t), t) == k - 1
  {
  }

  /** A bucket with `n` tokens left at `t` admits `n` calls at that instant. */
  lemma {:induction false} Drain(c: Config, b: Option<Bucket>, t: nat, n: nat, more: seq<nat>)
    requires n <= Refilled(c, Kept(b, t), t) && (c.rpm > 0 ==> Refilled(c, Kept(b, t), t) <= c.rpm)
    ensures Admitted(c, b, Repeat(t, n) + more) == n + Admitted(c, After(c, b, Repeat(t, n)), more)
    ensures After(c, b, Repeat(t, n)) == if n == 0 then b else Some(Bucket(Refilled(c, Kept(b, t), t) - n, t))
    decreases n
  {
    if n == 0 {
      assert Repeat(t, n) + more == more;
    } else {
      TakeOne(c, b, t);
      assert (Repeat(t, n) + more)[1..] == Repeat(t, n - 1) + more;
      assert Repeat(t, n)[1..] == Repeat(t, n - 1);
      Drain(c, Some(Call(c, b, t).1), t, n - 1, more);
    }
  }

  /** Calls at one instant that use up a fresh bucket, the denied first call included if there is one. */
  function Burst(c: Config, t: nat): seq<nat> { [t] + Repeat(t, Call(c, None, t).1.tokens) }

  /** The first call on a fresh bucket leaves the rest of what one instant can admit. */
  lemma FreshCall(c: Config, t: nat)
    ensures var (ok, b) := Call(c, None, t);
            && (if ok then 1 else 0) + b.tokens == Cap(c) && b.last == t
            && Refilled(c, Kept(Some(b), t), t) == b.tokens && (c.rpm > 0 ==> b.tokens <= c.rpm)
  {
  }

  /** A fresh bucket admits all that one instant can. */
  lemma BurstAdmitsCap(c: Config, b: Option<Bucket>, t: nat, more: seq<nat>)
    requires Kept(b, t).None?
    ensures Admitted(c, b, Burst(c, t) + more) == Cap(c) + Admitted(c, Some(Bucket(0, t)), more)
    ensures After(c, b, Burst(c, t)) == Some(Bucket(0, t))
  {
    FreshCall(c, t);
    var b1 := Call(c, None, t).1;
    assert (Burst(c, t) + more)[1..] == Repeat(t, b1.tokens) + more;
    assert Burst(c, t)[1..] == Repeat(t, b1.tokens);
    Drain(c, Some(b1), t, b1.tokens, more);
  }

  lemma BurstInOrder(c: Config, t: nat, more: seq<nat>)
    requires NonDecreasing(more) && forall i | 0 <= i < |more| :: t <= more[i]
    ensures NonDecreasing(Burst(c, t) + more)
    ensures Span(Burst(c, t) + more) == if more == [] then 0 else more[|more| - 1] - t
  {
  }

  // ---------------------------------------------------------------- dropping idle buckets

  /** One call, with idle buckets dropped or kept for ever. */
  function Answer(c: Config, drop: bool, b: Option<Bucket>, now: nat): (bool, Bucket) {
    if drop then Call(c, b, now) else Take(c, b, now)
  }

  function Outcomes(c: Config, drop: bool, b: Option<Bucket>, ts: seq<nat>): seq<bool>
    decreases |ts|
  {
    if ts == [] then []
    else [Answer(c, drop, b, ts[0]).0] + Outcomes(c, drop, Some(Answer(c, drop, b, ts[0]).1), ts[1..])
  }

  function Count(oks: seq<bool>): nat {
    if oks == [] then 0 else (if oks[0] then 1 else 0) + Count(oks[1..])
  }

  lemma {:induction false} CountIsAdmitted(c: Config, b: Option<Bucket>, ts: seq<nat>)
    ensures Count(Outcomes(c, true, b, ts)) == Admitted(c, b, ts)
    decreases |ts|
  {
    if ts != [] {
      CountIsAdmitted(c, Some(Call(c, b, ts[0]).1), ts[1..]);
      assert Outcomes(c, true, b, ts)[1..] == Outcomes(c, true, Some(Call(c, b, ts[0]).1), ts[1..]);
    }
  }

  lemma ConsSplit(a: bool, x: seq<bool>, y: seq<bool>)
    ensures [a] + (x + y) == [a] + x + y
  {
  }

  lemma ConcatSame(p: seq<bool>, x: seq<bool>, q: seq<bool>, y: seq<bool>)
    requires |p| == |q|
    ensures p + x == q + y <==> p == q && x == y
  {
    assert x == (p + x)[|p|..] && y == (q + y)[|p|..];
    assert p == (p + x)[..|p|] && q == (q + y)[..|p|];
  }

  /** No run tells whether idle buckets are dropped or kept. */
  ghost predicate Invisible(c: Config) {
    forall ts: seq<nat> | NonDecreasing(ts) :: Outcomes(c, true, None, ts) == Outcomes(c, false, None, ts)
  }

  /** An hour fills the bucket, or lifts even an empty one over the per-minute setting: either way a call is denied. */
  predicate HourSettles(c: Config) { HourFills(c) || 0 < c.rpm < 3600 * c.rps }

  lemma SameAnswer(c: Config, drop: bool, b: Option<Bucket>, now: nat)
    requires b.Some? ==> b.value.last <= now && (HourSettles(c) || now - b.value.last < BUCKET_TTL)
    ensures Answer(c, drop, b, now) == Call(c, b, now) && Call(c, b, now).1.last == now
  {
    RefilledExactly(c, None, now);
    RefilledExactly(c, b, now);
    if b.Some? && now - b.value.last >= BUCKET_TTL { HourRefill(c, now - b.value.last); }
  }

  /** The bucket is no later than the run, and no gap of the run outlasts it unless an hour settles that. */
  predicate Follows(c: Config, b: Option<Bucket>, ts: seq<nat>) {
    && NonDecreasing(ts)
    && (b.Some? && ts != [] ==> b.value.last <= ts[0])
    && (HourSettles(c) || (ts != [] ==> ts[|ts| - 1] - (if b.Some? then b.value.last else ts[0]) < BUCKET_TTL))
  }

  lemma FollowsNext(c: Config, b: Option<Bucket>, ts: seq<nat>, b1: Bucket)
    requires Follows(c, b, ts) && ts != [] && b1.last == ts[0]
    ensures Follows(c, Some(b1), ts[1..])
    ensures b.Some? ==> b.value.last <= ts[0] && (HourSettles(c) || ts[0] - b.value.last < BUCKET_TTL)
  {
  }

  /**
   A run without a telling gap goes the same way whether buckets are dropped or kept, and leaves the
   same bucket to the calls after it.
   */
  lemma {:induction false} OutcomesSplit(c: Config, drop: bool, b: Option<Bucket>, xs: seq<nat>, ys: seq<nat>)
    requires Follows(c, b, xs)
    ensures Outcomes(c, drop, b, xs + ys) == Outcomes(c, true, b, xs) + Outcomes(c, drop, After(c, b, xs), ys)
    decreases |xs|
  {
    if xs == [] {
      assert xs + ys == ys;
    } else {
      var b1 := Call(c, b, xs[0]).1;
      CallPays(c, b, xs[0]);
      FollowsNext(c, b, xs, b1);
      SameAnswer(c, drop, b, xs[0]);
      assert (xs + ys)[1..] == xs[1..] + ys;
      OutcomesSplit(c, drop, Some(b1), xs[1..], ys);
      ConsSplit(Call(c, b, xs[0]).0, Outcomes(c, true, Some(b1), xs[1..]), Outcomes(c, drop, After(c, b, xs), ys));
    }
  }

  lemma SameOutcomes(c: Config, b: Option<Bucket>, ts: seq<nat>)
    requires Follows(c, b, ts)
    ensures Outcomes(c, false, b, ts) == Outcomes(c, true, b, ts)
  {
    OutcomesSplit(c, false, b, ts, []);
    assert ts + [] == ts;
  }

  lemma OutcomesStep(c: Config, drop: bool, b: Option<Bucket>, t: nat, ts: seq<nat>)
    ensures Outcomes(c, drop, b, [t] + ts) == [Answer(c, drop, b, t).0] + Outcomes(c, drop, Some(Answer(c, drop, b, t).1), ts)
  {
    assert ([t] + ts)[1..] == ts;
  }

  /** An emptied bucket, an hour later: dropped, it is full; kept, it holds an hour's refill. */
  lemma AfterAnHour(c: Config)
    requires Limits(c) && !HourSettles(c)
    ensures var h, b, k := BUCKET_TTL, Some(Bucket(0, 0)), 3600 * c.rps;
            && Take(c, b, h) == (true, Bucket(k - 1, h))
            && Call(c, b, h).0 == RpmIdle(c)
            && (RpmIdle(c) ==> Call(c, b, h).1 == Bucket(c.burst - 1, h))
  {
    RefilledExactly(c, None, BUCKET_TTL);
    RefilledExactly(c, Some(Bucket(0, 0)), BUCKET_TTL);
    assert BUCKET_TTL * c.rps / 1000 == 3600 * c.rps;
  }

  /** One instant admits no more than the bucket holds. */
  lemma {:induction false} InstantBound(c: Config, t: nat, few: nat, n: nat)
    ensures Admitted(c, Some(Bucket(few, t)), Repeat(t, n)) <= few
    decreases n
  {
    if n > 0 {
      var (ok, b1) := Call(c, Some(Bucket(few, t)), t);
      CallPays(c, Some(Bucket(few, t)), t);
      RefilledExactly(c, Some(Bucket(few, t)), t);
      InstantBound(c, t, b1.tokens, n - 1);
      assert Repeat(t, n)[1..] == Repeat(t, n - 1);
    }
  }

  /** Two buckets that hold different amounts are told apart at one instant. */
  lemma BucketsDiffer(c: Config, t: nat, few: nat, many: nat)
    requires RpmIdle(c) && few < many <= c.burst
    ensures Outcomes(c, true, Some(Bucket(many, t)), Repeat(t, many)) != Outcomes(c, false, Some(Bucket(few, t)), Repeat(t, many))
  {
    var ts := Repeat(t, many);
    assert ts + [] == ts;
    RefilledExactly(c, Some(Bucket(many, t)), t);
    Drain(c, Some(Bucket(many, t)), t, many, []);
    CountIsAdmitted(c, Some(Bucket(many, t)), ts);
    SameOutcomes(c, Some(Bucket(few, t)), ts);
    CountIsAdmitted(c, Some(Bucket(few, t)), ts);
    InstantBound(c, t, few, many);
  }

  /** If an hour settles nothing, an emptied bucket left for an hour tells the two apart. */
  lemma HourTells(c: Config) returns (ys: seq<nat>)
    requires Limits(c) && !HourSettles(c)
    ensures forall i | 0 <= i < |ys| :: ys[i] == BUCKET_TTL
    ensures Outcomes(c, true, Some(Bucket(0, 0)), ys) != Outcomes(c, false, Some(Bucket(0, 0)), ys)
  {
    var h, b := BUCKET_TTL, Some(Bucket(0, 0));
    AfterAnHour(c);
    if RpmIdle(c) {
      var more := Repeat(h, c.burst - 1);
      ys := [h] + more;
      BucketsDiffer(c, h, 3600 * c.rps - 1, c.burst - 1);
      OneCallTells(c, b, h, more);
    } else {
      ys := [h] + [];
      OneCallTells(c, b, h, []);
    }
  }

  lemma OneCallTells(c: Config, b: Option<Bucket>, t: nat, more: seq<nat>)
    requires var (ok, b1) := Call(c, b, t);
             var (ok', b1') := Take(c, b, t);
             ok != ok' || Outcomes(c, true, Some(b1), more) != Outcomes(c, false, Some(b1'), more)
    ensures Outcomes(c, true, b, [t] + more) != Outcomes(c, false, b, [t] + more)
  {
    OutcomesStep(c, true, b, t, more);
    OutcomesStep(c, false, b, t, more);
    var (ok, b1) := Call(c, b, t);
    var (ok', b1') := Take(c, b, t);
    ConcatSame([ok], Outcomes(c, true, Some(b1), more), [ok'], Outcomes(c, false, Some(b1'), more));
  }

  /** The run that tells: a burst, an hour, and the same again. */
  lemma SomeRunTells(c: Config) returns (ts: seq<nat>)
    requires Limits(c) && !HourSettles(c)
    ensures NonDecreasing(ts) && Outcomes(c, true, None, ts) != Outcomes(c, false, None, ts)
  {
    var ys := HourTells(c);
    var first := Burst(c, 0);
    ts := first + ys;
    BurstInOrder(c, 0, []);
    assert first + [] == first;
    BurstInOrder(c, 0, ys);
    BurstAdmitsCap(c, None, 0, ys);
    OutcomesSplit(c, true, None, first, ys);
    OutcomesSplit(c, false, None, first, ys);
    var end, start := Some(Bucket(0, 0)), Outcomes(c, true, None, first);
    ConcatSame(start, Outcomes(c, true, end, ys), start, Outcomes(c, false, end, ys));
  }

  /** Dropping idle buckets is indistinguishable from keeping them exactly when an hour settles them. */
  lemma DroppingIsInvisible(c: Config)
    requires Limits(c)
    ensures Invisible(c) <==> HourSettles(c)
  {
    if HourSettles(c) {
      forall ts: seq<nat> | NonDecreasing(ts) ensures Outcomes(c, true, None, ts) == Outcomes(c, false, None, ts) {
        SameOutcomes(c, None, ts);
      }
    } else {
      var ts := SomeRunTells(c);
      assert NonDecreasing(ts);
    }
  }

  ghost predicate AlwaysBounded(c: Config) {
    forall ts: seq<nat> | NonDecreasing(ts) :: 1000 * Admitted(c, None, ts) <= 1000 * Cap(c) + c.rps * Span(ts)
  }

  /** The bound is exact: if an hour does not earn it, two bursts an hour apart exceed it. */
  lemma BoundIffHourEarns(c: Config)
    ensures AlwaysBounded(c) <==> HourEarns(c)
    ensures HourFills(c) ==> HourEarns(c)
  {
    if HourEarns(c) {
      forall ts: seq<nat> | NonDecreasing(ts)
        ensures 1000 * Admitted(c, None, ts) <= 1000 * Cap(c) + c.rps * Span(ts)
      {
        RunBound(c, None, ts);
      }
    } else {
      var ts := TwoBursts(c);
      assert NonDecreasing(ts);
    }
  }

  lemma TwoBursts(c: Config) returns (ts: seq<nat>)
    requires !HourEarns(c)
    ensures NonDecreasing(ts) && 1000 * Admitted(c, None, ts) > 1000 * Cap(c) + c.rps * Span(ts)
  {
    var first, second := Burst(c, 0), Burst(c, BUCKET_TTL);
    ts := first + second;
    BurstAdmitsCap(c, None, 0, second);
    BurstAdmitsCap(c, Some(Bucket(0, 0)), BUCKET_TTL, []);
    assert second + [] == second;
    BurstInOrder(c, BUCKET_TTL, []);
    BurstInOrder(c, 0, second);
    assert c.rps * BUCKET_TTL == 1000 * (3600 * c.rps);
  }

  // ---------------------------------------------------------------- the liveness threshold

  /** From an empty bucket, a call is admitted exactly when the gap earns a whole token, or the bucket is gone. */
  lemma EmptyBucketThreshold(c: Config, last: nat, now: nat)
    requires RpmIdle(c) && c.burst >= 1 && last <= now
    ensures var (ok, b) := Call(c, Some(Bucket(0, last)), now);
            && (ok <==> (now - last) * c.rps >= 1000 || now - last >= BUCKET_TTL)
            && (!ok ==> b == Bucket(0, now))
  {
  }

  /** Whatever the bucket holds, a gap that earns a whole token is enough. */
  lemma PatientCallIsAdmitted(c: Config, b: Bucket, now: nat)
    requires RpmIdle(c) && c.burst >= 1 && b.last <= now && (now - b.last) * c.rps >= 1000
    ensures Call(c, Some(b), now).0
  {
  }

  /** Every gap of the run, the one before it included, is too short to earn a token. */
  predicate Impatient(c: Config, last: nat, ts: seq<nat>)
    decreases |ts|
  {
    ts == [] ||
    (last <= ts[0] && (ts[0] - last) * c.rps < 1000 && ts[0] - last < BUCKET_TTL && Impatient(c, ts[0], ts[1..]))
  }

  predicate Patient(c: Config, last: nat, ts: seq<nat>)
    decreases |ts|
  {
    ts == [] || (last <= ts[0] && (ts[0] - last) * c.rps >= 1000 && Patient(c, ts[0], ts[1..]))
  }

  /** An impatient caller is starved for ever: each denial throws the fraction away. */
  lemma {:induction false} ImpatientIsStarved(c: Config, last: nat, ts: seq<nat>)
    requires RpmIdle(c) && c.burst >= 1 && Impatient(c, last, ts)
    ensures Admitted(c, Some(Bucket(0, last)), ts) == 0
    decreases |ts|
  {
    if ts != [] {
      EmptyBucketThreshold(c, last, ts[0]);
      ImpatientIsStarved(c, ts[0], ts[1..]);
    }
  }

  /** A patient caller is never denied. */
  lemma {:induction false} PatientIsServed(c: Config, b: Bucket, ts: seq<nat>)
    requires RpmIdle(c) && c.burst >= 1 && Patient(c, b.last, ts)
    ensures Admitted(c, Some(b), ts) == |ts|
    decreases |ts|
  {
    if ts != [] {
      PatientCallIsAdmitted(c, b, ts[0]);
      PatientIsServed(c, Call(c, Some(b), ts[0]).1, ts[1..]);
    }
  }

  // ---------------------------------------------------------------- the most a window can admit

  /** What a gap earns: the refill is floored, and never more than the bucket. */
  function Earn(c: Config, gap: nat): nat { Min(gap * c.rps / 1000, c.burst) }

  /** The most that gaps adding up to `n` milliseconds can earn, however they are cut. */
  function Best(c: Config, n: nat): nat
    decreases n, n + 1
  {
    BestUpTo(c, n, n)
  }

  /** The same with a first gap of at most `g`. */
  function BestUpTo(c: Config, n: nat, g: nat): nat
    requires g <= n
    decreases n, g
  {
    if g == 0 then 0
    else
      var cut, other := Earn(c, g) + Best(c, n - g), BestUpTo(c, n, g - 1);
      if cut >= other then cut else other
  }

  lemma {:induction false} BestUpToIsMax(c: Config, n: nat, g: nat, k: nat)
    requires 1 <= k <= g <= n
    ensures Earn(c, k) + Best(c, n - k) <= BestUpTo(c, n, g)
    decreases g
  {
    if k < g { BestUpToIsMax(c, n, g - 1, k); }
  }

  /** No first gap does better. */
  lemma BestIsMax(c: Config, n: nat, k: nat)
    requires k <= n
    ensures Earn(c, k) + Best(c, n - k) <= Best(c, n)
  {
    if k > 0 { BestUpToIsMax(c, n, n, k); }
  }

  /** Some first gap does as well. */
  lemma {:induction false} BestIsCut(c: Config, n: nat, g: nat) returns (k: nat)
    requires g <= n && BestUpTo(c, n, g) > 0
    ensures 1 <= k <= n && BestUpTo(c, n, g) == Earn(c, k) + Best(c, n - k)
    decreases g
  {
    if BestUpTo(c, n, g) == Earn(c, g) + Best(c, n - g) { k := g; } else { k := BestIsCut(c, n, g - 1); }
  }

  /** A call pays out of the bucket and of what the gap before it earned. */
  lemma GapPays(c: Config, b: Bucket, now: nat)
    requires 0 <= now - b.last < BUCKET_TTL
    ensures var (ok, b1) := Call(c, Some(b), now);
            b1.last == now && (if ok then 1 else 0) + b1.tokens <= b.tokens + Earn(c, now - b.last)
  {
    CallPays(c, Some(b), now);
    RefilledExactly(c, Some(b), now);
  }

  /** A run from a bucket admits at most what the bucket held and the best that its time can earn. */
  lemma {:induction false} AdmittedWithinBest(c: Config, b: Bucket, ts: seq<nat>, n: nat)
    requires Within(ts, b.last, b.last + n) && n < BUCKET_TTL
    ensures Admitted(c, Some(b), ts) <= b.tokens + Best(c, n)
    decreases |ts|
  {
    if ts != [] {
      var gap := ts[0] - b.last;
      GapPays(c, b, ts[0]);
      AdmittedWithinBest(c, Call(c, Some(b), ts[0]).1, ts[1..], n - gap);
      BestIsMax(c, n, gap);
    }
  }

  lemma WindowWithinBest(c: Config, b: Option<Bucket>, ts: seq<nat>, n: nat)
    requires NonDecreasing(ts) && Span(ts) <= n < BUCKET_TTL
    ensures Admitted(c, b, ts) <= Cap(c) + Best(c, n)
  {
    if ts != [] {
      CallPays(c, b, ts[0]);
      AdmittedWithinBest(c, Call(c, b, ts[0]).1, ts[1..], n);
    }
  }

  lemma GapRefill(c: Config, t: nat, gap: nat)
    requires gap < BUCKET_TTL
    ensures Refilled(c, Kept(Some(Bucket(0, t)), t + gap), t + gap) == Earn(c, gap)
  {
    RefilledExactly(c, Some(Bucket(0, t)), t + gap);
  }

  lemma NothingEarned(c: Config, t: nat, gap: nat, more: seq<nat>)
    requires gap < BUCKET_TTL && Earn(c, gap) == 0
    ensures Admitted(c, Some(Bucket(0, t)), [t + gap] + more) == Admitted(c, Some(Bucket(0, t + gap)), more)
  {
    GapRefill(c, t, gap);
    assert ([t + gap] + more)[1..] == more;
  }

  /** Calls that use up what a gap earned, one more, which is denied, and then others. */
  function AfterGap(c: Config, t: nat, gap: nat, more: seq<nat>): seq<nat> {
    Repeat(t + gap, Earn(c, gap)) + ([t + gap] + more)
  }

  lemma GapServed(c: Config, t: nat, gap: nat, more: seq<nat>)
    requires RpmIdle(c) && gap < BUCKET_TTL
    ensures Admitted(c, Some(Bucket(0, t)), AfterGap(c, t, gap, more)) ==
            Earn(c, gap) + Admitted(c, Some(Bucket(0, t + gap)), more)
  {
    GapRefill(c, t, gap);
    Drain(c, Some(Bucket(0, t)), t + gap, Earn(c, gap), [t + gap] + more);
    NothingEarned(c, t + gap, 0, more);
    if Earn(c, gap) == 0 { NothingEarned(c, t, gap, more); }
  }

  lemma GapInOrder(c: Config, t: nat, gap: nat, more: seq<nat>, to: nat)
    requires Within(more, t + gap, to) && t + gap <= to
    ensures Within(AfterGap(c, t, gap, more), t, to)
  {
  }

  /** From an empty bucket, some run earns the best. */
  lemma {:induction false} BestIsReached(c: Config, t: nat, n: nat) returns (ts: seq<nat>)
    requires RpmIdle(c) && n < BUCKET_TTL
    ensures Within(ts, t, t + n) && Admitted(c, Some(Bucket(0, t)), ts) == Best(c, n)
    decreases n
  {
    if Best(c, n) == 0 {
      ts := [];
    } else {
      var gap := BestIsCut(c, n, n);
      var more := BestIsReached(c, t + gap, n - gap);
      GapServed(c, t, gap, more);
      GapInOrder(c, t, gap, more, t + n);
      ts := AfterGap(c, t, gap, more);
    }
  }

  /** No window of any run that is at most `n` long admits more than `m`. */
  ghost predicate AtMost(c: Config, n: nat, m: nat) {
    forall ts: seq<nat>, i: nat, j: nat | NonDecreasing(ts) && i < j <= |ts| && ts[j - 1] - ts[i] <= n ::
      Admitted(c, After(c, None, ts[..i]), ts[i..j]) <= m
  }

  /** A run from the start is one of its windows. */
  lemma AtMostOnRun(c: Config, n: nat, m: nat, ts: seq<nat>)
    requires AtMost(c, n, m) && NonDecreasing(ts) && Span(ts) <= n
    ensures Admitted(c, None, ts) <= m
  {
    if ts != [] { assert ts[..0] == [] && ts[0..|ts|] == ts; }
  }

  lemma BestBounds(c: Config, n: nat, m: nat)
    requires n < BUCKET_TTL && Cap(c) + Best(c, n) <= m
    ensures AtMost(c, n, m)
  {
    forall ts: seq<nat>, i: nat, j: nat | NonDecreasing(ts) && i < j <= |ts| && ts[j - 1] - ts[i] <= n
      ensures Admitted(c, After(c, None, ts[..i]), ts[i..j]) <= m
    {
      WindowWithinBest(c, After(c, None, ts[..i]), ts[i..j], n);
    }
  }

  /** A burst, then the best of the rest of the window. */
  lemma BurstThenBest(c: Config, n: nat) returns (ts: seq<nat>)
    requires RpmIdle(c) && n < BUCKET_TTL
    ensures NonDecreasing(ts) && Span(ts) <= n && Admitted(c, None, ts) == c.burst + Best(c, n)
  {
    var more := BestIsReached(c, 0, n);
    ts := Burst(c, 0) + more;
    BurstInOrder(c, 0, more);
    BurstAdmitsCap(c, None, 0, more);
  }

  /** The most that any window of any run admits, for every length under an hour. */
  lemma WindowMaximum(c: Config, n: nat, m: nat)
    requires RpmIdle(c) && n < BUCKET_TTL
    ensures AtMost(c, n, m) <==> c.burst + Best(c, n) <= m
  {
    if c.burst + Best(c, n) <= m {
      BestBounds(c, n, m);
    } else if AtMost(c, n, m) {
      var ts := BurstThenBest(c, n);
      AtMostOnRun(c, n, m, ts);
    }
  }

  lemma {:induction false} BestIsPaid(c: Config, n: nat, g: nat)
    requires g <= n
    ensures 1000 * BestUpTo(c, n, g) <= c.rps * n && BestUpTo(c, n, g) <= c.burst * n
    decreases n, g
  {
    MulMono(0, n, c.rps);
    if g > 0 {
      BestIsPaid(c, n, g - 1);
      BestIsPaid(c, n - g, n - g);
      Distribute(c.rps, g, n - g, n);
      Distribute(c.burst, g, n - g, n);
      MulMono(1, g, c.burst);
    }
  }

  lemma {:induction false} BestOfSeconds(c: Config, n: nat)
    ensures Best(c, 1000 * n) >= Earn(c, 1000) * n
    decreases n
  {
    if n > 0 {
      BestOfSeconds(c, n - 1);
      BestIsMax(c, 1000 * n, 1000);
      Distribute(Earn(c, 1000), n - 1, 1, n);
    }
  }

  lemma CancelThousand(x: int, a: int, n: int)
    requires 1000 * x <= a * (1000 * n)
    ensures x <= a * n
  {
    assert a * (1000 * n) == 1000 * (a * n);
  }

  /** The best in closed form: exact for a bucket that holds a second's refill, and bounds for any other. */
  lemma BestInClosedForm(c: Config, n: nat)
    ensures Min(c.rps, c.burst) * n <= Best(c, 1000 * n) <= c.rps * n
    ensures c.burst == 0 ==> Best(c, 1000 * n) == 0
  {
    var best := Best(c, 1000 * n);
    assert best >= Earn(c, 1000) * n by { BestOfSeconds(c, n); }
    assert 1000 * best <= c.rps * (1000 * n) && best <= c.burst * (1000 * n) by { BestIsPaid(c, 1000 * n, 1000 * n); }
    CancelThousand(best, c.rps, n);
  }

  // ---------------------------------------------------------------- the per-minute setting

  const MINUTE := 60_000

  /** What the documentation says of the per-minute setting: no minute of any run admits more. */
  ghost predicate Ceiling(c: Config) { AtMost(c, MINUTE, c.rpm) }

  lemma OneMore(c: Config)
    requires Limits(c) && 0 < c.rpm < c.burst
    ensures Admitted(c, Some(Bucket(0, 0)), [1000] + [1000]) >= 1
  {
  }

  /** A bucket deeper than the setting: one denial cuts it down, and the next second brings one more. */
  lemma CutDownThenOneMore(c: Config) returns (ts: seq<nat>)
    requires Limits(c) && 0 < c.rpm < c.burst
    ensures NonDecreasing(ts) && Span(ts) <= MINUTE && Admitted(c, None, ts) > c.rpm
  {
    var more: seq<nat> := [1000] + [1000];
    ts := Burst(c, 0) + more;
    BurstInOrder(c, 0, more);
    BurstAdmitsCap(c, None, 0, more);
    OneMore(c);
  }

  /**
   The per-minute setting is not the ceiling it is documented to be. It is one exactly when it
   leaves room for the bucket and for the best that a minute can earn.
   */
  lemma CeilingIffSlowEnough(c: Config)
    requires Limits(c) && c.rpm > 0
    ensures Ceiling(c) <==> c.burst + Best(c, MINUTE) <= c.rpm
  {
    if RpmIdle(c) {
      WindowMaximum(c, MINUTE, c.rpm);
    } else if Ceiling(c) {
      var ts := CutDownThenOneMore(c);
      AtMostOnRun(c, MINUTE, c.rpm, ts);
    }
  }

  /**
   In closed form, when the bucket holds a second's refill or nothing. Otherwise the setting is a
   ceiling if bucket and refill fit under it, and only if the bucket fits with one bucketful a
   second. The defaults (10 a second, 600 a minute, 20 in the bucket) do not fit.
   */
  lemma CeilingInClosedForm(c: Config)
    requires Limits(c) && c.rpm > 0
    ensures c.rps <= c.burst ==> (Ceiling(c) <==> c.burst + 60 * c.rps <= c.rpm)
    ensures c.burst == 0 || c.burst + 60 * c.rps <= c.rpm ==> Ceiling(c)
    ensures Ceiling(c) ==> c.burst + 60 * Min(c.rps, c.burst) <= c.rpm
  {
    var n := 60;
    CeilingIffSlowEnough(c);
    BestInClosedForm(c, n);
    assert MINUTE == 1000 * n;
  }

  // ---------------------------------------------------------------- many addresses

  type Ip = nat

  datatype Request = Request(ip: Ip, at: nat)

  function Find(buckets: map<Ip, Bucket>, ip: Ip): Option<Bucket> {
    if ip in buckets then Some(buckets[ip]) else None
  }

  /** The answer to one request, and the buckets it leaves. */
  function Serve(c: Config, buckets: map<Ip, Bucket>, r: Request): (bool, map<Ip, Bucket>) {
    if !Limits(c) then (true, buckets)
    else
      var (ok, b) := Call(c, Find(buckets, r.ip), r.at);
      (ok, buckets[r.ip := b])
  }

  function ServedTo(c: Config, buckets: map<Ip, Bucket>, rs: seq<Request>, ip: Ip): nat
    decreases |rs|
  {
    if rs == [] then 0
    else
      var (ok, next) := Serve(c, buckets, rs[0]);
      (if ok && rs[0].ip == ip then 1 else 0) + ServedTo(c, next, rs[1..], ip)
  }

  function TimesOf(rs: seq<Request>, ip: Ip): seq<nat> {
    if rs == [] then []
    else (if rs[0].ip == ip then [rs[0].at] else []) + TimesOf(rs[1..], ip)
  }

  /** What an address is served depends on its own calls alone. */
  lemma {:induction false} AddressesAreIndependent(c: Config, buckets: map<Ip, Bucket>, rs: seq<Request>, ip: Ip)
    requires Limits(c)
    ensures ServedTo(c, buckets, rs, ip) == Admitted(c, Find(buckets, ip), TimesOf(rs, ip))
    decreases |rs|
  {
    if rs != [] {
      var next := Serve(c, buckets, rs[0]).1;
      AddressesAreIndependent(c, next, rs[1..], ip);
      if rs[0].ip == ip {
        assert TimesOf(rs, ip) == [rs[0].at] + TimesOf(rs[1..], ip);
        assert TimesOf(rs, ip)[1..] == TimesOf(rs[1..], ip);
      } else {
        assert TimesOf(rs, ip) == TimesOf(rs[1..], ip);
      }
    }
  }

  /** Requests in the order of their times, between two instants. */
  predicate InOrder(rs: seq<Request>, from: nat, to: nat)
    decreases |rs|
  {
    rs == [] || (from <= rs[0].at <= to && InOrder(rs[1..], rs[0].at, to))
  }

  lemma {:induction false} TimesInOrder(rs: seq<Request>, ip: Ip, from: nat, to: nat)
    requires InOrder(rs, from, to)
    ensures Within(TimesOf(rs, ip), from, to)
    decreases |rs|
  {
    if rs != [] {
      TimesInOrder(rs[1..], ip, rs[0].at, to);
      WithinCons(rs[0].at, TimesOf(rs[1..], ip), from, to);
    }
  }

  lemma RunBoundWithin(c: Config, b: Option<Bucket>, ts: seq<nat>, from: nat, to: nat)
    requires HourEarns(c) && Within(ts, from, to) && from <= to
    ensures 1000 * Admitted(c, b, ts) <= 1000 * Cap(c) + c.rps * (to - from)
  {
    RunBound(c, b, ts);
    assert 0 <= Span(ts) <= to - from;
    MulMono(Span(ts), to - from, c.rps);
  }

  /** Whatever the other addresses do and whatever the buckets hold, no address exceeds its own bound. */
  lemma AddressBound(c: Config, buckets: map<Ip, Bucket>, rs: seq<Request>, ip: Ip, from: nat, to: nat)
    requires Limits(c) && HourEarns(c) && from <= to && InOrder(rs, from, to)
    ensures 1000 * ServedTo(c, buckets, rs, ip) <= 1000 * Cap(c) + c.rps * (to - from)
  {
    AddressesAreIndependent(c, buckets, rs, ip);
    TimesInOrder(rs, ip, from, to);
    RunBoundWithin(c, Find(buckets, ip), TimesOf(rs, ip), from, to);
  }

  /** What is left: one token less, or, denied, no more than the per-minute setting. */
  function Left(c: Config, tokens: int, ok: bool): int {
    if ok then tokens - 1 else if 0 < c.rpm < tokens then c.rpm else tokens
  }

  /** The buckets of all addresses, as Redis holds them. */
  class Limiter {
    var buckets: map<Ip, Bucket>

    constructor ()
      ensures buckets == map[]
    {
      buckets := map[];
    }

    method Allow(c: Config, ip: Ip, now: nat) returns (ok: bool)
      modifies this
      ensures (ok, buckets) == Serve(c, old(buckets), Request(ip, now))
      ensures forall other | other != ip :: Find(buckets, other) == Find(old(buckets), other)
      ensures !(c.enabled && c.rps > 0) ==> ok && buckets == old(buckets)
      ensures c.enabled && c.rps > 0 ==> ip in buckets && buckets[ip].last == now && (if ok then 1 else 0) + buckets[ip].tokens <= Cap(c)
      ensures c.enabled && c.rps > 0 && ip in old(buckets) && 0 <= now - old(buckets)[ip].last < BUCKET_TTL ==>
                var tokens := Min(old(buckets)[ip].tokens + (now - old(buckets)[ip].last) * c.rps / 1000, c.burst);
                && (ok <==> 1 <= tokens && (c.rpm > 0 ==> tokens <= c.rpm))
                && buckets[ip].tokens == Left(c, tokens, ok)
      ensures c.enabled && c.rps > 0 && (ip !in old(buckets) || now - old(buckets)[ip].last >= BUCKET_TTL) ==>
                (ok <==> 1 <= c.burst && (c.rpm > 0 ==> c.burst <= c.rpm)) && buckets[ip].tokens == Left(c, c.burst, ok)
    {
      if !c.enabled || c.rps == 0 {
        return true;
      }
      var bucket := Kept(Find(buckets, ip), now);
      RefilledExactly(c, bucket, now);
      var tokens := Refilled(c, bucket, now);
      if tokens >= 1 && (c.rpm == 0 || tokens <= c.rpm) {
        buckets := buckets[ip := Bucket(tokens - 1, now)];
        ok := true;
      } else {
        buckets := buckets[ip := Bucket(if c.rpm > 0 then Min(tokens, c.rpm) else tokens, now)];
        ok := false;
      }
    }
  }
}
