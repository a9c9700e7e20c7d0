/**
 Clearance renewal in the browser: the state machine of `guard.js`.

 `Page` is the script's state, with the clock and with three pieces of history: when each request
 was intercepted, how each one was settled, and which queue timers are armed. JavaScript runs one
 callback at a time, so each action below is one callback: a request is intercepted, the heartbeat
 fires, the renewal in flight succeeds or fails, a queue timer fires, or time passes.
 Times are milliseconds, the TTL is in seconds.
 */
module Clearance {
  import opened Common

  type Id = nat
  type Time = int

  const BUFFER_MS := 5 * 60 * 1000
  const HEARTBEAT_MS := 30 * 1000
  const MAX_QUEUE_WAIT_MS := 30 * 1000
  const SLEEP_SLACK_MS := 2 * HEARTBEAT_MS + 5 * 1000

  datatype Outcome = Sent | Aborted

  datatype Settlement = Settlement(id: Id, at: Time, outcome: Outcome)

  datatype Page = Page(
    now: Time,
    loadedAt: Time,
    ttl: int,
    solver: Option<Time>,
    queue: seq<Id>,
    timers: map<Id, Time>,
    lastTick: Time,
    issued: map<Id, Time>,
    settled: seq<Settlement>)

  function ExpiresAt(p: Page): Time { p.loadedAt + p.ttl * 1000 }

  predicate IsExpired(p: Page) { p.now >= ExpiresAt(p) }

  function Max(a: int, b: int): int { if a >= b then a else b }

  function RenewDeadline(p: Page): Time { ExpiresAt(p) - Max(BUFFER_MS, 0) }

  predicate NeedsRenewal(p: Page) { p.now >= RenewDeadline(p) }

  // ---------------------------------------------------------------- callbacks

  /** Single-flight: a renewal in flight is shared. */
  function AfterRenew(p: Page): Page {
    if p.solver.Some? then p else p.(solver := Some(p.now))
  }

  function AfterSettle(p: Page, id: Id, outcome: Outcome): Page {
    p.(settled := p.settled + [Settlement(id, p.now, outcome)])
  }

  function AfterEnqueue(p: Page, id: Id): Page {
    p.(queue := p.queue + [id], timers := p.timers[id := p.now + MAX_QUEUE_WAIT_MS])
  }

  /** Position of the first occurrence, or the length when there is none. */
  function IndexOf(q: seq<Id>, id: Id): (at: nat)
    ensures at <= |q|
    ensures at < |q| ==> q[at] == id
    ensures id !in q[..at]
  {
    if q == [] || q[0] == id then 0 else 1 + IndexOf(q[1..], id)
  }

  function AfterReleaseOne(p: Page, id: Id, aborted: bool): Page {
    var at := IndexOf(p.queue, id);
    if at == |p.queue| then p
    else AfterSettle(p.(queue := p.queue[..at] + p.queue[at + 1..]), id, if aborted then Aborted else Sent)
  }

  /** `gate`, for a request seen for the first time. */
  function AfterGate(p: Page, id: Id): Page {
    var p := p.(issued := p.issued[id := p.now]);
    if !IsExpired(p) then
      AfterSettle(if NeedsRenewal(p) then AfterRenew(p) else p, id, Sent)
    else
      AfterRenew(AfterEnqueue(p, id))
  }

  function AfterGateEach(p: Page, ids: seq<Id>): Page {
    if ids == [] then p else AfterGate(AfterGateEach(p, ids[..|ids| - 1]), ids[|ids| - 1])
  }

  function AfterTick(p: Page): Page {
    var elapsed := p.now - p.lastTick;
    var p := p.(lastTick := p.now);
    if elapsed > SLEEP_SLACK_MS then
      if IsExpired(p) || NeedsRenewal(p) then AfterRenew(p) else p
    else if IsExpired(p) then AfterRenew(p)
    else if NeedsRenewal(p) then AfterRenew(p)
    else p
  }

  /** The requests that page code issues, synchronously, when the `i`th held request is settled. */
  function HandlerOf(again: seq<seq<Id>>, i: nat): seq<Id> { if i < |again| then again[i] else [] }

  /** What the first `k` of those handlers issue. */
  function Flat(again: seq<seq<Id>>, k: nat): seq<Id> {
    if k == 0 then [] else Flat(again, k - 1) + HandlerOf(again, k - 1)
  }

  /** One turn of `release`: a held request is settled, then its handlers run. */
  function AfterTurn(p: Page, id: Id, ids: seq<Id>, aborted: bool): Page {
    AfterGateEach(AfterReleaseOne(p, id, aborted), ids)
  }

  /** The first `k` turns. */
  function AfterReleaseFirst(p: Page, again: seq<seq<Id>>, k: nat, aborted: bool): Page
    requires k <= |p.queue|
  {
    if k == 0 then p
    else AfterTurn(AfterReleaseFirst(p, again, k - 1, aborted), p.queue[k - 1], HandlerOf(again, k - 1), aborted)
  }

  lemma ReleaseFirstNext(p: Page, q: Page, again: seq<seq<Id>>, k: nat, aborted: bool)
    requires k < |p.queue| && q == AfterReleaseFirst(p, again, k, aborted)
    ensures AfterTurn(q, p.queue[k], HandlerOf(again, k), aborted) == AfterReleaseFirst(p, again, k + 1, aborted)
  {
  }

  /** `release`: a snapshot of the queue is worked off. */
  function AfterRelease(p: Page, again: seq<seq<Id>>, aborted: bool): Page {
    AfterReleaseFirst(p, again, |p.queue|, aborted)
  }

  function AfterRenewOk(p: Page, ttl: int, again: seq<seq<Id>>): Page {
    AfterRelease(p.(loadedAt := p.now, ttl := ttl), again, false).(solver := None)
  }

  function AfterRenewFail(p: Page, again: seq<seq<Id>>): Page {
    AfterRelease(p, again, true).(solver := None)
  }

  function AfterTimeout(p: Page, id: Id): Page {
    AfterReleaseOne(p, id, true).(timers := p.timers - {id})
  }

  /** The script starts: nothing is held, and a short TTL renews at once. */
  function Boot(now: Time, ttl: int): Page {
    var p := Page(now, now, ttl, None, [], map[], now, map[], []);
    if NeedsRenewal(p) then AfterRenew(p) else p
  }

  // ---------------------------------------------------------------- runs

  datatype Action =
    | Advance(delta: nat)
    | Intercept(id: Id)
    | Heartbeat
    | Renewed(ttl: int, again: seq<seq<Id>>)
    | Failed(again: seq<seq<Id>>)
    | TimerFires(id: Id)

  /** No queue timer is later than `slack`. */
  predicate Timely(p: Page, slack: nat) {
    forall id | id in p.timers :: p.now <= p.timers[id] + slack
  }

  predicate Distinct(ids: seq<Id>) {
    forall i, j | 0 <= i < j < |ids| :: ids[i] != ids[j]
  }

  /** Handlers run for the held requests only, and issue new ones. */
  predicate Reissued(p: Page, again: seq<seq<Id>>) {
    && |again| == |p.queue|
    && Distinct(Flat(again, |again|)) && (forall id | id in Flat(again, |again|) :: id !in p.issued)
  }

  predicate Enabled(p: Page, a: Action, slack: nat) {
    match a
    case Advance(d) => Timely(p.(now := p.now + d), slack)
    case Intercept(id) => id !in p.issued
    case Heartbeat => true
    case Renewed(_, again) => p.solver.Some? && Reissued(p, again)
    case Failed(again) => p.solver.Some? && Reissued(p, again)
    case TimerFires(id) => id in p.timers && p.timers[id] <= p.now
  }

  function Apply(p: Page, a: Action): Page {
    match a
    case Advance(d) => p.(now := p.now + d)
    case Intercept(id) => AfterGate(p, id)
    case Heartbeat => AfterTick(p)
    case Renewed(ttl, again) => AfterRenewOk(p, ttl, again)
    case Failed(again) => AfterRenewFail(p, again)
    case TimerFires(id) => AfterTimeout(p, id)
  }

  predicate Legal(p: Page, run: seq<Action>, slack: nat)
    decreases |run|
  {
    run == [] || (Enabled(p, run[0], slack) && Legal(Apply(p, run[0]), run[1..], slack))
  }

  function Exec(p: Page, run: seq<Action>): Page
    decreases |run|
  {
    if run == [] then p else Exec(Apply(p, run[0]), run[1..])
  }

  // ---------------------------------------------------------------- release in closed form

  function Marks(ids: seq<Id>, at: Time, outcome: Outcome): seq<Settlement> {
    seq(|ids|, i requires 0 <= i < |ids| => Settlement(ids[i], at, outcome))
  }

  lemma ReleaseFront(p: Page, id: Id, rest: seq<Id>, aborted: bool)
    requires p.queue == [id] + rest
    ensures AfterReleaseOne(p, id, aborted) ==
            p.(queue := rest, settled := p.settled + [Settlement(id, p.now, if aborted then Aborted else Sent)])
  {
  }

  /** While the session is live requests pass the gate at once, in order; once it has expired all are held. */
  lemma {:induction false} GateEachEffect(p: Page, ids: seq<Id>)
    ensures var q := AfterGateEach(p, ids);
            && q.now == p.now && q.loadedAt == p.loadedAt && q.ttl == p.ttl && q.lastTick == p.lastTick
            && q.queue == p.queue + (if IsExpired(p) then ids else [])
            && q.settled == p.settled + (if IsExpired(p) then [] else Marks(ids, p.now, Sent))
            && (p.solver.Some? ==> q.solver == p.solver)
  {
    if ids != [] {
      var rest, last := ids[..|ids| - 1], ids[|ids| - 1];
      GateEachEffect(p, rest);
      assert ids == rest + [last];
      assert Marks(ids, p.now, Sent) == Marks(rest, p.now, Sent) + [Settlement(last, p.now, Sent)];
    }
  }

  /** What the first `k` turns of `release` settle, in order. */
  function Served(queue: seq<Id>, again: seq<seq<Id>>, k: nat, at: Time, outcome: Outcome, live: bool): seq<Settlement>
    requires k <= |queue|
  {
    if k == 0 then []
    else
      Served(queue, again, k - 1, at, outcome, live) + [Settlement(queue[k - 1], at, outcome)]
      + (if live then Marks(HandlerOf(again, k - 1), at, Sent) else [])
  }

  /** One turn of `release`, on a queue with the request in front. */
  lemma ReleaseTurn(p: Page, id: Id, rest: seq<Id>, ids: seq<Id>, aborted: bool)
    requires p.queue == [id] + rest
    ensures var q := AfterTurn(p, id, ids, aborted);
            && q.now == p.now && q.loadedAt == p.loadedAt && q.ttl == p.ttl && q.lastTick == p.lastTick
            && q.queue == rest + (if IsExpired(p) then ids else [])
            && q.settled == p.settled + [Settlement(id, p.now, if aborted then Aborted else Sent)]
                            + (if IsExpired(p) then [] else Marks(ids, p.now, Sent))
            && (p.solver.Some? ==> q.solver == p.solver)
  {
    ReleaseFront(p, id, rest, aborted);
    GateEachEffect(AfterReleaseOne(p, id, aborted), ids);
  }

  lemma QueueTurn(queue: seq<Id>, k: nat, tail: seq<Id>, more: seq<Id>)
    requires k < |queue|
    ensures queue[k..] + tail == [queue[k]] + (queue[k + 1..] + tail)
    ensures queue[k + 1..] + tail + more == queue[k + 1..] + (tail + more)
  {
  }

  lemma SettledTurn(a: seq<Settlement>, b: seq<Settlement>, c: seq<Settlement>, d: seq<Settlement>)
    ensures a + b + c + d == a + (b + c + d)
  {
  }

  /** `q` is `p` with the first `k` turns of `release` done. */
  ghost predicate Released(p: Page, q: Page, again: seq<seq<Id>>, k: nat, aborted: bool)
    requires k <= |p.queue|
  {
    && q.now == p.now && q.loadedAt == p.loadedAt && q.ttl == p.ttl && q.lastTick == p.lastTick
    && q.queue == p.queue[k..] + (if IsExpired(p) then Flat(again, k) else [])
    && q.settled == p.settled + Served(p.queue, again, k, p.now, if aborted then Aborted else Sent, !IsExpired(p))
    && (p.solver.Some? ==> q.solver == p.solver)
  }

  lemma ReleasedNext(p: Page, q: Page, again: seq<seq<Id>>, k: nat, aborted: bool)
    requires k < |p.queue| && Released(p, q, again, k, aborted)
    ensures Released(p, AfterTurn(q, p.queue[k], HandlerOf(again, k), aborted), again, k + 1, aborted)
  {
    var ids, outcome := HandlerOf(again, k), if aborted then Aborted else Sent;
    var tail, more := if IsExpired(p) then Flat(again, k) else [], if IsExpired(p) then ids else [];
    QueueTurn(p.queue, k, tail, more);
    ReleaseTurn(q, p.queue[k], p.queue[k + 1..] + tail, ids, aborted);
    SettledTurn(p.settled, Served(p.queue, again, k, p.now, outcome, !IsExpired(p)), [Settlement(p.queue[k], p.now, outcome)],
                if IsExpired(p) then [] else Marks(ids, p.now, Sent));
    assert IsExpired(p) ==> Flat(again, k + 1) == tail + more;
  }

  lemma {:induction false} ReleaseFirstEffect(p: Page, again: seq<seq<Id>>, k: nat, aborted: bool)
    requires k <= |p.queue|
    ensures Released(p, AfterReleaseFirst(p, again, k, aborted), again, k, aborted)
  {
    if k > 0 {
      ReleaseFirstEffect(p, again, k - 1, aborted);
      ReleasedNext(p, AfterReleaseFirst(p, again, k - 1, aborted), again, k - 1, aborted);
    }
  }

  /**
   `release` settles every held request once, in order. On a live session what handlers issue meanwhile
   is sent at once, behind the request it answers; on an expired one it is all that is then held.
   */
  lemma ReleaseEffect(p: Page, again: seq<seq<Id>>, aborted: bool)
    ensures var q := AfterRelease(p, again, aborted);
            && q.now == p.now && q.loadedAt == p.loadedAt && q.ttl == p.ttl && q.lastTick == p.lastTick
            && q.queue == (if IsExpired(p) then Flat(again, |p.queue|) else [])
            && q.settled == p.settled + Served(p.queue, again, |p.queue|, p.now, if aborted then Aborted else Sent, !IsExpired(p))
            && (p.solver.Some? ==> q.solver == p.solver)
  {
    ReleaseFirstEffect(p, again, |p.queue|, aborted);
  }

  /** Where the `i`th held request is settled: behind those before it and, on a live session, their handlers' requests. */
  function Place(again: seq<seq<Id>>, i: nat, live: bool): nat { i + (if live then |Flat(again, i)| else 0) }

  lemma {:induction false} ServedAt(
      queue: seq<Id>, again: seq<seq<Id>>, k: nat, at: Time, outcome: Outcome, live: bool, i: nat)
    requires i < k <= |queue|
    ensures var xs := Served(queue, again, k, at, outcome, live);
            && |xs| == Place(again, k, live) && Place(again, i, live) < |xs|
            && xs[Place(again, i, live)] == Settlement(queue[i], at, outcome)
    decreases k
  {
    if i < k - 1 { ServedAt(queue, again, k - 1, at, outcome, live, i); }
    ServedLength(queue, again, k - 1, at, outcome, live);
    ServedLength(queue, again, k, at, outcome, live);
  }

  lemma {:induction false} ServedLength(
      queue: seq<Id>, again: seq<seq<Id>>, k: nat, at: Time, outcome: Outcome, live: bool)
    requires k <= |queue|
    ensures |Served(queue, again, k, at, outcome, live)| == Place(again, k, live)
  {
    if k > 0 { ServedLength(queue, again, k - 1, at, outcome, live); }
  }

  /** On an expired session, or without handlers, the settlements are those of the queue, in order. */
  lemma {:induction false} ServedIsMarks(queue: seq<Id>, again: seq<seq<Id>>, k: nat, at: Time, outcome: Outcome, live: bool)
    requires k <= |queue| && (live ==> forall i: nat | i < k :: HandlerOf(again, i) == [])
    ensures Served(queue, again, k, at, outcome, live) == Marks(queue[..k], at, outcome)
  {
    if k > 0 {
      ServedIsMarks(queue, again, k - 1, at, outcome, live);
      assert queue[..k] == queue[..k - 1] + [queue[k - 1]];
      assert live ==> Marks(HandlerOf(again, k - 1), at, Sent) == [];
    }
  }

  lemma ReleaseWhenExpired(p: Page, again: seq<seq<Id>>, aborted: bool)
    requires IsExpired(p)
    ensures AfterRelease(p, again, aborted).settled == p.settled + Marks(p.queue, p.now, if aborted then Aborted else Sent)
  {
    ReleaseEffect(p, again, aborted);
    ServedIsMarks(p.queue, again, |p.queue|, p.now, if aborted then Aborted else Sent, false);
    assert p.queue[..|p.queue|] == p.queue;
  }

  // ---------------------------------------------------------------- settled exactly once

  ghost predicate SettledOnce(settled: seq<Settlement>) {
    forall i, j | 0 <= i < j < |settled| :: settled[i].id != settled[j].id
  }

  ghost predicate IsSettled(settled: seq<Settlement>, id: Id) {
    exists i :: 0 <= i < |settled| && settled[i].id == id
  }

  /** Every intercepted request is either held or settled, never both. */
  ghost predicate Accounted(queue: seq<Id>, issued: map<Id, Time>, settled: seq<Settlement>) {
    && Distinct(queue)
    && SettledOnce(settled)
    && (forall id :: id in issued <==> id in queue || IsSettled(settled, id))
    && (forall id | id in queue :: !IsSettled(settled, id))
  }

  /** Every held request has its timer armed. */
  ghost predicate Armed(now: Time, queue: seq<Id>, timers: map<Id, Time>, issued: map<Id, Time>) {
    forall id | id in queue ::
      id in issued && id in timers && timers[id] == issued[id] + MAX_QUEUE_WAIT_MS && issued[id] <= now
  }

  ghost predicate InTime(x: Settlement, issued: map<Id, Time>, slack: nat) {
    x.id in issued && issued[x.id] <= x.at <= issued[x.id] + MAX_QUEUE_WAIT_MS + slack
  }

  ghost predicate AllInTime(issued: map<Id, Time>, settled: seq<Settlement>, slack: nat) {
    forall i | 0 <= i < |settled| :: InTime(settled[i], issued, slack)
  }

  /** What holds at every moment, also in the middle of a release. */
  ghost predicate Core(p: Page, slack: nat) {
    && Accounted(p.queue, p.issued, p.settled)
    && Timely(p, slack)
    && Armed(p.now, p.queue, p.timers, p.issued)
    && AllInTime(p.issued, p.settled, slack)
  }

  ghost predicate Inv(p: Page, slack: nat) {
    Core(p, slack) && (p.queue != [] ==> IsExpired(p))
  }

  lemma SettledSnoc(settled: seq<Settlement>, x: Settlement, id: Id)
    ensures IsSettled(settled + [x], id) <==> IsSettled(settled, id) || id == x.id
  {
    var all := settled + [x];
    if IsSettled(settled, id) {
      var i :| 0 <= i < |settled| && settled[i].id == id;
      assert all[i].id == id;
    }
    if id == x.id { assert all[|settled|].id == id; }
  }

  /** Settling one more request that was neither held nor settled. */
  lemma SettleAccounted(queue: seq<Id>, issued: map<Id, Time>, settled: seq<Settlement>, x: Settlement, t: Time)
    requires Accounted(queue, issued, settled) && x.id !in queue && !IsSettled(settled, x.id)
    ensures Accounted(queue, issued[x.id := t], settled + [x])
  {
    forall id ensures IsSettled(settled + [x], id) <==> IsSettled(settled, id) || id == x.id {
      SettledSnoc(settled, x, id);
    }
    forall i | 0 <= i < |settled| ensures settled[i].id != x.id {
      assert !IsSettled(settled, x.id);
    }
  }

  lemma HoldAccounted(queue: seq<Id>, issued: map<Id, Time>, settled: seq<Settlement>, id: Id, t: Time)
    requires Accounted(queue, issued, settled) && id !in issued
    ensures Accounted(queue + [id], issued[id := t], settled)
  {
  }

  lemma HoldKeeps(p: Page, id: Id, slack: nat)
    requires Core(p, slack) && id !in p.issued && IsExpired(p)
    ensures Core(AfterGate(p, id), slack)
  {
    HoldAccounted(p.queue, p.issued, p.settled, id, p.now);
    var p' := AfterGate(p, id);
    assert forall i | 0 <= i < |p.settled| :: InTime(p.settled[i], p'.issued, slack);
  }

  lemma PassKeeps(p: Page, id: Id, slack: nat)
    requires Core(p, slack) && id !in p.issued && !IsExpired(p)
    ensures Core(AfterGate(p, id), slack)
  {
    var x := Settlement(id, p.now, Sent);
    SettleAccounted(p.queue, p.issued, p.settled, x, p.now);
    var p' := AfterGate(p, id);
    assert InTime(x, p'.issued, slack);
    assert forall i | 0 <= i < |p.settled| :: InTime(p.settled[i], p'.issued, slack);
  }

  lemma GateKeeps(p: Page, id: Id, slack: nat)
    requires Core(p, slack) && id !in p.issued
    ensures Core(AfterGate(p, id), slack)
  {
    if IsExpired(p) { HoldKeeps(p, id, slack); } else { PassKeeps(p, id, slack); }
  }

  lemma {:induction false} GateEachKeeps(p: Page, ids: seq<Id>, slack: nat)
    requires Core(p, slack) && Distinct(ids) && forall id | id in ids :: id !in p.issued
    ensures Core(AfterGateEach(p, ids), slack)
  {
    if ids != [] {
      var rest, last := ids[..|ids| - 1], ids[|ids| - 1];
      assert ids == rest + [last];
      GateEachKeeps(p, rest, slack);
      GateEachKnows(p, rest);
      GateKeeps(AfterGateEach(p, rest), last, slack);
    }
  }

  /** Splicing one element out of a sequence without repeats. */
  lemma SpliceOut(q: seq<Id>, at: nat)
    requires Distinct(q) && at < |q|
    ensures var rest := q[..at] + q[at + 1..];
            Distinct(rest) && q[at] !in rest && forall x :: x in q <==> x in rest || x == q[at]
  {
  }

  lemma ReleaseOneKeeps(p: Page, id: Id, aborted: bool, slack: nat)
    requires Core(p, slack)
    ensures var q := AfterReleaseOne(p, id, aborted);
            Core(q, slack) && q.issued == p.issued && id !in q.queue && forall x | x in q.queue :: x in p.queue
  {
    var at := IndexOf(p.queue, id);
    if at < |p.queue| {
      SpliceOut(p.queue, at);
      RemovedAccounted(p.queue, p.queue[..at] + p.queue[at + 1..], p.issued, p.settled,
                       Settlement(id, p.now, if aborted then Aborted else Sent));
    } else {
      assert p.queue[..at] == p.queue;
    }
  }

  lemma TimeoutKeeps(p: Page, id: Id, slack: nat)
    requires Inv(p, slack) && id in p.timers && p.timers[id] <= p.now
    ensures Inv(AfterTimeout(p, id), slack)
  {
    ReleaseOneKeeps(p, id, true, slack);
  }

  lemma {:induction false} FlatPrefix(again: seq<seq<Id>>, k: nat, n: nat)
    requires k <= n
    ensures Flat(again, k) <= Flat(again, n)
    decreases n
  {
    if k < n { FlatPrefix(again, k, n - 1); }
  }

  lemma DistinctParts(before: seq<Id>, next: seq<Id>, all: seq<Id>)
    requires before + next <= all && Distinct(all)
    ensures Distinct(next) && forall id | id in next :: id in all && id !in before
  {
    assert forall i | 0 <= i < |next| :: next[i] == (before + next)[|before| + i] == all[|before| + i];
    assert forall i | 0 <= i < |before| :: before[i] == (before + next)[i] == all[i];
  }

  /** What the next handler issues is new. */
  lemma NextHandlerIsNew(again: seq<seq<Id>>, k: nat, n: nat)
    requires k < n && Distinct(Flat(again, n))
    ensures Distinct(HandlerOf(again, k)) && forall id | id in HandlerOf(again, k) :: id in Flat(again, n) && id !in Flat(again, k)
  {
    FlatPrefix(again, k + 1, n);
    DistinctParts(Flat(again, k), HandlerOf(again, k), Flat(again, n));
  }

  lemma {:induction false} GateEachKnows(p: Page, ids: seq<Id>)
    ensures forall id :: id in AfterGateEach(p, ids).issued <==> id in p.issued || id in ids
  {
    if ids != [] {
      var rest, last := ids[..|ids| - 1], ids[|ids| - 1];
      assert ids == rest + [last];
      GateEachKnows(p, rest);
    }
  }

  /** The requests known after `k` turns. */
  lemma {:induction false} ReleaseFirstKnows(p: Page, again: seq<seq<Id>>, k: nat, aborted: bool)
    requires k <= |p.queue|
    ensures forall id :: id in AfterReleaseFirst(p, again, k, aborted).issued <==> id in p.issued || id in Flat(again, k)
  {
    if k > 0 {
      ReleaseFirstKnows(p, again, k - 1, aborted);
      GateEachKnows(AfterReleaseOne(AfterReleaseFirst(p, again, k - 1, aborted), p.queue[k - 1], aborted), HandlerOf(again, k - 1));
    }
  }

  lemma TurnKeeps(p: Page, id: Id, ids: seq<Id>, aborted: bool, slack: nat)
    requires Core(p, slack) && Distinct(ids) && forall x | x in ids :: x !in p.issued
    ensures Core(AfterTurn(p, id, ids, aborted), slack)
  {
    ReleaseOneKeeps(p, id, aborted, slack);
    GateEachKeeps(AfterReleaseOne(p, id, aborted), ids, slack);
  }

  /** What the handlers of the next turn issue is new to it. */
  lemma NextTurnIsNew(p: Page, again: seq<seq<Id>>, k: nat, aborted: bool)
    requires Reissued(p, again) && k < |p.queue|
    ensures Distinct(HandlerOf(again, k))
    ensures forall x | x in HandlerOf(again, k) :: x !in AfterReleaseFirst(p, again, k, aborted).issued
  {
    NextHandlerIsNew(again, k, |again|);
    ReleaseFirstKnows(p, again, k, aborted);
  }

  lemma {:induction false} ReleaseFirstKeeps(p: Page, again: seq<seq<Id>>, k: nat, aborted: bool, slack: nat)
    requires Core(p, slack) && Reissued(p, again) && k <= |p.queue|
    ensures Core(AfterReleaseFirst(p, again, k, aborted), slack)
  {
    if k > 0 {
      ReleaseFirstKeeps(p, again, k - 1, aborted, slack);
      NextTurnIsNew(p, again, k - 1, aborted);
      TurnKeeps(AfterReleaseFirst(p, again, k - 1, aborted), p.queue[k - 1], HandlerOf(again, k - 1), aborted, slack);
    }
  }

  lemma ReleaseKeeps(p: Page, again: seq<seq<Id>>, aborted: bool, slack: nat)
    requires Core(p, slack) && Reissued(p, again)
    ensures Inv(AfterRelease(p, again, aborted), slack)
  {
    ReleaseFirstKeeps(p, again, |p.queue|, aborted, slack);
    ReleaseEffect(p, again, aborted);
  }

  /** A request moves from the queue to the settled ones. */
  lemma RemovedAccounted(queue: seq<Id>, rest: seq<Id>, issued: map<Id, Time>, settled: seq<Settlement>, x: Settlement)
    requires Accounted(queue, issued, settled) && x.id in queue && x.id !in rest && Distinct(rest)
    requires forall id :: id in queue <==> id in rest || id == x.id
    ensures Accounted(rest, issued, settled + [x])
  {
    forall id ensures IsSettled(settled + [x], id) <==> IsSettled(settled, id) || id == x.id {
      SettledSnoc(settled, x, id);
    }
    forall i | 0 <= i < |settled| ensures settled[i].id != x.id {
      assert !IsSettled(settled, x.id);
    }
  }

  lemma ApplyKeeps(p: Page, a: Action, slack: nat)
    requires Inv(p, slack) && Enabled(p, a, slack)
    ensures Inv(Apply(p, a), slack)
  {
    match a
    case Advance(_) =>
    case Intercept(id) => GateKeeps(p, id, slack);
    case Heartbeat =>
    case Renewed(ttl, again) => ReleaseKeeps(p.(loadedAt := p.now, ttl := ttl), again, false, slack);
    case Failed(again) => ReleaseKeeps(p, again, true, slack);
    case TimerFires(id) => TimeoutKeeps(p, id, slack);
  }

  lemma {:induction false} RunKeeps(p: Page, run: seq<Action>, slack: nat)
    requires Inv(p, slack) && Legal(p, run, slack)
    ensures Inv(Exec(p, run), slack)
    decreases |run|
  {
    if run != [] {
      ApplyKeeps(p, run[0], slack);
      RunKeeps(Apply(p, run[0]), run[1..], slack);
    }
  }

  lemma BootInv(start: Time, ttl: int, slack: nat)
    ensures Inv(Boot(start, ttl), slack)
  {
  }

  /**
   In every run, whatever fails: no request is settled twice, every intercepted request is held or
   settled, none is settled later than the maximum wait after it was held (plus the lateness of
   timers), none is held beyond that, and requests are held only while the session has expired.
   */
  lemma RequestsSettledOnceInTime(start: Time, ttl: int, run: seq<Action>, slack: nat)
    requires Legal(Boot(start, ttl), run, slack)
    ensures var p := Exec(Boot(start, ttl), run);
            && SettledOnce(p.settled)
            && (forall id :: id in p.issued <==> id in p.queue || IsSettled(p.settled, id))
            && (forall id | id in p.queue :: !IsSettled(p.settled, id))
            && AllInTime(p.issued, p.settled, slack)
            && (forall id | id in p.queue :: id in p.issued && p.now <= p.issued[id] + MAX_QUEUE_WAIT_MS + slack)
            && (p.queue != [] ==> IsExpired(p))
  {
    BootInv(start, ttl, slack);
    RunKeeps(Boot(start, ttl), run, slack);
  }

  // ---------------------------------------------------------------- sent only on a live session

  /** What `p'` settled beyond `p` was settled now, and was sent only if the session is live. */
  ghost predicate FreshSince(p: Page, p': Page) {
    && p.settled <= p'.settled
    && forall i | |p.settled| <= i < |p'.settled| ::
         p'.settled[i].at == p'.now && (p'.settled[i].outcome == Sent ==> p'.now < ExpiresAt(p'))
  }

  lemma {:induction false} ServedInOrder(
      queue: seq<Id>, again: seq<seq<Id>>, k: nat, at: Time, outcome: Outcome, live: bool)
    requires k <= |queue|
    ensures var xs := Served(queue, again, k, at, outcome, live);
            && (forall i | 0 <= i < |xs| :: xs[i].at == at && (xs[i].outcome == outcome || (live && xs[i].outcome == Sent)))
            && (k > 0 ==> xs != [] && xs[0] == Settlement(queue[0], at, outcome))
  {
    if k > 0 { ServedInOrder(queue, again, k - 1, at, outcome, live); }
  }

  lemma RenewedFresh(p: Page, ttl: int, again: seq<seq<Id>>)
    ensures FreshSince(p, AfterRenewOk(p, ttl, again)) <==> (p.queue != [] ==> ttl > 0)
  {
    var q, q' := p.(loadedAt := p.now, ttl := ttl), AfterRenewOk(p, ttl, again);
    ReleaseEffect(q, again, false);
    ServedInOrder(p.queue, again, |p.queue|, p.now, Sent, !IsExpired(q));
    if p.queue != [] { assert q'.settled[|p.settled|] == Settlement(p.queue[0], p.now, Sent); }
  }

  lemma FailedFresh(p: Page, again: seq<seq<Id>>)
    ensures FreshSince(p, AfterRenewFail(p, again))
  {
    ReleaseEffect(p, again, true);
    ServedInOrder(p.queue, again, |p.queue|, p.now, Aborted, !IsExpired(p));
  }

  /**
   Every callback of every run hands requests to the network only at an instant before the expiry
   it then believes in. For a renewal that finds requests held, this needs the renewed TTL to be
   positive, and no more.
   */
  lemma SentOnlyWhileLive(start: Time, ttl: int, run: seq<Action>, a: Action, slack: nat)
    requires Legal(Boot(start, ttl), run, slack) && Enabled(Exec(Boot(start, ttl), run), a, slack)
    ensures var p := Exec(Boot(start, ttl), run);
            FreshSince(p, Apply(p, a)) <==> (a.Renewed? && p.queue != [] ==> a.ttl > 0)
  {
    var p := Exec(Boot(start, ttl), run);
    match a
    case Renewed(t, again) => RenewedFresh(p, t, again);
    case Failed(again) => FailedFresh(p, again);
    case _ =>
  }

  /**
   On every page, a renewal that succeeds sends every request held, now and in the order of the queue;
   with a positive TTL nothing is held afterwards.
   */
  lemma RenewalSendsHeld(p: Page, ttl: int, again: seq<seq<Id>>, i: nat)
    requires i < |p.queue|
    ensures var p', at := Apply(p, Renewed(ttl, again)), |p.settled| + Place(again, i, ttl > 0);
            && p.settled <= p'.settled && at < |p'.settled|
            && p'.settled[at] == Settlement(p.queue[i], p.now, Sent)
            && p'.loadedAt == p.now && p'.ttl == ttl && p'.solver.None?
            && (ttl > 0 ==> p'.queue == [])
  {
    ReleaseEffect(p.(loadedAt := p.now, ttl := ttl), again, false);
    ServedAt(p.queue, again, |p.queue|, p.now, Sent, ttl > 0, i);
  }

  /** A later place in the queue is a later place among the settlements. */
  lemma PlacesInOrder(again: seq<seq<Id>>, i: nat, j: nat, live: bool)
    requires i < j
    ensures Place(again, i, live) < Place(again, j, live)
  {
    FlatPrefix(again, i, j);
  }

  /** What `p'` settled beyond `p` was sent. */
  ghost predicate SentSince(p: Page, p': Page) {
    p.settled <= p'.settled && forall i | |p.settled| <= i < |p'.settled| :: p'.settled[i].outcome == Sent
  }

  /** On every page, no request is failed except by a renewal that fails or by a timer. */
  lemma AbortedOnlyOnFailure(p: Page, a: Action)
    requires !a.Failed? && !a.TimerFires?
    ensures SentSince(p, Apply(p, a))
  {
    if a.Renewed? {
      var q := p.(loadedAt := p.now, ttl := a.ttl);
      ReleaseEffect(q, a.again, false);
      ServedInOrder(p.queue, a.again, |p.queue|, p.now, Sent, !IsExpired(q));
    }
  }

  // ---------------------------------------------------------------- a steady page never expires

  /** The heartbeat is never overdue by more than `h`, nor a renewal in flight by more than `d`. */
  predicate Paced(p: Page, h: nat, d: nat) {
    p.now <= p.lastTick + h && (p.solver.Some? ==> p.now <= p.solver.value + d)
  }

  /** An action of a page whose heartbeats come within `h` and whose renewals succeed within `d`. */
  predicate Steady(p: Page, a: Action, h: nat, d: nat) {
    match a
    case Advance(delta) => Paced(p.(now := p.now + delta), h, d)
    case Renewed(ttl, again) => p.solver.Some? && Reissued(p, again) && ttl == p.ttl
    case Failed(_) => false
    case _ => Enabled(p, a, 0)
  }

  predicate SteadyRun(p: Page, run: seq<Action>, h: nat, d: nat)
    decreases |run|
  {
    run == [] || (Steady(p, run[0], h, d) && SteadyRun(Apply(p, run[0]), run[1..], h, d))
  }

  /** A session that cannot run out while heartbeats and renewals keep their pace. */
  predicate Ample(ttl: int, h: nat, d: nat) {
    h + d <= BUFFER_MS && h + d < ttl * 1000
  }

  /** The last instant at which a heartbeat can pass without starting a renewal. */
  function Anchor(p: Page): Time { Max(RenewDeadline(p) - 1, p.loadedAt) }

  ghost predicate SteadyInv(p: Page, h: nat, d: nat) {
    && Paced(p, h, d) && p.loadedAt <= p.now && p.lastTick <= p.now
    && (p.solver.None? ==> p.lastTick <= Anchor(p))
    && (p.solver.Some? ==> p.solver.value <= Anchor(p) + h)
    && p.queue == []
    && (forall i | 0 <= i < |p.settled| ::
          && p.settled[i].id in p.issued && p.settled[i].outcome == Sent
          && p.settled[i].at == p.issued[p.settled[i].id])
  }

  lemma SteadyIsLive(p: Page, h: nat, d: nat)
    requires SteadyInv(p, h, d) && Ample(p.ttl, h, d)
    ensures !IsExpired(p)
  {
  }

  lemma SteadyKeeps(p: Page, a: Action, h: nat, d: nat)
    requires SteadyInv(p, h, d) && Ample(p.ttl, h, d) && Steady(p, a, h, d)
    ensures SteadyInv(Apply(p, a), h, d) && Apply(p, a).ttl == p.ttl
  {
    SteadyIsLive(p, h, d);
    if a.Renewed? { assert Apply(p, a) == p.(loadedAt := p.now, ttl := a.ttl, solver := None); }
  }

  lemma {:induction false} SteadyRunKeeps(p: Page, run: seq<Action>, h: nat, d: nat)
    requires SteadyInv(p, h, d) && Ample(p.ttl, h, d) && SteadyRun(p, run, h, d)
    ensures SteadyInv(Exec(p, run), h, d) && Exec(p, run).ttl == p.ttl
    decreases |run|
  {
    if run != [] {
      SteadyKeeps(p, run[0], h, d);
      SteadyRunKeeps(Apply(p, run[0]), run[1..], h, d);
    }
  }

  /** If the session is ample, no steady run ever expires, and every request goes straight through. */
  lemma AmpleNeverExpires(start: Time, ttl: int, run: seq<Action>, h: nat, d: nat)
    requires Ample(ttl, h, d) && SteadyRun(Boot(start, ttl), run, h, d)
    ensures var p := Exec(Boot(start, ttl), run);
            && !IsExpired(p) && p.queue == []
            && (forall i | 0 <= i < |p.settled| ::
                  && p.settled[i].id in p.issued && p.settled[i].outcome == Sent
                  && p.settled[i].at == p.issued[p.settled[i].id])
  {
    SteadyRunKeeps(Boot(start, ttl), run, h, d);
    SteadyIsLive(Exec(Boot(start, ttl), run), h, d);
  }

  lemma {:induction false} SteadyConcat(p: Page, r1: seq<Action>, r2: seq<Action>, h: nat, d: nat)
    requires SteadyRun(p, r1, h, d) && SteadyRun(Exec(p, r1), r2, h, d)
    ensures SteadyRun(p, r1 + r2, h, d) && Exec(p, r1 + r2) == Exec(Exec(p, r1), r2)
    decreases |r1|
  {
    if r1 == [] {
      assert r1 + r2 == r2;
    } else {
      SteadyConcat(Apply(p, r1[0]), r1[1..], r2, h, d);
      assert (r1 + r2)[1..] == r1[1..] + r2;
    }
  }

  /** One heartbeat, `delta` later. */
  lemma WaitOnce(p: Page, delta: nat, h: nat, d: nat) returns (run: seq<Action>)
    requires Paced(p.(now := p.now + delta), h, d)
    ensures SteadyRun(p, run, h, d) && Exec(p, run) == AfterTick(p.(now := p.now + delta))
  {
    run := [Advance(delta)] + [Heartbeat];
    assert run[1..] == [Heartbeat] && [Heartbeat][1..] == [];
    var q := Apply(p, run[0]);
    assert SteadyRun(q, [Heartbeat], h, d);
    assert Exec(q, [Heartbeat]) == Exec(Apply(q, Heartbeat), []);
  }

  /** Heartbeats can carry the page `n` on, as long as that starts no renewal and outlasts none. */
  lemma {:induction false} Wait(p: Page, n: nat, h: nat, d: nat) returns (run: seq<Action>)
    requires h >= 1 && p.lastTick == p.now
    requires p.solver.Some? ==> p.now + n <= p.solver.value + d
    requires p.solver.None? ==> n == 0 || p.now + n < RenewDeadline(p)
    ensures SteadyRun(p, run, h, d)
    ensures Exec(p, run) == p.(now := p.now + n, lastTick := p.now + n)
    decreases n
  {
    if n == 0 {
      run := [];
    } else {
      var step := if n < h then n else h;
      var first := WaitOnce(p, step, h, d);
      var q := Exec(p, first);
      var rest := Wait(q, n - step, h, d);
      SteadyConcat(p, first, rest, h, d);
      run := first + rest;
    }
  }

  /** If the session is not ample, some steady run lets it expire. */
  lemma ScantExpires(start: Time, ttl: int, h: nat, d: nat) returns (run: seq<Action>)
    requires h >= 1 && !Ample(ttl, h, d)
    ensures SteadyRun(Boot(start, ttl), run, h, d) && IsExpired(Exec(Boot(start, ttl), run))
  {
    var p := Boot(start, ttl);
    if ttl <= 0 { return []; }
    if ttl * 1000 > BUFFER_MS {
      run := Wait(p, ttl * 1000 - BUFFER_MS - 1, h, d);
    } else {
      run := [Renewed(ttl, [])];
      assert run[1..] == [];
      assert Exec(p, run) == Exec(Apply(p, run[0]), []);
    }
    var q := Exec(p, run);
    assert q.lastTick == q.now == Anchor(q) && q.solver.None?;
    var late := WaitOnce(q, h, h, d);
    SteadyConcat(p, run, late, h, d);
    run := run + late;
    var r := Exec(p, run);
    assert r.solver == Some(r.now);
    var more := Wait(r, d, h, d);
    SteadyConcat(p, run, more, h, d);
    run := run + more;
  }

  ghost predicate NeverExpires(p: Page, h: nat, d: nat) {
    forall run :: SteadyRun(p, run, h, d) ==> !IsExpired(Exec(p, run))
  }

  /** With no time between heartbeats, no time passes at all. */
  lemma {:induction false} NoTimePasses(p: Page, run: seq<Action>, d: nat)
    requires SteadyRun(p, run, 0, d) && p.now == p.lastTick == p.loadedAt && p.ttl > 0 && p.queue == []
    ensures !IsExpired(Exec(p, run))
    decreases |run|
  {
    if run != [] { NoTimePasses(Apply(p, run[0]), run[1..], d); }
  }

  /** The exact condition under which a steady page never loses its session. */
  lemma NeverExpiresIffAmple(start: Time, ttl: int, h: nat, d: nat)
    ensures NeverExpires(Boot(start, ttl), h, d) <==> if h == 0 then ttl > 0 else Ample(ttl, h, d)
  {
    var p := Boot(start, ttl);
    if ttl <= 0 {
      assert SteadyRun(p, [], h, d) && IsExpired(Exec(p, []));
    } else if h == 0 {
      forall run | SteadyRun(p, run, h, d) ensures !IsExpired(Exec(p, run)) {
        NoTimePasses(p, run, d);
      }
    } else if Ample(ttl, h, d) {
      forall run | SteadyRun(p, run, h, d) ensures !IsExpired(Exec(p, run)) {
        AmpleNeverExpires(start, ttl, run, h, d);
      }
    } else {
      var run := ScantExpires(start, ttl, h, d);
      assert SteadyRun(p, run, h, d) && IsExpired(Exec(p, run));
    }
  }

  // ---------------------------------------------------------------- the script itself

  /** The script's variables, updated in place by its callbacks. `now` is the page's clock. */
  class Guard {
    var now: Time
    var loadedAt: Time
    var ttl: int
    var solver: Option<Time>
    var queue: seq<Id>
    var timers: map<Id, Time>
    var lastTick: Time
    var issued: map<Id, Time>
    var settled: seq<Settlement>

    function View(): Page
      reads this
    {
      Page(now, loadedAt, ttl, solver, queue, timers, lastTick, issued, settled)
    }

    predicate Expired()
      reads this
    {
      IsExpired(View())
    }

    predicate Due()
      reads this
    {
      NeedsRenewal(View())
    }

    constructor (start: Time, ttl: int)
      ensures View() == Boot(start, ttl)
      ensures now == start && loadedAt == start && queue == [] && settled == []
      ensures solver == if ttl * 1000 <= 5 * 60 * 1000 then Some(start) else None
    {
      this.now, this.loadedAt, this.lastTick, this.ttl := start, start, start, ttl;
      solver, queue, timers, issued, settled := None, [], map[], map[], [];
      new;
      if Due() { Renew(); }
    }

    /** A renewal in flight is shared. */
    method Renew()
      modifies this`solver
      ensures View() == AfterRenew(old(View()))
      ensures solver == if old(solver).Some? then old(solver) else Some(now)
    {
      if solver.Some? { return; }
      solver := Some(now);
    }

    method Done(id: Id, aborted: bool)
      modifies this`settled
      ensures View() == AfterSettle(old(View()), id, if aborted then Aborted else Sent)
    {
      settled := settled + [Settlement(id, now, if aborted then Aborted else Sent)];
    }

    method ReleaseOne(id: Id, aborted: bool)
      modifies this`queue, this`settled
      ensures View() == AfterReleaseOne(old(View()), id, aborted)
      ensures settled == old(settled) + if id in old(queue) then [Settlement(id, now, if aborted then Aborted else Sent)] else []
      ensures id !in old(queue) ==> queue == old(queue)
      ensures id in old(queue) ==> exists at: nat ::
                at < |old(queue)| && old(queue)[at] == id && queue == old(queue)[..at] + old(queue)[at + 1..]
    {
      var at := IndexOf(queue, id);
      assert queue[..|queue|] == queue;
      if at == |queue| { return; }
      queue := queue[..at] + queue[at + 1..];
      Done(id, aborted);
    }

    /**
     Every request held is settled once, in order. What handlers issue meanwhile is sent at once on a
     live session; on an expired one it is all that is then held.
     */
    method Release(aborted: bool, again: seq<seq<Id>>)
      modifies this
      ensures View() == AfterRelease(old(View()), again, aborted)
      ensures now == old(now) && loadedAt == old(loadedAt) && ttl == old(ttl) && lastTick == old(lastTick)
      ensures queue == if Expired() then Flat(again, |old(queue)|) else []
      ensures settled == old(settled)
                + Served(old(queue), again, |old(queue)|, now, if aborted then Aborted else Sent, !Expired())
    {
      ReleaseEffect(View(), again, aborted);
      WorkOff(aborted, again);
    }

    /** Works off a snapshot of the queue, the handlers of each settled request running in between. */
    method WorkOff(aborted: bool, again: seq<seq<Id>>)
      modifies this
      ensures View() == AfterRelease(old(View()), again, aborted)
    {
      var pending := queue;
      ghost var before := View();
      for i := 0 to |pending|
        invariant View() == AfterReleaseFirst(before, again, i, aborted)
      {
        ReleaseFirstNext(before, View(), again, i, aborted);
        Turn(pending[i], HandlerOf(again, i), aborted);
      }
    }

    method Turn(id: Id, ids: seq<Id>, aborted: bool)
      modifies this
      ensures View() == AfterTurn(old(View()), id, ids, aborted)
    {
      ReleaseOne(id, aborted);
      GateEach(ids);
    }

    method GateEach(ids: seq<Id>)
      modifies this
      ensures View() == AfterGateEach(old(View()), ids)
    {
      for i := 0 to |ids|
        invariant View() == AfterGateEach(old(View()), ids[..i])
      {
        Gate(ids[i]);
        assert ids[..i + 1][..i] == ids[..i];
      }
      assert ids[..|ids|] == ids;
    }

    method Gate(id: Id)
      modifies this
      ensures View() == AfterGate(old(View()), id)
      ensures now == old(now) && loadedAt == old(loadedAt) && ttl == old(ttl) && lastTick == old(lastTick)
      ensures issued == old(issued)[id := now]
      ensures if Expired() then queue == old(queue) + [id] && settled == old(settled)
              else queue == old(queue) && settled == old(settled) + [Settlement(id, now, Sent)]
      ensures timers == if Expired() then old(timers)[id := now + MAX_QUEUE_WAIT_MS] else old(timers)
      ensures solver == if old(solver).Some? || !Due() then old(solver) else Some(now)
    {
      issued := issued[id := now];
      if !Expired() {
        if Due() { Renew(); }
        Done(id, false);
        return;
      }
      queue := queue + [id];
      timers := timers[id := now + MAX_QUEUE_WAIT_MS];
      Renew();
    }

    method Heartbeat()
      modifies this`lastTick, this`solver
      ensures View() == AfterTick(old(View()))
      ensures lastTick == now && solver == if old(solver).Some? || !Due() then old(solver) else Some(now)
    {
      var elapsed := now - lastTick;
      lastTick := now;
      if elapsed > SLEEP_SLACK_MS {
        if Expired() || Due() { Renew(); }
        return;
      }
      if Expired() { Renew(); }
      else if Due() { Renew(); }
    }

    /** A live session is left with nothing held: what was held is sent, and what handlers issue as well. */
    method Renewed(newTtl: int, again: seq<seq<Id>>)
      modifies this
      ensures View() == AfterRenewOk(old(View()), newTtl, again)
      ensures now == old(now) && loadedAt == now && ttl == newTtl && solver.None?
      ensures queue == if newTtl > 0 then [] else Flat(again, |old(queue)|)
      ensures settled == old(settled) + Served(old(queue), again, |old(queue)|, now, Sent, newTtl > 0)
    {
      loadedAt := now;
      ttl := newTtl;
      Release(false, again);
      solver := None;
    }

    /** On an expired session every held request is aborted, in order, and only what handlers issued is held. */
    method Failed(again: seq<seq<Id>>)
      modifies this
      ensures View() == AfterRenewFail(old(View()), again)
      ensures solver.None?
      ensures old(Expired()) ==>
                && queue == Flat(again, |old(queue)|)
                && settled == old(settled) + Marks(old(queue), old(now), Aborted)
    {
      if Expired() { ReleaseWhenExpired(View(), again, true); }
      Release(true, again);
      solver := None;
    }

    method TimerFires(id: Id)
      modifies this`queue, this`settled, this`timers
      ensures View() == AfterTimeout(old(View()), id)
      ensures settled == old(settled) + if id in old(queue) then [Settlement(id, now, Aborted)] else []
      ensures id !in old(queue) ==> queue == old(queue)
      ensures id in old(queue) ==> exists at: nat ::
                at < |old(queue)| && old(queue)[at] == id && queue == old(queue)[..at] + old(queue)[at + 1..]
    {
      timers := timers - {id};
      ReleaseOne(id, true);
    }
  }
}
