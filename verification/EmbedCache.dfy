/**
 The two-tier metadata cache with single-flight fetch, as a small-step machine.

 Any number of `load` tasks run in any number of processes. Each process has its own local
 map and its own map of fetch locks; all processes share Redis. One action of the machine is
 one atomic step of one task, or a step of the environment: time passes, Redis drops an entry,
 a task's future is dropped. Redis may hit, miss or fail at will, an origin fetch may fail or
 yield any metadata, and a `SET` may be applied or lost.

 `fetches` and `answers` are history variables: they record what happened and influence
 nothing. A fetch is identified by its position in `fetches`.
 */
module EmbedCache {
  import opened Common
  import opened EmbedMeta

  type Proc = nat
  type TaskId = nat
  type LockId = nat
  type FetchId = nat
  type Time = int

  /** Five minutes, in milliseconds: the lifetime of a local entry and of a Redis entry. */
  const CACHE_TTL := 300_000

  /** A cache entry of one process. */
  datatype Slot = Slot(proc: Proc, key: string)

  /** A shared metadata value, tagged with the fetch that produced it. */
  datatype Value = Value(origin: FetchId, meta: Meta)

  /** A local entry. `readAt` is history: when the copy was read from Redis, if it was. */
  datatype Cached = Cached(value: Value, fetched: Time, readAt: Option<Time>)

  datatype RedisEntry = RedisEntry(origin: FetchId, cached: CachedMeta, expires: Time)

  datatype Pc =
    | CheckLocal
    | ReadRedis
    | StoreCopy(copy: Value, readAt: Time)
    | ResolveLock
    | AwaitLock(lock: LockId)
    | Recheck(lock: LockId)
    | RereadRedis(lock: LockId)
    | StoreCopyLocked(lock: LockId, copy: Value, readAt: Time)
    | Fetching(lock: LockId, fetch: FetchId)
    | StoreFetched(lock: LockId, value: Value)
    | WriteRedis(lock: LockId, value: Value)
    | AwaitReply(lock: LockId, value: Value)
    | Finished
  {
    predicate Holds() {
      Recheck? || RereadRedis? || StoreCopyLocked? || Fetching? || StoreFetched? || WriteRedis? || AwaitReply?
    }
  }

  datatype Task = Task(slot: Slot, redis: bool, fetchOnMiss: bool, pc: Pc)

  /** One origin fetch: who ran it, and when it began, reached the local map and reached Redis. */
  datatype FetchRec = FetchRec(
    slot: Slot, task: TaskId, started: Time,
    result: Option<Meta>, stored: Option<Time>, written: Option<Time>)

  datatype Via =
    | OwnFetch
    | RedisCopy(readAt: Time)
    | LocalCopy(storedAt: Time, copiedAt: Option<Time>)

  datatype Answer = Answer(slot: Slot, task: TaskId, value: Value, at: Time, via: Via)

  datatype State = State(
    now: Time,
    tasks: map<TaskId, Task>,
    local: map<Slot, Cached>,
    inflight: map<Slot, LockId>,
    holder: map<LockId, TaskId>,
    locks: nat,
    redis: map<string, RedisEntry>,
    fetches: seq<FetchRec>,
    answers: seq<Answer>)

  /** What the environment decides when a task takes a step. */
  datatype Env = Env(redisAnswers: bool, origin: Option<Meta>, applied: bool)

  datatype Action =
    | Advance(delta: nat)
    | Evict(key: string)
    | Spawn(id: TaskId, slot: Slot, redis: bool, fetchOnMiss: bool)
    | Cancel(id: TaskId)
    | Step(id: TaskId, env: Env)

  // ---------------------------------------------------------------- local tier

  /** `local_get`: the entry, if it is younger than the window. */
  function LocalHit<K>(m: map<K, Cached>, k: K, now: Time): Option<Cached> {
    if k in m && now - m[k].fetched < CACHE_TTL then Some(m[k]) else None
  }

  /** `local_get` also drops an entry it finds too old. */
  function LocalSwept<K>(m: map<K, Cached>, k: K, now: Time): map<K, Cached> {
    if k in m && now - m[k].fetched >= CACHE_TTL then m - {k} else m
  }

  // ---------------------------------------------------------------- steps

  function Goto(s: State, id: TaskId, pc: Pc): State
    requires id in s.tasks
  {
    s.(tasks := s.tasks[id := s.tasks[id].(pc := pc)])
  }

  /** The task's future ends: the guard it may hold is dropped. */
  function Finish(s: State, id: TaskId): (r: State)
    requires id in s.tasks
    ensures r.now == s.now && r.redis == s.redis && r.fetches == s.fetches
  {
    var pc := s.tasks[id].pc;
    Goto(if pc.Holds() then s.(holder := s.holder - {pc.lock}) else s, id, Finished)
  }

  function Reply(s: State, id: TaskId, v: Value, via: Via): (r: State)
    requires id in s.tasks
    ensures r.now == s.now && r.redis == s.redis && r.fetches == s.fetches
  {
    Finish(s.(answers := s.answers + [Answer(s.tasks[id].slot, id, v, s.now, via)]), id)
  }

  function RedisRead(s: State, key: string, env: Env): Option<Value> {
    if env.redisAnswers && key in s.redis && s.now < s.redis[key].expires
    then Some(Value(s.redis[key].origin, IntoMeta(s.redis[key].cached)))
    else None
  }

  function AfterRedisMiss(s: State, id: TaskId): (r: State)
    requires id in s.tasks
    ensures r.now == s.now && r.redis == s.redis && r.fetches == s.fetches
  {
    if s.tasks[id].fetchOnMiss then Goto(s, id, ResolveLock) else Finish(s, id)
  }

  function BeginFetch(s: State, id: TaskId, lock: LockId): State
    requires id in s.tasks
  {
    Goto(s.(fetches := s.fetches + [FetchRec(s.tasks[id].slot, id, s.now, None, None, None)]),
         id, Fetching(lock, |s.fetches|))
  }

  /** The fetched value enters the local map; the record notes when. */
  function StoreOwn(s: State, id: TaskId): State
    requires id in s.tasks && s.tasks[id].pc.StoreFetched? && s.tasks[id].pc.value.origin < |s.fetches|
  {
    var v := s.tasks[id].pc.value;
    Goto(s.(local := s.local[s.tasks[id].slot := Cached(v, s.now, None)],
            fetches := s.fetches[v.origin := s.fetches[v.origin].(stored := Some(s.now))]),
         id, WriteRedis(s.tasks[id].pc.lock, v))
  }

  ghost predicate Enabled(s: State, a: Action) {
    match a
    case Advance(_) => true
    case Evict(_) => true
    case Spawn(id, _, _, _) => id !in s.tasks
    case Cancel(id) => id in s.tasks && s.tasks[id].pc != Finished
    case Step(id, env) =>
      && id in s.tasks
      && (match s.tasks[id].pc
          case AwaitLock(lock) => lock !in s.holder
          case Fetching(_, f) => f < |s.fetches| && (env.origin.Some? ==> Fetched(env.origin.value))
          case StoreFetched(_, v) => v.origin < |s.fetches|
          case WriteRedis(_, v) => v.origin < |s.fetches|
          case Finished => false
          case _ => true)
  }

  /** The fetched value enters Redis for one window; the record notes when. */
  function WriteOwn(s: State, id: TaskId): State
    requires id in s.tasks && s.tasks[id].pc.WriteRedis? && s.tasks[id].pc.value.origin < |s.fetches|
  {
    var v := s.tasks[id].pc.value;
    Goto(s.(redis := s.redis[s.tasks[id].slot.key := RedisEntry(v.origin, ToCached(v.meta), s.now + CACHE_TTL)],
            fetches := s.fetches[v.origin := s.fetches[v.origin].(written := Some(s.now))]),
         id, AwaitReply(s.tasks[id].pc.lock, v))
  }

  /** The steps of `load` up to the fetch lock. */
  function StepUnlocked(s: State, id: TaskId, env: Env): (r: State)
    requires id in s.tasks && !s.tasks[id].pc.Holds() && Enabled(s, Step(id, env))
    ensures r.now == s.now && r.redis == s.redis && r.fetches == s.fetches
  {
    var t := s.tasks[id];
    match t.pc
    case CheckLocal =>
      (match LocalHit(s.local, t.slot, s.now)
       case Some(c) => Reply(s, id, c.value, LocalCopy(c.fetched, c.readAt))
       case None =>
         var s1 := s.(local := LocalSwept(s.local, t.slot, s.now));
         if t.redis then Goto(s1, id, ReadRedis) else AfterRedisMiss(s1, id))
    case ReadRedis =>
      (match RedisRead(s, t.slot.key, env)
       case Some(v) => Goto(s, id, StoreCopy(v, s.now))
       case None => AfterRedisMiss(s, id))
    case StoreCopy(v, readAt) =>
      Reply(s.(local := s.local[t.slot := Cached(v, s.now, Some(readAt))]), id, v, RedisCopy(readAt))
    case ResolveLock =>
      if t.slot in s.inflight then Goto(s, id, AwaitLock(s.inflight[t.slot]))
      else Goto(s.(inflight := s.inflight[t.slot := s.locks], locks := s.locks + 1), id, AwaitLock(s.locks))
    case AwaitLock(lock) =>
      Goto(s.(holder := s.holder[lock := id]), id, Recheck(lock))
  }

  /** The steps of `load` under the fetch lock. */
  function StepLocked(s: State, id: TaskId, env: Env): (r: State)
    requires id in s.tasks && s.tasks[id].pc.Holds() && Enabled(s, Step(id, env))
    ensures r.now == s.now
    ensures !s.tasks[id].pc.WriteRedis? ==> r.redis == s.redis
    ensures s.tasks[id].pc.Recheck? || s.tasks[id].pc.RereadRedis? ==> s.fetches <= r.fetches
    ensures s.tasks[id].pc.StoreCopyLocked? || s.tasks[id].pc.AwaitReply? ==> r.fetches == s.fetches
  {
    var t := s.tasks[id];
    match t.pc
    case Recheck(lock) =>
      (match LocalHit(s.local, t.slot, s.now)
       case Some(c) => Reply(s, id, c.value, LocalCopy(c.fetched, c.readAt))
       case None =>
         var s1 := s.(local := LocalSwept(s.local, t.slot, s.now));
         if t.redis then Goto(s1, id, RereadRedis(lock)) else BeginFetch(s1, id, lock))
    case RereadRedis(lock) =>
      (match RedisRead(s, t.slot.key, env)
       case Some(v) => Goto(s, id, StoreCopyLocked(lock, v, s.now))
       case None => BeginFetch(s, id, lock))
    case StoreCopyLocked(lock, v, readAt) =>
      Reply(s.(local := s.local[t.slot := Cached(v, s.now, Some(readAt))]), id, v, RedisCopy(readAt))
    case Fetching(lock, f) =>
      (match env.origin
       case Some(m) =>
         Goto(s.(fetches := s.fetches[f := s.fetches[f].(result := Some(m))]), id, StoreFetched(lock, Value(f, m)))
       case None => Finish(s, id))
    case StoreFetched(lock, v) =>
      if t.redis then StoreOwn(s, id) else Reply(StoreOwn(s, id), id, v, OwnFetch)
    case WriteRedis(lock, v) =>
      if env.applied then WriteOwn(s, id) else Goto(s, id, AwaitReply(lock, v))
    case AwaitReply(lock, v) =>
      Reply(s, id, v, OwnFetch)
  }

  /** One step of `load`, by program point. */
  function StepTask(s: State, id: TaskId, env: Env): State
    requires Enabled(s, Step(id, env))
  {
    if s.tasks[id].pc.Holds() then StepLocked(s, id, env) else StepUnlocked(s, id, env)
  }

  function Apply(s: State, a: Action): State
    requires Enabled(s, a)
  {
    match a
    case Advance(d) => s.(now := s.now + d)
    case Evict(k) => s.(redis := s.redis - {k})
    case Spawn(id, slot, redis, fetchOnMiss) => s.(tasks := s.tasks[id := Task(slot, redis, fetchOnMiss, CheckLocal)])
    case Cancel(id) => Finish(s, id)
    case Step(id, env) => StepTask(s, id, env)
  }

  function Init(now: Time): State {
    State(now, map[], map[], map[], map[], 0, map[], [], [])
  }

  ghost predicate Legal(s: State, run: seq<Action>)
    decreases |run|
  {
    run == [] || (Enabled(s, run[0]) && Legal(Apply(s, run[0]), run[1..]))
  }

  function Exec(s: State, run: seq<Action>): State
    requires Legal(s, run)
    decreases |run|
  {
    if run == [] then s else Exec(Apply(s, run[0]), run[1..])
  }

  // ---------------------------------------------------------------- invariant

  /** `v` is exactly what some origin fetch for `key` produced. */
  ghost predicate FromOrigin(fs: seq<FetchRec>, key: string, v: Value) {
    v.origin < |fs| && fs[v.origin].slot.key == key && fs[v.origin].result == Some(v.meta)
  }

  /** `v` was read from Redis at `r`, inside the window that its one write opened. */
  ghost predicate ReadInWindow(fs: seq<FetchRec>, key: string, v: Value, r: Time) {
    && FromOrigin(fs, key, v)
    && fs[v.origin].written.Some?
    && fs[v.origin].written.value <= r < fs[v.origin].written.value + CACHE_TTL
  }

  ghost predicate CopyOk(fs: seq<FetchRec>, slot: Slot, c: Cached) {
    && FromOrigin(fs, slot.key, c.value)
    && (c.readAt.None? ==> fs[c.value.origin].slot == slot && fs[c.value.origin].stored == Some(c.fetched))
    && (c.readAt.Some? ==> ReadInWindow(fs, slot.key, c.value, c.readAt.value) && c.readAt.value <= c.fetched)
  }

  /** Locks are never replaced, so holding one excludes every other task of the slot. */
  ghost predicate LockInv(tasks: map<TaskId, Task>, inflight: map<Slot, LockId>, holder: map<LockId, TaskId>) {
    forall id | id in tasks ::
      && (tasks[id].pc.AwaitLock? || tasks[id].pc.Holds() ==>
            tasks[id].slot in inflight && inflight[tasks[id].slot] == tasks[id].pc.lock)
      && (tasks[id].pc.Holds() ==> tasks[id].pc.lock in holder && holder[tasks[id].pc.lock] == id)
  }

  ghost predicate LocalInv(local: map<Slot, Cached>, fs: seq<FetchRec>, now: Time) {
    forall slot | slot in local :: local[slot].fetched <= now && CopyOk(fs, slot, local[slot])
  }

  ghost predicate EntryOk(fs: seq<FetchRec>, key: string, e: RedisEntry, now: Time) {
    && e.origin < |fs|
    && fs[e.origin].slot.key == key
    && fs[e.origin].result.Some? && Fetched(fs[e.origin].result.value)
    && e.cached == ToCached(fs[e.origin].result.value)
    && fs[e.origin].written == Some(e.expires - CACHE_TTL)
    && e.expires - CACHE_TTL <= now
  }

  ghost predicate RedisInv(redis: map<string, RedisEntry>, fs: seq<FetchRec>, now: Time) {
    forall k | k in redis :: EntryOk(fs, k, redis[k], now)
  }

  /** A fetch in hand belongs to the task that started it and is the last one of its slot. */
  ghost predicate Current(fs: seq<FetchRec>, id: TaskId, slot: Slot, f: FetchId) {
    && f < |fs|
    && fs[f].slot == slot && fs[f].task == id && fs[f].written.None?
    && (forall g | f < g < |fs| :: fs[g].slot != slot)
  }

  ghost predicate OwnValue(fs: seq<FetchRec>, id: TaskId, slot: Slot, v: Value) {
    FromOrigin(fs, slot.key, v) && fs[v.origin].task == id && Fetched(v.meta)
  }

  ghost predicate TaskOk(fs: seq<FetchRec>, id: TaskId, t: Task, now: Time) {
    match t.pc
    case StoreCopy(v, r) => ReadInWindow(fs, t.slot.key, v, r) && r <= now
    case StoreCopyLocked(_, v, r) => ReadInWindow(fs, t.slot.key, v, r) && r <= now
    case Fetching(_, f) => Current(fs, id, t.slot, f) && fs[f].result.None? && fs[f].stored.None?
    case StoreFetched(_, v) => Current(fs, id, t.slot, v.origin) && OwnValue(fs, id, t.slot, v) && fs[v.origin].stored.None?
    case WriteRedis(_, v) => Current(fs, id, t.slot, v.origin) && OwnValue(fs, id, t.slot, v)
    case AwaitReply(_, v) => OwnValue(fs, id, t.slot, v)
    case RereadRedis(_) => AllOver(fs, t.slot, now)
    case _ => true
  }

  ghost predicate TasksInv(tasks: map<TaskId, Task>, fs: seq<FetchRec>, now: Time) {
    forall id | id in tasks :: TaskOk(fs, id, tasks[id], now)
  }

  /** Every fetch stored for the slot is a whole window in the past. */
  ghost predicate AllOver(fs: seq<FetchRec>, slot: Slot, now: Time) {
    forall f: nat | f < |fs| ::
      fs[f].slot == slot && fs[f].stored.Some? ==> now >= fs[f].stored.value + CACHE_TTL
  }

  /** Until its window is over, a stored fetch keeps some entry in the local map. */
  ghost predicate ShieldInv(local: map<Slot, Cached>, fs: seq<FetchRec>, now: Time) {
    forall f: nat | f < |fs| ::
      fs[f].stored.Some? ==>
        && fs[f].stored.value <= now
        && (|| now >= fs[f].stored.value + CACHE_TTL
            || (fs[f].slot in local && local[fs[f].slot].fetched >= fs[f].stored.value))
  }

  /** A fetch starts at least a whole window after any earlier one of its slot was stored. */
  ghost predicate Spaced(fs: seq<FetchRec>) {
    forall f: nat, g: nat | f < g < |fs| ::
      fs[f].slot == fs[g].slot && fs[f].stored.Some? ==> fs[g].started >= fs[f].stored.value + CACHE_TTL
  }

  ghost predicate AnswerOk(fs: seq<FetchRec>, a: Answer) {
    && FromOrigin(fs, a.slot.key, a.value)
    && match a.via
       case OwnFetch => fs[a.value.origin].task == a.task
       case RedisCopy(r) => ReadInWindow(fs, a.slot.key, a.value, r) && r <= a.at
       case LocalCopy(f, r) => CopyOk(fs, a.slot, Cached(a.value, f, r)) && f <= a.at < f + CACHE_TTL
  }

  ghost predicate AnswersInv(answers: seq<Answer>, fs: seq<FetchRec>) {
    forall i | 0 <= i < |answers| :: AnswerOk(fs, answers[i])
  }

  ghost predicate Inv(s: State) {
    && LockInv(s.tasks, s.inflight, s.holder)
    && LocalInv(s.local, s.fetches, s.now)
    && RedisInv(s.redis, s.fetches, s.now)
    && TasksInv(s.tasks, s.fetches, s.now)
    && ShieldInv(s.local, s.fetches, s.now)
    && Spaced(s.fetches)
    && AnswersInv(s.answers, s.fetches)
  }

  // ---------------------------------------------------------------- preservation

  /** Fetch records only gain information. */
  ghost predicate Grows(fs: seq<FetchRec>, fs': seq<FetchRec>) {
    && |fs| <= |fs'|
    && forall f | 0 <= f < |fs| ::
         && fs'[f].slot == fs[f].slot && fs'[f].task == fs[f].task && fs'[f].started == fs[f].started
         && (fs[f].result.Some? ==> fs'[f].result == fs[f].result)
         && (fs[f].stored.Some? ==> fs'[f].stored == fs[f].stored)
         && (fs[f].written.Some? ==> fs'[f].written == fs[f].written)
  }

  /** What is known of copies, entries and answers stays true as records grow and time passes. */
  lemma GrowthKeeps(s: State, fs: seq<FetchRec>)
    requires Inv(s) && Grows(s.fetches, fs)
    ensures LocalInv(s.local, fs, s.now)
    ensures RedisInv(s.redis, fs, s.now)
    ensures AnswersInv(s.answers, fs)
  {
  }

  /** Holding the lock of a slot excludes every other task from it. */
  lemma OneHolder(s: State, a: TaskId, b: TaskId)
    requires Inv(s)
    requires a in s.tasks && b in s.tasks && s.tasks[a].slot == s.tasks[b].slot
    requires s.tasks[a].pc.Holds() && s.tasks[b].pc.Holds()
    ensures a == b
  {
  }

  lemma FinishKeeps(s: State, id: TaskId)
    requires Inv(s) && id in s.tasks
    ensures Inv(Finish(s, id))
  {
  }

  lemma ReplyKeeps(s: State, id: TaskId, v: Value, via: Via)
    requires Inv(s) && id in s.tasks
    requires AnswerOk(s.fetches, Answer(s.tasks[id].slot, id, v, s.now, via))
    ensures Inv(Reply(s, id, v, via))
  {
    FinishKeeps(s.(answers := s.answers + [Answer(s.tasks[id].slot, id, v, s.now, via)]), id);
  }

  /** Moving to a program point with nothing to prove, or with its obligation already met. */
  lemma GotoKeeps(s: State, id: TaskId, pc: Pc)
    requires Inv(s) && id in s.tasks
    requires TaskOk(s.fetches, id, s.tasks[id].(pc := pc), s.now)
    requires pc.AwaitLock? ==> s.tasks[id].slot in s.inflight && s.inflight[s.tasks[id].slot] == pc.lock
    requires pc.Holds() ==> s.tasks[id].pc.Holds() && s.tasks[id].pc.lock == pc.lock
    ensures Inv(Goto(s, id, pc))
  {
  }

  /** A task that misses locally leaves nothing fresh behind. */
  lemma MissKeeps(s: State, slot: Slot)
    requires Inv(s) && LocalHit(s.local, slot, s.now).None?
    ensures Inv(s.(local := LocalSwept(s.local, slot, s.now)))
    ensures AllOver(s.fetches, slot, s.now)
  {
  }

  lemma StoreCopyKeeps(s: State, slot: Slot, v: Value, r: Time)
    requires Inv(s) && ReadInWindow(s.fetches, slot.key, v, r) && r <= s.now
    ensures Inv(s.(local := s.local[slot := Cached(v, s.now, Some(r))]))
  {
  }

  lemma BeginKeeps(s: State, id: TaskId, lock: LockId)
    requires Inv(s) && id in s.tasks && s.tasks[id].pc.Holds() && s.tasks[id].pc.lock == lock
    requires AllOver(s.fetches, s.tasks[id].slot, s.now)
    ensures Inv(BeginFetch(s, id, lock))
  {
    var s' := BeginFetch(s, id, lock);
    GrowthKeeps(s, s'.fetches);
    forall x | x in s'.tasks ensures TaskOk(s'.fetches, x, s'.tasks[x], s'.now) {
      if x != id && s.tasks[x].pc.Holds() && s.tasks[x].slot == s.tasks[id].slot { OneHolder(s, x, id); }
    }
  }

  /** A task that adds to its own fetch record disturbs no other task. */
  lemma OthersKeep(s: State, id: TaskId, f: FetchId, rec: FetchRec, x: TaskId)
    requires Inv(s) && id in s.tasks && s.tasks[id].pc.Holds() && Current(s.fetches, id, s.tasks[id].slot, f)
    requires Grows(s.fetches, s.fetches[f := rec])
    requires x in s.tasks && x != id
    ensures TaskOk(s.fetches[f := rec], x, s.tasks[x], s.now)
  {
  }

  /** What a task's addition to its own record, and its move to `pc`, keep by themselves. */
  lemma OwnUpdateKeeps(s: State, id: TaskId, f: FetchId, rec: FetchRec, pc: Pc)
    requires Inv(s) && id in s.tasks && s.tasks[id].pc.Holds() && Current(s.fetches, id, s.tasks[id].slot, f)
    requires pc.Holds() && pc.lock == s.tasks[id].pc.lock
    requires Grows(s.fetches, s.fetches[f := rec])
    requires TaskOk(s.fetches[f := rec], id, s.tasks[id].(pc := pc), s.now)
    ensures var fs, tasks := s.fetches[f := rec], s.tasks[id := s.tasks[id].(pc := pc)];
            && LockInv(tasks, s.inflight, s.holder) && TasksInv(tasks, fs, s.now)
            && LocalInv(s.local, fs, s.now) && RedisInv(s.redis, fs, s.now) && AnswersInv(s.answers, fs)
            && Spaced(fs)
  {
    GrowthKeeps(s, s.fetches[f := rec]);
    forall x | x in s.tasks && x != id ensures TaskOk(s.fetches[f := rec], x, s.tasks[x], s.now) {
      OthersKeep(s, id, f, rec, x);
    }
  }

  /** The origin answered: the record gains its result. */
  lemma FetchedKeeps(s: State, id: TaskId, m: Meta)
    requires Inv(s) && id in s.tasks && s.tasks[id].pc.Fetching? && Fetched(m)
    ensures var pc := s.tasks[id].pc;
            pc.fetch < |s.fetches| &&
            Inv(Goto(s.(fetches := s.fetches[pc.fetch := s.fetches[pc.fetch].(result := Some(m))]),
                     id, StoreFetched(pc.lock, Value(pc.fetch, m))))
  {
    var pc := s.tasks[id].pc;
    assert TaskOk(s.fetches, id, s.tasks[id], s.now);
    OwnUpdateKeeps(s, id, pc.fetch, s.fetches[pc.fetch].(result := Some(m)), StoreFetched(pc.lock, Value(pc.fetch, m)));
  }

  /** The fetched value reaches the local map: the record gains its store time. */
  lemma StoreOwnKeeps(s: State, id: TaskId)
    requires Inv(s) && id in s.tasks && s.tasks[id].pc.StoreFetched?
    ensures s.tasks[id].pc.value.origin < |s.fetches|
    ensures Inv(StoreOwn(s, id))
  {
    var t, v := s.tasks[id], s.tasks[id].pc.value;
    assert TaskOk(s.fetches, id, t, s.now);
    var rec := s.fetches[v.origin].(stored := Some(s.now));
    OwnUpdateKeeps(s, id, v.origin, rec, WriteRedis(t.pc.lock, v));
    StoreShields(s, t.slot, v, rec);
  }

  /** A value stored now shields itself and, being newer, everything stored before it. */
  lemma StoreShields(s: State, slot: Slot, v: Value, rec: FetchRec)
    requires ShieldInv(s.local, s.fetches, s.now) && v.origin < |s.fetches|
    requires rec == s.fetches[v.origin].(stored := Some(s.now)) && rec.slot == slot
    ensures ShieldInv(s.local[slot := Cached(v, s.now, None)], s.fetches[v.origin := rec], s.now)
  {
  }

  /** The value reaches Redis: the record gains its write time. */
  lemma WriteOwnKeeps(s: State, id: TaskId)
    requires Inv(s) && id in s.tasks && s.tasks[id].pc.WriteRedis?
    ensures s.tasks[id].pc.value.origin < |s.fetches|
    ensures Inv(WriteOwn(s, id))
  {
    var t, v := s.tasks[id], s.tasks[id].pc.value;
    assert TaskOk(s.fetches, id, t, s.now);
    OwnUpdateKeeps(s, id, v.origin, s.fetches[v.origin].(written := Some(s.now)), AwaitReply(t.pc.lock, v));
  }

  lemma ReadKeeps(s: State, id: TaskId, env: Env)
    requires Inv(s) && id in s.tasks && RedisRead(s, s.tasks[id].slot.key, env).Some?
    ensures ReadInWindow(s.fetches, s.tasks[id].slot.key, RedisRead(s, s.tasks[id].slot.key, env).value, s.now)
  {
    var key := s.tasks[id].slot.key;
    RedisRoundTrip(s.fetches[s.redis[key].origin].result.value);
  }

  /** The two local checks: a hit is answered, a miss goes on to Redis or to the fetch. */
  lemma CheckStepKeeps(s: State, id: TaskId, env: Env)
    requires Inv(s) && Enabled(s, Step(id, env)) && (s.tasks[id].pc.CheckLocal? || s.tasks[id].pc.Recheck?)
    ensures Inv(StepTask(s, id, env))
  {
    var t, c := s.tasks[id], LocalHit(s.local, s.tasks[id].slot, s.now);
    if c.Some? {
      ReplyKeeps(s, id, c.value.value, LocalCopy(c.value.fetched, c.value.readAt));
    } else {
      MissKeeps(s, t.slot);
      var s1 := s.(local := LocalSwept(s.local, t.slot, s.now));
      if t.pc.CheckLocal? { MissRedisKeeps(s1, id); }
      else if t.redis { GotoKeeps(s1, id, RereadRedis(t.pc.lock)); }
      else { BeginKeeps(s1, id, t.pc.lock); }
    }
  }

  /** The two Redis reads. */
  lemma ReadStepKeeps(s: State, id: TaskId, env: Env)
    requires Inv(s) && Enabled(s, Step(id, env)) && (s.tasks[id].pc.ReadRedis? || s.tasks[id].pc.RereadRedis?)
    ensures Inv(StepTask(s, id, env))
  {
    var t, v := s.tasks[id], RedisRead(s, s.tasks[id].slot.key, env);
    assert TaskOk(s.fetches, id, t, s.now);
    if v.Some? {
      ReadKeeps(s, id, env);
      GotoKeeps(s, id, if t.pc.ReadRedis? then StoreCopy(v.value, s.now) else StoreCopyLocked(t.pc.lock, v.value, s.now));
    } else if t.pc.ReadRedis? {
      MissRedisKeeps(s, id);
    } else {
      BeginKeeps(s, id, t.pc.lock);
    }
  }

  /** The two local stores of a Redis copy. */
  lemma CopyStepKeeps(s: State, id: TaskId, env: Env)
    requires Inv(s) && Enabled(s, Step(id, env)) && (s.tasks[id].pc.StoreCopy? || s.tasks[id].pc.StoreCopyLocked?)
    ensures Inv(StepTask(s, id, env))
  {
    var t, v, r := s.tasks[id], s.tasks[id].pc.copy, s.tasks[id].pc.readAt;
    assert TaskOk(s.fetches, id, t, s.now);
    StoreCopyKeeps(s, t.slot, v, r);
    ReplyKeeps(s.(local := s.local[t.slot := Cached(v, s.now, Some(r))]), id, v, RedisCopy(r));
  }

  /** The steps after a fetch. */
  lemma FetchStepKeeps(s: State, id: TaskId, env: Env)
    requires Inv(s) && Enabled(s, Step(id, env))
    requires s.tasks[id].pc.Fetching? || s.tasks[id].pc.WriteRedis? || s.tasks[id].pc.AwaitReply?
    ensures Inv(StepTask(s, id, env))
  {
    var t := s.tasks[id];
    assert TaskOk(s.fetches, id, t, s.now);
    match t.pc
    case Fetching(_, _) =>
      if env.origin.Some? { FetchedKeeps(s, id, env.origin.value); } else { FinishKeeps(s, id); }
    case WriteRedis(lock, v) =>
      if env.applied { WriteOwnKeeps(s, id); } else { GotoKeeps(s, id, AwaitReply(lock, v)); }
    case AwaitReply(_, v) => ReplyKeeps(s, id, v, OwnFetch);
  }

  lemma MissRedisKeeps(s: State, id: TaskId)
    requires Inv(s) && id in s.tasks
    ensures Inv(Goto(s, id, ReadRedis)) && Inv(AfterRedisMiss(s, id))
  {
    GotoKeeps(s, id, ReadRedis);
    GotoKeeps(s, id, ResolveLock);
    FinishKeeps(s, id);
  }

  lemma ResolveKeeps(s: State, id: TaskId, env: Env)
    requires Inv(s) && Enabled(s, Step(id, env)) && s.tasks[id].pc.ResolveLock?
    ensures Inv(StepTask(s, id, env))
  {
    var slot := s.tasks[id].slot;
    if slot in s.inflight {
      GotoKeeps(s, id, AwaitLock(s.inflight[slot]));
    } else {
      GotoKeeps(s.(inflight := s.inflight[slot := s.locks], locks := s.locks + 1), id, AwaitLock(s.locks));
    }
  }

  lemma AcquireKeeps(s: State, id: TaskId, env: Env)
    requires Inv(s) && Enabled(s, Step(id, env)) && s.tasks[id].pc.AwaitLock?
    ensures Inv(StepTask(s, id, env))
  {
  }

  /** Storing an own fetch, with or without Redis behind it. */
  lemma StoreStepKeeps(s: State, id: TaskId, env: Env)
    requires Inv(s) && Enabled(s, Step(id, env)) && s.tasks[id].pc.StoreFetched?
    ensures Inv(StepTask(s, id, env))
  {
    StoreOwnKeeps(s, id);
    var s1, v := StoreOwn(s, id), s.tasks[id].pc.value;
    if !s.tasks[id].redis {
      assert TaskOk(s1.fetches, id, s1.tasks[id], s1.now);
      ReplyKeeps(s1, id, v, OwnFetch);
    }
  }

  /** Every step of every task, and of the environment, keeps the invariant. */
  lemma ApplyKeeps(s: State, a: Action)
    requires Inv(s) && Enabled(s, a)
    ensures Inv(Apply(s, a))
  {
    match a
    case Advance(d) => AdvanceKeeps(s, d);
    case Evict(_) =>
    case Spawn(_, _, _, _) =>
    case Cancel(id) => FinishKeeps(s, id);
    case Step(id, env) =>
      var pc := s.tasks[id].pc;
      if pc.CheckLocal? || pc.Recheck? { CheckStepKeeps(s, id, env); }
      else if pc.ReadRedis? || pc.RereadRedis? { ReadStepKeeps(s, id, env); }
      else if pc.StoreCopy? || pc.StoreCopyLocked? { CopyStepKeeps(s, id, env); }
      else if pc.ResolveLock? { ResolveKeeps(s, id, env); }
      else if pc.AwaitLock? { AcquireKeeps(s, id, env); }
      else if pc.StoreFetched? { StoreStepKeeps(s, id, env); }
      else { FetchStepKeeps(s, id, env); }
  }

  lemma AdvanceKeeps(s: State, d: nat)
    requires Inv(s)
    ensures Inv(s.(now := s.now + d))
  {
  }

  lemma {:induction false} RunKeeps(s: State, run: seq<Action>)
    requires Inv(s) && Legal(s, run)
    ensures Inv(Exec(s, run))
    decreases |run|
  {
    if run != [] {
      ApplyKeeps(s, run[0]);
      RunKeeps(Apply(s, run[0]), run[1..]);
    }
  }

  // ---------------------------------------------------------------- theorems

  /** In every run, at most one origin fetch for a key is in progress in a process. */
  lemma SingleFlight(start: Time, run: seq<Action>, a: TaskId, b: TaskId)
    requires Legal(Init(start), run)
    requires var s := Exec(Init(start), run);
             a in s.tasks && b in s.tasks && s.tasks[a].slot == s.tasks[b].slot
             && s.tasks[a].pc.Fetching? && s.tasks[b].pc.Fetching?
    ensures a == b
  {
    RunKeeps(Init(start), run);
    OneHolder(Exec(Init(start), run), a, b);
  }

  /** In every run, a stored fetch keeps the origin untouched by its process for a whole window. */
  lemma FetchesSpaced(start: Time, run: seq<Action>, f: FetchId, g: FetchId)
    requires Legal(Init(start), run)
    requires var fs := Exec(Init(start), run).fetches;
             f < g < |fs| && fs[f].slot == fs[g].slot && fs[f].stored.Some?
    ensures var fs := Exec(Init(start), run).fetches;
            fs[g].started >= fs[f].stored.value + CACHE_TTL
  {
    RunKeeps(Init(start), run);
  }

  /** How long the answering copy lay between its Redis read and its local store. */
  function CopyDelay(a: Answer): int {
    match a.via
    case OwnFetch => 0
    case RedisCopy(r) => a.at - r
    case LocalCopy(f, r) => if r.Some? then f - r.value else 0
  }

  /**
   In every run, every answer is the untouched result of some origin fetch for the same key; an
   answer that is not the fetching task's own came, copy delay aside, within two windows of the
   fetch's Redis write, or within one window of its local store by the same process. The first bound
   is reached: see `CopyOutlivesRedisEntry`.
   */
  lemma AnswersAreFresh(start: Time, run: seq<Action>, i: nat)
    requires Legal(Init(start), run)
    requires i < |Exec(Init(start), run).answers|
    ensures var s := Exec(Init(start), run);
            var a := s.answers[i];
            && FromOrigin(s.fetches, a.slot.key, a.value)
            && var rec := s.fetches[a.value.origin];
               || (rec.task == a.task && a.via.OwnFetch?)
               || (rec.written.Some? && CopyDelay(a) >= 0 && rec.written.value <= a.at
                   && a.at <= rec.written.value + 2 * CACHE_TTL + CopyDelay(a) - 2)
               || (rec.slot == a.slot && rec.stored.Some? && rec.stored.value <= a.at < rec.stored.value + CACHE_TTL)
  {
    RunKeeps(Init(start), run);
    var s := Exec(Init(start), run);
    assert AnswerOk(s.fetches, s.answers[i]);
  }

  /** The only step that puts anything into Redis is the write of a fetched value. */
  lemma OnlyWritesReachRedis(s: State, a: Action, key: string)
    requires Enabled(s, a)
    requires key in Apply(s, a).redis && !(key in s.redis && s.redis[key] == Apply(s, a).redis[key])
    ensures a.Step? && s.tasks[a.id].pc.WriteRedis? && s.tasks[a.id].slot.key == key
    ensures var v := s.tasks[a.id].pc.value;
            && v.origin < |s.fetches|
            && Apply(s, a).redis[key] == RedisEntry(v.origin, ToCached(v.meta), s.now + CACHE_TTL)
            && Apply(s, a).fetches == s.fetches[v.origin := s.fetches[v.origin].(written := Some(s.now))]
  {
  }

  /** A step of `a.id` that put its own fetch, never written before, into Redis for one window. */
  ghost predicate OwnWrite(s: State, a: Action, key: string)
    requires Enabled(s, a) && key in Apply(s, a).redis
  {
    var e, fs' := Apply(s, a).redis[key], Apply(s, a).fetches;
    && a.Step? && a.id in s.tasks && e.origin < |s.fetches| <= |fs'|
    && s.fetches[e.origin].task == a.id
    && s.fetches[e.origin].slot == s.tasks[a.id].slot && s.fetches[e.origin].slot.key == key
    && s.fetches[e.origin].result == Some(IntoMeta(e.cached))
    && s.fetches[e.origin].written.None? && fs'[e.origin].written == Some(s.now)
    && e.expires == s.now + CACHE_TTL
  }

  lemma WritesAreOwn(s: State, a: Action, key: string)
    requires Inv(s) && Enabled(s, a)
    requires key in Apply(s, a).redis && !(key in s.redis && s.redis[key] == Apply(s, a).redis[key])
    ensures OwnWrite(s, a, key)
  {
    OnlyWritesReachRedis(s, a, key);
    assert TaskOk(s.fetches, a.id, s.tasks[a.id], s.now);
    RedisRoundTrip(s.tasks[a.id].pc.value.meta);
  }

  /**
   In every run, whatever enters Redis is the result of the writing task's own fetch, which was
   never written before; with `RunGrows`, a fetch is written at most once and no copy ever is.
   */
  lemma RedisHoldsOnlyOwnFetches(start: Time, run: seq<Action>, a: Action, key: string)
    requires Legal(Init(start), run) && Enabled(Exec(Init(start), run), a)
    requires var s := Exec(Init(start), run);
             key in Apply(s, a).redis && !(key in s.redis && s.redis[key] == Apply(s, a).redis[key])
    ensures OwnWrite(Exec(Init(start), run), a, key)
  {
    RunKeeps(Init(start), run);
    WritesAreOwn(Exec(Init(start), run), a, key);
  }

  lemma StepGrows(s: State, a: Action)
    requires Inv(s) && Enabled(s, a)
    ensures Grows(s.fetches, Apply(s, a).fetches) && s.now <= Apply(s, a).now
  {
    if a.Step? {
      assert TaskOk(s.fetches, a.id, s.tasks[a.id], s.now);
      var pc := s.tasks[a.id].pc;
      if pc.Fetching? || pc.StoreFetched? || pc.WriteRedis? { OwnStepGrows(s, a.id, a.env); }
    }
  }

  lemma OwnStepGrows(s: State, id: TaskId, env: Env)
    requires Enabled(s, Step(id, env)) && TaskOk(s.fetches, id, s.tasks[id], s.now)
    requires s.tasks[id].pc.Fetching? || s.tasks[id].pc.StoreFetched? || s.tasks[id].pc.WriteRedis?
    ensures Grows(s.fetches, StepTask(s, id, env).fetches)
  {
  }

  /** Along every run, a fetch's result, store time and write time are fixed once set. */
  lemma {:induction false} RunGrows(s: State, run: seq<Action>)
    requires Inv(s) && Legal(s, run)
    ensures Grows(s.fetches, Exec(s, run).fetches) && s.now <= Exec(s, run).now
    decreases |run|
  {
    if run != [] {
      ApplyKeeps(s, run[0]);
      StepGrows(s, run[0]);
      RunGrows(Apply(s, run[0]), run[1..]);
    }
  }

  // ---------------------------------------------------------------- the documented bound

  /** From `s`, the process of `slot` answers locally at some time not before the Redis window of `written` is over. */
  ghost predicate Outlives(s: State, slot: Slot, written: Time) {
    exists d: nat :: LocalHit(Apply(s, Advance(d)).local, slot, s.now + d).Some? && s.now + d >= written + CACHE_TTL
  }

  /**
   The documentation says a local copy never outlives the Redis entry it came from. The code stamps
   the copy when it is stored. In every run, a copy about to be stored has its entry's write behind
   it, and will stay within the entry's window exactly if it is stored at the instant of that write.
   */
  lemma CopyWithinRedisWindow(start: Time, run: seq<Action>, id: TaskId, env: Env)
    requires Legal(Init(start), run)
    requires var s := Exec(Init(start), run);
             id in s.tasks && (s.tasks[id].pc.StoreCopy? || s.tasks[id].pc.StoreCopyLocked?)
    ensures var s := Exec(Init(start), run);
            var slot, copy, s' := s.tasks[id].slot, s.tasks[id].pc.copy, Apply(s, Step(id, env));
            && copy.origin < |s.fetches| && s.fetches[copy.origin].written.Some?
            && slot in s'.local && s'.local[slot].value == copy
            && var written := s.fetches[copy.origin].written.value;
               written <= s.now && (Outlives(s', slot, written) <==> written < s.now)
  {
    RunKeeps(Init(start), run);
    var s := Exec(Init(start), run);
    assert TaskOk(s.fetches, id, s.tasks[id], s.now);
    var s', slot := Apply(s, Step(id, env)), s.tasks[id].slot;
    var d := CACHE_TTL - 1;
    assert LocalHit(Apply(s', Advance(d)).local, slot, s'.now + d).Some?;
  }

  /** Some run leads to the state. */
  ghost predicate Reachable(start: Time, s: State) {
    exists run :: Legal(Init(start), run) && Exec(Init(start), run) == s
  }

  lemma {:induction false} ExecSnoc(s: State, run: seq<Action>, a: Action)
    requires Legal(s, run) && Enabled(Exec(s, run), a)
    ensures Legal(s, run + [a]) && Exec(s, run + [a]) == Apply(Exec(s, run), a)
    decreases |run|
  {
    if run == [] {
      assert run + [a] == [a] && [a][1..] == [];
      assert Exec(Apply(s, a), []) == Apply(s, a);
    } else {
      assert (run + [a])[1..] == run[1..] + [a];
      ExecSnoc(Apply(s, run[0]), run[1..], a);
    }
  }

  lemma Go(start: Time, s: State, a: Action) returns (s': State)
    requires Reachable(start, s) && Enabled(s, a)
    ensures s' == Apply(s, a) && Reachable(start, s')
  {
    s' := Apply(s, a);
    var run :| Legal(Init(start), run) && Exec(Init(start), run) == s;
    ExecSnoc(Init(start), run, a);
  }

  /** Redis answers, the origin yields `m`, a `SET` is applied. */
  function Well(m: Meta): Env { Env(true, Some(m), true) }

  lemma Begin(start: Time) returns (s: State)
    ensures s == Init(start) && Reachable(start, s)
  {
    s := Init(start);
    assert Legal(s, []) && Exec(s, []) == s;
  }

  /** A cold system with nothing in any cache and its first task at `pc`. */
  predicate Cold(s: State, start: Time, slot: Slot, pc: Pc) {
    && s.now == start && s.local == map[] && s.redis == map[]
    && s.tasks == map[0 := Task(slot, true, true, pc)]
  }

  lemma MissUnlocked(start: Time, slot: Slot, m: Meta) returns (s: State)
    requires Fetched(m)
    ensures Reachable(start, s) && Cold(s, start, slot, ResolveLock)
    ensures s.inflight == map[] && s.holder == map[] && s.locks == 0 && s.fetches == []
  {
    s := Begin(start);
    s := Go(start, s, Spawn(0, slot, true, true));
    s := Go(start, s, Step(0, Well(m)));
    s := Go(start, s, Step(0, Well(m)));
  }

  lemma TakeLock(start: Time, slot: Slot, m: Meta) returns (s: State)
    requires Fetched(m)
    ensures Reachable(start, s) && Cold(s, start, slot, Recheck(0)) && s.fetches == []
  {
    s := MissUnlocked(start, slot, m);
    s := Go(start, s, Step(0, Well(m)));
    s := Go(start, s, Step(0, Well(m)));
  }

  /** It misses everywhere and begins to fetch. */
  lemma MissEverywhere(start: Time, slot: Slot, m: Meta) returns (s: State)
    requires Fetched(m)
    ensures Reachable(start, s) && Cold(s, start, slot, Fetching(0, 0))
    ensures s.fetches == [FetchRec(slot, 0, start, None, None, None)]
  {
    s := TakeLock(start, slot, m);
    s := Go(start, s, Step(0, Well(m)));
    s := Go(start, s, Step(0, Well(m)));
  }

  /** It fetches, stores and writes, all at the start. */
  lemma FetchAndWrite(start: Time, slot: Slot, m: Meta) returns (s: State)
    requires Fetched(m)
    ensures Reachable(start, s) && s.now == start && s.local.Keys == {slot} && s.tasks.Keys == {0}
    ensures s.redis == map[slot.key := RedisEntry(0, ToCached(m), start + CACHE_TTL)]
    ensures s.fetches == [FetchRec(slot, 0, start, Some(m), Some(start), Some(start))]
  {
    s := MissEverywhere(start, slot, m);
    s := Go(start, s, Step(0, Well(m)));
    assert s.tasks[0].pc == StoreFetched(0, Value(0, m));
    s := Go(start, s, Step(0, Well(m)));
    s := Go(start, s, Step(0, Well(m)));
  }

  lemma Wait(start: Time, s: State, d: nat) returns (s': State)
    requires Reachable(start, s)
    ensures s' == s.(now := s.now + d) && Reachable(start, s')
  {
    s' := Go(start, s, Advance(d));
  }

  /** A task of a process without the entry reads it from Redis. */
  lemma ReadEntry(start: Time, s: State, id: TaskId, slot: Slot, m: Meta) returns (s': State)
    requires Reachable(start, s) && id !in s.tasks && slot !in s.local
    requires slot.key in s.redis && s.now < s.redis[slot.key].expires
    ensures var e := s.redis[slot.key];
            var pc := StoreCopy(Value(e.origin, IntoMeta(e.cached)), s.now);
            && Reachable(start, s') && s'.now == s.now && s'.fetches == s.fetches
            && s'.tasks == s.tasks[id := Task(slot, true, false, pc)]
  {
    s' := Go(start, s, Spawn(id, slot, true, false));
    s' := Go(start, s', Step(id, Well(m)));
    s' := Go(start, s', Step(id, Well(m)));
  }

  /** It stores the copy `delay` later. */
  lemma CopyFromRedis(start: Time, s: State, id: TaskId, slot: Slot, m: Meta, delay: nat) returns (s': State)
    requires Reachable(start, s) && id !in s.tasks && slot !in s.local
    requires slot.key in s.redis && s.now < s.redis[slot.key].expires
    ensures var e := s.redis[slot.key];
            && Reachable(start, s') && s'.now == s.now + delay && s'.fetches == s.fetches
            && s'.tasks.Keys == s.tasks.Keys + {id} && slot in s'.local
            && s'.local[slot] == Cached(Value(e.origin, IntoMeta(e.cached)), s.now + delay, Some(s.now))
  {
    s' := ReadEntry(start, s, id, slot, m);
    s' := Wait(start, s', delay);
    s' := Go(start, s', Step(id, Well(m)));
  }

  /** A task of a process with a fresh entry answers with it. */
  lemma AnswerLocally(start: Time, s: State, id: TaskId, slot: Slot, m: Meta) returns (s': State)
    requires Reachable(start, s) && id !in s.tasks && LocalHit(s.local, slot, s.now).Some?
    ensures var c := s.local[slot];
            && Reachable(start, s') && s'.fetches == s.fetches
            && s'.answers == s.answers + [Answer(slot, id, c.value, s.now, LocalCopy(c.fetched, c.readAt))]
  {
    s' := Go(start, s, Spawn(id, slot, true, false));
    s' := Go(start, s', Step(id, Well(m)));
  }

  /** The last answer of a run. */
  function LastAnswer(s: State): Option<Answer> {
    if s.answers == [] then None else Some(s.answers[|s.answers| - 1])
  }

  /**
   The bound of `AnswersAreFresh` is reached, for every key, metadata and copy delay: one process
   fetches and writes, another reads the entry in the last millisecond of its window, and answers with
   its copy in the last millisecond of that copy's. The entry is then long gone.
   */
  lemma CopyOutlivesRedisEntry(start: Time, key: string, m: Meta, delay: nat) returns (run: seq<Action>)
    requires Fetched(m)
    ensures Legal(Init(start), run)
    ensures var s := Exec(Init(start), run);
            var a := LastAnswer(s);
            && a.Some? && a.value.slot.key == key && a.value.value == Value(0, m) && CopyDelay(a.value) == delay
            && |s.fetches| > 0 && s.fetches[0].written.Some?
            && var written := s.fetches[0].written.value;
               a.value.at == written + 2 * CACHE_TTL + delay - 2 && a.value.at >= written + CACHE_TTL
  {
    var other := Slot(1, key);
    var s := FetchAndWrite(start, Slot(0, key), m);
    s := Wait(start, s, CACHE_TTL - 1);
    s := CopyFromRedis(start, s, 1, other, m, delay);
    RedisRoundTrip(m);
    s := Wait(start, s, CACHE_TTL - 1);
    s := AnswerLocally(start, s, 2, other, m);
    run :| Legal(Init(start), run) && Exec(Init(start), run) == s;
  }

  // ---------------------------------------------------------------- one process

  /** The two maps of one process, updated in place as `local_get`, `local_put` and `inflight_lock` do. */
  class Process {
    var local: map<string, Cached>
    var inflight: map<string, LockId>
    var locks: nat

    /** Every lock handed out belongs to one key. */
    ghost predicate Valid()
      reads this
    {
      && (forall k | k in inflight :: inflight[k] < locks)
      && (forall j, k | j in inflight && k in inflight && inflight[j] == inflight[k] :: j == k)
    }

    constructor ()
      ensures Valid() && local == map[] && inflight == map[] && locks == 0
    {
      local, inflight, locks := map[], map[], 0;
    }

    method LocalGet(key: string, now: Time) returns (hit: Option<Cached>)
      modifies this`local
      ensures hit == LocalHit(old(local), key, now)
      ensures local == LocalSwept(old(local), key, now)
      ensures hit.None? ==> key !in local
    {
      if key in local {
        if now - local[key].fetched < CACHE_TTL {
          return Some(local[key]);
        }
        local := local - {key};
      }
      return None;
    }

    method LocalPut(key: string, value: Value, now: Time, readAt: Option<Time>)
      modifies this`local
      ensures local == old(local)[key := Cached(value, now, readAt)]
      ensures forall t :: LocalHit(local, key, t).Some? <==> t < now + CACHE_TTL
    {
      local := local[key := Cached(value, now, readAt)];
    }

    method InflightLock(key: string) returns (lock: LockId)
      requires Valid()
      modifies this`inflight, this`locks
      ensures Valid()
      ensures key in inflight && inflight[key] == lock
      ensures inflight == old(inflight)[key := lock]
      ensures key in old(inflight) ==> lock == old(inflight)[key] && locks == old(locks)
      ensures key !in old(inflight) ==> lock == old(locks) && locks == old(locks) + 1
    {
      if key !in inflight {
        inflight, locks := inflight[key := locks], locks + 1;
      }
      lock := inflight[key];
    }
  }
}
