/**
 What `load` does for its caller: who may reach the origin, that every task answers at most once and
 for which reasons it does not, and that no task waits for ever.
 */
module EmbedProgress {
  import opened Common
  import opened EmbedMeta
  import opened EmbedCache

  // ---------------------------------------------------------------- one step

  /** Past the point where a miss ends a task that was not asked to fetch. */
  predicate Asking(pc: Pc) { pc.ResolveLock? || pc.AwaitLock? || pc.Holds() }

  /** About to speak to Redis, or to store what it said. */
  predicate UsesRedis(pc: Pc) {
    pc.ReadRedis? || pc.StoreCopy? || pc.RereadRedis? || pc.StoreCopyLocked? || pc.WriteRedis? || pc.AwaitReply?
  }

  /** How many steps a task may still take. */
  function Rank(pc: Pc): nat {
    match pc
    case CheckLocal => 10
    case ReadRedis => 9
    case StoreCopy(_, _) => 1
    case ResolveLock => 8
    case AwaitLock(_) => 7
    case Recheck(_) => 6
    case RereadRedis(_) => 5
    case StoreCopyLocked(_, _, _) => 1
    case Fetching(_, _) => 4
    case StoreFetched(_, _) => 3
    case WriteRedis(_, _) => 2
    case AwaitReply(_, _) => 1
    case Finished => 0
  }

  /** `s'` differs from `s` in no task but `id`, which is closer to its end. */
  ghost predicate Moved(s: State, id: TaskId, s': State) {
    && id in s.tasks && id in s'.tasks && s'.tasks == s.tasks[id := s.tasks[id].(pc := s'.tasks[id].pc)]
    && Rank(s'.tasks[id].pc) < Rank(s.tasks[id].pc)
    && (Asking(s'.tasks[id].pc) ==> Asking(s.tasks[id].pc) || s.tasks[id].fetchOnMiss)
    && (UsesRedis(s'.tasks[id].pc) ==> UsesRedis(s.tasks[id].pc) || s.tasks[id].redis)
  }

  /** At most one fetch was begun, by the task itself and under its lock. */
  ghost predicate Fetches(s: State, id: TaskId, s': State) {
    && id in s.tasks && |s.fetches| <= |s'.fetches| <= |s.fetches| + 1
    && (forall f | 0 <= f < |s.fetches| :: s'.fetches[f].task == s.fetches[f].task)
    && (|s'.fetches| > |s.fetches| ==> s'.fetches[|s.fetches|].task == id && s.tasks[id].pc.Holds())
  }

  /** What a step does to the locks: a key gets one once, a task takes it, keeps it, and drops it at its end. */
  ghost predicate LocksMoved(s: State, id: TaskId, s': State) {
    && id in s.tasks && id in s'.tasks
    && var t, pc' := s.tasks[id], s'.tasks[id].pc;
       && (if t.pc.AwaitLock? then pc' == Recheck(t.pc.lock) && s'.holder == s.holder[t.pc.lock := id]
           else if t.pc.Holds() && pc'.Finished? then s'.holder == s.holder - {t.pc.lock}
           else s'.holder == s.holder && (pc'.Holds() <==> t.pc.Holds()) && (t.pc.Holds() ==> pc'.lock == t.pc.lock))
       && (if t.pc.ResolveLock? && t.slot !in s.inflight
           then s'.inflight == s.inflight[t.slot := s.locks] && s'.locks == s.locks + 1
           else s'.inflight == s.inflight && s'.locks == s.locks)
  }

  /** Without a value from any cache: what the task was asked, and what the origin said, decide. */
  predicate EndsEmpty(s: State, id: TaskId, env: Env)
    requires id in s.tasks
  {
    var t := s.tasks[id];
    match t.pc
    case CheckLocal => LocalHit(s.local, t.slot, s.now).None? && !t.redis && !t.fetchOnMiss
    case ReadRedis => RedisRead(s, t.slot.key, env).None? && !t.fetchOnMiss
    case Fetching(_, _) => env.origin.None?
    case _ => false
  }

  /**
   A step that ends its task gives exactly one answer, unless no cache had a value and the task was
   not asked to fetch, or the origin failed; a step that does not end its task gives none.
   */
  ghost predicate Answered(s: State, id: TaskId, env: Env, s': State) {
    && id in s.tasks && id in s'.tasks
    && (EndsEmpty(s, id, env) ==> s'.tasks[id].pc == Finished)
    && (if s'.tasks[id].pc != Finished || EndsEmpty(s, id, env) then s'.answers == s.answers
        else
          && |s'.answers| == |s.answers| + 1 && s'.answers == s.answers + [s'.answers[|s.answers|]]
          && s'.answers[|s.answers|].task == id && s'.answers[|s.answers|].slot == s.tasks[id].slot
          && s'.answers[|s.answers|].at == s.now)
  }

  ghost predicate Stepped(s: State, id: TaskId, env: Env, s': State) {
    Moved(s, id, s') && Fetches(s, id, s') && LocksMoved(s, id, s') && Answered(s, id, env, s')
  }

  lemma CheckLocalStep(s: State, id: TaskId, env: Env)
    requires Enabled(s, Step(id, env)) && s.tasks[id].pc.CheckLocal?
    ensures Stepped(s, id, env, StepTask(s, id, env))
  {
  }

  lemma ReadRedisStep(s: State, id: TaskId, env: Env)
    requires Enabled(s, Step(id, env)) && s.tasks[id].pc.ReadRedis?
    ensures Stepped(s, id, env, StepTask(s, id, env))
  {
  }

  lemma StoreCopyStep(s: State, id: TaskId, env: Env)
    requires Enabled(s, Step(id, env)) && (s.tasks[id].pc.StoreCopy? || s.tasks[id].pc.ResolveLock?)
    ensures Stepped(s, id, env, StepTask(s, id, env))
  {
  }

  lemma AwaitLockStep(s: State, id: TaskId, env: Env)
    requires Enabled(s, Step(id, env)) && s.tasks[id].pc.AwaitLock?
    ensures Stepped(s, id, env, StepTask(s, id, env))
  {
  }

  lemma RecheckStep(s: State, id: TaskId, env: Env)
    requires Enabled(s, Step(id, env)) && s.tasks[id].pc.Recheck?
    ensures Stepped(s, id, env, StepTask(s, id, env))
  {
  }

  lemma RereadRedisStep(s: State, id: TaskId, env: Env)
    requires Enabled(s, Step(id, env)) && s.tasks[id].pc.RereadRedis?
    ensures Stepped(s, id, env, StepTask(s, id, env))
  {
  }

  lemma StoreCopyLockedStep(s: State, id: TaskId, env: Env)
    requires Enabled(s, Step(id, env)) && s.tasks[id].pc.StoreCopyLocked?
    ensures Stepped(s, id, env, StepTask(s, id, env))
  {
  }

  lemma FetchingStep(s: State, id: TaskId, env: Env)
    requires Enabled(s, Step(id, env)) && s.tasks[id].pc.Fetching?
    ensures Stepped(s, id, env, StepTask(s, id, env))
  {
  }

  lemma StoreFetchedStep(s: State, id: TaskId, env: Env)
    requires Enabled(s, Step(id, env)) && s.tasks[id].pc.StoreFetched?
    ensures Stepped(s, id, env, StepTask(s, id, env))
  {
  }

  lemma WriteRedisStep(s: State, id: TaskId, env: Env)
    requires Enabled(s, Step(id, env)) && (s.tasks[id].pc.WriteRedis? || s.tasks[id].pc.AwaitReply?)
    ensures Stepped(s, id, env, StepTask(s, id, env))
  {
  }

  /** Every step of every task. */
  lemma StepEffect(s: State, id: TaskId, env: Env)
    requires Enabled(s, Step(id, env))
    ensures Stepped(s, id, env, StepTask(s, id, env))
  {
    var pc := s.tasks[id].pc;
    if pc.CheckLocal? { CheckLocalStep(s, id, env); }
    else if pc.ReadRedis? { ReadRedisStep(s, id, env); }
    else if pc.StoreCopy? || pc.ResolveLock? { StoreCopyStep(s, id, env); }
    else if pc.AwaitLock? { AwaitLockStep(s, id, env); }
    else if pc.Recheck? { RecheckStep(s, id, env); }
    else if pc.RereadRedis? { RereadRedisStep(s, id, env); }
    else if pc.StoreCopyLocked? { StoreCopyLockedStep(s, id, env); }
    else if pc.Fetching? { FetchingStep(s, id, env); }
    else if pc.StoreFetched? { StoreFetchedStep(s, id, env); }
    else { WriteRedisStep(s, id, env); }
  }

  // ---------------------------------------------------------------- who reaches the origin

  /** Only tasks that were asked to fetch get as far as the lock, and only they have fetched; only tasks with Redis use it. */
  ghost predicate AskedOnly(tasks: map<TaskId, Task>, fs: seq<FetchRec>) {
    && (forall id | id in tasks :: (Asking(tasks[id].pc) ==> tasks[id].fetchOnMiss) && (UsesRedis(tasks[id].pc) ==> tasks[id].redis))
    && (forall f | 0 <= f < |fs| :: fs[f].task in tasks && tasks[fs[f].task].fetchOnMiss)
  }

  lemma FinishShape(s: State, id: TaskId)
    requires id in s.tasks
    ensures Finish(s, id).tasks == s.tasks[id := s.tasks[id].(pc := Finished)]
    ensures Finish(s, id).fetches == s.fetches && Finish(s, id).answers == s.answers
  {
  }

  lemma AskedStep(s: State, id: TaskId, s': State)
    requires AskedOnly(s.tasks, s.fetches) && Moved(s, id, s') && Fetches(s, id, s')
    ensures AskedOnly(s'.tasks, s'.fetches)
  {
  }

  lemma AskedKeeps(s: State, a: Action)
    requires AskedOnly(s.tasks, s.fetches) && Enabled(s, a)
    ensures AskedOnly(Apply(s, a).tasks, Apply(s, a).fetches)
  {
    match a
    case Step(id, env) =>
      StepEffect(s, id, env);
      AskedStep(s, id, StepTask(s, id, env));
    case Cancel(id) => FinishShape(s, id);
    case _ =>
  }

  lemma {:induction false} AskedAlong(s: State, run: seq<Action>)
    requires AskedOnly(s.tasks, s.fetches) && Legal(s, run)
    ensures AskedOnly(Exec(s, run).tasks, Exec(s, run).fetches)
    decreases |run|
  {
    if run != [] {
      AskedKeeps(s, run[0]);
      AskedAlong(Apply(s, run[0]), run[1..]);
    }
  }

  /** In every run, only a task that was asked to fetch on a miss ever drives a request to an origin. */
  lemma OnlyAskedTasksFetch(start: Time, run: seq<Action>, f: FetchId)
    requires Legal(Init(start), run) && f < |Exec(Init(start), run).fetches|
    ensures var s := Exec(Init(start), run);
            s.fetches[f].task in s.tasks && s.tasks[s.fetches[f].task].fetchOnMiss
  {
    AskedAlong(Init(start), run);
  }

  /** In every run, a task without a connection to Redis never speaks to it. */
  lemma OnlyConnectedTasksUseRedis(start: Time, run: seq<Action>, id: TaskId)
    requires Legal(Init(start), run) && id in Exec(Init(start), run).tasks
    ensures var t := Exec(Init(start), run).tasks[id]; UsesRedis(t.pc) ==> t.redis
  {
    AskedAlong(Init(start), run);
  }

  /**
   A task that finds nothing locally and nothing in Redis: without the flag it ends there, having
   asked no origin and answered nothing; with the flag it goes on to the fetch lock.
   */
  lemma MissDecides(s: State, id: TaskId, e1: Env, e2: Env)
    requires id in s.tasks && s.tasks[id].pc == CheckLocal && LocalHit(s.local, s.tasks[id].slot, s.now).None?
    requires RedisRead(s, s.tasks[id].slot.key, e2).None?
    ensures var t, s1 := s.tasks[id], StepTask(s, id, e1);
            && id in s1.tasks
            && (t.redis ==> s1.tasks[id].pc == ReadRedis)
            && var s2 := if t.redis then StepTask(s1, id, e2) else s1;
               && id in s2.tasks && s2.tasks[id].pc == (if t.fetchOnMiss then ResolveLock else Finished)
               && s2.fetches == s.fetches && s2.answers == s.answers && s2.redis == s.redis
  {
  }

  // ---------------------------------------------------------------- what is answered

  /** At either check, a fresh local entry is the answer, and nothing else changes. */
  lemma LocalHitAnswers(s: State, id: TaskId, env: Env)
    requires Enabled(s, Step(id, env)) && (s.tasks[id].pc.CheckLocal? || s.tasks[id].pc.Recheck?)
    requires s.tasks[id].slot in s.local && s.now - s.local[s.tasks[id].slot].fetched < CACHE_TTL
    ensures var slot, s' := s.tasks[id].slot, StepTask(s, id, env);
            && id in s'.tasks && s'.tasks[id].pc == Finished
            && s'.local == s.local && s'.redis == s.redis && s'.fetches == s.fetches
            && |s'.answers| == |s.answers| + 1 && s'.answers[|s.answers|].value == s.local[slot].value
  {
  }

  /**
   At either read, an entry that Redis still holds is stored locally, stamped when it is stored, and is the
   answer; no origin is asked.
   */
  lemma RedisHitAnswers(s: State, id: TaskId, e1: Env, e2: Env)
    requires id in s.tasks && (s.tasks[id].pc.ReadRedis? || s.tasks[id].pc.RereadRedis?)
    requires e1.redisAnswers && s.tasks[id].slot.key in s.redis && s.now < s.redis[s.tasks[id].slot.key].expires
    ensures var slot, e, s1 := s.tasks[id].slot, s.redis[s.tasks[id].slot.key], StepTask(s, id, e1);
            && Enabled(s1, Step(id, e2)) && s1.fetches == s.fetches
            && var s2, v := StepTask(s1, id, e2), Value(e.origin, IntoMeta(e.cached));
               && id in s2.tasks && s2.tasks[id].pc == Finished && s2.fetches == s.fetches && s2.redis == s.redis
               && s2.local == s.local[slot := Cached(v, s.now, Some(s.now))]
               && |s2.answers| == |s.answers| + 1 && s2.answers[|s.answers|].value == v
  {
  }

  /** A Redis that does not answer is a Redis without the entry. */
  lemma RedisErrorIsMiss(s: State, id: TaskId, env: Env)
    requires id in s.tasks && (s.tasks[id].pc.ReadRedis? || s.tasks[id].pc.RereadRedis?) && !env.redisAnswers
    ensures StepTask(s, id, env) == StepTask(s.(redis := map[]), id, env).(redis := s.redis)
  {
  }

  /** What the origin yields is stored locally at once, offered to Redis if there is one, and answered even if that is lost. */
  lemma FetchedIsStored(s: State, id: TaskId, m: Meta, e: Env)
    requires id in s.tasks && s.tasks[id].pc.Fetching? && s.tasks[id].pc.fetch < |s.fetches| && Fetched(m)
    ensures var t, v := s.tasks[id], Value(s.tasks[id].pc.fetch, m);
            var s1 := StepTask(s, id, e.(origin := Some(m)));
            && Enabled(s1, Step(id, e))
            && var s2 := StepTask(s1, id, e);
               && s2.local == s.local[t.slot := Cached(v, s.now, None)] && s2.redis == s.redis && id in s2.tasks
               && (if t.redis then s2.tasks[id].pc == WriteRedis(t.pc.lock, v)
                   else s2.tasks[id].pc == Finished && |s2.answers| == |s.answers| + 1 && s2.answers[|s.answers|].value == v)
  {
  }

  lemma WrittenIsAnswered(s: State, id: TaskId, e1: Env, e2: Env)
    requires id in s.tasks && s.tasks[id].pc.WriteRedis? && s.tasks[id].pc.value.origin < |s.fetches|
    ensures var t, v, s1 := s.tasks[id], s.tasks[id].pc.value, StepTask(s, id, e1);
            && s1.redis == (if e1.applied then s.redis[t.slot.key := RedisEntry(v.origin, ToCached(v.meta), s.now + CACHE_TTL)]
                            else s.redis)
            && s1.local == s.local && Enabled(s1, Step(id, e2))
            && var s2 := StepTask(s1, id, e2);
               && id in s2.tasks && s2.tasks[id].pc == Finished && s2.local == s.local && s2.redis == s1.redis
               && |s2.answers| == |s.answers| + 1 && s2.answers[|s.answers|].value == v
  {
  }

  // ---------------------------------------------------------------- at most one answer

  ghost predicate Once(tasks: map<TaskId, Task>, answers: seq<Answer>) {
    && (forall i | 0 <= i < |answers| :: answers[i].task in tasks && tasks[answers[i].task].pc == Finished)
    && (forall i, j | 0 <= i < j < |answers| :: answers[i].task != answers[j].task)
  }

  lemma OnceKeeps(s: State, a: Action)
    requires Once(s.tasks, s.answers) && Enabled(s, a)
    ensures Once(Apply(s, a).tasks, Apply(s, a).answers)
  {
    match a
    case Step(id, env) =>
      StepEffect(s, id, env);
    case Cancel(id) => FinishShape(s, id);
    case _ =>
  }

  lemma {:induction false} OnceAlong(s: State, run: seq<Action>)
    requires Once(s.tasks, s.answers) && Legal(s, run)
    ensures Once(Exec(s, run).tasks, Exec(s, run).answers)
    decreases |run|
  {
    if run != [] {
      OnceKeeps(s, run[0]);
      OnceAlong(Apply(s, run[0]), run[1..]);
    }
  }

  /** In every run, no task answers twice, and one that has answered is done. */
  lemma AnsweredOnce(start: Time, run: seq<Action>)
    requires Legal(Init(start), run)
    ensures var s := Exec(Init(start), run);
            && (forall i, j | 0 <= i < j < |s.answers| :: s.answers[i].task != s.answers[j].task)
            && (forall i | 0 <= i < |s.answers| ::
                  s.answers[i].task in s.tasks && s.tasks[s.answers[i].task].pc == Finished)
  {
    OnceAlong(Init(start), run);
  }

  // ---------------------------------------------------------------- no task waits for ever

  /** A lock belongs to one key, and is held only by a task that has it in hand. */
  ghost predicate HeldInHand(tasks: map<TaskId, Task>, inflight: map<Slot, LockId>, holder: map<LockId, TaskId>, locks: nat) {
    && (forall l | l in holder :: holder[l] in tasks && tasks[holder[l]].pc.Holds() && tasks[holder[l]].pc.lock == l)
    && (forall a | a in inflight :: inflight[a] < locks)
    && (forall a, b | a in inflight && b in inflight && inflight[a] == inflight[b] :: a == b)
  }

  lemma FinishLocks(s: State, id: TaskId)
    requires HeldInHand(s.tasks, s.inflight, s.holder, s.locks) && LockInv(s.tasks, s.inflight, s.holder) && id in s.tasks
    ensures var s' := Finish(s, id); HeldInHand(s'.tasks, s'.inflight, s'.holder, s'.locks)
  {
  }

  lemma HeldStep(s: State, id: TaskId, s': State)
    requires HeldInHand(s.tasks, s.inflight, s.holder, s.locks) && LockInv(s.tasks, s.inflight, s.holder)
    requires Moved(s, id, s') && LocksMoved(s, id, s') && (s.tasks[id].pc.AwaitLock? ==> s.tasks[id].pc.lock !in s.holder)
    ensures HeldInHand(s'.tasks, s'.inflight, s'.holder, s'.locks)
  {
  }

  lemma HeldKeeps(s: State, a: Action)
    requires HeldInHand(s.tasks, s.inflight, s.holder, s.locks) && LockInv(s.tasks, s.inflight, s.holder) && Enabled(s, a)
    ensures var s' := Apply(s, a); HeldInHand(s'.tasks, s'.inflight, s'.holder, s'.locks)
  {
    match a
    case Step(id, env) =>
      StepEffect(s, id, env);
      HeldStep(s, id, StepTask(s, id, env));
    case Cancel(id) => FinishLocks(s, id);
    case _ =>
  }

  lemma {:induction false} HeldAlong(s: State, run: seq<Action>)
    requires HeldInHand(s.tasks, s.inflight, s.holder, s.locks) && Inv(s) && Legal(s, run)
    ensures var s' := Exec(s, run); HeldInHand(s'.tasks, s'.inflight, s'.holder, s'.locks)
    decreases |run|
  {
    if run != [] {
      HeldKeeps(s, run[0]);
      ApplyKeeps(s, run[0]);
      HeldAlong(Apply(s, run[0]), run[1..]);
    }
  }

  /** The task can take a step, whatever Redis and the origin answer. */
  ghost predicate CanStep(s: State, id: TaskId) {
    forall env: Env | env.origin.Some? ==> Fetched(env.origin.value) :: Enabled(s, Step(id, env))
  }

  /**
   In every run, every task that is not done can take a step, or waits for a task of the same key that
   can: with `StepEffect`, each holder lets go after a bounded number of steps of its own.
   */
  lemma NoTaskIsStuck(start: Time, run: seq<Action>, id: TaskId)
    requires Legal(Init(start), run)
    requires var s := Exec(Init(start), run); id in s.tasks && s.tasks[id].pc != Finished
    ensures var s := Exec(Init(start), run);
            || CanStep(s, id)
            || (&& s.tasks[id].pc.AwaitLock? && s.tasks[id].pc.lock in s.holder
                && s.holder[s.tasks[id].pc.lock] in s.tasks
                && s.tasks[s.holder[s.tasks[id].pc.lock]].slot == s.tasks[id].slot
                && CanStep(s, s.holder[s.tasks[id].pc.lock]))
  {
    RunKeeps(Init(start), run);
    HeldAlong(Init(start), run);
    var s := Exec(Init(start), run);
    assert TaskOk(s.fetches, id, s.tasks[id], s.now);
    if s.tasks[id].pc.AwaitLock? && s.tasks[id].pc.lock in s.holder {
      var other := s.holder[s.tasks[id].pc.lock];
      assert TaskOk(s.fetches, other, s.tasks[other], s.now);
    }
  }
}
