/** One-shot proof-of-work challenges: minted, consumed by the first attempt, swept when stale. */
module ChallengeStore {
  import opened Common
  import opened ProofOfWork

  type Time = int

  /** SHA-256 of the challenge followed by the nonce. */
  type Hasher = string -> seq<byte>

  ghost predicate GoodHasher(sha: Hasher) {
    forall s :: |sha(s)| == 32
  }

  predicate Solves(sha: Hasher, challenge: string, nonce: string) {
    var hash := sha(challenge + nonce);
    |hash| == 32 && MeetsTarget(hash, DIFFICULTY)
  }

  /** Fourteen leading zero bits of the hash of the challenge followed by the nonce. */
  lemma SolvesIs(sha: Hasher, challenge: string, nonce: string)
    requires GoodHasher(sha)
    ensures Solves(sha, challenge, nonce) <==> Big(sha(challenge + nonce), 256) < Pow(2, 242)
    ensures Solves(sha, challenge, nonce) <==> forall i | 0 <= i < 14 :: Bits(sha(challenge + nonce))[i] == 0
  {
    BitTestIsBound(sha(challenge + nonce), 14);
  }

  type Store = map<string, Time>

  datatype Action =
    | Mint(challenge: string, ttl: nat, at: Time)
    | Check(challenge: string, nonce: string, at: Time)
    | Sweep(at: Time)

  /** An expired challenge is refused only strictly after its expiry. */
  predicate Accepts(sha: Hasher, m: Store, a: Action) {
    a.Check? && a.challenge in m && a.at <= m[a.challenge] && Solves(sha, a.challenge, a.nonce)
  }

  function Apply(m: Store, a: Action): Store {
    match a
    case Mint(c, ttl, at) => m[c := at + ttl]
    case Check(c, _, _) => m - {c}
    case Sweep(at) => map c | c in m && at < m[c] :: m[c]
  }

  function Exec(m: Store, run: seq<Action>): Store
    decreases |run|
  {
    if run == [] then m else Exec(Apply(m, run[0]), run[1..])
  }

  function Accepted(sha: Hasher, m: Store, run: seq<Action>, c: string): nat
    decreases |run|
  {
    if run == [] then 0
    else (if Accepts(sha, m, run[0]) && run[0].challenge == c then 1 else 0) + Accepted(sha, Apply(m, run[0]), run[1..], c)
  }

  function Minted(run: seq<Action>, c: string): nat {
    if run == [] then 0
    else (if run[0].Mint? && run[0].challenge == c then 1 else 0) + Minted(run[1..], c)
  }

  /** From any store, a challenge is accepted at most once for each time it was minted, or was there. */
  lemma {:induction false} AcceptedWithinMinted(sha: Hasher, m: Store, run: seq<Action>, c: string)
    ensures Accepted(sha, m, run, c) <= Minted(run, c) + (if c in m then 1 else 0)
    decreases |run|
  {
    if run != [] { AcceptedWithinMinted(sha, Apply(m, run[0]), run[1..], c); }
  }

  /** In every run from the empty store. */
  lemma AcceptedAtMostAsMinted(sha: Hasher, run: seq<Action>, c: string)
    ensures Accepted(sha, map[], run, c) <= Minted(run, c)
  {
    AcceptedWithinMinted(sha, map[], run, c);
  }

  /** The expiry that the most recent minting of `c` gave it, if `c` was minted and not attempted since. */
  function Live(run: seq<Action>, c: string): Option<Time> {
    if run == [] then None
    else
      var last := run[|run| - 1];
      if last.Mint? && last.challenge == c then Some(last.at + last.ttl)
      else if last.Check? && last.challenge == c then None
      else Live(run[..|run| - 1], c)
  }

  lemma {:induction false} ExecSnoc(m: Store, run: seq<Action>, a: Action)
    ensures Exec(m, run + [a]) == Apply(Exec(m, run), a)
    decreases |run|
  {
    if run == [] {
      assert ([a])[1..] == [] && run + [a] == [a];
    } else {
      ExecSnoc(Apply(m, run[0]), run[1..], a);
      assert (run + [a])[1..] == run[1..] + [a];
    }
  }

  /** Minting or attempting `c`. */
  predicate Touches(a: Action, c: string) { !a.Sweep? && a.challenge == c }

  /** Some sweep at `e` or later came after the last minting or attempt of `c`. */
  ghost predicate SweptSince(run: seq<Action>, c: string, e: Time) {
    exists i :: 0 <= i < |run| && SweepsAt(run, c, e, i)
  }

  ghost predicate SweepsAt(run: seq<Action>, c: string, e: Time, i: nat)
    requires i < |run|
  {
    run[i].Sweep? && run[i].at >= e && forall j | i < j < |run| :: !Touches(run[j], c)
  }

  lemma SweptSinceSnoc(run: seq<Action>, a: Action, c: string, e: Time)
    ensures SweptSince(run + [a], c, e) <==> (a.Sweep? && a.at >= e) || (!Touches(a, c) && SweptSince(run, c, e))
  {
    var all := run + [a];
    if SweptSince(all, c, e) {
      var i :| 0 <= i < |all| && SweepsAt(all, c, e, i);
      if i < |run| {
        assert !Touches(all[|run|], c);
        assert forall j | i < j < |run| :: run[j] == all[j];
        assert SweepsAt(run, c, e, i);
      }
    }
    if a.Sweep? && a.at >= e { assert SweepsAt(all, c, e, |run|); }
    if !Touches(a, c) && SweptSince(run, c, e) {
      var i :| 0 <= i < |run| && SweepsAt(run, c, e, i);
      assert SweepsAt(all, c, e, i);
    }
  }

  lemma LiveSnoc(run: seq<Action>, a: Action, c: string)
    ensures Live(run + [a], c) ==
            if a.Mint? && a.challenge == c then Some(a.at + a.ttl)
            else if a.Check? && a.challenge == c then None
            else Live(run, c)
  {
    assert (run + [a])[..|run|] == run;
  }

  /** After every run, the store holds exactly the live challenges that no sweep has reached, with their expiry. */
  lemma {:induction false} StoreIsExact(run: seq<Action>, c: string)
    ensures var m, live := Exec(map[], run), Live(run, c);
            && (c in m <==> live.Some? && !SweptSince(run, c, live.value))
            && (c in m ==> m[c] == live.value)
    decreases |run|
  {
    if run != [] {
      var front, a := run[..|run| - 1], run[|run| - 1];
      assert run == front + [a];
      ExecSnoc(map[], front, a);
      LiveSnoc(front, a, c);
      StoreIsExact(front, c);
      if Live(run, c).Some? { SweptSinceSnoc(front, a, c, Live(run, c).value); }
    }
  }

  /** The attempt solves a challenge that was minted, was not attempted since and has not expired. */
  predicate Good(sha: Hasher, run: seq<Action>, a: Action)
    requires a.Check?
  {
    var live := Live(run, a.challenge);
    live.Some? && a.at <= live.value && Solves(sha, a.challenge, a.nonce)
  }

  /**
   In every run, whatever the order of its times, an attempt is accepted exactly if it is good and no
   sweep since the minting was at the expiry or later. Every attempt, accepted or not, consumes the
   challenge.
   */
  lemma AcceptanceIsExact(sha: Hasher, run: seq<Action>, a: Action)
    requires a.Check?
    ensures Accepts(sha, Exec(map[], run), a) <==>
            Good(sha, run, a) && !SweptSince(run, a.challenge, Live(run, a.challenge).value)
    ensures a.challenge !in Exec(map[], run + [a]) && Live(run + [a], a.challenge).None?
  {
    StoreIsExact(run, a.challenge);
    ExecSnoc(map[], run, a);
    LiveSnoc(run, a, a.challenge);
  }

  // ---------------------------------------------------------------- sweeping is invisible

  predicate Ordered(run: seq<Action>) {
    forall i, j | 0 <= i < j < |run| :: run[i].at <= run[j].at
  }

  /** Every check comes strictly after every earlier sweep, and after `swept`. */
  predicate ChecksAfterSweeps(run: seq<Action>, swept: Time) {
    && (forall j | 0 <= j < |run| && run[j].Check? :: swept < run[j].at)
    && (forall i, j | 0 <= i < j < |run| && run[i].Sweep? && run[j].Check? :: run[i].at < run[j].at)
  }

  function Answers(sha: Hasher, m: Store, run: seq<Action>): seq<bool>
    decreases |run|
  {
    if run == [] then []
    else (if run[0].Check? then [Accepts(sha, m, run[0])] else []) + Answers(sha, Apply(m, run[0]), run[1..])
  }

  function NoSweeps(run: seq<Action>): seq<Action> {
    if run == [] then []
    else (if run[0].Sweep? then [] else [run[0]]) + NoSweeps(run[1..])
  }

  /** The swept store is the unswept one without some challenges that expired by `swept`. */
  predicate SweptOf(m: Store, full: Store, swept: Time) {
    && (forall c | c in m :: c in full && m[c] == full[c])
    && (forall c | c in full && c !in m :: full[c] <= swept)
  }

  /** The relation survives a common minting or attempt, and a sweep of the swept side. */
  lemma SweptOfNext(m: Store, full: Store, a: Action, swept: Time)
    requires SweptOf(m, full, swept)
    ensures a.Sweep? && swept <= a.at ==> SweptOf(Apply(m, a), full, a.at)
    ensures !a.Sweep? ==> SweptOf(Apply(m, a), Apply(full, a), swept)
  {
  }

  lemma {:induction false} SweepsAreInvisible(sha: Hasher, m: Store, full: Store, run: seq<Action>, swept: Time)
    requires SweptOf(m, full, swept) && Ordered(run) && ChecksAfterSweeps(run, swept)
    requires forall i | 0 <= i < |run| :: swept <= run[i].at
    ensures Answers(sha, m, run) == Answers(sha, full, NoSweeps(run))
    decreases |run|
  {
    if run != [] {
      var a, rest := run[0], run[1..];
      SweptOfNext(m, full, a, swept);
      if a.Sweep? {
        assert NoSweeps(run) == NoSweeps(rest);
        SweepsAreInvisible(sha, Apply(m, a), full, rest, a.at);
      } else {
        assert NoSweeps(run) == [a] + NoSweeps(rest);
        assert NoSweeps(run)[1..] == NoSweeps(rest);
        SweepsAreInvisible(sha, Apply(m, a), Apply(full, a), rest, swept);
      }
    }
  }

  /** In every run, sweeping changes no answer to a check that comes strictly after the sweeps. */
  lemma SweepingChangesNothing(sha: Hasher, run: seq<Action>)
    requires Ordered(run)
    requires forall i, j | 0 <= i < j < |run| && run[i].Sweep? && run[j].Check? :: run[i].at < run[j].at
    ensures Answers(sha, map[], run) == Answers(sha, map[], NoSweeps(run))
  {
    if run != [] { SweepsAreInvisible(sha, map[], map[], run, run[0].at - 1); }
  }

  lemma Assoc(a: seq<Action>, b: seq<Action>, c: seq<Action>)
    ensures a + b + c == a + (b + c)
  {
  }

  lemma {:induction false} NoSweepsSnoc(run: seq<Action>, a: Action)
    ensures NoSweeps(run + [a]) == NoSweeps(run) + if a.Sweep? then [] else [a]
    decreases |run|
  {
    var end := if a.Sweep? then [] else [a];
    if run == [] {
      assert run + [a] == [a] && [a][1..] == [];
      assert NoSweeps([a]) == end + NoSweeps([]);
    } else {
      var first := if run[0].Sweep? then [] else [run[0]];
      assert (run + [a])[1..] == run[1..] + [a];
      NoSweepsSnoc(run[1..], a);
      assert NoSweeps(run + [a]) == first + (NoSweeps(run[1..]) + end);
      Assoc(first, NoSweeps(run[1..]), end);
    }
  }

  lemma {:induction false} NoSweepIsLeft(run: seq<Action>)
    ensures forall i | 0 <= i < |NoSweeps(run)| :: !NoSweeps(run)[i].Sweep?
    decreases |run|
  {
    if run != [] { NoSweepIsLeft(run[1..]); }
  }

  lemma SameLiveSnoc(front: seq<Action>, a: Action, c: string)
    requires Live(NoSweeps(front), c) == Live(front, c)
    ensures Live(NoSweeps(front + [a]), c) == Live(front + [a], c)
  {
    NoSweepsSnoc(front, a);
    LiveSnoc(front, a, c);
    var rest := NoSweeps(front);
    if a.Sweep? { assert rest + [] == rest; } else { LiveSnoc(rest, a, c); }
  }

  /** Without its sweeps a run has the same live challenges. */
  lemma {:induction false} NoSweepsSameLive(run: seq<Action>, c: string)
    ensures Live(NoSweeps(run), c) == Live(run, c)
    decreases |run|
  {
    if run != [] {
      var front, a := run[..|run| - 1], run[|run| - 1];
      NoSweepsSameLive(front, c);
      SameLiveSnoc(front, a, c);
      assert run == front + [a];
    }
  }

  /** Without sweeps, exactly the good attempts are accepted. */
  lemma UnsweptAcceptance(sha: Hasher, run: seq<Action>, a: Action)
    requires a.Check?
    ensures Accepts(sha, Exec(map[], NoSweeps(run)), a) <==> Good(sha, run, a)
  {
    AcceptanceIsExact(sha, NoSweeps(run), a);
    NoSweepsSameLive(run, a.challenge);
    NoSweepIsLeft(run);
  }

  /** A sweep of `run` after the last minting or attempt of `c`, at the instant `e`. */
  ghost predicate SweptAtInstant(run: seq<Action>, c: string, e: Time) {
    exists i :: 0 <= i < |run| && run[i].at == e && SweepsAt(run, c, e, i)
  }

  /**
   In every ordered run, sweeping changes the answer to an attempt exactly when the attempt and a
   sweep before it both fall on the very instant of expiry of a challenge it solves.
   */
  lemma SweepingMattersOnlyAtExpiry(sha: Hasher, run: seq<Action>, a: Action)
    requires a.Check? && Ordered(run + [a])
    ensures (Accepts(sha, Exec(map[], run), a) != Accepts(sha, Exec(map[], NoSweeps(run)), a)) <==>
            Good(sha, run, a) && a.at == Live(run, a.challenge).value && SweptAtInstant(run, a.challenge, a.at)
  {
    AcceptanceIsExact(sha, run, a);
    UnsweptAcceptance(sha, run, a);
    if Good(sha, run, a) { SweepInOrder(run, a, Live(run, a.challenge).value); }
  }

  /** In order, a sweep at the expiry or later leaves only the expiry itself for an attempt in time. */
  lemma SweepInOrder(run: seq<Action>, a: Action, e: Time)
    requires a.Check? && Ordered(run + [a]) && a.at <= e
    ensures SweptSince(run, a.challenge, e) <==> a.at == e && SweptAtInstant(run, a.challenge, a.at)
  {
    var all := run + [a];
    if SweptSince(run, a.challenge, e) {
      var i :| 0 <= i < |run| && SweepsAt(run, a.challenge, e, i);
      assert all[i].at <= all[|run|].at;
      assert SweepsAt(run, a.challenge, a.at, i);
    }
  }

  /** Such a run: minted, swept at its expiry, and only then answered. */
  lemma SweepAtExpiryLosesAnswer(sha: Hasher, c: string, nonce: string, at: Time, ttl: nat)
    requires Solves(sha, c, nonce)
    ensures var e := at + ttl;
            && !Accepts(sha, Exec(map[], [Mint(c, ttl, at), Sweep(e)]), Check(c, nonce, e))
            && Accepts(sha, Exec(map[], [Mint(c, ttl, at)]), Check(c, nonce, e))
  {
    var e := at + ttl;
    ExecSnoc(map[], [], Mint(c, ttl, at));
    ExecSnoc(map[], [Mint(c, ttl, at)], Sweep(e));
    assert [] + [Mint(c, ttl, at)] == [Mint(c, ttl, at)];
    assert [Mint(c, ttl, at)] + [Sweep(e)] == [Mint(c, ttl, at), Sweep(e)];
  }

  // ---------------------------------------------------------------- the process-wide map

  class Challenges {
    var pending: map<string, Time>

    constructor ()
      ensures pending == map[]
    {
      pending := map[];
    }

    method NewChallenge(challenge: string, ttl: nat, now: Time)
      modifies this
      ensures pending == Apply(old(pending), Mint(challenge, ttl, now))
      ensures forall sha, nonce, t ::
                Accepts(sha, pending, Check(challenge, nonce, t)) <==> t <= now + ttl && Solves(sha, challenge, nonce)
    {
      pending := pending[challenge := now + ttl];
    }

    /** One attempt: the challenge is gone whatever the answer. */
    method CheckPow(sha: Hasher, challenge: string, nonce: string, now: Time) returns (ok: bool)
      requires GoodHasher(sha)
      modifies this
      ensures ok <==> Accepts(sha, old(pending), Check(challenge, nonce, now))
      ensures pending == Apply(old(pending), Check(challenge, nonce, now))
    {
      if challenge !in pending {
        assert pending - {challenge} == pending;
        return false;
      }
      var expiry := pending[challenge];
      pending := pending - {challenge};
      if now > expiry { return false; }
      ok := ServerMeets(sha(challenge + nonce), DIFFICULTY);
    }

    method SweepStale(now: Time)
      modifies this
      ensures pending == Apply(old(pending), Sweep(now))
      ensures forall c :: c in pending <==> c in old(pending) && now < old(pending)[c]
      ensures forall sha, a: Action | a.Check? && now < a.at :: Accepts(sha, pending, a) == Accepts(sha, old(pending), a)
    {
      pending := map c | c in pending && now < pending[c] :: pending[c];
    }
  }
}
