/**
 Sealed session cookies: how replicas agree on one sealing key, and when a cookie is accepted.
 */
module Session {
  import opened Common

  const SECRET_LEN := 32
  const NONCE_LEN := 12

  // ---------------------------------------------------------------- agreeing on the secret

  type Secret = seq<byte>
  type Replica = nat

  /** The key buffer: as much of the secret as fits, zeros after it. */
  function KeyOf(secret: Secret): (key: Secret)
    ensures |key| == 32
    ensures forall i | 0 <= i < 32 :: key[i] == if i < |secret| then secret[i] else 0
  {
    var n := if |secret| < 32 then |secret| else 32;
    secret[..n] + seq(32 - n, _ => 0)
  }

  datatype Pc =
    | FirstGet
    | SetNx(drawn: Secret)
    | SecondGet
    | Ready(key: Secret)
    | Panicked

  datatype State = State(stored: Option<Secret>, replicas: map<Replica, Pc>)

  /** What the environment decides: whether the reply arrives, whether a lost `SET` was applied, the random draw. */
  datatype Env = Env(replies: bool, applied: bool, draw: Secret)

  datatype Action = Join(id: Replica) | Step(id: Replica, env: Env)

  /** A missing key reads as the empty string. */
  function Get(stored: Option<Secret>): Secret { if stored.Some? then stored.value else [] }

  function StoreNx(stored: Option<Secret>, secret: Secret): Option<Secret> {
    if stored.Some? then stored else Some(secret)
  }

  predicate Enabled(s: State, a: Action) {
    match a
    case Join(id) => id !in s.replicas
    case Step(id, env) =>
      && id in s.replicas && !s.replicas[id].Ready? && !s.replicas[id].Panicked?
      && |env.draw| == SECRET_LEN
  }

  /** One Redis command of `get_or_create_secret`, by program point. */
  function Apply(s: State, a: Action): State
    requires Enabled(s, a)
  {
    match a
    case Join(id) => s.(replicas := s.replicas[id := FirstGet])
    case Step(id, env) =>
      match s.replicas[id]
      case FirstGet =>
        if env.replies && Get(s.stored) != [] then s.(replicas := s.replicas[id := Ready(KeyOf(Get(s.stored)))])
        else s.(replicas := s.replicas[id := SetNx(env.draw)])
      case SetNx(secret) =>
        if env.replies then State(StoreNx(s.stored, secret), s.replicas[id := SecondGet])
        else State(if env.applied then StoreNx(s.stored, secret) else s.stored, s.replicas[id := Panicked])
      case SecondGet =>
        s.(replicas := s.replicas[id := if env.replies then Ready(KeyOf(Get(s.stored))) else Panicked])
  }

  predicate Legal(s: State, run: seq<Action>)
    decreases |run|
  {
    run == [] || (Enabled(s, run[0]) && Legal(Apply(s, run[0]), run[1..]))
  }

  function Exec(s: State, run: seq<Action>): State
    requires Legal(s, run)
    decreases |run|
  {
    if run == [] then s else Exec(Apply(s, run[0]), run[1..])
  }

  ghost predicate Inv(s: State) {
    forall id | id in s.replicas ::
      && (s.replicas[id].SecondGet? || s.replicas[id].Ready? ==> s.stored.Some?)
      && (s.replicas[id].Ready? ==> s.replicas[id].key == KeyOf(s.stored.value))
  }

  /** Whatever happens, the invariant stays and a secret once stored is never replaced. */
  lemma {:induction false} RunKeeps(s: State, run: seq<Action>)
    requires Inv(s) && Legal(s, run)
    ensures Inv(Exec(s, run))
    ensures s.stored.Some? ==> Exec(s, run).stored == s.stored
    decreases |run|
  {
    if run != [] { RunKeeps(Apply(s, run[0]), run[1..]); }
  }

  /** A secret of the right length is its own key, so different secrets give different keys. */
  lemma FullSecretIsKey(x: Secret, y: Secret)
    requires |x| == SECRET_LEN && |y| == SECRET_LEN
    ensures KeyOf(x) == x && (KeyOf(x) == KeyOf(y) <==> x == y)
  {
    assert KeyOf(y) == y;
  }

  /** Along the run, some replica whose first `GET` found nothing drew the secret. */
  predicate DrawnIn(s: State, run: seq<Action>, secret: Secret)
    requires Legal(s, run)
    decreases |run|
  {
    run != [] &&
    (|| (run[0].Step? && s.replicas[run[0].id] == FirstGet && run[0].env.draw == secret)
     || DrawnIn(Apply(s, run[0]), run[1..], secret))
  }

  /** Some replica is about to offer the secret. */
  ghost predicate Offered(s: State, secret: Secret) {
    exists id :: id in s.replicas && s.replicas[id] == SetNx(secret)
  }

  lemma OfferedOrDrawn(s: State, a: Action, secret: Secret)
    requires Enabled(s, a) && (Offered(Apply(s, a), secret) || Apply(s, a).stored == Some(secret))
    ensures s.stored == Some(secret) || Offered(s, secret) || (a.Step? && s.replicas[a.id] == FirstGet && a.env.draw == secret)
  {
  }

  lemma {:induction false} StoredWasDrawnFrom(s: State, run: seq<Action>)
    requires Legal(s, run) && Exec(s, run).stored.Some?
    ensures var secret := Exec(s, run).stored.value;
            s.stored == Some(secret) || Offered(s, secret) || DrawnIn(s, run, secret)
    decreases |run|
  {
    if run != [] {
      StoredWasDrawnFrom(Apply(s, run[0]), run[1..]);
      var secret := Exec(s, run).stored.value;
      if !DrawnIn(Apply(s, run[0]), run[1..], secret) { OfferedOrDrawn(s, run[0], secret); }
    }
  }

  lemma {:induction false} DrawnIsFull(s: State, run: seq<Action>, secret: Secret)
    requires Legal(s, run) && DrawnIn(s, run, secret)
    ensures |secret| == SECRET_LEN
    decreases |run|
  {
    if DrawnIn(Apply(s, run[0]), run[1..], secret) { DrawnIsFull(Apply(s, run[0]), run[1..], secret); }
  }

  /** From an empty store, the key of every replica that finishes is a whole secret that some replica drew. */
  lemma KeyWasDrawn(run: seq<Action>, a: Replica)
    requires Legal(State(None, map[]), run)
    requires var s := Exec(State(None, map[]), run); a in s.replicas && s.replicas[a].Ready?
    ensures var s := Exec(State(None, map[]), run);
            s.stored == Some(s.replicas[a].key) && DrawnIn(State(None, map[]), run, s.replicas[a].key)
  {
    var s0 := State(None, map[]);
    ReplicasAgree(None, run, a, a);
    StoredWasDrawnFrom(s0, run);
    DrawnIsFull(s0, run, Exec(s0, run).stored.value);
  }

  /** In every interleaving, all replicas that finish hold the key of the one stored secret. */
  lemma ReplicasAgree(initial: Option<Secret>, run: seq<Action>, a: Replica, b: Replica)
    requires Legal(State(initial, map[]), run)
    requires var s := Exec(State(initial, map[]), run);
             a in s.replicas && b in s.replicas && s.replicas[a].Ready? && s.replicas[b].Ready?
    ensures var s := Exec(State(initial, map[]), run);
            && s.replicas[a].key == s.replicas[b].key
            && s.stored.Some? && s.replicas[a].key == KeyOf(s.stored.value)
            && (|s.stored.value| == SECRET_LEN ==> s.replicas[a].key == s.stored.value)
            && (initial.Some? ==> s.stored == initial)
  {
    RunKeeps(State(initial, map[]), run);
  }

  // ---------------------------------------------------------------- sealed cookies

  type Ip = nat

  datatype Payload = Payload(ip: string, exp: nat)

  /** The foreign pieces: AES-GCM, JSON, base64url and the textual form of addresses. */
  datatype Codec = Codec(
    seal: (Secret, seq<byte>, seq<byte>) -> seq<byte>,
    unseal: (Secret, seq<byte>, seq<byte>) -> Option<seq<byte>>,
    encode: Payload -> seq<byte>,
    decode: seq<byte> -> Option<Payload>,
    armor: seq<byte> -> string,
    unarmor: string -> Option<seq<byte>>,
    show: Ip -> string,
    parse: string -> Option<Ip>)

  /** Each piece undoes its partner, a sealed text is never empty, and only sealed texts open. */
  ghost predicate Good(x: Codec) {
    && (forall k, n, p :: x.unseal(k, n, x.seal(k, n, p)) == Some(p))
    && (forall k, n, p :: |x.seal(k, n, p)| > 0)
    && (forall k, n, c :: x.unseal(k, n, c).Some? ==> c == x.seal(k, n, x.unseal(k, n, c).value))
    && (forall p :: x.decode(x.encode(p)) == Some(p))
    && (forall b :: x.unarmor(x.armor(b)) == Some(b))
    && (forall ip: Ip :: x.parse(x.show(ip)) == Some(ip))
  }

  // ---------------------------------------------------------------- the laws can be met

  /** Numbers in unary, each closed by a zero. */
  function Unary(ns: seq<nat>): seq<byte> {
    if ns == [] then [] else seq(ns[0], _ => 1) + [0] + Unary(ns[1..])
  }

  lemma UnaryFirst(ns: seq<nat>)
    requires ns != []
    ensures var u, n := Unary(ns), ns[0];
            |u| > n && u[n] == 0 && (forall i | 0 <= i < n :: u[i] == 1) && u[n + 1..] == Unary(ns[1..])
  {
  }

  lemma {:induction false} UnaryInjective(x: seq<nat>, y: seq<nat>)
    requires Unary(x) == Unary(y)
    ensures x == y
  {
    if x != [] { UnaryFirst(x); }
    if y != [] { UnaryFirst(y); }
    if x != [] && y != [] {
      UnaryInjective(x[1..], y[1..]);
      assert x == [x[0]] + x[1..] && y == [y[0]] + y[1..];
    }
  }

  function Numbers(p: Payload): seq<nat> { [p.exp] + seq(|p.ip|, i requires 0 <= i < |p.ip| => p.ip[i] as nat) }

  lemma NumbersInjective(p: Payload, q: Payload)
    requires Numbers(p) == Numbers(q)
    ensures p == q
  {
    assert p.exp == Numbers(p)[0] && q.exp == Numbers(q)[0] && |p.ip| == |Numbers(p)| - 1 == |q.ip|;
    assert forall i | 0 <= i < |p.ip| :: p.ip[i] as nat == Numbers(p)[i + 1] == Numbers(q)[i + 1] == q.ip[i] as nat;
    assert p.ip == q.ip;
  }

  ghost function Denumber(b: seq<byte>): Option<Payload> {
    if exists p :: Unary(Numbers(p)) == b then
      var p :| Unary(Numbers(p)) == b;
      Some(p)
    else None
  }

  function Chars(b: seq<byte>): string { seq(|b|, i requires 0 <= i < |b| => b[i] as char) }

  function Bytes(s: string): Option<seq<byte>> {
    if forall i | 0 <= i < |s| :: (s[i] as int) < 256 then Some(seq(|s|, i requires 0 <= i < |s| => s[i] as int)) else None
  }

  function Open(c: seq<byte>): Option<seq<byte>> {
    if c != [] && c[|c| - 1] == 0 then Some(c[..|c| - 1]) else None
  }

  /** There are pieces that obey the laws, so nothing below is said about none. */
  lemma GoodCodecExists() returns (x: Codec)
    ensures Good(x)
  {
    x := Codec(
      (k: Secret, n: seq<byte>, p: seq<byte>) => p + [0],
      (k: Secret, n: seq<byte>, c: seq<byte>) => Open(c),
      (p: Payload) => Unary(Numbers(p)),
      (b: seq<byte>) => Denumber(b),
      (b: seq<byte>) => Chars(b),
      (s: string) => Bytes(s),
      (ip: Ip) => seq(ip, _ => '1'),
      (s: string) => Some(|s|));
    forall p: seq<byte> ensures Open(p + [0]) == Some(p) { assert (p + [0])[..|p|] == p; }
    forall c: seq<byte> | Open(c).Some? ensures c == Open(c).value + [0] { }
    forall p ensures Denumber(Unary(Numbers(p))) == Some(p) {
      var q := Denumber(Unary(Numbers(p))).value;
      UnaryInjective(Numbers(p), Numbers(q));
      NumbersInjective(p, q);
    }
    forall b: seq<byte> ensures Bytes(Chars(b)) == Some(b) { assert Bytes(Chars(b)).value == b; }
  }

  // ---------------------------------------------------------------- verdicts

  datatype Verdict = Accepted(ip: Ip) | Malformed | InvalidSignature | IpMismatch | Expired

  /** `verify_cookie`; `now` is the server's clock in milliseconds. */
  function VerifyCookie(x: Codec, key: Secret, cookie: string, peer: Ip, now: nat): Verdict {
    match x.unarmor(cookie)
    case None => Malformed
    case Some(blob) =>
      if |blob| <= NONCE_LEN then Malformed
      else match x.unseal(key, blob[..NONCE_LEN], blob[NONCE_LEN..])
           case None => InvalidSignature
           case Some(plaintext) =>
             match x.decode(plaintext)
             case None => Malformed
             case Some(payload) =>
               match x.parse(payload.ip)
               case None => Malformed
               case Some(ip) =>
                 if ip != peer then IpMismatch
                 else if now / 1000 > payload.exp then Expired
                 else Accepted(ip)
  }

  /** The expiry sealed into a cookie: whole seconds, so the fraction of the issue time is dropped. */
  function ExpirySeconds(issued: nat, ttl: nat): nat { issued / 1000 + ttl }

  /** `create_cookie`: the nonce, then the sealed payload, armoured. */
  method CreateCookie(x: Codec, key: Secret, ttl: nat, ip: Ip, nonce: seq<byte>, now: nat) returns (cookie: string)
    requires Good(x) && |nonce| == NONCE_LEN
    ensures cookie == Cookie(x, key, ttl, ip, nonce, now)
    ensures VerifyCookie(x, key, cookie, ip, now) == Accepted(ip)
  {
    var exp := now / 1000 + ttl;
    var plaintext := x.encode(Payload(x.show(ip), exp));
    var blob := [];
    blob := blob + nonce;
    blob := blob + x.seal(key, nonce, plaintext);
    assert blob == nonce + x.seal(key, nonce, plaintext);
    cookie := x.armor(blob);
    CookieVerdict(x, key, ttl, ip, nonce, now, ip, now);
  }

  function Cookie(x: Codec, key: Secret, ttl: nat, ip: Ip, nonce: seq<byte>, issued: nat): string {
    x.armor(nonce + x.seal(key, nonce, x.encode(Payload(x.show(ip), ExpirySeconds(issued, ttl)))))
  }

  /** What a holder of the same key answers to a cookie, for every address and at every time. */
  lemma CookieVerdict(x: Codec, key: Secret, ttl: nat, ip: Ip, nonce: seq<byte>, issued: nat, peer: Ip, now: nat)
    requires Good(x) && |nonce| == NONCE_LEN
    ensures VerifyCookie(x, key, Cookie(x, key, ttl, ip, nonce, issued), peer, now) ==
            if peer != ip then IpMismatch
            else if now / 1000 <= issued / 1000 + ttl then Accepted(ip)
            else Expired
  {
  }

  /**
   Across replicas: a cookie minted by any replica for an address is accepted by every replica for
   that address exactly while the whole-second clock is at most its expiry, and for no other.
   */
  lemma CookieAcceptedEverywhere(
      x: Codec, initial: Option<Secret>, run: seq<Action>, minter: Replica, verifier: Replica,
      ttl: nat, ip: Ip, nonce: seq<byte>, issued: nat, peer: Ip, now: nat)
    requires Good(x) && |nonce| == NONCE_LEN && Legal(State(initial, map[]), run)
    requires var s := Exec(State(initial, map[]), run);
             && minter in s.replicas && s.replicas[minter].Ready?
             && verifier in s.replicas && s.replicas[verifier].Ready?
    ensures var s := Exec(State(initial, map[]), run);
            var cookie := Cookie(x, s.replicas[minter].key, ttl, ip, nonce, issued);
            VerifyCookie(x, s.replicas[verifier].key, cookie, peer, now).Accepted? <==>
              peer == ip && now / 1000 <= ExpirySeconds(issued, ttl)
  {
    ReplicasAgree(initial, run, minter, verifier);
    CookieVerdict(x, Exec(State(initial, map[]), run).replicas[minter].key, ttl, ip, nonce, issued, peer, now);
  }

  /** The cookie is a payload sealed under the key, for this address and not yet expired. */
  ghost predicate Sealed(x: Codec, key: Secret, cookie: string, peer: Ip, now: nat) {
    exists nonce, plaintext, p ::
      && |nonce| == NONCE_LEN
      && x.unarmor(cookie) == Some(nonce + x.seal(key, nonce, plaintext))
      && x.decode(plaintext) == Some(p)
      && x.parse(p.ip) == Some(peer) && now / 1000 <= p.exp
  }

  /** Exactly what was sealed under the key, for this address and not yet expired, is accepted. */
  lemma OnlySealedCookiesPass(x: Codec, key: Secret, cookie: string, peer: Ip, now: nat)
    requires Good(x)
    ensures VerifyCookie(x, key, cookie, peer, now) == Accepted(peer) <==> Sealed(x, key, cookie, peer, now)
    ensures VerifyCookie(x, key, cookie, peer, now).Accepted? ==> VerifyCookie(x, key, cookie, peer, now).ip == peer
  {
    if VerifyCookie(x, key, cookie, peer, now).Accepted? {
      AcceptedIsSealed(x, key, cookie, peer, now);
    }
    if Sealed(x, key, cookie, peer, now) {
      var nonce, plaintext, p :|
        && |nonce| == NONCE_LEN
        && x.unarmor(cookie) == Some(nonce + x.seal(key, nonce, plaintext))
        && x.decode(plaintext) == Some(p)
        && x.parse(p.ip) == Some(peer) && now / 1000 <= p.exp;
      var blob := nonce + x.seal(key, nonce, plaintext);
      assert blob[..NONCE_LEN] == nonce && blob[NONCE_LEN..] == x.seal(key, nonce, plaintext);
    }
  }

  lemma AcceptedIsSealed(x: Codec, key: Secret, cookie: string, peer: Ip, now: nat)
    requires Good(x) && VerifyCookie(x, key, cookie, peer, now).Accepted?
    ensures Sealed(x, key, cookie, peer, now)
  {
    var blob := x.unarmor(cookie).value;
    var nonce, c := blob[..NONCE_LEN], blob[NONCE_LEN..];
    var plaintext := x.unseal(key, nonce, c).value;
    assert blob == nonce + x.seal(key, nonce, plaintext);
    var p := x.decode(plaintext).value;
    assert x.parse(p.ip) == Some(peer);
  }

  /** What is not even a nonce and a sealed text is malformed; a text that was not sealed under the key is forged. */
  lemma RefusalReasons(x: Codec, key: Secret, cookie: string, peer: Ip, now: nat)
    requires Good(x)
    ensures x.unarmor(cookie).None? || |x.unarmor(cookie).value| <= NONCE_LEN ==>
              VerifyCookie(x, key, cookie, peer, now) == Malformed
    ensures VerifyCookie(x, key, cookie, peer, now) == InvalidSignature <==>
            && x.unarmor(cookie).Some? && |x.unarmor(cookie).value| > NONCE_LEN
            && forall plaintext ::
                 x.unarmor(cookie).value[NONCE_LEN..] != x.seal(key, x.unarmor(cookie).value[..NONCE_LEN], plaintext)
  {
    if x.unarmor(cookie).Some? && |x.unarmor(cookie).value| > NONCE_LEN {
      var blob := x.unarmor(cookie).value;
      var nonce, c := blob[..NONCE_LEN], blob[NONCE_LEN..];
      if x.unseal(key, nonce, c).Some? { assert c == x.seal(key, nonce, x.unseal(key, nonce, c).value); }
    }
  }
}
