/** Cache keys: which (host, path) pairs share an entry. */
module CacheKeys {
  import opened Common

  /** Everything before the first character that satisfies `stop`. */
  function Until(s: string, stop: char -> bool): string {
    if s == [] || stop(s[0]) then [] else [s[0]] + Until(s[1..], stop)
  }

  predicate IsQuery(c: char) { c == '?' || c == '#' }

  predicate IsColon(c: char) { c == ':' }

  function NormalizePath(path: string): string {
    var p := Until(path, IsQuery);
    if p == "" then "/" else if p[0] == '/' then p else "/" + p
  }

  function TrimDots(s: string): string {
    if s != [] && s[|s| - 1] == '.' then TrimDots(s[..|s| - 1]) else s
  }

  function NormalizeHost(host: string): string {
    Lower(TrimDots(Until(host, IsColon)))
  }

  const PREFIX := "nekoguard:embed:"
  const INFIX := ":p:"

  /** `digest` stands for the truncated SHA-256 of the path. */
  function CacheKey(digest: string -> string, host: string, path: string): string {
    var p := NormalizePath(path);
    if p == "/" then PREFIX + host else PREFIX + host + INFIX + digest(p)
  }

  /** Eight bytes of the hash, in hexadecimal. */
  const DIGEST_LEN := 16

  ghost predicate FixedLength(digest: string -> string) {
    forall p :: |digest(p)| == DIGEST_LEN
  }

  /** The digest tells the two paths apart, if they differ. */
  predicate Distinguishes(digest: string -> string, p: string, q: string) {
    digest(p) == digest(q) ==> p == q
  }

  lemma {:induction false} UntilStops(s: string, stop: char -> bool)
    ensures forall i | 0 <= i < |Until(s, stop)| :: !stop(Until(s, stop)[i])
    ensures Until(Until(s, stop), stop) == Until(s, stop)
  {
    if s != [] && !stop(s[0]) {
      UntilStops(s[1..], stop);
      assert Until(s, stop)[1..] == Until(s[1..], stop);
    }
  }

  lemma {:induction false} UntilIs(front: string, rest: string, stop: char -> bool)
    requires (forall i | 0 <= i < |front| :: !stop(front[i])) && (rest != [] ==> stop(rest[0]))
    ensures Until(front + rest, stop) == front
  {
    if front == [] {
      assert front + rest == rest;
    } else {
      assert (front + rest)[1..] == front[1..] + rest;
      UntilIs(front[1..], rest, stop);
      assert [front[0]] + front[1..] == front;
    }
  }

  /** A path is normalised to what stands before its first `?` or `#`, with one leading slash supplied if it has none. */
  lemma NormalizePathIs(front: string, rest: string)
    requires '?' !in front && '#' !in front && (rest != [] ==> rest[0] == '?' || rest[0] == '#')
    ensures NormalizePath(front + rest) == if front != [] && front[0] == '/' then front else "/" + front
  {
    UntilIs(front, rest, IsQuery);
  }

  lemma {:induction false} TrimDotsIs(front: string, n: nat)
    requires front == [] || front[|front| - 1] != '.'
    ensures TrimDots(front + seq(n, _ => '.')) == front
  {
    var s := front + seq(n, _ => '.');
    if n == 0 {
      assert s == front;
    } else {
      TrimDotsIs(front, n - 1);
      assert s[..|s| - 1] == front + seq(n - 1, _ => '.');
    }
  }

  /** A host is normalised to what stands before its trailing dots and its port, in lower case. */
  lemma NormalizeHostIs(front: string, dots: nat, rest: string)
    requires ':' !in front && (front != [] ==> front[|front| - 1] != '.') && (rest != [] ==> rest[0] == ':')
    ensures NormalizeHost(front + seq(dots, _ => '.') + rest) == Lower(front)
  {
    UntilIs(front + seq(dots, _ => '.'), rest, IsColon);
    TrimDotsIs(front, dots);
  }

  /** Normalising a path twice changes nothing, and queries and fragments never reach a key. */
  lemma NormalizePathIdempotent(path: string)
    ensures NormalizePath(NormalizePath(path)) == NormalizePath(path)
    ensures forall c | c in NormalizePath(path) :: !IsQuery(c)
  {
    var p := Until(path, IsQuery);
    UntilStops(path, IsQuery);
    if p == "" {
      assert Until("/", IsQuery) == "/" + Until("/"[1..], IsQuery);
    } else if p[0] != '/' {
      assert ("/" + p)[1..] == p;
    }
  }

  lemma {:induction false} TrimDotsKeeps(s: string, c: char)
    requires c !in s
    ensures c !in TrimDots(s)
  {
    if s != [] && s[|s| - 1] == '.' { TrimDotsKeeps(s[..|s| - 1], c); }
  }

  /** The host every caller passes has no colon in it. */
  lemma NormalizedHostHasNoColon(host: string)
    ensures ':' !in NormalizeHost(host)
  {
    UntilStops(host, IsColon);
    TrimDotsKeeps(Until(host, IsColon), ':');
  }

  /** Both paths are the root, or neither is and their digests agree. */
  predicate SameEntry(digest: string -> string, p1: string, p2: string) {
    var n1, n2 := NormalizePath(p1), NormalizePath(p2);
    (n1 == "/" <==> n2 == "/") && (n1 != "/" ==> digest(n1) == digest(n2))
  }

  /** The root entry of `h1` falls on a deeper entry of `h2`. */
  predicate Clash(digest: string -> string, h1: string, p1: string, h2: string, p2: string) {
    && NormalizePath(p1) == "/" && NormalizePath(p2) != "/"
    && h1 == h2 + INFIX + digest(NormalizePath(p2))
  }

  /**
   Two keys coincide exactly when they name the same host and entry, or when one host spells out a
   deeper key of the other.
   */
  lemma KeysCoincide(digest: string -> string, h1: string, p1: string, h2: string, p2: string)
    requires FixedLength(digest)
    ensures CacheKey(digest, h1, p1) == CacheKey(digest, h2, p2) <==>
            || (h1 == h2 && SameEntry(digest, p1, p2))
            || Clash(digest, h1, p1, h2, p2) || Clash(digest, h2, p2, h1, p1)
  {
    var k1, k2 := CacheKey(digest, h1, p1), CacheKey(digest, h2, p2);
    var n1, n2 := NormalizePath(p1), NormalizePath(p2);
    var t1 := if n1 == "/" then h1 else h1 + INFIX + digest(n1);
    var t2 := if n2 == "/" then h2 else h2 + INFIX + digest(n2);
    assert k1 == PREFIX + t1 && k2 == PREFIX + t2;
    assert k1[|PREFIX|..] == t1 && k2[|PREFIX|..] == t2;
    if k1 == k2 && n1 != "/" && n2 != "/" {
      assert |digest(n1)| == |digest(n2)|;
      assert h1 == t1[..|h1|] && h2 == t2[..|h2|];
      assert digest(n1) == t1[|h1| + |INFIX|..] && digest(n2) == t2[|h2| + |INFIX|..];
    }
  }

  lemma ClashNeedsColon(digest: string -> string, h1: string, p1: string, h2: string, p2: string)
    ensures Clash(digest, h1, p1, h2, p2) ==> ':' in h1
  {
  }

  /**
   For the hosts that reach the cache, one key is one host and one entry; and the entry is one
   normalised path unless the digests of the two paths collide.
   */
  lemma CacheKeyInjective(digest: string -> string, h1: string, p1: string, h2: string, p2: string)
    requires FixedLength(digest)
    ensures var same := CacheKey(digest, NormalizeHost(h1), p1) == CacheKey(digest, NormalizeHost(h2), p2);
            && (same <==> NormalizeHost(h1) == NormalizeHost(h2) && SameEntry(digest, p1, p2))
            && (Distinguishes(digest, NormalizePath(p1), NormalizePath(p2)) ==>
                  (same <==> NormalizeHost(h1) == NormalizeHost(h2) && NormalizePath(p1) == NormalizePath(p2)))
  {
    var n1, n2 := NormalizeHost(h1), NormalizeHost(h2);
    KeysCoincide(digest, n1, p1, n2, p2);
    NormalizedHostHasNoColon(h1);
    NormalizedHostHasNoColon(h2);
    ClashNeedsColon(digest, n1, p1, n2, p2);
    ClashNeedsColon(digest, n2, p2, n1, p1);
  }

  /** Such digests exist. */
  lemma FixedLengthExists() returns (digest: string -> string)
    ensures FixedLength(digest)
  {
    digest := (p: string) => seq(DIGEST_LEN, _ => '0');
  }
}
