/** The browser's search for a nonce, and its reception by the server. */
module BrowserSearch {
  import opened Common
  import opened Numerals
  import opened ProofOfWork
  import opened ChallengeStore

  /** The decimal counter `n`, appended to the challenge, meets the target. */
  predicate Meets(sha: Hasher, challenge: string, bits: nat, n: nat)
    requires |sha(challenge + Decimal(n))| == 32 && bits <= 256
  {
    Big(sha(challenge + Decimal(n)), 256) < Pow(2, 256 - bits)
  }

  /**
   `solveOnMainThread`: counting up from zero, the first nonce whose hash passes the test on hexadecimal
   digits. `some` is a number that solves the challenge; the search runs for ever if there is none.
   */
  method Search(sha: Hasher, challenge: string, bits: nat, ghost some: nat) returns (nonce: string)
    requires GoodHasher(sha) && bits <= 256 && Meets(sha, challenge, bits, some)
    ensures exists n: nat :: n <= some && nonce == Decimal(n) && Meets(sha, challenge, bits, n)
                             && forall m: nat | m < n :: !Meets(sha, challenge, bits, m)
  {
    var n: nat := 0;
    while true
      invariant n <= some && forall m: nat | m < n :: !Meets(sha, challenge, bits, m)
      decreases some - n
    {
      var hash := sha(challenge + Decimal(n));
      var hex := ToHex(hash);
      HexTestIsBound(hash, hex, bits);
      if ClientMeets(hex, bits) { return Decimal(n); }
      n := n + 1;
    }
  }

  /**
   A whole renewal against one process: a challenge is minted, the browser searches at the difficulty it
   is told, and the first attempt with its nonce is accepted exactly if it comes by the expiry. Sending
   the same nonce again is refused.
   */
  method SolveOnce(
      sha: Hasher, store: Challenges, challenge: string, ttl: nat, minted: int, answered: int, again: int, ghost some: nat)
      returns (nonce: string, ok: bool, twice: bool)
    requires GoodHasher(sha) && Meets(sha, challenge, 14, some)
    modifies store
    ensures ok <==> answered <= minted + ttl
    ensures !twice && challenge !in store.pending
    ensures forall other | other != challenge ::
              (other in store.pending <==> other in old(store.pending))
              && (other in store.pending ==> store.pending[other] == old(store.pending)[other])
  {
    store.NewChallenge(challenge, ttl, minted);
    nonce := Search(sha, challenge, 14, some);
    ok := store.CheckPow(sha, challenge, nonce, answered);
    twice := store.CheckPow(sha, challenge, nonce, again);
  }
}
