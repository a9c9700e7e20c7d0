/**
 The proof-of-work target: the server tests a hash bit by bit, the browser tests its hexadecimal
 form digit by digit. Shifts and masks are written as division and remainder.
 */
module ProofOfWork {
  import opened Common

  const DIFFICULTY := 14

  function Pow(b: nat, n: nat): nat {
    if n == 0 then 1 else b * Pow(b, n - 1)
  }

  /** The number written big-endian by `ds` in base `b`. */
  function Big(ds: seq<nat>, b: nat): nat {
    if ds == [] then 0 else ds[0] * Pow(b, |ds| - 1) + Big(ds[1..], b)
  }

  predicate Digits(ds: seq<nat>, b: nat) {
    forall i | 0 <= i < |ds| :: ds[i] < b
  }

  // ---------------------------------------------------------------- arithmetic

  lemma MulMono(a: nat, b: nat, c: nat)
    requires a <= b
    ensures a * c <= b * c
  {
  }

  lemma MulAssoc(a: nat, b: nat, c: nat)
    ensures a * (b * c) == a * b * c
  {
  }

  lemma MulSum(a: nat, b: nat, c: nat)
    ensures (a + b) * c == a * c + b * c
  {
  }

  /** With r < unit: d * unit + r is below k * unit exactly when d is below k. */
  lemma Carry(d: nat, unit: nat, r: nat, k: nat)
    requires r < unit
    ensures d * unit + r < k * unit <==> d < k
  {
    if d < k {
      MulMono(d + 1, k, unit);
      MulSum(d, 1, unit);
    } else {
      MulMono(k, d, unit);
    }
  }

  /** A number at most one unit of its leading digit has that digit zero. */
  lemma ZeroDigit(d: nat, unit: nat, r: nat, bound: nat)
    requires bound <= unit
    ensures d * unit + r < bound <==> d == 0 && r < bound
  {
  }

  lemma {:induction false} PowSum(b: nat, m: nat, n: nat)
    ensures Pow(b, m + n) == Pow(b, m) * Pow(b, n)
  {
    if m > 0 {
      PowSum(b, m - 1, n);
      assert Pow(b, m + n) == b * Pow(b, m - 1 + n);
      MulAssoc(b, Pow(b, m - 1), Pow(b, n));
    }
  }

  lemma {:induction false} PowPositive(b: nat, n: nat)
    requires b > 0
    ensures Pow(b, n) > 0
  {
    if n > 0 {
      PowPositive(b, n - 1);
      MulMono(1, b, Pow(b, n - 1));
    }
  }

  lemma {:induction false} PowMono(b: nat, m: nat, n: nat)
    requires b > 0 && m <= n
    ensures Pow(b, m) <= Pow(b, n)
    decreases n
  {
    if m < n {
      PowMono(b, m, n - 1);
      MulMono(1, b, Pow(b, n - 1));
    }
  }

  /** One digit in base 2^w is `w` binary digits. */
  lemma {:induction false} PowOfPow(w: nat, n: nat)
    ensures Pow(Pow(2, w), n) == Pow(2, w * n)
  {
    if n > 0 {
      PowOfPow(w, n - 1);
      PowSum(2, w, w * (n - 1));
      assert w * n == w + w * (n - 1);
    }
  }

  lemma SmallPowers()
    ensures Pow(2, 0) == 1 && Pow(2, 1) == 2 && Pow(2, 2) == 4 && Pow(2, 3) == 8 && Pow(2, 4) == 16
    ensures Pow(2, 5) == 32 && Pow(2, 6) == 64 && Pow(2, 7) == 128 && Pow(2, 8) == 256
  {
  }

  // ---------------------------------------------------------------- leading zeros are a bound

  lemma {:induction false} BigBound(ds: seq<nat>, b: nat)
    requires Digits(ds, b)
    ensures Big(ds, b) < Pow(b, |ds|)
  {
    if ds != [] {
      BigBound(ds[1..], b);
      Carry(ds[0], Pow(b, |ds| - 1), Big(ds[1..], b), b);
    }
  }

  predicate LeadingZeros(ds: seq<nat>, full: nat)
    requires full <= |ds|
  {
    forall i | 0 <= i < full :: ds[i] == 0
  }

  /** Below a power of the base, the leading digits are zero and the others spell the number. */
  lemma {:induction false} SmallNumber(ds: seq<nat>, b: nat, full: nat, bound: nat)
    requires b > 0 && Digits(ds, b) && full <= |ds| && bound <= Pow(b, |ds| - full)
    ensures Big(ds, b) < bound <==> LeadingZeros(ds, full) && Big(ds[full..], b) < bound
    decreases full
  {
    if full > 0 {
      var tail := ds[1..];
      SmallNumber(tail, b, full - 1, bound);
      assert tail[full - 1..] == ds[full..];
      assert LeadingZeros(ds, full) <==> ds[0] == 0 && LeadingZeros(tail, full - 1);
      PowMono(b, |ds| - full, |ds| - 1);
      ZeroDigit(ds[0], Pow(b, |ds| - 1), Big(tail, b), bound);
    } else {
      assert ds[0..] == ds;
    }
  }

  /** In any base, leading zeros are a bound on the number. */
  lemma LeadingZerosIsBound(ds: seq<nat>, b: nat, full: nat)
    requires b > 0 && Digits(ds, b) && full <= |ds|
    ensures LeadingZeros(ds, full) <==> Big(ds, b) < Pow(b, |ds| - full)
  {
    SmallNumber(ds, b, full, Pow(b, |ds| - full));
    BigBound(ds[full..], b);
  }

  /** The same with a bound on the digit after the zeros. */
  lemma NextDigitIsBound(ds: seq<nat>, b: nat, full: nat, k: nat)
    requires b > 0 && Digits(ds, b) && full < |ds| && k <= b
    ensures LeadingZeros(ds, full) && ds[full] < k <==> Big(ds, b) < k * Pow(b, |ds| - full - 1)
  {
    var rest, unit := ds[full..], Pow(b, |ds| - full - 1);
    MulMono(k, b, unit);
    SmallNumber(ds, b, full, k * unit);
    BigBound(rest[1..], b);
    Carry(rest[0], unit, Big(rest[1..], b), k);
  }

  // ---------------------------------------------------------------- bits and nibbles of a hash

  function Bit(b: byte, k: nat): nat
    requires k < 8
  {
    PowPositive(2, k);
    b / Pow(2, k) % 2
  }

  function Bits(h: seq<byte>): seq<nat> {
    seq(8 * |h|, i requires 0 <= i < 8 * |h| => Bit(h[i / 8], 7 - i % 8))
  }

  function Nibbles(h: seq<byte>): seq<nat> {
    seq(2 * |h|, i requires 0 <= i < 2 * |h| => if i % 2 == 0 then h[i / 2] / 16 else h[i / 2] % 16)
  }

  lemma {:induction false} BigConcat(x: seq<nat>, y: seq<nat>, b: nat)
    ensures Big(x + y, b) == Big(x, b) * Pow(b, |y|) + Big(y, b)
  {
    if x == [] {
      assert x + y == y;
    } else {
      BigConcat(x[1..], y, b);
      assert (x + y)[1..] == x[1..] + y;
      PowSum(b, |x| - 1, |y|);
      MulAssoc(x[0], Pow(b, |x| - 1), Pow(b, |y|));
      MulSum(x[0] * Pow(b, |x| - 1), Big(x[1..], b), Pow(b, |y|));
    }
  }

  lemma BigSnoc(ds: seq<nat>, d: nat, b: nat)
    ensures Big(ds + [d], b) == Big(ds, b) * b + d
  {
    BigConcat(ds, [d], b);
    assert Big([d], b) == d * Pow(b, 0) + Big([d][1..], b);
    assert Pow(b, 1) == b * Pow(b, 0);
  }

  lemma QuotientUnique(n: nat, d: nat, q: nat, r: nat)
    requires d > 0 && r < d && n == q * d + r
    ensures n / d == q
  {
    Carry(n / d, d, n % d, q + 1);
    Carry(q, d, r, n / d + 1);
  }

  lemma HalfAgain(b: nat, p: nat)
    requires p > 0
    ensures b / (2 * p) * 2 + b / p % 2 == b / p
  {
    var q, r := b / p, b % p;
    var half, odd := q / 2, q % 2;
    MulSum(half * 2, odd, p);
    MulAssoc(half, 2, p);
    assert b == q * p + r;
    assert b == half * (2 * p) + (odd * p + r);
    MulMono(odd, 1, p);
    QuotientUnique(b, 2 * p, half, odd * p + r);
  }

  /** The top `k` bits of a byte spell its quotient. */
  lemma {:induction false} TopBits(b: byte, k: nat)
    requires k <= 8
    ensures Pow(2, 8 - k) > 0 && Big(Bits([b])[..k], 2) == b / Pow(2, 8 - k)
  {
    SmallPowers();
    if k > 0 {
      TopBits(b, k - 1);
      assert Bits([b])[..k] == Bits([b])[..k - 1] + [Bit(b, 8 - k)];
      BigSnoc(Bits([b])[..k - 1], Bit(b, 8 - k), 2);
      PowPositive(2, 8 - k);
      assert Pow(2, 9 - k) == 2 * Pow(2, 8 - k);
      HalfAgain(b, Pow(2, 8 - k));
    }
  }

  lemma BitsCons(h: seq<byte>)
    requires h != []
    ensures Bits(h) == Bits([h[0]]) + Bits(h[1..])
  {
  }

  /** The bits of a hash spell its number. */
  lemma {:induction false} BitsSpell(h: seq<byte>)
    ensures Big(Bits(h), 2) == Big(h, 256)
  {
    if h != [] {
      BitsSpell(h[1..]);
      TopBits(h[0], 8);
      assert Bits([h[0]])[..8] == Bits([h[0]]);
      BitsCons(h);
      BigConcat(Bits([h[0]]), Bits(h[1..]), 2);
      SmallPowers();
      PowOfPow(8, |h| - 1);
    }
  }

  lemma NibblesCons(h: seq<byte>)
    requires h != []
    ensures Nibbles(h) == [h[0] / 16] + [h[0] % 16] + Nibbles(h[1..])
  {
  }

  /** The nibbles of a hash spell its number. */
  lemma {:induction false} NibblesSpell(h: seq<byte>)
    ensures Big(Nibbles(h), 16) == Big(h, 256)
  {
    if h != [] {
      NibblesSpell(h[1..]);
      NibblesCons(h);
      var hi, lo := h[0] / 16, h[0] % 16;
      BigConcat([hi] + [lo], Nibbles(h[1..]), 16);
      BigSnoc([hi], lo, 16);
      BigSnoc([], hi, 16);
      assert [] + [hi] == [hi];
      SmallPowers();
      PowOfPow(4, 2 * (|h| - 1));
      PowOfPow(8, |h| - 1);
    }
  }

  // ---------------------------------------------------------------- the two tests

  /** The hash, read as a 256-bit big-endian number, is below 2^(256 - bits). */
  predicate MeetsTarget(hash: seq<byte>, bits: nat)
    requires bits <= 8 * |hash|
  {
    Big(hash, 256) < Pow(2, 8 * |hash| - bits)
  }

  lemma BitTestIsBound(hash: seq<byte>, bits: nat)
    requires bits <= 8 * |hash|
    ensures (forall i | 0 <= i < bits :: Bits(hash)[i] == 0) <==> MeetsTarget(hash, bits)
  {
    BitsSpell(hash);
    LeadingZerosIsBound(Bits(hash), 2, bits);
  }

  /** `meets_target` of the server: the leading bits one by one, stopping at the first that is set. */
  method ServerMeets(hash: seq<byte>, bits: nat) returns (ok: bool)
    requires |hash| == 32 && bits <= 256
    ensures ok <==> MeetsTarget(hash, bits)
  {
    BitTestIsBound(hash, bits);
    for i := 0 to bits
      invariant forall j | 0 <= j < i :: Bits(hash)[j] == 0
    {
      if Bit(hash[i / 8], 7 - i % 8) != 0 {
        assert Bits(hash)[i] != 0;
        return false;
      }
    }
    return true;
  }

  /** The lower-case hexadecimal digit of a nibble. */
  function HexDigit(d: nat): char
    requires d < 16
  {
    if d < 10 then '0' + d as char else 'a' + (d - 10) as char
  }

  /** `parseInt(c, 16)` of one digit; `None` is NaN. */
  function ParseHex(c: char): Option<nat> {
    if '0' <= c <= '9' then Some(c as int - '0' as int)
    else if 'a' <= c <= 'f' then Some(c as int - 'a' as int + 10)
    else if 'A' <= c <= 'F' then Some(c as int - 'A' as int + 10)
    else None
  }

  /** `b.toString(16)` of a byte. */
  function ToString16(b: byte): string {
    if b < 16 then [HexDigit(b)] else [HexDigit(b / 16), HexDigit(b % 16)]
  }

  /** `s.padStart(2, "0")`. */
  function PadStart2(s: string): string {
    if |s| >= 2 then s else seq(2 - |s|, _ => '0') + s
  }

  predicate IsHexOf(hex: string, hash: seq<byte>) {
    && |hex| == 2 * |hash|
    && forall i | 0 <= i < |hex| :: Nibbles(hash)[i] < 16 && hex[i] == HexDigit(Nibbles(hash)[i])
  }

  /** The two padded digits of a byte are those of its nibbles. */
  lemma TwoDigits(b: byte)
    ensures var two := PadStart2(ToString16(b));
            |two| == 2 && two[0] == HexDigit(b / 16) && two[1] == HexDigit(b % 16)
  {
  }

  /** `toHex` of the browser. */
  method ToHex(bytes: seq<byte>) returns (out: string)
    ensures IsHexOf(out, bytes)
  {
    out := "";
    for i := 0 to |bytes|
      invariant |out| == 2 * i
      invariant forall k | 0 <= k < |out| :: Nibbles(bytes)[k] < 16 && out[k] == HexDigit(Nibbles(bytes)[k])
    {
      TwoDigits(bytes[i]);
      out := out + PadStart2(ToString16(bytes[i]));
    }
  }

  /** `meetsTarget` of the browser, on the hexadecimal form. */
  predicate ClientMeets(hex: string, bits: nat)
    requires bits <= 4 * |hex|
  {
    var full, rem := bits / 4, bits % 4;
    if hex[..full] != seq(full, _ => '0') then false
    else if rem == 0 then true
    else match ParseHex(hex[full])
         case Some(d) => d < Pow(2, 4 - rem)
         case None => false
  }

  lemma ZeroPrefix(hex: string, full: nat)
    requires full <= |hex|
    ensures hex[..full] == seq(full, _ => '0') <==> forall i | 0 <= i < full :: hex[i] == '0'
  {
  }

  /** On the nibbles: whole zero digits, and a bound on the next when bits are left over. */
  lemma NibbleTestIsBound(hash: seq<byte>, bits: nat)
    requires bits <= 8 * |hash|
    ensures var full, rem := bits / 4, bits % 4;
            LeadingZeros(Nibbles(hash), full) && (rem > 0 ==> Nibbles(hash)[full] < Pow(2, 4 - rem))
            <==> MeetsTarget(hash, bits)
  {
    var full, rem, ds := bits / 4, bits % 4, Nibbles(hash);
    NibblesSpell(hash);
    SmallPowers();
    assert Digits(ds, 16);
    if rem == 0 {
      LeadingZerosIsBound(ds, 16, full);
      PowOfPow(4, |ds| - full);
    } else {
      PowMono(2, 4 - rem, 4);
      var m := |ds| - full - 1;
      NextDigitIsBound(ds, 16, full, Pow(2, 4 - rem));
      PowOfPow(4, m);
      PowSum(2, 4 - rem, 4 * m);
    }
  }

  /** On the hexadecimal form of a hash, the browser's test is the same bound. */
  lemma HexTestIsBound(hash: seq<byte>, hex: string, bits: nat)
    requires IsHexOf(hex, hash) && bits <= 8 * |hash|
    ensures ClientMeets(hex, bits) <==> MeetsTarget(hash, bits)
  {
    NibbleTestIsBound(hash, bits);
    ZeroPrefix(hex, bits / 4);
    assert forall i | 0 <= i < |hex| ::
        ParseHex(hex[i]) == Some(Nibbles(hash)[i]) && (hex[i] == '0' <==> Nibbles(hash)[i] == 0);
  }

  /** Server and browser accept exactly the same hashes, at every difficulty. */
  lemma ServerAndClientAgree(hash: seq<byte>, hex: string, bits: nat)
    requires |hash| == 32 && bits <= 256 && IsHexOf(hex, hash)
    ensures (forall i | 0 <= i < bits :: Bit(hash[i / 8], 7 - i % 8) == 0) <==> ClientMeets(hex, bits)
    ensures ClientMeets(hex, bits) <==> Big(hash, 256) < Pow(2, 256 - bits)
  {
    BitTestIsBound(hash, bits);
    HexTestIsBound(hash, hex, bits);
    assert forall i | 0 <= i < bits :: Bits(hash)[i] == Bit(hash[i / 8], 7 - i % 8);
  }
}
