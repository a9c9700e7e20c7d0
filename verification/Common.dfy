/** Small shared types. */
module Common {

  /** Rust's `Option`, used for every absent or failed result. */
  datatype Option<+T> = None | Some(value: T)

  /** One octet of a stream, a digest or a key. */
  type byte = b: int | 0 <= b < 256

  /** ASCII lower-casing of one character; every other character is kept. */
  function LowerChar(c: char): char {
    if 'A' <= c <= 'Z' then (c as int + 32) as char else c
  }

  /** Rust's `to_ascii_lowercase`, which keeps every offset. */
  function Lower(s: string): string {
    seq(|s|, i requires 0 <= i < |s| => LowerChar(s[i]))
  }

  /** Two characters that are the same, or the two cases of one ASCII letter. */
  predicate EqualFold(a: char, b: char) {
    || a == b
    || ('A' <= a <= 'Z' && b as int == a as int + 32)
    || ('A' <= b <= 'Z' && a as int == b as int + 32)
  }

  predicate SameText(s: string, t: string) {
    |s| == |t| && forall i | 0 <= i < |s| :: EqualFold(s[i], t[i])
  }

  /** Lower-casing forgets the case of ASCII letters and nothing else. */
  lemma LowerForgetsCase(s: string, t: string)
    ensures Lower(s) == Lower(t) <==> SameText(s, t)
    ensures SameText(s, Lower(s))
  {
    forall a: char, b: char ensures LowerChar(a) == LowerChar(b) <==> EqualFold(a, b) { }
    if Lower(s) == Lower(t) {
      forall i | 0 <= i < |s| ensures EqualFold(s[i], t[i]) { assert Lower(s)[i] == Lower(t)[i]; }
    }
  }
}
