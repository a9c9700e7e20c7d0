/** Character references: escaping a value for an attribute, and decoding a scraped one. */
module Entities {
  import opened Common
  import opened Numerals

  // ---------------------------------------------------------------- escaping

  /** `value.replace(from, to)` for one character. */
  function ReplaceChar(s: string, from: char, to: string): string {
    if s == [] then [] else (if s[0] == from then to else [s[0]]) + ReplaceChar(s[1..], from, to)
  }

  function HtmlEscape(value: string): string {
    var a := ReplaceChar(value, '&', "&amp;");
    var b := ReplaceChar(a, '<', "&lt;");
    var c := ReplaceChar(b, '>', "&gt;");
    ReplaceChar(c, '"', "&quot;")
  }

  function EscapeChar(c: char): string {
    if c == '&' then "&amp;"
    else if c == '<' then "&lt;"
    else if c == '>' then "&gt;"
    else if c == '"' then "&quot;"
    else [c]
  }

  /** Escaping told character by character. */
  function EscapeEach(s: string): string {
    if s == [] then [] else EscapeChar(s[0]) + EscapeEach(s[1..])
  }

  lemma Assoc(a: string, b: string, c: string)
    ensures a + b + c == a + (b + c)
  {
  }

  lemma {:induction false} ReplaceConcat(a: string, b: string, from: char, to: string)
    ensures ReplaceChar(a + b, from, to) == ReplaceChar(a, from, to) + ReplaceChar(b, from, to)
  {
    if a == [] {
      assert a + b == b;
      assert ReplaceChar(a, from, to) == [];
    } else {
      ReplaceConcat(a[1..], b, from, to);
      assert (a + b)[1..] == a[1..] + b;
      Assoc(if a[0] == from then to else [a[0]], ReplaceChar(a[1..], from, to), ReplaceChar(b, from, to));
    }
  }

  lemma {:induction false} ReplaceAbsent(s: string, from: char, to: string)
    requires from !in s
    ensures ReplaceChar(s, from, to) == s
  {
    if s != [] {
      ReplaceAbsent(s[1..], from, to);
      assert [s[0]] + s[1..] == s;
    }
  }

  lemma HtmlEscapeConcat(a: string, b: string)
    ensures HtmlEscape(a + b) == HtmlEscape(a) + HtmlEscape(b)
  {
    ReplaceConcat(a, b, '&', "&amp;");
    var a1, b1 := ReplaceChar(a, '&', "&amp;"), ReplaceChar(b, '&', "&amp;");
    ReplaceConcat(a1, b1, '<', "&lt;");
    var a2, b2 := ReplaceChar(a1, '<', "&lt;"), ReplaceChar(b1, '<', "&lt;");
    ReplaceConcat(a2, b2, '>', "&gt;");
    var a3, b3 := ReplaceChar(a2, '>', "&gt;"), ReplaceChar(b2, '>', "&gt;");
    ReplaceConcat(a3, b3, '"', "&quot;");
  }

  lemma ReplaceOne(c: char, from: char, to: string)
    ensures ReplaceChar([c], from, to) == if c == from then to else [c]
  {
  }

  /** The last three replacements, which leave alone what the first two wrote. */
  lemma Inert(s: string)
    requires '<' !in s && '>' !in s && '"' !in s
    ensures ReplaceChar(ReplaceChar(ReplaceChar(s, '<', "&lt;"), '>', "&gt;"), '"', "&quot;") == s
  {
  }

  lemma EscapeOne(c: char)
    ensures HtmlEscape([c]) == EscapeChar(c)
  {
    ReplaceOne(c, '&', "&amp;");
    if c == '&' {
      Inert("&amp;");
    } else if c == '<' {
      ReplaceOne(c, '<', "&lt;");
      ReplaceAbsent("&lt;", '>', "&gt;");
      ReplaceAbsent("&lt;", '"', "&quot;");
    } else if c == '>' {
      ReplaceOne(c, '<', "&lt;");
      ReplaceOne(c, '>', "&gt;");
      ReplaceAbsent("&gt;", '"', "&quot;");
    } else if c == '"' {
      ReplaceOne(c, '<', "&lt;");
      ReplaceOne(c, '>', "&gt;");
      ReplaceOne(c, '"', "&quot;");
    } else {
      Inert([c]);
    }
  }

  /** The four successive replacements are one map over the characters. */
  lemma {:induction false} EscapeIsPerCharacter(s: string)
    ensures HtmlEscape(s) == EscapeEach(s)
  {
    if s != [] {
      assert s == [s[0]] + s[1..];
      HtmlEscapeConcat([s[0]], s[1..]);
      EscapeOne(s[0]);
      EscapeIsPerCharacter(s[1..]);
    }
  }

  predicate Markup(c: char) { c == '<' || c == '>' || c == '"' }

  lemma {:induction false} EscapedIsInert(s: string)
    ensures forall c | c in HtmlEscape(s) :: !Markup(c)
  {
    EscapeIsPerCharacter(s);
    if s != [] {
      EscapedIsInert(s[1..]);
      EscapeIsPerCharacter(s[1..]);
      assert forall c | c in EscapeChar(s[0]) :: !Markup(c);
    }
  }

  // ---------------------------------------------------------------- decoding

  /** Bytes of a string in UTF-8: the limit on an entity is counted in these. */
  function Utf8Len(s: string): nat {
    if s == [] then 0
    else
      var c := s[0] as int;
      (if c < 0x80 then 1 else if c < 0x800 then 2 else if c < 0x10000 then 3 else 4) + Utf8Len(s[1..])
  }

  function Find(s: string, c: char): (at: Option<nat>)
    ensures at.Some? ==> at.value < |s| && s[at.value] == c && c !in s[..at.value]
    ensures at.None? ==> c !in s
  {
    if s == [] then None
    else if s[0] == c then Some(0)
    else match Find(s[1..], c) case Some(i) => Some(i + 1) case None => None
  }

  function DigitValue(c: char, radix: nat): Option<nat> {
    var d :=
      if '0' <= c <= '9' then c as int - '0' as int
      else if 'a' <= c <= 'z' then c as int - 'a' as int + 10
      else if 'A' <= c <= 'Z' then c as int - 'A' as int + 10
      else 36;
    if d < radix then Some(d) else None
  }

  /** One more digit, as long as a `u32` holds the number. */
  function Append(n: Option<nat>, d: Option<nat>, radix: nat): Option<nat> {
    if n.Some? && d.Some? && n.value * radix + d.value < 0x1_0000_0000 then Some(n.value * radix + d.value) else None
  }

  /** Digits only, and no more than a `u32` holds. */
  function ParseDigits(s: string, radix: nat): Option<nat> {
    if s == [] then Some(0) else Append(ParseDigits(s[..|s| - 1], radix), DigitValue(s[|s| - 1], radix), radix)
  }

  /** `u32::from_str_radix`: a leading plus is allowed, an empty number is not. */
  function ParseU32(s: string, radix: nat): Option<nat> {
    var digits := if s != [] && s[0] == '+' then s[1..] else s;
    if digits == [] then None else ParseDigits(digits, radix)
  }

  /** `char::from_u32`. */
  function FromU32(n: nat): Option<char> {
    if n < 0xD800 || 0xE000 <= n < 0x11_0000 then Some(n as char) else None
  }

  function NumericEntity(entity: string): Option<char> {
    var hex := if "#x" <= entity || "#X" <= entity then ParseU32(entity[2..], 16) else None;
    var n := if hex.Some? then hex else if "#" <= entity then ParseU32(entity[1..], 10) else None;
    if n.Some? then FromU32(n.value) else None
  }

  function DecodeEntity(entity: string): Option<char> {
    if entity == "amp" then Some('&')
    else if entity == "lt" then Some('<')
    else if entity == "gt" then Some('>')
    else if entity == "quot" then Some('"')
    else if entity == "apos" then Some('\'')
    else if entity == "nbsp" then Some('\U{a0}')
    else NumericEntity(entity)
  }

  /** The name between an ampersand and a semicolon at most eight bytes further on. */
  function EntityAt(tail: string): (e: Option<string>)
    ensures e.Some? ==> |e.value| < |tail|
  {
    match Find(tail, ';')
    case Some(end) => if Utf8Len(tail[..end]) <= 8 then Some(tail[..end]) else None
    case None => None
  }

  function EntityChar(tail: string): Option<char> {
    match EntityAt(tail) case Some(e) => DecodeEntity(e) case None => None
  }

  /** Decoding told character by character: one pass, nothing is looked at twice. */
  function Decoded(s: string): string
    decreases |s|
  {
    if s == [] then []
    else if s[0] != '&' then [s[0]] + Decoded(s[1..])
    else match EntityChar(s[1..])
         case Some(c) => [c] + Decoded(s[1..][|EntityAt(s[1..]).value| + 1..])
         case None => ['&'] + Decoded(s[1..])
  }

  lemma DecodedPlain(c: char, rest: string)
    requires c != '&'
    ensures Decoded([c] + rest) == [c] + Decoded(rest)
  {
  }

  lemma {:induction false} DecodedSkips(plain: string, rest: string)
    requires '&' !in plain
    ensures Decoded(plain + rest) == plain + Decoded(rest)
  {
    if plain == [] {
      assert plain + rest == rest;
    } else {
      var c, more := plain[0], plain[1..];
      assert plain == [c] + more;
      DecodedSkips(more, rest);
      Assoc([c], more, rest);
      DecodedPlain(c, more + rest);
      Assoc([c], more, Decoded(rest));
    }
  }

  /** One turn of `decode`: the text up to the entity, the character it yields, and the rest. */
  function Resolve(rest: string, amp: nat): (r: (string, string))
    requires amp < |rest|
    ensures |r.1| < |rest|
  {
    var tail := rest[amp + 1..];
    match EntityChar(tail)
    case Some(c) => ([c], tail[|EntityAt(tail).value| + 1..])
    case None => (['&'], tail)
  }

  /** At the next ampersand: the text before it stands, and what follows it is resolved. */
  lemma DecodedAtAmp(rest: string, amp: nat)
    requires amp < |rest| && rest[amp] == '&' && '&' !in rest[..amp]
    ensures var (decoded, next) := Resolve(rest, amp);
            Decoded(rest) == rest[..amp] + (decoded + Decoded(next))
  {
    assert rest == rest[..amp] + rest[amp..];
    DecodedSkips(rest[..amp], rest[amp..]);
    assert rest[amp..][1..] == rest[amp + 1..];
  }

  /** `decode`: jump to the next ampersand, resolve what follows it, go on after it. */
  method Decode(html: string) returns (out: string)
    ensures out == Decoded(html)
  {
    out := "";
    var rest := html;
    var amp := Find(rest, '&');
    while amp.Some?
      invariant amp == Find(rest, '&')
      invariant out + Decoded(rest) == Decoded(html)
      decreases |rest|
    {
      DecodedAtAmp(rest, amp.value);
      var (decoded, next) := Resolve(rest, amp.value);
      Assoc(out, rest[..amp.value], decoded + Decoded(next));
      Assoc(out + rest[..amp.value], decoded, Decoded(next));
      out := out + rest[..amp.value] + decoded;
      rest := next;
      amp := Find(rest, '&');
    }
    DecodedSkips(rest, []);
    assert rest + [] == rest;
    out := out + rest;
  }

  // ---------------------------------------------------------------- round trip

  lemma {:induction false} FindFirst(front: string, c: char, rest: string)
    requires c !in front
    ensures Find(front + [c] + rest, c) == Some(|front|)
  {
    var s := front + [c] + rest;
    if front != [] {
      FindFirst(front[1..], c, rest);
      assert s[1..] == front[1..] + [c] + rest;
    }
  }

  /** A short known name after an ampersand is resolved, whatever follows. */
  lemma DecodedEntity(name: string, c: char, rest: string)
    requires ';' !in name && Utf8Len(name) <= 8 && DecodeEntity(name) == Some(c)
    ensures Decoded("&" + name + ";" + rest) == [c] + Decoded(rest)
  {
    var s := "&" + name + ";" + rest;
    var tail := name + [';'] + rest;
    assert s[1..] == tail;
    FindFirst(name, ';', rest);
    assert tail[..|name|] == name;
    assert tail[|name| + 1..] == rest;
  }

  lemma NamesAreShort()
    ensures Utf8Len("amp") == 3 && Utf8Len("lt") == 2 && Utf8Len("gt") == 2 && Utf8Len("quot") == 4
  {
  }

  lemma DecodedEscapeChar(c: char, rest: string)
    ensures Decoded(EscapeChar(c) + rest) == [c] + Decoded(rest)
  {
    NamesAreShort();
    if c == '&' { DecodedNamed("amp", c, rest); }
    else if c == '<' { DecodedNamed("lt", c, rest); }
    else if c == '>' { DecodedNamed("gt", c, rest); }
    else if c == '"' { DecodedNamed("quot", c, rest); }
    else { DecodedPlain(c, rest); }
  }

  lemma DecodedNamed(name: string, c: char, rest: string)
    requires ';' !in name && Utf8Len(name) <= 8 && DecodeEntity(name) == Some(c) && EscapeChar(c) == "&" + name + ";"
    ensures Decoded(EscapeChar(c) + rest) == [c] + Decoded(rest)
  {
    DecodedEntity(name, c, rest);
  }

  /** Decoding undoes escaping, for every string. */
  lemma {:induction false} DecodeUndoesEscape(s: string)
    ensures Decoded(HtmlEscape(s)) == s
  {
    EscapeIsPerCharacter(s);
    if s != [] {
      EscapeIsPerCharacter(s[1..]);
      DecodeUndoesEscape(s[1..]);
      DecodedEscapeChar(s[0], EscapeEach(s[1..]));
      assert [s[0]] + s[1..] == s;
    }
  }

  /** What is published for a scraped value reads back as the value that was scraped. */
  lemma PublishedValueReadsBack(v: string)
    ensures Decoded(HtmlEscape(Decoded(v))) == Decoded(v)
    ensures forall c | c in HtmlEscape(Decoded(v)) :: !Markup(c)
  {
    DecodeUndoesEscape(Decoded(v));
    EscapedIsInert(Decoded(v));
  }

  // ---------------------------------------------------------------- what each reference stands for

  /** The names that are known, and what they stand for. */
  const NAMES := ["amp", "lt", "gt", "quot", "apos", "nbsp"]
  const NAMED := "&<>\"'\U{a0}"

  lemma NameIsKnown(k: nat)
    requires k < 6
    ensures DecodeEntity(NAMES[k]) == Some(NAMED[k])
    ensures |NAMES[k]| <= 4 && forall i | 0 <= i < |NAMES[k]| :: 'a' <= NAMES[k][i] <= 'z'
  {
    if k == 0 { assert NAMES[k] == "amp"; }
    else if k == 1 { assert NAMES[k] == "lt"; }
    else if k == 2 { assert NAMES[k] == "gt"; }
    else if k == 3 { assert NAMES[k] == "quot"; }
    else if k == 4 { assert NAMES[k] == "apos"; }
    else { assert NAMES[k] == "nbsp"; }
  }

  /** Every known name stands for its character, whatever follows. */
  lemma NamedReference(k: nat, rest: string)
    requires k < 6
    ensures Decoded("&" + NAMES[k] + ";" + rest) == [NAMED[k]] + Decoded(rest)
  {
    NameIsKnown(k);
    AsciiLen(NAMES[k]);
    DecodedEntity(NAMES[k], NAMED[k], rest);
  }

  lemma {:induction false} AsciiLen(s: string)
    requires forall i | 0 <= i < |s| :: (s[i] as int) < 0x80
    ensures Utf8Len(s) == |s|
  {
    if s != [] { AsciiLen(s[1..]); }
  }

  lemma DigitParses(d: nat, radix: nat, upper: bool)
    requires d < radix <= 16
    ensures DigitValue(Digit(d, upper), radix) == Some(d)
  {
  }

  lemma ParseSnoc(s: string, c: char, radix: nat)
    ensures ParseDigits(s + [c], radix) == Append(ParseDigits(s, radix), DigitValue(c, radix), radix)
  {
    assert (s + [c])[..|s|] == s;
  }

  lemma Recompose(n: nat, radix: nat)
    requires radix == 10 || radix == 16
    ensures n / radix * radix + n % radix == n && n / radix <= n
  {
    if radix == 10 { assert n / 10 * 10 + n % 10 == n; } else { assert n / 16 * 16 + n % 16 == n; }
  }

  function AsU32(n: nat): Option<nat> { if n < 0x1_0000_0000 then Some(n) else None }

  lemma AppendRecomposes(n: nat, radix: nat)
    requires radix == 10 || radix == 16
    ensures Append(AsU32(n / radix), Some(n % radix), radix) == AsU32(n)
  {
    Recompose(n, radix);
  }

  /** Reading the digits before the last, and then the last. */
  lemma NumeralStep(front: string, n: nat, radix: nat, upper: bool)
    requires (radix == 10 || radix == 16) && ParseDigits(front, radix) == AsU32(n / radix)
    ensures ParseDigits(front + [Digit(n % radix, upper)], radix) == AsU32(n)
  {
    DigitParses(n % radix, radix, upper);
    AppendRecomposes(n, radix);
    ParseSnoc(front, Digit(n % radix, upper), radix);
  }

  /** Reading a numeral gives the number back, if a `u32` holds it. */
  lemma {:induction false} NumeralParses(n: nat, radix: nat, upper: bool)
    requires radix == 10 || radix == 16
    ensures ParseDigits(Numeral(n, radix, upper), radix) == AsU32(n)
  {
    if n < radix {
      NumeralStep([], n, radix, upper);
      assert [] + [Digit(n, upper)] == [Digit(n, upper)];
    } else {
      NumeralParses(n / radix, radix, upper);
      NumeralStep(Numeral(n / radix, radix, upper), n, radix, upper);
    }
  }

  /** A number that is a character. */
  predicate IsScalar(n: nat) { n < 0xD800 || 0xE000 <= n < 0x11_0000 }

  function DecimalName(n: nat): string { "#" + Decimal(n) }

  function HexName(x: char, n: nat, upper: bool): string { "#" + [x] + Numeral(n, 16, upper) }

  lemma NotNamed(e: string)
    requires e != [] && e[0] == '#'
    ensures DecodeEntity(e) == NumericEntity(e) && "#" <= e
  {
  }

  lemma DecimalNameDecodes(n: nat)
    ensures DecodeEntity(DecimalName(n)) == if IsScalar(n) then Some(n as char) else None
  {
    var e, digits := DecimalName(n), Decimal(n);
    NumeralShape(n, 10, false);
    NumeralParses(n, 10, false);
    NotNamed(e);
    assert e[1] == digits[0] && e[1..] == digits;
  }

  /** A plus before the digits changes nothing. */
  lemma PlusIsAllowed(n: nat)
    ensures DecodeEntity("#+" + Decimal(n)) == DecodeEntity(DecimalName(n))
  {
    var e, digits := "#+" + Decimal(n), Decimal(n);
    NumeralShape(n, 10, false);
    NumeralParses(n, 10, false);
    DecimalNameDecodes(n);
    NotNamed(e);
    assert e[1] == '+' && e[1..] == "+" + digits && ("+" + digits)[1..] == digits;
  }

  lemma HexNameDecodes(x: char, n: nat, upper: bool)
    requires x == 'x' || x == 'X'
    ensures DecodeEntity(HexName(x, n, upper)) == if IsScalar(n) then Some(n as char) else None
  {
    var e, digits := HexName(x, n, upper), Numeral(n, 16, upper);
    NumeralShape(n, 16, upper);
    NumeralParses(n, 16, upper);
    NotNamed(e);
    assert e[1] == x && e[2..] == digits && e[..2] == "#" + [x];
    NoDecimal(e[1..], x);
  }

  lemma NoDecimal(s: string, x: char)
    requires s != [] && s[0] == x && (x == 'x' || x == 'X')
    ensures ParseU32(s, 10).None?
  {
    FirstDigitDecides(s, 10);
  }

  lemma {:induction false} FirstDigitDecides(s: string, radix: nat)
    requires s != [] && DigitValue(s[0], radix).None?
    ensures ParseDigits(s, radix).None?
  {
    if |s| > 1 { FirstDigitDecides(s[..|s| - 1], radix); }
  }

  /** Every character has its decimal reference, whatever follows. */
  lemma DecimalReference(n: nat, rest: string)
    requires IsScalar(n)
    ensures Decoded("&" + DecimalName(n) + ";" + rest) == [n as char] + Decoded(rest)
  {
    NumeralShape(n, 10, false);
    ShortDecimal(n, false);
    DecimalNameDecodes(n);
    AsciiLen(DecimalName(n));
    DecodedEntity(DecimalName(n), n as char, rest);
  }

  /** And its hexadecimal ones, in either case. */
  lemma HexReference(x: char, n: nat, upper: bool, rest: string)
    requires IsScalar(n) && (x == 'x' || x == 'X')
    ensures Decoded("&" + HexName(x, n, upper) + ";" + rest) == [n as char] + Decoded(rest)
  {
    NumeralShape(n, 16, upper);
    ShortHex(n, upper);
    HexNameDecodes(x, n, upper);
    AsciiLen(HexName(x, n, upper));
    DecodedEntity(HexName(x, n, upper), n as char, rest);
  }

  /** A reference to nothing, or one too long to be one, is text: its ampersand stands and the scan goes on. */
  lemma TextStays(name: string, rest: string)
    requires ';' !in name && (Utf8Len(name) > 8 || DecodeEntity(name).None?)
    ensures Decoded("&" + name + ";" + rest) == "&" + Decoded(name + ";" + rest)
  {
    var s := "&" + name + ";" + rest;
    var tail := name + [';'] + rest;
    assert s[1..] == tail && name + ";" + rest == tail;
    FindFirst(name, ';', rest);
    assert tail[..|name|] == name;
  }

  lemma UnclosedStays(tail: string)
    requires ';' !in tail
    ensures Decoded("&" + tail) == "&" + Decoded(tail)
  {
    assert ("&" + tail)[1..] == tail;
  }

  /** Numbers that are no characters, and names that are not known, stay text. */
  lemma NoSuchReference(n: nat, x: char, upper: bool, name: string, rest: string)
    requires !IsScalar(n) && (x == 'x' || x == 'X')
    requires ';' !in name && !("#" <= name) && name !in NAMES
    ensures Decoded("&" + DecimalName(n) + ";" + rest) == "&" + Decoded(DecimalName(n) + ";" + rest)
    ensures Decoded("&" + HexName(x, n, upper) + ";" + rest) == "&" + Decoded(HexName(x, n, upper) + ";" + rest)
    ensures Decoded("&" + name + ";" + rest) == "&" + Decoded(name + ";" + rest)
  {
    NumeralShape(n, 10, false);
    NumeralShape(n, 16, upper);
    DecimalNameDecodes(n);
    HexNameDecodes(x, n, upper);
    TextStays(DecimalName(n), rest);
    TextStays(HexName(x, n, upper), rest);
    UnknownName(name);
    TextStays(name, rest);
  }

  lemma UnknownName(name: string)
    requires !("#" <= name) && name !in NAMES
    ensures DecodeEntity(name).None?
  {
    assert NAMES[0] == "amp" && NAMES[1] == "lt" && NAMES[2] == "gt" && NAMES[3] == "quot" && NAMES[4] == "apos"
           && NAMES[5] == "nbsp";
    assert name == [] || name[0] != '#';
  }
}
