/** Splicing a snippet into a document, and wrapping a script so that its payload cannot close it. */
module Injection {
  import opened Common

  predicate OccursAt(s: string, pat: string, i: nat) {
    i + |pat| <= |s| && s[i..i + |pat|] == pat
  }

  ghost predicate Occurs(s: string, pat: string) {
    exists i: nat :: OccursAt(s, pat, i)
  }

  /** The last occurrence that starts before `end`. */
  function RFindBefore(s: string, pat: string, end: nat): Option<nat> {
    if end == 0 then None
    else if OccursAt(s, pat, end - 1) then Some(end - 1)
    else RFindBefore(s, pat, end - 1)
  }

  /** `s.rfind(pat)`. */
  function RFind(s: string, pat: string): Option<nat> { RFindBefore(s, pat, |s| + 1) }

  lemma {:induction false} RFindBeforeIsLast(s: string, pat: string, end: nat)
    ensures var at := RFindBefore(s, pat, end);
            && (at.Some? ==> at.value < end && OccursAt(s, pat, at.value) && forall i: nat | at.value < i < end :: !OccursAt(s, pat, i))
            && (at.None? ==> forall i: nat | i < end :: !OccursAt(s, pat, i))
    decreases end
  {
    if end > 0 && !OccursAt(s, pat, end - 1) { RFindBeforeIsLast(s, pat, end - 1); }
  }

  /** `at` is the last place where `pat` occurs. */
  ghost predicate LastAt(s: string, pat: string, at: nat) {
    OccursAt(s, pat, at) && forall i: nat | at < i :: !OccursAt(s, pat, i)
  }

  /** `rfind` finds the last occurrence, and only an occurrence with none after it. */
  lemma RFindIs(s: string, pat: string, at: nat)
    ensures RFind(s, pat) == Some(at) <==> LastAt(s, pat, at)
    ensures RFind(s, pat).None? <==> !Occurs(s, pat)
  {
    RFindBeforeIsLast(s, pat, |s| + 1);
  }

  const BODY := "</body>"
  const HTML := "</html>"

  /** Where the snippet goes: the last closing body tag, else the last closing html tag, else the end. */
  function Point(lowered: string): (at: nat)
    ensures at <= |lowered|
  {
    RFindBeforeIsLast(lowered, BODY, |lowered| + 1);
    RFindBeforeIsLast(lowered, HTML, |lowered| + 1);
    if RFind(lowered, BODY).Some? then RFind(lowered, BODY).value
    else if RFind(lowered, HTML).Some? then RFind(lowered, HTML).value
    else |lowered|
  }

  /** Lower-casing keeps every offset, so the place found there is the place in the document. */
  function SpliceAt(html: string): (at: nat)
    ensures at <= |html|
  {
    Point(Lower(html))
  }

  function Splice(html: string, snippet: string): string {
    html[..SpliceAt(html)] + snippet + html[SpliceAt(html)..]
  }

  /** The choice of the splice point, told by what occurs in the document. */
  lemma SplicePointIsLastClosing(html: string)
    ensures var low, at := Lower(html), SpliceAt(html);
            && (Occurs(low, BODY) ==> LastAt(low, BODY, at))
            && (!Occurs(low, BODY) && Occurs(low, HTML) ==> LastAt(low, HTML, at))
            && (!Occurs(low, BODY) && !Occurs(low, HTML) ==> at == |html|)
  {
    RFindIs(Lower(html), BODY, SpliceAt(html));
    RFindIs(Lower(html), HTML, SpliceAt(html));
  }

  /** The case of the document's letters does not move the splice point. */
  lemma SplicePointIgnoresCase(s: string, t: string)
    requires SameText(s, t)
    ensures SpliceAt(s) == SpliceAt(t)
  {
    LowerForgetsCase(s, t);
  }

  /** A closing tag in the folded copy is that tag, in any case, in the document. */
  lemma OccursInAnyCase(s: string, pat: string, i: nat)
    requires Lower(pat) == pat
    ensures OccursAt(Lower(s), pat, i) <==> i + |pat| <= |s| && SameText(s[i..i + |pat|], pat)
  {
    if i + |pat| <= |s| {
      assert Lower(s)[i..i + |pat|] == Lower(s[i..i + |pat|]);
      LowerForgetsCase(s[i..i + |pat|], pat);
    }
  }

  /** `inject_into_html`: the output is pushed piece by piece. */
  method InjectIntoHtml(html: string, snippet: string) returns (out: string)
    ensures out == Splice(html, snippet)
    ensures |out| == |html| + |snippet|
  {
    var lowered := Lower(html);
    RFindBeforeIsLast(lowered, BODY, |lowered| + 1);
    RFindBeforeIsLast(lowered, HTML, |lowered| + 1);
    var body := RFind(lowered, BODY);
    if body.Some? {
      out := html[..body.value];
      out := out + snippet;
      out := out + html[body.value..];
      return;
    }
    var end := RFind(lowered, HTML);
    if end.Some? {
      out := html[..end.value];
      out := out + snippet;
      out := out + html[end.value..];
      return;
    }
    out := html;
    out := out + snippet;
    assert html[..|html|] == html && html[|html|..] == [];
  }

  // ---------------------------------------------------------------- splicing twice

  /** A pattern with its only `<` in front. */
  predicate TagLike(pat: string) {
    pat != [] && pat[0] == '<' && forall k | 0 < k < |pat| :: pat[k] != '<'
  }

  predicate StartsTag(s: string) { s == [] || s[0] == '<' }

  /** Between pieces that start with `<`, no tag-like pattern can straddle the joint. */
  lemma OccursInConcat(a: string, b: string, pat: string, i: nat)
    requires TagLike(pat) && StartsTag(b)
    ensures OccursAt(a + b, pat, i) <==> OccursAt(a, pat, i) || (|a| <= i && OccursAt(b, pat, i - |a|))
  {
    var s := a + b;
    if i + |pat| <= |a| {
      assert s[i..i + |pat|] == a[i..i + |pat|];
    } else if |a| <= i {
      if i + |pat| <= |s| { assert s[i..i + |pat|] == b[i - |a|..i - |a| + |pat|]; }
    } else if i + |pat| <= |s| {
      assert s[i..i + |pat|][|a| - i] == b[0];
    }
  }

  lemma LowerConcat(a: string, b: string)
    ensures Lower(a + b) == Lower(a) + Lower(b)
  {
  }

  /** The last occurrence moves by the length of what is inserted before a later one. */
  lemma RFindAfterInsert(x: string, a: string, y: string, pat: string)
    requires TagLike(pat) && StartsTag(a) && StartsTag(y)
    requires RFind(x + y, pat) == Some(|x|)
    ensures RFind(x + a + y, pat) == Some(|x + a|)
  {
    RFindIs(x + y, pat, |x|);
    RFindIs(x + a + y, pat, |x + a|);
    OccursInConcat(x, y, pat, |x|);
    OccursInConcat(x + a, y, pat, |x + a|);
    assert OccursAt(y, pat, 0);
    forall i: nat | |x + a| < i ensures !OccursAt(x + a + y, pat, i) {
      OccursInConcat(x + a, y, pat, i);
      OccursInConcat(x, y, pat, i - |a|);
    }
  }

  /** Inserting a piece free of the pattern brings in no occurrence. */
  lemma NoneAfterInsert(x: string, a: string, y: string, pat: string)
    requires TagLike(pat) && StartsTag(a) && StartsTag(y) && !Occurs(a, pat) && !Occurs(x + y, pat)
    ensures !Occurs(x + a + y, pat)
  {
    forall i: nat ensures !OccursAt(x + a + y, pat, i) {
      OccursInConcat(x + a, y, pat, i);
      OccursInConcat(x, a, pat, i);
      OccursInConcat(x, y, pat, i);
      if i >= |x + a| { OccursInConcat(x, y, pat, i - |a|); }
    }
  }

  /** A snippet that starts a tag and closes neither body nor document. */
  ghost predicate Harmless(a: string) {
    a != [] && a[0] == '<' && !Occurs(Lower(a), BODY) && !Occurs(Lower(a), HTML)
  }

  /** At the splice point a tag starts, or the text ends. */
  lemma PointStartsTag(lowered: string)
    ensures StartsTag(lowered[Point(lowered)..])
  {
    var at := Point(lowered);
    RFindBeforeIsLast(lowered, BODY, |lowered| + 1);
    RFindBeforeIsLast(lowered, HTML, |lowered| + 1);
    if at < |lowered| { assert lowered[at..at + 7][0] == lowered[at]; }
  }

  lemma PointMoves(x: string, a: string, y: string)
    requires StartsTag(a) && StartsTag(y) && !Occurs(a, BODY) && !Occurs(a, HTML)
    requires Point(x + y) == |x|
    ensures Point(x + a + y) == |x + a|
  {
    RFindIs(x + y, BODY, |x|);
    RFindIs(x + y, HTML, |x|);
    if RFind(x + y, BODY).Some? {
      RFindAfterInsert(x, a, y, BODY);
    } else {
      NoneAfterInsert(x, a, y, BODY);
      RFindIs(x + a + y, BODY, |x + a|);
      if RFind(x + y, HTML).Some? {
        RFindAfterInsert(x, a, y, HTML);
      } else {
        NoneAfterInsert(x, a, y, HTML);
        RFindIs(x + a + y, HTML, |x + a|);
      }
    }
  }

  /** After a harmless snippet, the next one goes right behind it. */
  lemma SplicePointMoves(html: string, a: string)
    requires Harmless(a)
    ensures SpliceAt(Splice(html, a)) == SpliceAt(html) + |a|
  {
    var at := SpliceAt(html);
    var x, y := html[..at], html[at..];
    assert html == x + y;
    LowerConcat(x, y);
    LowerConcat(x, a);
    LowerConcat(x + a, y);
    PointStartsTag(Lower(html));
    assert Lower(html)[at..] == Lower(y);
    PointMoves(Lower(x), Lower(a), Lower(y));
  }

  /** Splicing one snippet and then another is splicing the two at once, in all three fallbacks. */
  lemma SpliceTwice(html: string, a: string, b: string)
    requires Harmless(a)
    ensures Splice(Splice(html, a), b) == Splice(html, a + b)
  {
    SplicePointMoves(html, a);
    var at := SpliceAt(html);
    var once := Splice(html, a);
    assert once[..at + |a|] == html[..at] + a;
    assert once[at + |a|..] == html[at..];
  }

  // ---------------------------------------------------------------- script tags

  const CLOSING := "</script"
  const ESCAPED := "<\\/script"

  /** `source.replace("</script", "<\/script")`, left to right. */
  function EscapeClosing(s: string): string {
    if s == [] then []
    else if CLOSING <= s then ESCAPED + EscapeClosing(s[|CLOSING|..])
    else [s[0]] + EscapeClosing(s[1..])
  }

  function ScriptTag(source: string): string {
    "<script>" + EscapeClosing(source) + "</script>"
  }

  lemma EscapedFront(s: string)
    ensures CLOSING <= s ==> EscapeClosing(s) != [] && EscapeClosing(s)[0] == '<'
  {
  }

  /** Text without `<` at the front of the output was at the front of the input. */
  lemma {:induction false} PlainPrefix(s: string, q: string)
    requires q <= EscapeClosing(s) && '<' !in q
    ensures q <= s
  {
    if q != [] {
      assert EscapeClosing(s)[0] == q[0];
      EscapedFront(s);
      assert EscapeClosing(s)[1..] == EscapeClosing(s[1..]);
      PlainPrefix(s[1..], q[1..]);
    }
  }

  /** The escaped payload contains no closing tag: not in a piece, and not across two. */
  lemma {:induction false} EscapedNeverCloses(s: string, i: nat)
    ensures !OccursAt(EscapeClosing(s), CLOSING, i)
    decreases |s|
  {
    var out := EscapeClosing(s);
    if s != [] && i + |CLOSING| <= |out| {
      if CLOSING <= s {
        EscapedPieceNeverCloses(EscapeClosing(s[|CLOSING|..]), i);
        if i >= |ESCAPED| { EscapedNeverCloses(s[|CLOSING|..], i - |ESCAPED|); }
      } else if i > 0 {
        EscapedNeverCloses(s[1..], i - 1);
        assert out[i..i + |CLOSING|] == EscapeClosing(s[1..])[i - 1..i - 1 + |CLOSING|];
      } else if OccursAt([s[0]] + EscapeClosing(s[1..]), CLOSING, 0) {
        ClosingFrontWasThere(s);
      }
    }
  }

  /** A payload without a closing tag is kept as it is. */
  lemma {:induction false} HarmlessPayloadIsKept(s: string)
    requires !Occurs(s, CLOSING)
    ensures EscapeClosing(s) == s
  {
    if s != [] {
      assert !OccursAt(s, CLOSING, 0);
      forall i: nat ensures !OccursAt(s[1..], CLOSING, i) {
        if OccursAt(s[1..], CLOSING, i) { assert OccursAt(s, CLOSING, i + 1); }
      }
      HarmlessPayloadIsKept(s[1..]);
      assert s == [s[0]] + s[1..];
    }
  }

  /** What a script engine reads where the payload was escaped: the backslash before the slash is dropped. */
  function Unescape(s: string): string {
    if s == [] then []
    else if ESCAPED <= s then CLOSING + Unescape(s[|ESCAPED|..])
    else [s[0]] + Unescape(s[1..])
  }

  lemma OccursInTail(s: string, pat: string, n: nat)
    requires !Occurs(s, pat) && n <= |s|
    ensures !Occurs(s[n..], pat)
  {
    forall i: nat ensures !OccursAt(s[n..], pat, i) {
      if i + |pat| <= |s| - n { assert s[n..][i..i + |pat|] == s[n + i..n + i + |pat|]; }
      assert !OccursAt(s, pat, n + i);
    }
  }

  /** An escaped tag that begins with a copied character was in the payload. */
  lemma EscapedFrontWasThere(s: string)
    requires s != [] && !(CLOSING <= s) && ESCAPED <= EscapeClosing(s)
    ensures OccursAt(s, ESCAPED, 0)
  {
    var rest := EscapeClosing(s[1..]);
    assert EscapeClosing(s) == [s[0]] + rest;
    assert ([s[0]] + rest)[..|ESCAPED|] == ESCAPED;
    assert rest[..|ESCAPED| - 1] == ESCAPED[1..];
    PlainPrefix(s[1..], ESCAPED[1..]);
    assert s == [s[0]] + s[1..];
    assert s[..|ESCAPED|] == ESCAPED;
  }

  /** Nothing of the payload is lost: un-escaping gives it back, unless it had escaped tags of its own. */
  lemma {:induction false} UnescapeUndoes(s: string)
    requires !Occurs(s, ESCAPED)
    ensures Unescape(EscapeClosing(s)) == s
    decreases |s|
  {
    if s != [] {
      if CLOSING <= s {
        OccursInTail(s, ESCAPED, |CLOSING|);
        UnescapeUndoes(s[|CLOSING|..]);
        UnescapeFront(EscapeClosing(s[|CLOSING|..]));
        assert s == CLOSING + s[|CLOSING|..];
      } else {
        OccursInTail(s, ESCAPED, 1);
        UnescapeUndoes(s[1..]);
        assert !OccursAt(s, ESCAPED, 0);
        if ESCAPED <= EscapeClosing(s) { EscapedFrontWasThere(s); }
        assert EscapeClosing(s)[1..] == EscapeClosing(s[1..]);
        assert s == [s[0]] + s[1..];
      }
    }
  }

  lemma UnescapeFront(rest: string)
    ensures Unescape(ESCAPED + rest) == CLOSING + Unescape(rest)
  {
    assert (ESCAPED + rest)[|ESCAPED|..] == rest;
  }

  lemma TagCharacters()
    ensures CLOSING[0] == '<' && CLOSING[1] == '/' && ESCAPED[1] == '\\'
    ensures forall k | 0 < k < |ESCAPED| :: ESCAPED[k] != '<'
  {
  }

  /** Nothing closes the script from within an escaped tag, nor from one of its characters on. */
  lemma EscapedPieceNeverCloses(rest: string, i: nat)
    requires i + |CLOSING| <= |ESCAPED + rest|
    ensures OccursAt(ESCAPED + rest, CLOSING, i) ==> i >= |ESCAPED| && OccursAt(rest, CLOSING, i - |ESCAPED|)
  {
    TagCharacters();
    var window := (ESCAPED + rest)[i..i + |CLOSING|];
    if i >= |ESCAPED| {
      assert window == rest[i - |ESCAPED|..i - |ESCAPED| + |CLOSING|];
    } else {
      assert window[0] == ESCAPED[i];
      assert i == 0 ==> window[1] == ESCAPED[1];
    }
  }

  /** A closing tag whose first character was copied was a closing tag in the input. */
  lemma ClosingFrontWasThere(s: string)
    requires s != [] && OccursAt([s[0]] + EscapeClosing(s[1..]), CLOSING, 0)
    ensures CLOSING <= s
  {
    var rest := EscapeClosing(s[1..]);
    assert ([s[0]] + rest)[..|CLOSING|] == CLOSING;
    assert rest[..|CLOSING| - 1] == CLOSING[1..];
    PlainPrefix(s[1..], CLOSING[1..]);
    assert s == [s[0]] + s[1..];
    assert s[..|CLOSING|] == CLOSING;
  }

  /** Whatever the payload, the only closing tag in the output is the one that ends it. */
  lemma ScriptClosesOnce(source: string, i: nat)
    ensures OccursAt(ScriptTag(source), CLOSING, i) <==> i == |ScriptTag(source)| - |"</script>"|
  {
    var safe, end := EscapeClosing(source), "</script>";
    var out := ScriptTag(source);
    assert out == ("<script>" + safe) + end;
    OccursInConcat("<script>" + safe, end, CLOSING, i);
    TerminatorClosesAtFront(end, i - |"<script>" + safe|);
    if i + |CLOSING| <= |"<script>" + safe| {
      OpenTagNeverCloses(safe, i);
      if i >= 8 { EscapedNeverCloses(source, i - 8); }
    }
  }

  /** The script between the tags is the payload: as it is, or up to its escaped closing tags. */
  lemma ScriptCarriesPayload(source: string)
    ensures var out := ScriptTag(source);
            && |out| >= 17 && out[..8] == "<script>" && out[|out| - 9..] == "</script>"
            && (!Occurs(source, CLOSING) ==> out[8..|out| - 9] == source)
            && (!Occurs(source, ESCAPED) ==> Unescape(out[8..|out| - 9]) == source)
  {
    var out, safe := ScriptTag(source), EscapeClosing(source);
    assert out == "<script>" + (safe + "</script>") && out == ("<script>" + safe) + "</script>";
    assert out[8..|out| - 9] == safe;
    if !Occurs(source, CLOSING) { HarmlessPayloadIsKept(source); }
    if !Occurs(source, ESCAPED) { UnescapeUndoes(source); }
  }

  lemma TerminatorClosesAtFront(end: string, i: int)
    requires end == "</script>"
    ensures i >= 0 ==> (OccursAt(end, CLOSING, i) <==> i == 0)
  {
    if i == 1 { assert end[1..9][0] == '/'; }
  }

  lemma OpenTagNeverCloses(safe: string, i: nat)
    ensures OccursAt("<script>" + safe, CLOSING, i) ==> i >= 8 && OccursAt(safe, CLOSING, i - 8)
  {
    var out := "<script>" + safe;
    if i + |CLOSING| <= |out| {
      var window := out[i..i + |CLOSING|];
      if i < 8 {
        assert window[0] == "<script>"[i];
        if i == 0 { assert window[1] == 's'; }
      } else {
        assert window == safe[i - 8..i - 8 + |CLOSING|];
      }
    }
  }
}
