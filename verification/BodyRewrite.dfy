/** Collecting a proxied document, splicing the renewal script in, and encoding it again. */
module BodyRewrite {
  import opened Common
  import opened BodyStream
  import opened Injection

  const MAX_DECOMPRESSED := 4 * 1024 * 1024

  // ---------------------------------------------------------------- collecting

  /** The whole stream arrives, within the limit. */
  predicate Collectable(frames: seq<Item>, limit: nat) {
    AllChunks(frames) && |Concat(frames)| <= limit
  }

  /** `Limited::new(body, limit).collect()`: the first frame that fails or passes the limit ends it. */
  method Collect(frames: seq<Item>, limit: nat) returns (r: Option<seq<byte>>)
    ensures r == if Collectable(frames, limit) then Some(Concat(frames)) else None
  {
    var collected: seq<byte> := [];
    var remaining: nat := limit;
    for i := 0 to |frames|
      invariant (forall k | 0 <= k < i :: frames[k].Chunk?) && collected == Concat(frames[..i])
      invariant |collected| + remaining == limit
    {
      if frames[i].Failure? { return None; }
      ConcatSnoc(frames, i);
      ConcatPrefix(frames, i + 1);
      if |frames[i].bytes| > remaining { return None; }
      remaining := remaining - |frames[i].bytes|;
      collected := collected + frames[i].bytes;
    }
    assert frames[..|frames|] == frames;
    r := Some(collected);
  }

  // ---------------------------------------------------------------- rewriting

  /** The response's content encoding, and UTF-8. */
  datatype Codec = Codec(
    inflate: seq<byte> -> Option<seq<byte>>,
    deflate: seq<byte> -> Option<seq<byte>>,
    text: seq<byte> -> Option<string>,
    bytes: string -> seq<byte>)

  /**
   What was encoded decodes to itself, nothing decodes to something, only the UTF-8 form of a text
   reads as that text, and it has a byte for each character.
   */
  ghost predicate Good(x: Codec) {
    && (forall d :: x.deflate(d).Some? ==> x.inflate(x.deflate(d).value) == Some(d))
    && (x.inflate([]).Some? ==> x.inflate([]).value == [])
    && (forall d :: x.text(d).Some? ==> x.bytes(x.text(d).value) == d)
    && (forall s :: |x.bytes(s)| >= |s|)
  }

  /** `decompress`: refused when corrupt or over the cap. */
  function Decompress(x: Codec, raw: seq<byte>): Option<seq<byte>> {
    match x.inflate(raw)
    case Some(d) => if |d| <= MAX_DECOMPRESSED then Some(d) else None
    case None => None
  }

  /** `looks_like_html` of readable text: each of its other tests implies this one. */
  predicate LooksLikeHtml(html: string) { '<' in html }

  /** The configuration, then the script. */
  function Snippet(prelude: string, script: string): string { prelude + ScriptTag(script) }

  /** The rewritten body, or nothing when any stage refuses. */
  function Rewritten(x: Codec, snippet: string, raw: seq<byte>): Option<seq<byte>> {
    match Decompress(x, raw)
    case None => None
    case Some(decoded) =>
      match x.text(decoded)
      case None => None
      case Some(html) => if LooksLikeHtml(html) then x.deflate(x.bytes(Splice(html, snippet))) else None
  }

  /** The reply to a body that was collected. */
  function Reply(x: Codec, snippet: string, raw: seq<byte>): seq<byte> {
    if |raw| > MAX_DECOMPRESSED then raw
    else match Rewritten(x, snippet, raw)
         case Some(encoded) => encoded
         case None => raw
  }

  /** The reply decodes to the document with the snippet spliced in, and nothing else changed. */
  ghost predicate ShowsSpliced(x: Codec, snippet: string, raw: seq<byte>, reply: seq<byte>) {
    exists html: string ::
      x.inflate(raw) == Some(x.bytes(html)) && x.inflate(reply) == Some(x.bytes(Splice(html, snippet)))
  }

  /** What is documented: the page goes out with the script in it, or byte for byte untouched. */
  ghost predicate WholeOrUntouched(x: Codec, snippet: string, whole: seq<byte>, reply: seq<byte>) {
    reply == whole || ShowsSpliced(x, snippet, whole, reply)
  }

  /** The body decodes within the cap to the text of a page, and the page with the snippet can be encoded. */
  predicate CanSplice(x: Codec, snippet: string, raw: seq<byte>, html: string) {
    && |raw| <= MAX_DECOMPRESSED
    && x.inflate(raw).Some? && |x.inflate(raw).value| <= MAX_DECOMPRESSED
    && x.text(x.inflate(raw).value) == Some(html) && '<' in html
    && x.deflate(x.bytes(Splice(html, snippet))).Some?
  }

  /** A page that can take the snippet goes out with it; anything else that was collected, as it came. */
  ghost predicate SplicedIfPossible(x: Codec, snippet: string, raw: seq<byte>, reply: seq<byte>) {
    && (forall html | CanSplice(x, snippet, raw, html) :: x.inflate(reply) == Some(x.bytes(Splice(html, snippet))))
    && ((forall html :: !CanSplice(x, snippet, raw, html)) ==> reply == raw)
  }

  lemma CollectedIsSpliced(x: Codec, snippet: string, raw: seq<byte>)
    requires Good(x)
    ensures SplicedIfPossible(x, snippet, raw, Reply(x, snippet, raw))
  {
    if |raw| <= MAX_DECOMPRESSED && Rewritten(x, snippet, raw).Some? {
      var html := x.text(x.inflate(raw).value).value;
      assert CanSplice(x, snippet, raw, html);
    }
  }

  lemma CollectedIsKept(x: Codec, snippet: string, raw: seq<byte>)
    requires Good(x)
    ensures WholeOrUntouched(x, snippet, raw, Reply(x, snippet, raw))
  {
    if |raw| <= MAX_DECOMPRESSED && Rewritten(x, snippet, raw).Some? {
      var html := x.text(x.inflate(raw).value).value;
      assert x.inflate(raw) == Some(x.bytes(html));
      assert x.inflate(Reply(x, snippet, raw)) == Some(x.bytes(Splice(html, snippet)));
    }
  }

  /** Nothing is no page with a script in it. */
  lemma NothingShowsNothing(x: Codec, prelude: string, script: string, raw: seq<byte>)
    requires Good(x)
    ensures !ShowsSpliced(x, Snippet(prelude, script), raw, [])
  {
    forall html: string ensures |x.bytes(Splice(html, Snippet(prelude, script)))| > 0 {
      assert |Splice(html, Snippet(prelude, script))| == |html| + |Snippet(prelude, script)|;
    }
  }

  /** A page that is kept leaves nothing only if it was nothing. */
  lemma KeptIsNotEmpty(x: Codec, prelude: string, script: string, raw: seq<byte>)
    requires Good(x)
    ensures Reply(x, Snippet(prelude, script), raw) == [] ==> raw == []
  {
    CollectedIsKept(x, Snippet(prelude, script), raw);
    NothingShowsNothing(x, prelude, script, raw);
  }

  /**
   `inject_renewal_script`, for every cutting of the body into frames: a collected page that can take
   the script gets it, and nothing else is altered. The documentation promises a
   page whole with the script or untouched, oversized ones included. For a stream that does not fail
   that holds exactly up to one byte over the cap; beyond, the page is lost, as it is when the stream
   fails.
   */
  method InjectRenewalScript(x: Codec, prelude: string, script: string, frames: seq<Item>) returns (reply: seq<byte>)
    requires Good(x)
    ensures var kept := Collectable(frames, MAX_DECOMPRESSED + 1);
            && (kept ==> SplicedIfPossible(x, prelude + ScriptTag(script), Concat(frames), reply))
            && (kept ==> WholeOrUntouched(x, Snippet(prelude, script), Concat(frames), reply))
            && (AllChunks(frames) ==> (WholeOrUntouched(x, Snippet(prelude, script), Concat(frames), reply) <==> kept))
            && (reply == [] <==> !kept || Concat(frames) == [])
    ensures reply == if Collectable(frames, MAX_DECOMPRESSED + 1) then Reply(x, Snippet(prelude, script), Concat(frames)) else []
  {
    var snippet, whole := Snippet(prelude, script), Concat(frames);
    CollectedIsSpliced(x, snippet, whole);
    CollectedIsKept(x, snippet, whole);
    NothingShowsNothing(x, prelude, script, whole);
    KeptIsNotEmpty(x, prelude, script, whole);
    var raw := Collect(frames, MAX_DECOMPRESSED + 1);
    if raw.None? { return []; }
    EmptyIsUntouched(x, snippet);
    reply := Reply(x, snippet, raw.value);
  }

  /** An empty body stays empty: there is no text to splice into. */
  lemma EmptyIsUntouched(x: Codec, snippet: string)
    requires Good(x)
    ensures Reply(x, snippet, []) == []
  {
    if Decompress(x, []).Some? && x.text([]).Some? {
      assert |x.bytes(x.text([]).value)| == 0;
    }
  }
}
