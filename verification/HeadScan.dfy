/** Reading an origin document only as far as the end of its head. */
module HeadScan {
  import opened Common
  import opened BodyStream

  const MAX_HTML := 512 * 1024
  const MARKER_LEN := 6

  function LowerByte(b: byte): byte { if 0x41 <= b <= 0x5A then b + 32 else b }

  /** "</head", in any case, stands at `i`. */
  predicate MarkerAt(buf: seq<byte>, i: nat) {
    && i + MARKER_LEN <= |buf|
    && LowerByte(buf[i]) == 0x3C && LowerByte(buf[i + 1]) == 0x2F && LowerByte(buf[i + 2]) == 0x68
    && LowerByte(buf[i + 3]) == 0x65 && LowerByte(buf[i + 4]) == 0x61 && LowerByte(buf[i + 5]) == 0x64
  }

  /** The marker's bytes in lower and in upper case: less-than, slash, h, e, a, d. */
  const SMALL := [0x3C, 0x2F, 0x68, 0x65, 0x61, 0x64]
  const CAPITAL := [0x3C, 0x2F, 0x48, 0x45, 0x41, 0x44]

  predicate EitherCase(buf: seq<byte>, i: nat, k: nat)
    requires i + 6 <= |buf| && k < 6
  {
    buf[i + k] == SMALL[k] || buf[i + k] == CAPITAL[k]
  }

  /** A marker is six bytes of which each is the expected one in either case. */
  lemma MarkerIs(buf: seq<byte>, i: nat)
    ensures MarkerAt(buf, i) <==> i + 6 <= |buf| && forall k | 0 <= k < 6 :: EitherCase(buf, i, k)
  {
    if i + 6 <= |buf| && forall k | 0 <= k < 6 :: EitherCase(buf, i, k) {
      assert EitherCase(buf, i, 0) && EitherCase(buf, i, 1) && EitherCase(buf, i, 2);
      assert EitherCase(buf, i, 3) && EitherCase(buf, i, 4) && EitherCase(buf, i, 5);
    }
  }

  /** The first marker at or after `i`. */
  function FindFrom(buf: seq<byte>, i: nat): (at: Option<nat>)
    ensures at.Some? ==> at.value + MARKER_LEN <= |buf|
    decreases |buf| - i
  {
    if i + MARKER_LEN > |buf| then None
    else if MarkerAt(buf, i) then Some(i)
    else FindFrom(buf, i + 1)
  }

  lemma {:induction false} FindFromIsFirst(buf: seq<byte>, i: nat)
    ensures var at := FindFrom(buf, i);
            && (at.Some? ==> i <= at.value && MarkerAt(buf, at.value) && forall j: nat | i <= j < at.value :: !MarkerAt(buf, j))
            && (at.None? ==> forall j: nat | i <= j :: !MarkerAt(buf, j))
    decreases |buf| - i
  {
    if i + MARKER_LEN <= |buf| && !MarkerAt(buf, i) { FindFromIsFirst(buf, i + 1); }
  }

  /** `find_head_end`: the start is clamped to the last place a marker fits. */
  function FindHeadEnd(buf: seq<byte>, from: nat): Option<nat> {
    if |buf| < MARKER_LEN then None
    else
      var last := |buf| - MARKER_LEN;
      FindFrom(buf, if from < last then from else last)
  }

  /** How many chunks arrive before a failure, or in all. */
  function Arriving(items: seq<Item>): (n: nat)
    ensures n <= |items| && AllChunks(items[..n]) && (n < |items| ==> items[n].Failure?)
  {
    if items == [] || items[0].Failure? then 0 else 1 + Arriving(items[1..])
  }

  /** Reading gives up after chunk `k`: over the cap, with no marker whole yet. */
  predicate GivesUpAt(items: seq<Item>, k: nat)
    requires 0 < k <= |items|
  {
    var read := Concat(items[..k]);
    |read| > MAX_HTML && FindFrom(read, 0).None?
  }

  lemma {:induction false} FindFromSkips(buf: seq<byte>, i: nat, j: nat)
    requires i <= j && forall k: nat | i <= k < j :: !MarkerAt(buf, k)
    ensures FindFrom(buf, i) == FindFrom(buf, j)
    decreases j - i
  {
    if i < j {
      assert !MarkerAt(buf, i);
      FindFromSkips(buf, i + 1, j);
    }
  }

  /** A first marker found in what was read is the first marker of the whole stream. */
  lemma FirstInPrefixIsFirst(read: seq<byte>, stream: seq<byte>)
    requires read <= stream && FindFrom(read, 0).Some?
    ensures FindFrom(stream, 0) == FindFrom(read, 0)
  {
    var at := FindFrom(read, 0).value;
    FindFromIsFirst(read, 0);
    assert MarkerAt(stream, at);
    forall j: nat | j < at ensures !MarkerAt(stream, j) { assert !MarkerAt(read, j); }
    FindFromSkips(stream, 0, at);
  }

  /** Resuming five bytes before the old end, clamped, misses nothing. */
  lemma ScanResumes(before: seq<byte>, now: seq<byte>, scanned: nat)
    requires before <= now && FindFrom(before, 0).None?
    requires scanned == if |before| < MARKER_LEN - 1 then 0 else |before| - (MARKER_LEN - 1)
    ensures FindHeadEnd(now, scanned) == FindFrom(now, 0)
  {
    if |now| >= MARKER_LEN {
      var last := |now| - MARKER_LEN;
      var start := if scanned < last then scanned else last;
      FindFromIsFirst(before, 0);
      forall j: nat | j < start ensures !MarkerAt(now, j) { assert !MarkerAt(before, j); }
      FindFromSkips(now, 0, start);
    }
  }

  ghost predicate GivesUp(items: seq<Item>) {
    exists k: nat :: 0 < k <= |items| && GivesUpAt(items, k)
  }

  /**
   What reading the chunks must yield: nothing if some chunk boundary lies over the cap with no
   marker whole before it; else everything before the first marker of the stream; else the stream.
   */
  ghost predicate IsHead(items: seq<Item>, r: Option<seq<byte>>) {
    var stream := Concat(items);
    var first := FindFrom(stream, 0);
    if GivesUp(items) then r == None
    else if first.Some? then r == Some(stream[..first.value])
    else r == Some(stream)
  }

  /** Once a marker is whole after `n` chunks, it is the first one after any more chunks. */
  lemma LaterChunksKeepMarker(items: seq<Item>, n: nat, k: nat)
    requires n <= k <= |items| && FindFrom(Concat(items[..n]), 0).Some?
    ensures FindFrom(Concat(items[..k]), 0) == FindFrom(Concat(items[..n]), 0)
    ensures Concat(items[..n]) <= Concat(items[..k])
  {
    assert items[..k][..n] == items[..n];
    ConcatPrefix(items[..k], n);
    FirstInPrefixIsFirst(Concat(items[..n]), Concat(items[..k]));
  }

  /** The marker is whole after `n` chunks and reading has not given up: later chunks change nothing. */
  lemma FoundIsHead(items: seq<Item>, n: nat)
    requires n <= |items| && FindFrom(Concat(items[..n]), 0).Some?
    requires forall k: nat | 0 < k < n :: !GivesUpAt(items, k)
    ensures FindFrom(Concat(items), 0).Some?
    ensures IsHead(items, Some(Concat(items[..n])[..FindFrom(Concat(items[..n]), 0).value]))
  {
    FoundNeverGivesUp(items, n);
    LaterChunksKeepMarker(items, n, |items|);
    assert items[..|items|] == items;
    var at := FindFrom(Concat(items), 0).value;
    assert Concat(items)[..at] == Concat(items[..n])[..at];
  }

  lemma FoundNeverGivesUp(items: seq<Item>, n: nat)
    requires n <= |items| && FindFrom(Concat(items[..n]), 0).Some?
    requires forall k: nat | 0 < k < n :: !GivesUpAt(items, k)
    ensures !GivesUp(items)
  {
    forall k: nat | 0 < k && n <= k <= |items| ensures !GivesUpAt(items, k) {
      LaterChunksKeepMarker(items, n, k);
    }
  }

  /** After `n` chunks no marker is whole yet and reading has not given up. */
  ghost predicate Pending(chunks: seq<Item>, n: nat)
    requires n <= |chunks|
  {
    FindFrom(Concat(chunks[..n]), 0).None? && forall k: nat | 0 < k <= n :: !GivesUpAt(chunks, k)
  }

  /** Where the next scan starts. */
  function Resume(collected: seq<byte>): nat {
    if |collected| < MARKER_LEN - 1 then 0 else |collected| - (MARKER_LEN - 1)
  }

  /** One more chunk without a marker: reading gives up or goes on. */
  lemma ChunkContinues(chunks: seq<Item>, n: nat)
    requires n < |chunks| && Pending(chunks, n) && FindFrom(Concat(chunks[..n + 1]), 0).None?
    ensures if |Concat(chunks[..n + 1])| > MAX_HTML then GivesUp(chunks) else Pending(chunks, n + 1)
  {
    assert GivesUpAt(chunks, n + 1) <==> |Concat(chunks[..n + 1])| > MAX_HTML;
  }

  /** What `read_head` must return for all items, failures included. */
  ghost predicate IsResult(items: seq<Item>, r: Option<seq<byte>>) {
    var chunks := items[..Arriving(items)];
    if |chunks| < |items| && FindFrom(Concat(chunks), 0).None? then r.None? else IsHead(chunks, r)
  }

  lemma PendingToTheEnd(chunks: seq<Item>)
    requires Pending(chunks, |chunks|)
    ensures FindFrom(Concat(chunks), 0).None? && !GivesUp(chunks)
  {
    assert chunks[..|chunks|] == chunks;
  }

  lemma NothingFound(items: seq<Item>)
    requires var n := Arriving(items); Pending(items[..n], n)
    ensures var n := Arriving(items); IsResult(items, if n < |items| then None else Some(Concat(items[..n])))
  {
    PendingToTheEnd(items[..Arriving(items)]);
  }

  /** One chunk more: the resumed scan sees what a scan from the start would, and the loop stops or goes on rightly. */
  lemma ChunkRead(items: seq<Item>, n: nat)
    requires var chunks := items[..Arriving(items)]; n < |chunks| && Pending(chunks, n)
    ensures var chunks := items[..Arriving(items)];
            var before, now := Concat(chunks[..n]), Concat(chunks[..n + 1]);
            var at := FindFrom(now, 0);
            && now == before + items[n].bytes && FindHeadEnd(now, Resume(before)) == at
            && (at.Some? ==> IsResult(items, Some(now[..at.value])))
            && (at.None? && |now| > MAX_HTML ==> IsResult(items, None))
            && (at.None? && |now| <= MAX_HTML ==> Pending(chunks, n + 1))
  {
    var chunks := items[..Arriving(items)];
    ConcatSnoc(chunks, n);
    ScanResumes(Concat(chunks[..n]), Concat(chunks[..n + 1]), Resume(Concat(chunks[..n])));
    if FindFrom(Concat(chunks[..n + 1]), 0).Some? { FoundIsHead(chunks, n + 1); } else { ChunkContinues(chunks, n); }
  }

  /** The loop's state after `n` chunks. */
  ghost predicate Reading(items: seq<Item>, n: nat, collected: seq<byte>, scanned: nat) {
    && n <= Arriving(items) && collected == Concat(items[..Arriving(items)][..n])
    && scanned == Resume(collected) && Pending(items[..Arriving(items)], n)
  }

  lemma ReadingStarts(items: seq<Item>)
    ensures Reading(items, 0, [], 0)
  {
  }

  /** What one turn of the loop comes to. */
  lemma ReadingGoesOn(items: seq<Item>, n: nat, collected: seq<byte>, scanned: nat)
    requires n < |items| && Reading(items, n, collected, scanned)
    ensures items[n].Failure? ==> IsResult(items, None)
    ensures items[n].Chunk? ==>
              var now := collected + items[n].bytes;
              var at := FindHeadEnd(now, scanned);
              && (at.Some? ==> at.value <= |now| && IsResult(items, Some(now[..at.value])))
              && (at.None? && |now| > MAX_HTML ==> IsResult(items, None))
              && (at.None? && |now| <= MAX_HTML ==> Reading(items, n + 1, now, Resume(now)))
  {
    if items[n].Failure? { NothingFound(items); } else { ChunkRead(items, n); }
  }

  lemma ReadingEnds(items: seq<Item>, collected: seq<byte>, scanned: nat)
    requires Reading(items, |items|, collected, scanned)
    ensures IsResult(items, Some(collected))
  {
    NothingFound(items);
    assert items[..|items|][..|items|] == items[..|items|];
  }

  /** `read_head`, up to the decoding of the bytes as text. */
  method ReadHead(items: seq<Item>) returns (r: Option<seq<byte>>)
    ensures IsResult(items, r)
  {
    var collected: seq<byte> := [];
    var scanned: nat := 0;
    ReadingStarts(items);
    for n := 0 to |items|
      invariant Reading(items, n, collected, scanned)
    {
      ReadingGoesOn(items, n, collected, scanned);
      if items[n].Failure? { return None; }
      collected := collected + items[n].bytes;
      var at := FindHeadEnd(collected, scanned);
      if at.Some? { return Some(collected[..at.value]); }
      scanned := if |collected| < MARKER_LEN - 1 then 0 else |collected| - (MARKER_LEN - 1);
      if |collected| > MAX_HTML { return None; }
    }
    ReadingEnds(items, collected, scanned);
    r := Some(collected);
  }

  /** The one result for a stream whose first marker, if any, ends at most one byte over the cap. */
  function HeadOf(stream: seq<byte>): Option<seq<byte>> {
    match FindFrom(stream, 0)
    case Some(at) => Some(stream[..at])
    case None => if |stream| <= MAX_HTML then Some(stream) else None
  }

  /** No boundary between chunks can lie over the cap and before the end of the first marker. */
  predicate NoRoomToGiveUp(stream: seq<byte>) {
    var first := FindFrom(stream, 0);
    first.Some? ==> first.value + MARKER_LEN <= MAX_HTML + 1
  }

  lemma MarkerKeepsReading(items: seq<Item>)
    requires FindFrom(Concat(items), 0).Some? && NoRoomToGiveUp(Concat(items))
    ensures !GivesUp(items)
  {
    forall k: nat | 0 < k <= |items| ensures !GivesUpAt(items, k) {
      var read, stream := Concat(items[..k]), Concat(items);
      var at := FindFrom(stream, 0).value;
      ConcatPrefix(items, k);
      FindFromIsFirst(read, 0);
      FindFromIsFirst(stream, 0);
      if |read| > MAX_HTML { assert MarkerAt(read, at); }
    }
  }

  lemma NoMarkerGivesUpOverCap(items: seq<Item>)
    requires FindFrom(Concat(items), 0).None?
    ensures GivesUp(items) <==> |Concat(items)| > MAX_HTML
  {
    assert items[..|items|] == items;
    if |Concat(items)| > MAX_HTML { assert GivesUpAt(items, |items|); }
    if GivesUp(items) {
      var k: nat :| 0 < k <= |items| && GivesUpAt(items, k);
      ConcatPrefix(items, k);
    }
  }

  /** Reading a stream that does not fail, however it is cut. */
  lemma HeadIsOfStream(items: seq<Item>, r: Option<seq<byte>>)
    requires AllChunks(items) && IsResult(items, r) && NoRoomToGiveUp(Concat(items))
    ensures r == HeadOf(Concat(items))
  {
    ArrivingAll(items);
    if FindFrom(Concat(items), 0).Some? { MarkerKeepsReading(items); } else { NoMarkerGivesUpOverCap(items); }
  }

  lemma ArrivingAll(items: seq<Item>)
    requires AllChunks(items)
    ensures Arriving(items) == |items| && items[..Arriving(items)] == items
  {
  }

  /** `r` is what reading some cutting of the stream yields. */
  ghost predicate Yields(stream: seq<byte>, r: Option<seq<byte>>) {
    exists items :: AllChunks(items) && Concat(items) == stream && IsResult(items, r)
  }

  /** All cuttings of the stream yield the same. */
  ghost predicate OneResult(stream: seq<byte>) {
    forall r, q :: Yields(stream, r) && Yields(stream, q) ==> r == q
  }

  lemma TwoCuttings(stream: seq<byte>)
    requires !NoRoomToGiveUp(stream)
    ensures Yields(stream, Some(stream[..FindFrom(stream, 0).value])) && Yields(stream, None)
  {
    WholeIsFound(stream);
    CutOverCapIsLost(stream);
  }

  /** In one chunk, the marker is found however far out it is. */
  lemma WholeIsFound(stream: seq<byte>)
    requires FindFrom(stream, 0).Some?
    ensures Yields(stream, Some(stream[..FindFrom(stream, 0).value]))
  {
    var items := [Chunk(stream)];
    ConcatOne(items[0]);
    ArrivingAll(items);
    assert !GivesUpAt(items, 1) by { assert items[..1] == items; }
    assert IsResult(items, Some(stream[..FindFrom(stream, 0).value]));
  }

  /** A prefix that ends before the first marker does has no marker. */
  lemma NoMarkerYet(read: seq<byte>, stream: seq<byte>)
    requires read <= stream && FindFrom(stream, 0).Some? && |read| < FindFrom(stream, 0).value + MARKER_LEN
    ensures FindFrom(read, 0).None?
  {
    if FindFrom(read, 0).Some? { FirstInPrefixIsFirst(read, stream); }
  }

  /** Cut one byte over the cap, before the marker is whole, the same stream is refused. */
  lemma CutOverCapIsLost(stream: seq<byte>)
    requires !NoRoomToGiveUp(stream)
    ensures Yields(stream, None)
  {
    var read, rest := stream[..MAX_HTML + 1], stream[MAX_HTML + 1..];
    var items := [Chunk(read)] + [Chunk(rest)];
    assert read + rest == stream;
    ConcatTwo(read, rest);
    ArrivingAll(items);
    NoMarkerYet(read, stream);
    assert GivesUpAt(items, 1);
    assert IsResult(items, None);
  }

  /**
   The result does not depend on how a stream is cut into chunks exactly when there is no marker, or
   the first one ends at most one byte over the cap; it is then `HeadOf` the stream.
   */
  lemma ChunkingDoesNotMatter(stream: seq<byte>)
    ensures OneResult(stream) <==> NoRoomToGiveUp(stream)
    ensures NoRoomToGiveUp(stream) ==> forall r :: Yields(stream, r) ==> r == HeadOf(stream)
  {
    if NoRoomToGiveUp(stream) {
      forall r | Yields(stream, r) ensures r == HeadOf(stream) {
        var items :| AllChunks(items) && Concat(items) == stream && IsResult(items, r);
        HeadIsOfStream(items, r);
      }
    } else {
      TwoCuttings(stream);
    }
  }

  /** A result that is not the whole stream always ends at the stream's first marker. */
  lemma TruncatedOnlyAtFirstMarker(items: seq<Item>, r: Option<seq<byte>>)
    requires IsHead(items, r) && r.Some? && r.value != Concat(items)
    ensures |r.value| + MARKER_LEN <= |Concat(items)| && r.value == Concat(items)[..|r.value|]
    ensures MarkerAt(Concat(items), |r.value|)
    ensures forall j: nat | j < |r.value| :: !MarkerAt(Concat(items), j)
  {
    FindFromIsFirst(Concat(items), 0);
  }
}
