/** Peeking at a request's headers and replaying them to the HTTP server. */
module HeaderReplay {
  import opened Common

  /** CR LF CR LF ends at `n`. */
  predicate HeaderEndsAt(s: seq<byte>, n: nat) {
    4 <= n <= |s| && s[n - 4] == 13 && s[n - 3] == 10 && s[n - 2] == 13 && s[n - 1] == 10
  }

  /** In bytes: the last four are carriage return, line feed, carriage return, line feed. */
  lemma HeaderEndIs(s: seq<byte>, n: nat)
    ensures HeaderEndsAt(s, n) <==> 4 <= n <= |s| && s[n - 4..n] == [13, 10, 13, 10]
  {
    if 4 <= n <= |s| {
      var last := s[n - 4..n];
      assert last[0] == s[n - 4] && last[1] == s[n - 3] && last[2] == s[n - 2] && last[3] == s[n - 1];
    }
  }

  /** How far the header loop reads: to the first blank line, the end of the stream or the failing read. */
  function HeaderLength(s: seq<byte>, n: nat, fault: nat): nat
    decreases |s| - n
  {
    if n >= |s| || n >= fault then n
    else if HeaderEndsAt(s, n + 1) then n + 1
    else HeaderLength(s, n + 1, fault)
  }

  /** Nothing is read past the first blank line, and nothing short of it without cause. */
  lemma {:induction false} HeaderLengthIsFirst(s: seq<byte>, n: nat, fault: nat)
    requires n <= |s| && n <= fault
    ensures var r := HeaderLength(s, n, fault);
            && n <= r <= |s| && r <= fault
            && (forall k: nat | n < k < r :: !HeaderEndsAt(s, k))
            && (r == |s| || r == fault || (n < r && HeaderEndsAt(s, r)))
    decreases |s| - n
  {
    if n < |s| && n < fault && !HeaderEndsAt(s, n + 1) { HeaderLengthIsFirst(s, n + 1, fault); }
  }

  function Min(a: nat, b: nat): nat { if a <= b then a else b }

  /** The decrypted stream: a read yields at most what is asked for and what has arrived. */
  class Connection {
    const data: seq<byte>
    var pos: nat

    ghost predicate Valid()
      reads this
    {
      pos <= |data|
    }

    constructor (data: seq<byte>)
      ensures Valid() && this.data == data && pos == 0
    {
      this.data, this.pos := data, 0;
    }

    method Read(cap: nat, arrived: nat) returns (bytes: seq<byte>)
      requires Valid()
      modifies this
      ensures Valid() && pos == old(pos) + Min(Min(cap, arrived), |data| - old(pos))
      ensures bytes == data[old(pos)..pos]
    {
      var n := Min(Min(cap, arrived), |data| - pos);
      bytes := data[pos..pos + n];
      pos := pos + n;
    }

    /** The header loop, one byte at a time; the read after `fault` bytes fails. */
    method ReadHeaders(fault: nat) returns (headers: seq<byte>)
      requires Valid() && pos == 0
      modifies this
      ensures Valid() && pos == HeaderLength(data, 0, fault)
      ensures headers == data[..pos]
    {
      headers := [];
      var done := false;
      while !done
        invariant Valid() && pos <= fault && headers == data[..pos]
        invariant HeaderLength(data, 0, fault) == if done then pos else HeaderLength(data, pos, fault)
        decreases |data| - pos, !done
      {
        if pos == fault {
          done := true;
        } else {
          var one := Read(1, 1);
          if one == [] {
            done := true;
          } else {
            headers := headers + one;
            if HeaderEndsAt(headers, |headers|) { done := true; }
          }
        }
      }
    }
  }

  /** The bytes already read come first, then the stream itself. */
  class PrefixedReader {
    const prefix: seq<byte>
    var cursor: nat
    const inner: Connection

    ghost predicate Valid()
      reads this, inner
    {
      && inner.Valid() && cursor <= |prefix| <= inner.pos
      && prefix == inner.data[..|prefix|]
      && (cursor < |prefix| ==> inner.pos == |prefix|)
    }

    /** How much of the original stream has been delivered. */
    ghost function Delivered(): nat
      reads this, inner
    {
      if cursor < |prefix| then cursor else inner.pos
    }

    constructor (prefix: seq<byte>, inner: Connection)
      requires inner.Valid() && inner.pos == |prefix| && prefix == inner.data[..|prefix|]
      ensures Valid() && Delivered() == 0 && this.inner == inner && this.prefix == prefix
    {
      this.prefix, this.cursor, this.inner := prefix, 0, inner;
    }

    method PollRead(cap: nat, arrived: nat) returns (bytes: seq<byte>)
      requires Valid()
      modifies this, inner
      ensures Valid() && old(Delivered()) <= Delivered() <= |inner.data|
      ensures bytes == inner.data[old(Delivered())..Delivered()]
      ensures cap > 0 && arrived > 0 && old(Delivered()) < |inner.data| ==> bytes != []
    {
      if cursor < |prefix| {
        var n := Min(cap, |prefix| - cursor);
        bytes := prefix[cursor..cursor + n];
        cursor := cursor + n;
      } else {
        bytes := inner.Read(cap, arrived);
      }
    }
  }

  /** One read: the buffer offered, and how many bytes have arrived (none while pending or failing). */
  datatype Request = Request(cap: nat, arrived: nat)

  function Productive(rs: seq<Request>): nat {
    if rs == [] then 0
    else Productive(rs[..|rs| - 1]) + (if rs[|rs| - 1].cap > 0 && rs[|rs| - 1].arrived > 0 then 1 else 0)
  }

  /**
   A connection that turns out to carry plain HTTP: whatever the reads, what is delivered is a
   prefix of the stream, and it is the whole stream once enough reads were productive.
   */
  method Serve(stream: seq<byte>, fault: nat, requests: seq<Request>) returns (delivered: seq<byte>)
    ensures delivered <= stream
    ensures |delivered| >= Min(Productive(requests), |stream|)
  {
    var conn := new Connection(stream);
    var headers := conn.ReadHeaders(fault);
    var reader := new PrefixedReader(headers, conn);
    delivered := [];
    for i := 0 to |requests|
      invariant reader.Valid() && reader.inner == conn && fresh(reader) && fresh(conn)
      invariant |delivered| == reader.Delivered() <= |stream| && delivered == stream[..|delivered|]
      invariant |delivered| >= Min(Productive(requests[..i]), |stream|)
    {
      var bytes := reader.PollRead(requests[i].cap, requests[i].arrived);
      assert requests[..i + 1][..i] == requests[..i];
      delivered := delivered + bytes;
    }
    assert requests[..|requests|] == requests;
  }
}
