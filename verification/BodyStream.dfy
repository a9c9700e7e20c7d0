/** A body that arrives in pieces, as a stream of frames that may fail. */
module BodyStream {
  import opened Common

  /** One item of the body stream; a failure is a stream error or the timeout. */
  datatype Item = Chunk(bytes: seq<byte>) | Failure

  function Concat(items: seq<Item>): seq<byte> {
    if items == [] then []
    else Concat(items[..|items| - 1]) + (if items[|items| - 1].Chunk? then items[|items| - 1].bytes else [])
  }

  predicate AllChunks(items: seq<Item>) { forall i | 0 <= i < |items| :: items[i].Chunk? }

  lemma {:induction false} ConcatPrefix(items: seq<Item>, k: nat)
    requires k <= |items|
    ensures Concat(items[..k]) <= Concat(items)
    decreases |items|
  {
    if k < |items| {
      ConcatPrefix(items[..|items| - 1], k);
      assert items[..|items| - 1][..k] == items[..k];
    } else {
      assert items[..k] == items;
    }
  }

  lemma ConcatSnoc(items: seq<Item>, n: nat)
    requires n < |items| && items[n].Chunk?
    ensures Concat(items[..n + 1]) == Concat(items[..n]) + items[n].bytes
  {
    assert items[..n + 1][..n] == items[..n];
  }

  lemma ConcatOne(x: Item)
    ensures Concat([x]) == if x.Chunk? then x.bytes else []
  {
    assert [x][..0] == [];
  }

  lemma ConcatTwo(x: seq<byte>, y: seq<byte>)
    ensures var items := [Chunk(x)] + [Chunk(y)]; Concat(items[..1]) == x && Concat(items) == x + y
  {
    var items := [Chunk(x)] + [Chunk(y)];
    assert items[..1] == [Chunk(x)] && items[..2] == items;
    ConcatOne(Chunk(x));
    ConcatSnoc(items, 1);
  }
}
