/** Properties of `next_item` and `collect` (src/partial/container.rs): a finished or
    outdated container gives the same answer however often it is asked; an item that
    reads across n bytes at the body's position plus the head is returned with the head
    moved by n and the reader put back where it was; a first jump or an item read that
    fails leaves the head alone; and a collection that completes ends with the head at
    the body's size exactly. */
module PartialContainerLemmas {
  import opened Bytes
  import opened Wrappers
  import opened TychoErrors
  import V = TychoValues
  import F = TychoFormat
  import opened TychoReadSpec
  import L = TychoLemmas
  import E = TychoElementLemmas
  import opened PartialStream
  import opened PartialElements
  import opened PartialTypes
  import opened PartialContainers
  import opened PartialLemmas

  /** A container whose head is at its size gives None, changes nothing, and so gives
      None again. */
  lemma FinishedStays(data: seq<byte>, pl: Place, id: u16, c: Container)
    requires Fits(pl) && |data| < U64Limit && c.head < U64Limit && c.pointer.pos < U64Limit
    requires c.pointer.ident == id && c.head == c.pointer.size
    ensures var s := NextItemAt(data, pl, id, c);
            s == NextStep(Ok(None), c.head, Some(pl)) && NextItemAt(data, s.at.value, id, c.(head := s.head)) == s
  {
  }

  /** A container stamped by another reader gives OutdatedPointer and changes nothing. */
  lemma OutdatedStays(data: seq<byte>, pl: Place, id: u16, c: Container)
    requires Fits(pl) && |data| < U64Limit && c.head < U64Limit && c.pointer.pos < U64Limit
    requires c.pointer.ident != id
    ensures var s := NextItemAt(data, pl, id, c);
            s == NextStep(Err(OutdatedPointer), c.head, Some(pl)) && NextItemAt(data, s.at.value, id, c.(head := s.head)) == s
  {
  }

  /** When the jump to the item fails, `next_item` gives its error, with the head and
      the reader where they were. */
  lemma FirstJumpFails(data: seq<byte>, pl: Place, id: u16, c: Container, err: TychoError)
    requires Fits(pl) && |data| < U64Limit && c.head < U64Limit && c.pointer.pos < U64Limit
    requires c.pointer.ident == id && c.head != c.pointer.size && c.pointer.pos + c.head < U64Limit
    requires JumpFrom(pl, c.pointer.pos + c.head) == Err(err)
    ensures NextItemAt(data, pl, id, c) == NextStep(Err(err), c.head, Some(pl))
  {
  }

  /** When the item's read fails, `next_item` gives its error with the head where it
      was; the reader is left wherever the read stopped. */
  lemma ItemReadFails(data: seq<byte>, pl: Place, id: u16, c: Container, pl1: Place, err: TychoError)
    requires Fits(pl) && |data| < U64Limit && c.head < U64Limit && c.pointer.pos < U64Limit
    requires c.pointer.ident == id && c.head != c.pointer.size && c.pointer.pos + c.head < U64Limit
    requires JumpFrom(pl, c.pointer.pos + c.head) == Ok(pl1) && Fits(pl1) && ItemAt(data, pl1, id, c.kind) == Fails(err)
    ensures NextItemAt(data, pl, id, c) == NextStep(Err(err), c.head, None)
  {
    JumpToItem(data, pl, id, c, pl1);
    ReadOnFails(data, pl1, pl.pointer, id, c, err);
  }

  lemma ReadOnFails(data: seq<byte>, pl1: Place, top: nat, id: u16, c: Container, err: TychoError)
    requires Fits(pl1) && |data| < U64Limit && c.head < U64Limit && top < U64Limit
    requires ItemAt(data, pl1, id, c.kind) == Fails(err)
    ensures ReadOnAt(data, pl1, top, id, c) == NextStep(Err(err), c.head, None)
  {
  }

  /** An item that reads as x across n bytes, where the stream is `start` plus the
      body's position plus the head: `next_item` returns x, moves the head by n and
      jumps the reader back to where it was. */
  lemma NextItemHead(data: seq<byte>, pl: Place, id: u16, c: Container, x: Item, n: nat, start: nat)
    requires Tracks(start, pl) && pl.pointer < I64Limit && start + pl.pointer < U64Limit && |data| < U64Limit
    requires c.pointer.ident == id && c.head != c.pointer.size && c.head < U64Limit
    requires c.pointer.pos + c.head + n < I64Limit && start + c.pointer.pos + c.head + n < U64Limit
    requires ItemAt(data, Place(start + c.pointer.pos + c.head, c.pointer.pos + c.head), id, c.kind)
          == Done(x, Place(start + c.pointer.pos + c.head + n, c.pointer.pos + c.head + n))
    ensures NextItemAt(data, pl, id, c) == NextStep(Ok(Some(x)), c.head + n, Some(pl))
  {
    JumpLands(start, pl, c.pointer.pos + c.head);
    var pl1 := Place(start + c.pointer.pos + c.head, c.pointer.pos + c.head);
    var pl2 := Place(start + c.pointer.pos + c.head + n, c.pointer.pos + c.head + n);
    TracksAt(start, pl2);
    JumpLands(start, pl2, pl.pointer);
    TracksExactly(start, pl);
    ReadOnHead(data, pl1, pl.pointer, id, c, x, pl2, pl, c.head + n);
    JumpToItem(data, pl, id, c, pl1);
  }

  /** `next_item` after the jump to the item: what the rest of it does. */
  lemma JumpToItem(data: seq<byte>, pl: Place, id: u16, c: Container, pl1: Place)
    requires Fits(pl) && |data| < U64Limit && c.head < U64Limit && c.pointer.pos < U64Limit
    requires c.pointer.ident == id && c.head != c.pointer.size && c.pointer.pos + c.head < U64Limit
    requires JumpFrom(pl, c.pointer.pos + c.head) == Ok(pl1)
    ensures Fits(pl1) && NextItemAt(data, pl, id, c) == ReadOnAt(data, pl1, pl.pointer, id, c)
  {
    assert Fits(pl1);
  }

  /** The rest of `next_item` after an item read that moved the pointer forward and a
      jump back that worked. */
  lemma ReadOnHead(data: seq<byte>, pl1: Place, top: nat, id: u16, c: Container, x: Item, pl2: Place, pl3: Place, head: nat)
    requires Fits(pl1) && |data| < U64Limit && c.head < U64Limit && top < U64Limit
    requires ItemAt(data, pl1, id, c.kind) == Done(x, pl2) && pl1.pointer <= pl2.pointer
    requires head == c.head + (pl2.pointer - pl1.pointer) && head < U64Limit && JumpFrom(pl2, top) == Ok(pl3)
    ensures ReadOnAt(data, pl1, top, id, c) == NextStep(Ok(Some(x)), head, Some(pl3))
  {
  }

  /** A list item that the writer wrote as an element without containers. */
  lemma ListItemRead(data: seq<byte>, pl: Place, id: u16, e: V.Element, ord: F.Orders)
    requires pl.pointer <= pl.seek && |data| < I64Limit && F.ValidOrders(ord) && E.Writable(e) && Eager(e).Some?
    requires At(data, pl.seek, F.ElementBytes(e, ord))
    ensures Fits(pl)
    ensures ItemAt(data, pl, id, ListItems)
         == Done(ListItem(Eager(e).value), Place(pl.seek + |F.ElementBytes(e, ord)|, pl.pointer + |F.ElementBytes(e, ord)|))
  {
    assert ReadPos(data, pl) == pl.seek;
    PartialReadsFlat(data, pl, id, e, ord);
    assert Delivered(data, pl, pl.seek + |F.ElementBytes(e, ord)|)
        == Place(pl.seek + |F.ElementBytes(e, ord)|, pl.pointer + |F.ElementBytes(e, ord)|);
  }

  /** A struct item whose terminated key was written before `rest`: the key, then the
      partial element that follows it. */
  lemma KeyThenItem(data: seq<byte>, pl: Place, id: u16, k: string, rest: seq<byte>, x: PartialElement, at: Place)
    requires pl.pointer <= pl.seek && |data| < I64Limit
    requires '\0' !in k && At(data, pl.seek, F.TStringBytes(k) + rest)
    requires PartialElementAt(data, Place(pl.seek + |F.TStringBytes(k)|, pl.pointer + |F.TStringBytes(k)|), id) == Done(x, at)
    ensures Fits(pl) && ItemAt(data, pl, id, StructItems) == Done(Field(k, x), at)
  {
    AtSplit(data, pl.seek, F.TStringBytes(k), rest);
    L.TStringRoundTrip(data, pl.seek, k);
    assert ReadPos(data, pl) == pl.seek;
    assert Delivered(data, pl, pl.seek + |F.TStringBytes(k)|) == Place(pl.seek + |F.TStringBytes(k)|, pl.pointer + |F.TStringBytes(k)|);
  }

  /** `next_item` over a list whose next item the writer wrote as an element without
      containers: the element, Some dropped, with the head moved by its bytes and the
      reader back where it was. */
  lemma ListNextFlat(data: seq<byte>, pl: Place, id: u16, c: Container, e: V.Element, ord: F.Orders, start: nat)
    requires Tracks(start, pl) && pl.pointer < I64Limit && start + pl.pointer < U64Limit && |data| < I64Limit
    requires c.kind == ListItems && c.pointer.ident == id && c.head != c.pointer.size && c.head < U64Limit
    requires c.pointer.pos + c.head < I64Limit
    requires F.ValidOrders(ord) && E.Writable(e) && Eager(e).Some?
    requires At(data, start + c.pointer.pos + c.head, F.ElementBytes(e, ord))
    ensures NextItemAt(data, pl, id, c) == NextStep(Ok(Some(ListItem(Eager(e).value))), c.head + |F.ElementBytes(e, ord)|, Some(pl))
  {
    ListItemThere(data, pl, id, c, e, ord, start);
    NextItemHead(data, pl, id, c, ListItem(Eager(e).value), |F.ElementBytes(e, ord)|, start);
  }

  lemma ListItemThere(data: seq<byte>, pl: Place, id: u16, c: Container, e: V.Element, ord: F.Orders, start: nat)
    requires Tracks(start, pl) && pl.pointer < I64Limit && start + pl.pointer < U64Limit && |data| < I64Limit
    requires c.kind == ListItems && c.pointer.ident == id && c.head != c.pointer.size && c.head < U64Limit
    requires c.pointer.pos + c.head < I64Limit
    requires F.ValidOrders(ord) && E.Writable(e) && Eager(e).Some?
    requires At(data, start + c.pointer.pos + c.head, F.ElementBytes(e, ord))
    ensures var n := |F.ElementBytes(e, ord)|;
            c.pointer.pos + c.head + n < I64Limit && start + c.pointer.pos + c.head + n < U64Limit &&
            ItemAt(data, Place(start + c.pointer.pos + c.head, c.pointer.pos + c.head), id, c.kind)
            == Done(ListItem(Eager(e).value), Place(start + c.pointer.pos + c.head + n, c.pointer.pos + c.head + n))
  {
    ListItemRead(data, Place(start + c.pointer.pos + c.head, c.pointer.pos + c.head), id, e, ord);
  }

  /** A `collect` that completes stops at a `next_item` that found the head exactly at
      the body's size: the container is then finished and asking again gives None. It
      took fewer calls than the bound, one per item and one for the end. */
  lemma {:induction false} CollectedFinished(data: seq<byte>, pl: Place, id: u16, c: Container, bound: nat)
    requires Fits(pl) && |data| < U64Limit && c.head < U64Limit && c.pointer.pos < U64Limit
    ensures var w := CollectAt(data, pl, id, c, bound);
            w.result.Collected? ==>
              w.head == c.pointer.size && c.pointer.ident == id && w.at.Some? && |w.result.items| < bound &&
              NextItemAt(data, w.at.value, id, c.(head := w.head)) == NextStep(Ok(None), w.head, w.at)
    decreases bound
  {
    var w := CollectAt(data, pl, id, c, bound);
    if bound > 0 && w.result.Collected? {
      var s := NextItemAt(data, pl, id, c);
      var rest := bound - 1;
      CollectStep(data, pl, id, c, bound, rest, s);
      if s.result.Ok? && s.result.value.Some? {
        CollectedFinished(data, s.at.value, id, c.(head := s.head), rest);
      }
    }
  }

  /** `PartialCompression::bytes` from a reader at `start` plus its pointer: the `size`
      bytes at `start` plus the pointer's position, with the reader back where it was. */
  lemma CompressionBytesFrom(data: seq<byte>, pl: Place, c: PartialCompression, start: nat)
    requires Tracks(start, pl) && pl.pointer < I64Limit && start + pl.pointer < U64Limit && |data| < I64Limit
    requires c.pointer.pos + c.pointer.size < I64Limit && start + c.pointer.pos + c.pointer.size <= |data|
    ensures CompressionBytesAt(data, pl, c)
         == Done(data[start + c.pointer.pos..start + c.pointer.pos + c.pointer.size], pl)
  {
    CompressionPlaces(data, pl, c, start);
    CompressionSteps(data, pl, c, Place(start + c.pointer.pos, c.pointer.pos), start + c.pointer.pos + c.pointer.size, pl);
  }

  /** Where the reader stands in `PartialCompression::bytes`: the jump there lands at
      `start` plus the position, and the jump back after the bytes is where it was. */
  lemma CompressionPlaces(data: seq<byte>, pl: Place, c: PartialCompression, start: nat)
    requires Tracks(start, pl) && pl.pointer < I64Limit && start + pl.pointer < U64Limit && |data| < I64Limit
    requires c.pointer.pos + c.pointer.size < I64Limit && start + c.pointer.pos + c.pointer.size <= |data|
    ensures var pl1 := Place(start + c.pointer.pos, c.pointer.pos);
            Fits(pl) && JumpFrom(pl, c.pointer.pos) == Ok(pl1) && ReadPos(data, pl1) == start + c.pointer.pos &&
            JumpFrom(Delivered(data, pl1, start + c.pointer.pos + c.pointer.size), pl.pointer) == Ok(pl)
  {
    JumpLands(start, pl, c.pointer.pos);
    var pl2 := Place(start + c.pointer.pos + c.pointer.size, c.pointer.pos + c.pointer.size);
    RunDelivered(data, start, c.pointer.pos, c.pointer.size, pl2);
    JumpLands(start, pl2, pl.pointer);
    TracksExactly(start, pl);
  }

  /** Delivering n bytes from the place `start` plus pos moves both by n. */
  lemma RunDelivered(data: seq<byte>, start: nat, pos: nat, n: nat, pl2: Place)
    requires pos + n < I64Limit && start + pos + n <= |data| < I64Limit
    requires pl2 == Place(start + pos + n, pos + n)
    ensures Delivered(data, Place(start + pos, pos), start + pos + n) == pl2 && Tracks(start, pl2)
  {
  }

  /** A place `start` plus its pointer, below the u64 limit, tracks `start`. */
  lemma TracksAt(start: nat, pl: Place)
    requires pl.seek == start + pl.pointer && pl.seek < U64Limit
    ensures Tracks(start, pl)
  {
  }

  /** Below the u64 limit, a tracking place is exactly `start` plus its pointer. */
  lemma TracksExactly(start: nat, pl: Place)
    requires Tracks(start, pl) && start + pl.pointer < U64Limit
    ensures pl == Place(start + pl.pointer, pl.pointer)
  {
  }

  /** `PartialCompression::bytes` step by step: the jump there, the bytes, the jump back. */
  lemma CompressionSteps(data: seq<byte>, pl: Place, c: PartialCompression, pl1: Place, q: nat, pl3: Place)
    requires Fits(pl) && |data| < U64Limit && c.pointer.pos < U64Limit
    requires JumpFrom(pl, c.pointer.pos) == Ok(pl1) && ReadPos(data, pl1) + c.pointer.size == q <= |data|
    requires JumpFrom(Delivered(data, pl1, q), pl.pointer) == Ok(pl3)
    ensures CompressionBytesAt(data, pl, c) == Done(data[ReadPos(data, pl1)..q], pl3)
  {
  }
}
