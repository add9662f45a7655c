/** The reader under the partial parser (src/partial/reader.rs): a seekable stream and
    `pointer`, the reader's own count of where it is. `Read::read` adds what the stream
    delivered to the pointer; `jump(to)` seeks by the difference between `to` and the
    pointer and then sets the pointer to `to`. The stream is an in-memory
    `Cursor<Vec<u8>>`, which may be sought past its end and then reads nothing. */
module PartialStream {
  import opened Bytes
  import opened TychoErrors
  import opened TychoInput
  import I = TychoIdent
  import opened TychoValues
  import opened TychoReadSpec
  import L = TychoLemmas
  import R = TychoRead

  const U64Limit: nat := 0x1_0000_0000_0000_0000
  const I64Limit: nat := 0x8000_0000_0000_0000

  function Min(a: nat, b: nat): nat
  {
    if a < b then a else b
  }

  /** `as i64` on a u64: the same 64 bits read as a two's complement number, negative
      exactly when the top bit is set. */
  function AsI64(x: nat): (i: int)
    requires x < U64Limit
    ensures -(I64Limit as int) <= i < I64Limit
    ensures (i < 0 <==> x >= I64Limit) && (x - i) % U64Limit == 0
  {
    if x < I64Limit then x else x - U64Limit
  }

  /** `PartialPointer`: the offset a container's body starts at, as the reader's
      pointer counts it, the body's byte length, and the ident of the reader that made
      it (the `partial_state` feature). */
  datatype PartialPointer = PartialPointer(pos: nat, size: nat, ident: u16)

  /** What a partial read depends on and changes: the underlying stream's position and
      the reader's pointer. */
  datatype Place = Place(seek: nat, pointer: nat)

  /** What a read through the partial reader gives: the value and the place after it,
      or the error. */
  datatype Read<T> = Done(value: T, at: Place) | Fails(error: TychoError)

  /** A method's result and the place it leaves, as a Read. */
  function Ended<T>(r: Result<T>, pl: Place): (s: Read<T>)
    ensures s.Done? <==> r.Ok?
  {
    match r
    case Ok(v) => Done(v, pl)
    case Err(e) => Fails(e)
  }

  /** The position bytes are read from: a stream sought past its end reads as one at
      its end. */
  function ReadPos(data: seq<byte>, pl: Place): (p: nat)
    ensures p <= |data| && (p < |data| ==> p == pl.seek)
  {
    Min(pl.seek, |data|)
  }

  /** The place after the bytes from ReadPos(data, pl) up to q were delivered: the
      stream moves by their number, and `Read::read` adds it to the pointer, as a u64
      that wraps. */
  function Delivered(data: seq<byte>, pl: Place, q: nat): (r: Place)
    requires pl.pointer < U64Limit && ReadPos(data, pl) <= q <= |data| < U64Limit
    ensures ReadPos(data, pl) < q ==> ReadPos(data, r) == q && r.seek == q
    ensures ReadPos(data, pl) == q ==> r.seek == pl.seek
    ensures r.pointer < U64Limit
  {
    var d := q - ReadPos(data, pl);
    Place(pl.seek + d, WrappingAdd(pl.pointer, d))
  }

  /** u64 `wrapping_add`, for two u64s. */
  function WrappingAdd(a: nat, b: nat): (r: nat)
    requires a < U64Limit && b < U64Limit
    ensures r < U64Limit && (r == a + b || r == a + b - U64Limit)
    ensures r == (a + b) % U64Limit
  {
    if a + b < U64Limit then a + b else a + b - U64Limit
  }

  /** A place whose two positions are u64s. */
  predicate Fits(pl: Place)
  {
    pl.seek < U64Limit && pl.pointer < U64Limit
  }

  /** A read of the byte-prefixed format from the reader's read position, with the
      place it leaves. */
  function Through<T>(data: seq<byte>, pl: Place, s: Step<T>): (r: Read<T>)
    requires pl.pointer < U64Limit && |data| < U64Limit
    requires s.Parsed? ==> ReadPos(data, pl) <= s.next <= |data|
    ensures r.Done? <==> s.Parsed?
  {
    match s
    case Parsed(v, q) => Done(v, Delivered(data, pl, q))
    case Failed(e) => Fails(e)
  }

  /** `jump(to)`: a relative seek by `to as i64 - pointer as i64` (a subtraction that a
      debug build checks for overflow), which fails with Io when it would put the
      stream before its start or past u64::MAX; then the pointer becomes `to`. */
  function JumpFrom(pl: Place, to: nat): (r: Result<Place>)
    requires pl.pointer < U64Limit && to < U64Limit
    ensures r.Ok? ==> r.value.pointer == to && r.value.seek < U64Limit
  {
    var off := AsI64(to) - AsI64(pl.pointer);
    if off < -(I64Limit as int) || off >= I64Limit then Err(SubtractOverflowPanic)
    else if pl.seek + off < 0 || pl.seek + off >= U64Limit then Err(Io)
    else Ok(Place(pl.seek + off, to))
  }

  /** The stream is `start` plus the pointer ahead of where it was when the reader was
      made, counted modulo 2^64 as the u64 pointer is. */
  predicate Tracks(start: nat, pl: Place)
  {
    pl.seek == (start + pl.pointer) % U64Limit
  }

  /** A jump keeps the pointer in step with the stream. */
  lemma JumpTracks(start: nat, pl: Place, to: nat)
    requires pl.pointer < U64Limit && to < U64Limit && Tracks(start, pl)
    ensures JumpFrom(pl, to).Ok? ==> Tracks(start, JumpFrom(pl, to).value)
  {
    var off := AsI64(to) - AsI64(pl.pointer);
    var k := (start + pl.pointer) / U64Limit;
    assert pl.seek == start + pl.pointer - k * U64Limit;
    var a := (to - AsI64(to)) / U64Limit;
    var b := (pl.pointer - AsI64(pl.pointer)) / U64Limit;
    assert to - AsI64(to) == a * U64Limit;
    assert pl.pointer - AsI64(pl.pointer) == b * U64Limit;
    if JumpFrom(pl, to).Ok? {
      var s := pl.seek + off;
      assert s == start + to - (k + a - b) * U64Limit;
      ModUnique(start + to, k + a - b, s);
    }
  }

  /** A jump to a target below 2^63 from a pointer below 2^63 lands the stream at
      `start + to`, when that is a u64. */
  lemma JumpLands(start: nat, pl: Place, to: nat)
    requires Tracks(start, pl) && pl.pointer < I64Limit && to < I64Limit && start + to < U64Limit
    requires start + pl.pointer < U64Limit
    ensures JumpFrom(pl, to) == Ok(Place(start + to, to))
  {
  }

  /** Delivering bytes keeps the pointer in step with the stream. */
  lemma DeliveredTracks(start: nat, data: seq<byte>, pl: Place, q: nat)
    requires pl.pointer < U64Limit && ReadPos(data, pl) <= q <= |data| < U64Limit && Tracks(start, pl)
    ensures Tracks(start, Delivered(data, pl, q))
  {
    var d := q - ReadPos(data, pl);
    if d > 0 {
      var k := (start + pl.pointer) / U64Limit;
      var j := (pl.pointer + d) / U64Limit;
      assert pl.seek + d == start + (pl.pointer + d) - k * U64Limit;
      assert (pl.pointer + d) % U64Limit == pl.pointer + d - j * U64Limit;
      ModUnique(start + (pl.pointer + d) % U64Limit, k - j, pl.seek + d);
    }
  }

  lemma ModUnique(x: int, k: int, r: int)
    requires 0 <= r < U64Limit && x - k * U64Limit == r
    ensures x % U64Limit == r
  {
  }

  /** A partial reader: `reader`, `pointer` and `ident` of the source's struct. */
  class PartialReader {
    /** The underlying `Cursor<Vec<u8>>`: its bytes and the position it reads from. */
    const input: Input
    /** Where the underlying stream is; a jump may put it past the end, and input.pos
        is then the end. */
    var seek: nat
    var pointer: nat
    /** The random stamp of the `partial_state` feature, given by the caller. */
    const ident: u16
    /** Where the underlying stream was when the reader was made. */
    ghost const start: nat

    function Here(): Place
      reads this
    {
      Place(seek, pointer)
    }

    ghost predicate Valid()
      reads this, input
    {
      input.Valid() && |input.data| < I64Limit && start < U64Limit &&
      seek < U64Limit && pointer < U64Limit &&
      input.pos == ReadPos(input.data, Here()) && Tracks(start, Here())
    }

    /** `from_vec`: a reader over the bytes, at their start, with pointer 0 (a vector
        holds fewer than 2^63 bytes). */
    constructor FromVec(bytes: seq<byte>, id: u16)
      requires |bytes| < I64Limit
      ensures Valid() && fresh(input) && input.data == bytes
      ensures seek == 0 && pointer == 0 && start == 0 && ident == id
    {
      input := new Input(bytes);
      seek := 0;
      pointer := 0;
      ident := id;
      start := 0;
    }

    /** `from`: a reader over a stream wherever it is, with pointer 0. */
    constructor From(stream: Input, id: u16)
      requires stream.Valid() && |stream.data| < I64Limit
      ensures Valid() && input == stream && unchanged(stream)
      ensures seek == stream.pos && pointer == 0 && start == stream.pos && ident == id
    {
      input := stream;
      seek := stream.pos;
      pointer := 0;
      ident := id;
      start := stream.pos;
    }

    /** `pointer(pos, size)`: a pointer stamped with this reader's ident. */
    function Pointer(pos: nat, size: nat): (p: PartialPointer)
      reads this
      ensures p.pos == pos && p.size == size && p.ident == ident
    {
      PartialPointer(pos, size, ident)
    }

    /** `empty_pointer()`. */
    function EmptyPointer(): (p: PartialPointer)
      reads this
      ensures p.pos == 0 && p.size == 0 && p.ident == ident
    {
      PartialPointer(0, 0, ident)
    }

    /** `jump(to)`. On an error nothing moves. */
    method Jump(to: nat) returns (r: Result<()>)
      requires Valid() && to < U64Limit
      modifies this, input
      ensures Valid()
      ensures r.Ok? <==> JumpFrom(old(Here()), to).Ok?
      ensures r.Ok? ==> Here() == JumpFrom(old(Here()), to).value
      ensures r.Err? ==> r.error == JumpFrom(old(Here()), to).error && Here() == old(Here())
    {
      JumpTracks(start, Here(), to);
      var off := AsI64(to) - AsI64(pointer);
      if off < -(I64Limit as int) || off >= I64Limit {
        return Err(SubtractOverflowPanic);
      }
      if seek + off < 0 || seek + off >= U64Limit {
        return Err(Io);
      }
      seek := seek + off;
      input.pos := Min(seek, |input.data|);
      pointer := to;
      return Ok(());
    }

    /** `Read::read`'s bookkeeping after the stream delivered the bytes from `before`
        up to its position: the pointer and the stream's position move by that many. */
    method Deliver(ghost before: nat)
      requires input.Valid() && |input.data| < I64Limit && start < U64Limit
      requires seek < U64Limit && pointer < U64Limit && Tracks(start, Here())
      requires before == ReadPos(input.data, Here()) <= input.pos
      modifies this
      ensures Valid() && Here() == Delivered(input.data, old(Here()), input.pos)
    {
      DeliveredTracks(start, input.data, Here(), input.pos);
      var d := input.pos - Min(seek, |input.data|);
      seek := seek + d;
      pointer := (pointer + d) % U64Limit;
    }

    /** `read_element_ident` through this reader. */
    method ReadElementIdent() returns (r: Result<I.ElementIdent>)
      requires Valid()
      modifies this, input
      ensures Valid()
      ensures Ended(r, Here()) == Through(input.data, old(Here()), ElementIdentAt(input.data, ReadPos(input.data, old(Here()))))
    {
      ghost var before := input.pos;
      r := R.ReadElementIdent(input);
      Deliver(before);
    }

    /** `read_value_ident` through this reader. */
    method ReadValueIdent() returns (r: Result<I.ValueIdent>)
      requires Valid()
      modifies this, input
      ensures Valid()
      ensures Ended(r, Here()) == Through(input.data, old(Here()), ValueIdentAt(input.data, ReadPos(input.data, old(Here()))))
    {
      ghost var before := input.pos;
      r := R.ReadValueIdent(input);
      Deliver(before);
    }

    /** `read_value` through this reader. */
    method ReadValue(t: I.ValueIdent) returns (r: Result<Value>)
      requires Valid()
      modifies this, input
      ensures Valid()
      ensures Ended(r, Here()) == Through(input.data, old(Here()), ValueAt(t, input.data, ReadPos(input.data, old(Here()))))
    {
      ghost var before := input.pos;
      r := R.ReadValue(input, t);
      Deliver(before);
    }

    /** `read_tstring` through this reader. */
    method ReadTString() returns (r: Result<string>)
      requires Valid()
      modifies this, input
      ensures Valid()
      ensures Ended(r, Here()) == Through(input.data, old(Here()), TStringAt(input.data, ReadPos(input.data, old(Here()))))
    {
      ghost var before := input.pos;
      r := R.ReadTString(input);
      Deliver(before);
    }

    /** `read_length` through this reader; the length is a u64. */
    method ReadLength() returns (r: Result<nat>)
      requires Valid()
      modifies this, input
      ensures Valid()
      ensures Ended(r, Here()) == Through(input.data, old(Here()), LengthAt(input.data, ReadPos(input.data, old(Here())), 0, 0))
      ensures r.Ok? ==> r.value < U64Limit
    {
      ghost var before := input.pos;
      L.LengthFits(input.data, input.pos);
      r := R.ReadLength(input);
      Deliver(before);
    }

    /** `read_bytes` through this reader. */
    method ReadBytes(n: nat) returns (r: Result<seq<byte>>)
      requires Valid()
      modifies this, input
      ensures Valid()
      ensures Ended(r, Here()) == Through(input.data, old(Here()), BytesAt(input.data, ReadPos(input.data, old(Here())), n))
    {
      ghost var before := input.pos;
      r := TychoInput.ReadBytes(input, n);
      Deliver(before);
    }
  }
}
