/** The stream the byte-prefixed reader consumes (src/read/func.rs): an in-memory input
    and the position of the next byte, which is what `std::io::Cursor` over a `Vec<u8>`
    is and what the container arms of `read_element` wrap each body in. Every failure
    of the stream is the single outcome Io. */
module TychoInput {
  import opened Bytes
  import opened TychoErrors

  /** `read_byte`: the next byte, or Io at the end of the input. */
  function ByteAt(data: seq<byte>, pos: nat): (r: Step<byte>)
    requires pos <= |data|
    ensures r.Parsed? <==> pos < |data|
    ensures r.Parsed? ==> r.value == data[pos] && r.next == pos + 1
    ensures r.Failed? ==> r.error == Io
  {
    if pos < |data| then Parsed(data[pos], pos + 1) else Failed(Io)
  }

  /** `read_bytes`: exactly the next n bytes in order, or Io when fewer remain. */
  function BytesAt(data: seq<byte>, pos: nat, n: nat): (r: Step<seq<byte>>)
    requires pos <= |data|
    ensures r.Parsed? <==> pos + n <= |data|
    ensures r.Parsed? ==> r.value == data[pos..pos + n] && r.next == pos + n
    ensures r.Failed? ==> r.error == Io
  {
    if pos + n <= |data| then Parsed(data[pos..pos + n], pos + n) else Failed(Io)
  }

  lemma ByteAtByte(data: seq<byte>, pos: nat, b: byte)
    requires At(data, pos, [b])
    ensures ByteAt(data, pos) == Parsed(b, pos + 1)
  {
    assert data[pos..pos + 1][0] == data[pos];
  }

  /** An in-memory stream: the bytes and the number read so far. Reading never moves
      the position past the end. */
  class Input {
    const data: seq<byte>
    var pos: nat

    ghost predicate Valid()
      reads this
    {
      pos <= |data|
    }

    /** `Cursor::new`. */
    constructor (bytes: seq<byte>)
      ensures Valid() && data == bytes && pos == 0
    {
      data := bytes;
      pos := 0;
    }
  }

  /** `read_byte`: at the end of the input nothing is consumed. */
  method ReadByte(rd: Input) returns (r: Result<byte>)
    requires rd.Valid()
    modifies rd
    ensures rd.Valid()
    ensures old(rd.pos) <= rd.pos
    ensures Outcome(r, rd.pos) == ByteAt(rd.data, old(rd.pos))
    ensures r.Err? ==> rd.pos == old(rd.pos)
  {
    if rd.pos == |rd.data| {
      return Err(Io);
    }
    r := Ok(rd.data[rd.pos]);
    rd.pos := rd.pos + 1;
  }

  /** `read_bytes`: `read_byte` n times. On a shortfall the bytes that were there have
      been consumed when the error is returned. */
  method ReadBytes(rd: Input, n: nat) returns (r: Result<seq<byte>>)
    requires rd.Valid()
    modifies rd
    ensures rd.Valid()
    ensures old(rd.pos) <= rd.pos
    ensures Outcome(r, rd.pos) == BytesAt(rd.data, old(rd.pos), n)
    ensures r.Err? ==> rd.pos == |rd.data|
  {
    var buffer: seq<byte> := [];
    for i := 0 to n
      invariant rd.Valid() && rd.pos == old(rd.pos) + i
      invariant buffer == rd.data[old(rd.pos)..rd.pos]
    {
      var b := ReadByte(rd);
      if b.Err? {
        return Err(b.error);
      }
      buffer := buffer + [b.value];
    }
    return Ok(buffer);
  }
}
