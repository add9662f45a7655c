/** The bounds-checked byte cursor of the nibble-prefixed decoder (src/decode/reader.rs)
    and the errors of src/decode/error.rs.

    Reading is specified by functions of the input and a position that return the
    value read and the position after it (a Step); the Reader methods are proved to
    return what those functions say and to leave the cursor where they say. */
module NibbleReader {
  import opened Bytes

  /** `DecodeError`. The UTF-8 error payload of StringDecodeError is not kept.
      HashPanic is not an error of the source: it stands for the panic of hashing a
      float map key. */
  datatype DecodeError =
    | UnexpectedEnd(expected: nat, found: nat)
    | StringDecodeError(pos: nat)
    | BadCharLength(pos: nat)
    | LogicalDecodeError(pos: nat)
    | InvalidElementIdent(pos: nat, value: byte)
    | InvalidValueIdent(pos: nat, value: byte)
    | InvalidElementOperand(pos: nat, value: byte)
    | HashPanic(pos: nat)

  /** What the decoder returns. */
  datatype Result<T> = Ok(value: T) | Err(error: DecodeError)

  /** A decoding step of the specification: the value and the position after it. */
  datatype Step<T> = Parsed(value: T, next: nat) | Failed(error: DecodeError)

  /** The step a method took, given its result and where it left the cursor. */
  function Outcome<T>(r: Result<T>, pos: nat): Step<T>
  {
    match r
    case Ok(v) => Parsed(v, pos)
    case Err(e) => Failed(e)
  }

  /** What a method returns when it takes the step s. */
  function Returned<T>(s: Step<T>): Result<T>
  {
    match s
    case Parsed(v, _) => Ok(v)
    case Failed(e) => Err(e)
  }

  /** `read_one`. */
  function OneAt(data: seq<byte>, pos: nat): (r: Step<byte>)
    requires pos <= |data|
    ensures r.Parsed? ==> r.next == pos + 1 <= |data| && r.value == data[pos]
    ensures r.Failed? <==> pos == |data|
  {
    if |data| - pos == 0 then Failed(UnexpectedEnd(1, 0)) else Parsed(data[pos], pos + 1)
  }

  /** `read_many`: the error reports the whole input length as `found`. */
  function ManyAt(data: seq<byte>, pos: nat, n: nat): (r: Step<seq<byte>>)
    requires pos <= |data|
    ensures r.Parsed? ==> r.next == pos + n <= |data| && r.value == data[pos..pos + n]
    ensures r.Failed? <==> pos + n > |data|
  {
    if |data| - pos < n then Failed(UnexpectedEnd(n, |data|))
    else Parsed(data[pos..pos + n], pos + n)
  }

  lemma OneAtByte(data: seq<byte>, pos: nat, b: byte)
    requires At(data, pos, [b])
    ensures OneAt(data, pos) == Parsed(b, pos + 1)
  {
    assert data[pos..pos + 1][0] == data[pos];
  }

  lemma ManyAtBytes(data: seq<byte>, pos: nat, b: seq<byte>)
    requires At(data, pos, b)
    ensures ManyAt(data, pos, |b|) == Parsed(b, pos + |b|)
  {
  }

  /** A w-byte big-endian unsigned read (`read_u16` ... `read_u128`, and the bit
      patterns of `read_f32` / `read_f64`). */
  function UnsignedAt(data: seq<byte>, pos: nat, w: nat): (r: Step<nat>)
    requires pos <= |data|
    ensures r.Parsed? ==> r.value < Pow256(w)
  {
    match ManyAt(data, pos, w)
    case Failed(e) => Failed(e)
    case Parsed(b, p) => Parsed(BeValue(b), p)
  }

  /** A w-byte big-endian two's complement read (`read_i8` ... `read_i128`). */
  function SignedAt(data: seq<byte>, pos: nat, w: nat): (r: Step<int>)
    requires pos <= |data| && w > 0
    ensures r.Parsed? ==> -(Pow256(w) / 2) <= r.value < Pow256(w) / 2
  {
    match ManyAt(data, pos, w)
    case Failed(e) => Failed(e)
    case Parsed(b, p) => Parsed(FromTwos(BeValue(b), w), p)
  }

  /** `read_i8`. Unlike the wider reads it fails like `read_one`. */
  function I8At(data: seq<byte>, pos: nat): (r: Step<int>)
    requires pos <= |data|
    ensures r.Parsed? ==> -0x80 <= r.value < 0x80
  {
    match OneAt(data, pos)
    case Failed(e) => Failed(e)
    case Parsed(b, p) => Parsed(FromTwos(b, 1), p)
  }

  /** Reading the big-endian form of n gives back n. */
  lemma UnsignedAtBytes(data: seq<byte>, pos: nat, n: nat, w: nat)
    requires n < Pow256(w) && At(data, pos, BeBytes(n, w))
    ensures UnsignedAt(data, pos, w) == Parsed(n, pos + w)
  {
    BeValueOfBytes(n, w);
  }

  lemma SignedAtBytes(data: seq<byte>, pos: nat, i: int, w: nat)
    requires w > 0 && -(Pow256(w) / 2) <= i < Pow256(w) / 2
    requires At(data, pos, BeBytes(ToTwos(i, w), w))
    ensures SignedAt(data, pos, w) == Parsed(i, pos + w)
  {
    BeValueOfBytes(ToTwos(i, w), w);
    TwosRoundTrip(i, w);
  }

  /** The cursor: the input and the position of the next byte. */
  class Reader {
    const data: seq<byte>
    var pos: nat

    ghost predicate Valid()
      reads this
    {
      pos <= |data|
    }

    /** `Reader::create`. */
    constructor Create(input: seq<byte>)
      ensures Valid() && data == input && pos == 0
    {
      data := input;
      pos := 0;
    }

    /** `remaining`. */
    function Remaining(): (n: nat)
      reads this
      requires Valid()
      ensures pos + n == |data|
    {
      |data| - pos
    }

    /** `read_one`: on failure the cursor stays put. */
    method ReadOne() returns (r: Result<byte>)
      requires Valid()
      modifies this
      ensures Valid()
      ensures Outcome(r, pos) == OneAt(data, old(pos))
      ensures r.Err? ==> pos == old(pos)
    {
      if Remaining() == 0 {
        return Err(UnexpectedEnd(1, 0));
      }
      pos := pos + 1;
      r := Ok(data[pos - 1]);
    }

    /** `read_many`: on failure the cursor stays put. */
    method ReadMany(n: nat) returns (r: Result<seq<byte>>)
      requires Valid()
      modifies this
      ensures Valid()
      ensures Outcome(r, pos) == ManyAt(data, old(pos), n)
      ensures r.Err? ==> pos == old(pos)
    {
      if Remaining() < n {
        return Err(UnexpectedEnd(n, |data|));
      }
      pos := pos + n;
      r := Ok(data[pos - n..pos]);
    }

    /** `peek_one`: the byte `read_one` would return, without moving. */
    method PeekOne() returns (r: Result<byte>)
      requires Valid()
      ensures r == Returned(OneAt(data, pos))
    {
      if Remaining() == 0 {
        return Err(UnexpectedEnd(1, 0));
      }
      r := Ok(data[pos]);
    }

    /** `peek_many`: the bytes `read_many` would return, without moving. */
    method PeekMany(n: nat) returns (r: Result<seq<byte>>)
      requires Valid()
      ensures r == Returned(ManyAt(data, pos, n))
    {
      if Remaining() < n {
        return Err(UnexpectedEnd(n, |data|));
      }
      r := Ok(data[pos..pos + n]);
    }

    /** `read_i8`: `read_one` reinterpreted as two's complement. */
    method ReadI8() returns (r: Result<int>)
      requires Valid()
      modifies this
      ensures Valid()
      ensures Outcome(r, pos) == I8At(data, old(pos))
    {
      var b := ReadOne();
      match b
      case Err(e) => return Err(e);
      case Ok(x) => return Ok(FromTwos(x, 1));
    }

    /** `read_u16`, `read_u32`, `read_u64`, `read_u128`, and the raw bits of
        `read_f32` and `read_f64`: `read_many(w)` read big-endian. (`read_u8` is
        `read_one` itself.) */
    method ReadUnsigned(w: nat) returns (r: Result<nat>)
      requires Valid()
      modifies this
      ensures Valid()
      ensures Outcome(r, pos) == UnsignedAt(data, old(pos), w)
    {
      var b := ReadMany(w);
      match b
      case Err(e) => return Err(e);
      case Ok(bytes) => return Ok(BeValue(bytes));
    }

    /** `read_i16` ... `read_i128`. */
    method ReadSigned(w: nat) returns (r: Result<int>)
      requires Valid() && w > 0
      modifies this
      ensures Valid()
      ensures Outcome(r, pos) == SignedAt(data, old(pos), w)
    {
      var b := ReadMany(w);
      match b
      case Err(e) => return Err(e);
      case Ok(bytes) => return Ok(FromTwos(BeValue(bytes), w));
    }
  }
}
