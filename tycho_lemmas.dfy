/** What the byte-prefixed reader makes of what the writer produces, and its edge
    cases, stated over the functions of TychoFormat and TychoReadSpec: the LEB128
    lengths, strings, characters, numbers and values. Elements are in
    TychoElementLemmas. */
module TychoLemmas {
  import opened Bytes
  import opened Wrappers
  import opened TychoErrors
  import I = TychoIdent
  import opened TychoValues
  import opened TychoInput
  import opened TychoReadSpec
  import F = TychoFormat
  import Utf8

  // ---------------------------------------------------------------------------
  // Lengths

  const U64Limit: nat := 0x1_0000_0000_0000_0000

  lemma Pow128Nine()
    ensures F.Pow128(9) == 0x8000_0000_0000_0000 && F.Pow128(10) == 128 * 0x8000_0000_0000_0000
  {
    assert F.Pow128(3) == 0x20_0000;
    assert F.Pow128(6) == 0x400_0000_0000;
  }

  /** m written as a LEB128 code and read as the groups from the count-th on adds
      m * 128^count to the accumulator, as long as that fits in 64 bits. */
  lemma {:induction false} LengthAtLeb128(data: seq<byte>, pos: nat, count: nat, acc: nat, m: nat)
    requires count < 10 && At(data, pos, F.Leb128(m))
    requires m * F.Pow128(count) < U64Limit
    ensures LengthAt(data, pos, count, acc) == Parsed(acc + m * F.Pow128(count), pos + |F.Leb128(m)|)
    decreases m
  {
    Pow128Nine();
    var p := F.Pow128(count);
    if m < 0x80 {
      ByteAtByte(data, pos, m);
      if count == 9 {
        assert m < 2;
      }
    } else {
      var b: byte := m % 0x80 + 0x80;
      var rest := F.Leb128(m / 0x80);
      assert F.Leb128(m) == [b] + rest;
      AtSplit(data, pos, [b], rest);
      ByteAtByte(data, pos, b);
      if count == 9 {
        MulMono(p, 0x80, m);
        assert false;
      }
      GroupSplit(m, p);
      assert F.Pow128(count + 1) == 128 * p;
      LengthAtLeb128(data, pos + 1, count + 1, acc + Group(b, count), m / 0x80);
    }
  }

  lemma GroupSplit(m: nat, p: nat)
    ensures m * p == (m % 0x80) * p + (m / 0x80) * (128 * p)
    ensures (m / 0x80) * (128 * p) <= m * p
  {
    assert m == m % 0x80 + 0x80 * (m / 0x80);
    calc {
      m * p;
      (m % 0x80 + 0x80 * (m / 0x80)) * p;
      (m % 0x80) * p + (0x80 * (m / 0x80)) * p;
    }
  }

  /** `read_length(write_length(n) + rest) == n`, consuming exactly the code, for every
      length a u64 holds. */
  lemma LengthRoundTrip(data: seq<byte>, pos: nat, n: nat)
    requires n < U64Limit && At(data, pos, F.Leb128(n))
    ensures LengthAt(data, pos, 0, 0) == Parsed(n, pos + |F.Leb128(n)|)
  {
    LengthAtLeb128(data, pos, 0, 0, n);
  }

  /** `write_buffer` followed by the reader's length-then-bytes gives the bytes back. */
  lemma FramedRoundTrip(data: seq<byte>, pos: nat, b: seq<byte>)
    requires |b| < U64Limit && At(data, pos, F.Framed(b))
    ensures FramedAt(data, pos) == Parsed(b, pos + |F.Framed(b)|)
  {
    AtSplit(data, pos, F.Leb128(|b|), b);
    LengthRoundTrip(data, pos, |b|);
  }

  /** Whatever the bytes, a length that is read fits in a u64: the groups occupy
      disjoint bits below bit 64. */
  lemma {:induction false} LengthBound(data: seq<byte>, pos: nat, count: nat, acc: nat)
    requires pos <= |data| && count <= 10
    requires count < 10 ==> acc < F.Pow128(count)
    ensures LengthAt(data, pos, count, acc).Parsed? ==> LengthAt(data, pos, count, acc).value < U64Limit
    decreases |data| - pos
  {
    Pow128Nine();
    if pos < |data| && count < 10 {
      var b := data[pos];
      var p := F.Pow128(count);
      if count < 9 {
        MulMono(p, b % 0x80, 0x7F);
        assert acc + Group(b, count) < F.Pow128(count + 1);
      }
      if b >= 0x80 {
        LengthBound(data, pos + 1, count + 1, acc + Group(b, count));
      }
    }
  }

  /** A length read from the start of any input is a u64. */
  lemma LengthFits(data: seq<byte>, pos: nat)
    requires pos <= |data|
    ensures LengthAt(data, pos, 0, 0).Parsed? ==> LengthAt(data, pos, 0, 0).value < U64Limit
  {
    LengthBound(data, pos, 0, 0);
  }

  /** Input that ends while every byte still has its high bit set is an Io error. */
  lemma {:induction false} LengthEarlyEnd(data: seq<byte>, pos: nat, count: nat, acc: nat)
    requires pos <= |data| && count + (|data| - pos) <= 10
    requires forall i :: pos <= i < |data| ==> data[i] >= 0x80
    ensures LengthAt(data, pos, count, acc) == Failed(Io)
    decreases |data| - pos
  {
    if pos < |data| {
      LengthEarlyEnd(data, pos + 1, count + 1, acc + Group(data[pos], count));
    }
  }

  /** After ten bytes with the high bit set the shift of the eleventh has left the
      u64, and the read panics whatever that byte is. */
  lemma {:induction false} LengthOverflow(data: seq<byte>, pos: nat, count: nat, acc: nat)
    requires count <= 10 && pos + (10 - count) < |data|
    requires forall i :: pos <= i < pos + (10 - count) ==> data[i] >= 0x80
    ensures LengthAt(data, pos, count, acc) == Failed(ShiftOverflowPanic)
    decreases 10 - count
  {
    if count < 10 {
      LengthOverflow(data, pos + 1, count + 1, acc + Group(data[pos], count));
    }
  }

  /** The codes of src/tests/length.rs. */
  lemma Leb128Vectors()
    ensures F.Leb128(0) == [0] && F.Leb128(1) == [1] && F.Leb128(2) == [2]
    ensures F.Leb128(127) == [127]
    ensures F.Leb128(128) == [128, 1]
    ensures F.Leb128(255) == [255, 1]
    ensures F.Leb128(2097151) == [255, 255, 127]
    ensures F.Leb128(2147483647) == [255, 255, 255, 255, 7]
  {
  }

  /** The same codes read back, and the non-canonical [0x80, 0x00] read as 0. */
  lemma LengthReadVectors()
    ensures LengthAt([0], 0, 0, 0) == Parsed(0, 1)
    ensures LengthAt([127], 0, 0, 0) == Parsed(127, 1)
    ensures LengthAt([128, 1], 0, 0, 0) == Parsed(128, 2)
    ensures LengthAt([255, 1], 0, 0, 0) == Parsed(255, 2)
    ensures LengthAt([255, 255, 127], 0, 0, 0) == Parsed(2097151, 3)
    ensures LengthAt([255, 255, 255, 255, 7], 0, 0, 0) == Parsed(2147483647, 5)
    ensures LengthAt([0x80, 0x00], 0, 0, 0) == Parsed(0, 2)
  {
    Leb128Vectors();
    LengthRoundTrip([0], 0, 0);
    LengthRoundTrip([127], 0, 127);
    LengthRoundTrip([128, 1], 0, 128);
    LengthRoundTrip([255, 1], 0, 255);
    LengthRoundTrip([255, 255, 127], 0, 2097151);
    LengthRoundTrip([255, 255, 255, 255, 7], 0, 2147483647);
    ByteAtByte([0x80, 0x00], 0, 0x80);
    ByteAtByte([0x80, 0x00], 1, 0x00);
  }

  // ---------------------------------------------------------------------------
  // Strings and characters

  /** `read_string(write_string(s) + rest) == s`, leaving rest. */
  lemma StringRoundTrip(data: seq<byte>, pos: nat, s: string)
    requires |Utf8.Encode(s)| < U64Limit && At(data, pos, F.StringBytes(s))
    ensures StringAt(data, pos) == Parsed(s, pos + |F.StringBytes(s)|)
  {
    FramedRoundTrip(data, pos, Utf8.Encode(s));
    Utf8.DecodeEncode(s);
  }

  /** Framed bytes that are not UTF-8 are a StringError. */
  lemma StringInvalid(data: seq<byte>, pos: nat, b: seq<byte>)
    requires |b| < U64Limit && At(data, pos, F.Framed(b)) && Utf8.Decode(b).None?
    ensures StringAt(data, pos) == Failed(StringError)
  {
    FramedRoundTrip(data, pos, b);
  }

  /** The loop of `read_tstring` collects the bytes before the first zero and consumes
      the zero. */
  lemma {:induction false} TBytesUntilZero(data: seq<byte>, pos: nat, acc: seq<byte>, b: seq<byte>)
    requires At(data, pos, b + [0]) && 0 !in b
    ensures TBytesAt(data, pos, acc) == Parsed(acc + b, pos + |b| + 1)
    decreases |b|
  {
    AtSplit(data, pos, b, [0]);
    if b == [] {
      ByteAtByte(data, pos, 0);
      assert acc + b == acc;
    } else {
      assert b + [0] == [b[0]] + (b[1..] + [0]);
      AtSplit(data, pos, [b[0]], b[1..] + [0]);
      ByteAtByte(data, pos, b[0]);
      TBytesUntilZero(data, pos + 1, acc + [b[0]], b[1..]);
      assert acc + [b[0]] + b[1..] == acc + b;
    }
  }

  /** Without a zero before the end of the input the read is an Io error. */
  lemma {:induction false} TBytesUnterminated(data: seq<byte>, pos: nat, acc: seq<byte>)
    requires pos <= |data| && forall i :: pos <= i < |data| ==> data[i] != 0
    ensures TBytesAt(data, pos, acc) == Failed(Io)
    decreases |data| - pos
  {
    if pos < |data| {
      TBytesUnterminated(data, pos + 1, acc + [data[pos]]);
    }
  }

  /** A name without NUL characters comes back from `read_tstring(write_tstring(s))`. */
  lemma TStringRoundTrip(data: seq<byte>, pos: nat, s: string)
    requires '\0' !in s && At(data, pos, F.TStringBytes(s))
    ensures TStringAt(data, pos) == Parsed(s, pos + |F.TStringBytes(s)|)
  {
    Utf8.EncodeHasNul(s);
    TBytesUntilZero(data, pos, [], Utf8.Encode(s));
    assert [] + Utf8.Encode(s) == Utf8.Encode(s);
    Utf8.DecodeEncode(s);
  }

  /** `read_char` of an ASCII character consumes its one byte. */
  lemma CharAscii(data: seq<byte>, pos: nat, c: char)
    requires c as int < 0x80 && At(data, pos, F.CharBytes(c))
    ensures CharAt(data, pos) == Parsed(c, pos + 1)
  {
    var b: byte := c as int;
    assert F.CharBytes(c) == [b];
    ByteAtByte(data, pos, b);
    assert Utf8.Decode([b]) == Some([c]) by {
      Utf8.DecodeEncode([c]);
      Utf8.EncodeCons(c, []);
      assert [c] + [] == [c];
    }
  }

  /** The number of bytes `read_char` reads after the lead byte of a multi-byte
      character is the character's whole width, one more than its continuation
      bytes. */
  lemma ExtraCountOfLead(c: char)
    requires c as int >= 0x80
    ensures F.CharBytes(c)[0] >= 0x80 && ExtraCount(F.CharBytes(c)[0]) == Utf8.Width(c)
  {
  }

  /** The written form of a multi-byte character at the end of the input is an Io
      error: the reader wants one byte more than there is. */
  lemma CharOverReadAtEnd(data: seq<byte>, pos: nat, c: char)
    requires c as int >= 0x80 && At(data, pos, F.CharBytes(c)) && |data| == pos + |F.CharBytes(c)|
    ensures CharAt(data, pos) == Failed(Io)
  {
    ExtraCountOfLead(c);
    ByteAtByte(data, pos, F.CharBytes(c)[0]);
  }

  /** Followed by anything, it is a StringError: the bytes read start with a
      continuation byte. */
  lemma CharOverReadInside(data: seq<byte>, pos: nat, c: char)
    requires c as int >= 0x80 && At(data, pos, F.CharBytes(c)) && |data| > pos + |F.CharBytes(c)|
    ensures CharAt(data, pos) == Failed(StringError)
  {
    var r := F.CharBytes(c);
    ExtraCountOfLead(c);
    ByteAtByte(data, pos, r[0]);
    var more := data[pos + 1..pos + 1 + |r|];
    assert more[0] == r[1];
    assert Utf8.DecodeFirst(more).None?;
  }

  /** The body of the '🚀' test vector of src/tests/encode.rs does not read back. */
  lemma RocketBody()
    ensures CharAt([240, 159, 154, 128], 0) == Failed(Io)
  {
    ByteAtByte([240, 159, 154, 128], 0, 240);
  }

  /** Lead bytes 0xFE and 0xFF are followed by no bytes; the empty buffer decodes to
      the empty string and taking its first character panics. */
  lemma CharHighLead(data: seq<byte>, pos: nat)
    requires pos < |data| && data[pos] >= 0xFE
    ensures CharAt(data, pos) == Failed(EmptyCharPanic)
  {
    assert data[pos + 1..pos + 1] == [];
  }

  // ---------------------------------------------------------------------------
  // Numbers and values

  /** What a written number reads back as: itself, except that a bit comes back
      inverted, since the writer emits 0x01 for true and the reader takes 0x00 as
      true. */
  function ReadBack(n: Number): (m: Number)
    ensures NumberIdentOf(m) == NumberIdentOf(n)
    ensures m == n <==> !n.Bit?
    ensures n.Bit? ==> m.bit == !n.bit
  {
    if n.Bit? then Bit(!n.bit) else n
  }

  lemma UnsignedRoundTrip(data: seq<byte>, pos: nat, x: nat, w: nat)
    requires x < Pow256(w) && At(data, pos, BeBytes(x, w))
    ensures UnsignedAt(data, pos, w) == Parsed(x, pos + w)
  {
    BeValueOfBytes(x, w);
  }

  lemma SignedRoundTrip(data: seq<byte>, pos: nat, x: int, w: nat)
    requires w > 0 && -(Pow256(w) / 2) <= x < Pow256(w) / 2
    requires At(data, pos, BeBytes(ToTwos(x, w), w))
    ensures SignedAt(data, pos, w) == Parsed(x, pos + w)
  {
    BeValueOfBytes(ToTwos(x, w), w);
    TwosRoundTrip(x, w);
  }

  /** `read_number(ident(n), write_number(n) + rest)` consumes the number's width and
      gives n back, a bit inverted. */
  lemma NumberRoundTrip(data: seq<byte>, pos: nat, n: Number)
    requires At(data, pos, F.NumberBytes(n))
    ensures NumberAt(NumberIdentOf(n), data, pos) == Parsed(ReadBack(n), pos + |F.NumberBytes(n)|)
  {
    if n.Signed8? || n.Signed16? || n.Signed32? || n.Signed64? || n.Signed128? {
      SignedNumberRoundTrip(data, pos, n);
    } else {
      UnsignedNumberRoundTrip(data, pos, n);
    }
  }

  /** NumberRoundTrip for the bit, the unsigned integers and the floats' bit patterns. */
  lemma UnsignedNumberRoundTrip(data: seq<byte>, pos: nat, n: Number)
    requires !(n.Signed8? || n.Signed16? || n.Signed32? || n.Signed64? || n.Signed128?)
    requires At(data, pos, F.NumberBytes(n))
    ensures NumberAt(NumberIdentOf(n), data, pos) == Parsed(ReadBack(n), pos + |F.NumberBytes(n)|)
  {
    Pow256Widths();
    match n
    case Bit(b) => ByteAtByte(data, pos, if b then 0x01 else 0x00);
    case Unsigned8(x) => UnsignedRoundTrip(data, pos, x, 1);
    case Unsigned16(x) => UnsignedRoundTrip(data, pos, x, 2);
    case Unsigned32(x) => UnsignedRoundTrip(data, pos, x, 4);
    case Unsigned64(x) => UnsignedRoundTrip(data, pos, x, 8);
    case Unsigned128(x) => UnsignedRoundTrip(data, pos, x, 16);
    case Float32(x) => UnsignedRoundTrip(data, pos, x, 4);
    case Float64(x) => UnsignedRoundTrip(data, pos, x, 8);
  }

  /** NumberRoundTrip for the two's-complement integers. */
  lemma SignedNumberRoundTrip(data: seq<byte>, pos: nat, n: Number)
    requires n.Signed8? || n.Signed16? || n.Signed32? || n.Signed64? || n.Signed128?
    requires At(data, pos, F.NumberBytes(n))
    ensures NumberAt(NumberIdentOf(n), data, pos) == Parsed(ReadBack(n), pos + |F.NumberBytes(n)|)
  {
    Pow256Widths();
    match n
    case Signed8(x) => SignedRoundTrip(data, pos, x, 1);
    case Signed16(x) => SignedRoundTrip(data, pos, x, 2);
    case Signed32(x) => SignedRoundTrip(data, pos, x, 4);
    case Signed64(x) => SignedRoundTrip(data, pos, x, 8);
    case Signed128(x) => SignedRoundTrip(data, pos, x, 16);
  }

  /** A premature end of the input is an Io error for every number type. */
  lemma NumberEarlyEnd(n: I.NumberIdent, data: seq<byte>, pos: nat)
    requires pos <= |data| && |data| - pos < F.NumberWidth(n)
    ensures NumberAt(n, data, pos) == Failed(Io)
  {
  }

  /** `read_value_ident(write_value_ident(t) + rest) == t`; a number ident takes two
      bytes, every other one. */
  lemma ValueIdentRoundTrip(data: seq<byte>, pos: nat, t: I.ValueIdent)
    requires At(data, pos, I.ValueIdentBytes(t))
    ensures ValueIdentAt(data, pos) == Parsed(t, pos + |I.ValueIdentBytes(t)|)
  {
    var r := I.ValueIdentBytes(t);
    ByteAtByte(data, pos, r[0]);
    if t.Number? {
      assert data[pos + 1..pos + 2] == [r[1]];
      I.ParseNumberCode(t.number);
    } else {
      match I.ParseValueTag(r[0])
      case Some(u) => I.ValueIdentBytesInjective(t, u);
    }
  }

  /** A first byte of 7 or more is not a value ident. */
  lemma ValueIdentInvalid(data: seq<byte>, pos: nat)
    requires pos < |data| && data[pos] >= 7
    ensures ValueIdentAt(data, pos) == Failed(InvalidIdent(data[pos], "value ident"))
  {
  }

  /** A number sub-ident outside the thirteen codes is an invalid number ident. */
  lemma NumberIdentInvalid(data: seq<byte>, pos: nat)
    requires pos < |data|
    requires data[pos] !in {0x00, 0x01, 0x02, 0x03, 0x04, 0x05, 0x11, 0x12, 0x13, 0x14, 0x15, 0x23, 0x24}
    ensures NumberIdentAt(data, pos) == Failed(InvalidIdent(data[pos], "number ident"))
  {
    I.ParseNumberDomain(data[pos]);
  }

  /** A boolean is true only for the byte 0x01. */
  lemma BooleanBody(data: seq<byte>, pos: nat)
    requires pos < |data|
    ensures ValueAt(I.Boolean, data, pos) == Parsed(Boolean(data[pos] == 0x01), pos + 1)
    ensures data[pos] !in {0x00, 0x01} ==> ValueAt(I.Boolean, data, pos).value == Boolean(false)
  {
  }

  /** The values the reader gives back as they were written: no bits, only ASCII
      characters, and strings and byte strings whose length a u64 holds. */
  predicate ValueReadable(v: Value)
  {
    match v
    case Number(n) => !n.Bit?
    case Char(c) => c as int < 0x80
    case String(s) => |Utf8.Encode(s)| < U64Limit
    case Bytes(b) => |b| < U64Limit
    case _ => true
  }

  /** `read_value(ident(v), write_value(v) + rest) == v`, leaving rest. */
  lemma ValueRoundTrip(data: seq<byte>, pos: nat, v: Value)
    requires ValueReadable(v) && At(data, pos, F.ValueBytes(v))
    ensures ValueAt(ValueIdentOf(v), data, pos) == Parsed(v, pos + |F.ValueBytes(v)|)
  {
    Pow256Widths();
    match v
    case Null =>
    case Boolean(b) => ByteAtByte(data, pos, if b then 0x01 else 0x00);
    case String(s) => StringRoundTrip(data, pos, s);
    case Char(c) => CharAscii(data, pos, c);
    case Number(n) => NumberRoundTrip(data, pos, n);
    case Bytes(b) => FramedRoundTrip(data, pos, b);
    case UUID(u) => UnsignedRoundTrip(data, pos, u, 16);
  }

  /** A bit value reads back with its bit inverted. */
  lemma BitValueInverted(data: seq<byte>, pos: nat, b: bool)
    requires At(data, pos, F.ValueBytes(Number(Bit(b))))
    ensures ValueAt(I.Number(I.Bit), data, pos) == Parsed(Number(Bit(!b)), pos + 1)
  {
    NumberRoundTrip(data, pos, Bit(b));
  }
}
