/** What the nibble-prefixed decoder does to what the value encoders produce, and
    the behaviour of its edge cases, stated over the functions of NibbleDecodeSpec. */
module NibbleDecodeLemmas {
  import opened Bytes
  import opened Wrappers
  import opened NibbleIdent
  import opened NibbleValues
  import opened NibbleReader
  import opened NibbleEncode
  import opened NibbleDecodeSpec
  import Utf8

  // ---------------------------------------------------------------------------
  // Variable lengths

  /** The continuation bytes add up to their big-endian value shifted
      s - |xs| + 1 bytes left. */
  lemma {:induction false} ShiftedValue(xs: seq<byte>, s: nat)
    requires |xs| <= s
    ensures Shifted(xs, s) == Pow256(s - |xs| + 1) * BeValue(xs)
  {
    if xs != [] {
      var ys, x := xs[..|xs| - 1], xs[|xs| - 1];
      ShiftedValue(ys, s);
      assert xs == ys + [x];
      BeValueSnoc(ys, x);
      var k := s - |ys|;
      var p := Pow256(k);
      assert Pow256(k + 1) == 256 * p;
      ShiftLeft(p, BeValue(ys), x);
    }
  }

  lemma ShiftLeft(p: int, b: int, x: int)
    ensures (256 * p) * b + x * p == p * (b * 256 + x)
  {
  }

  /** What `read_var_length` returns for the encoding of size: the masked length m
      plus 255 times its low class bytes, because every continuation byte lands one
      byte too high. */
  function DecodedLength(size: u32): nat
  {
    var m := size % LengthMask;
    m + 255 * ClassResidue(m, SizeClass(m))
  }

  lemma VarLengthDecodeEncode(data: seq<byte>, pos: nat, size: u32)
    requires At(data, pos, EncodeVarLength(size))
    ensures VarLengthAt(data, pos) == Parsed(DecodedLength(size), pos + |EncodeVarLength(size)|)
  {
    VarLengthShape(size);
    VarLengthValue(size);
    var m := size % LengthMask;
    VarLengthDecodeOf(data, pos, EncodeVarLength(size), m, SizeClass(m));
    ClassResidueMod(m, SizeClass(m));
  }

  /** Any code whose class bits say c and whose remaining bits read m. */
  lemma VarLengthDecodeOf(data: seq<byte>, pos: nat, r: seq<byte>, m: nat, c: nat)
    requires At(data, pos, r) && |r| == c + 1 && r[0] / 64 == c
    requires BeValue([r[0] % 64] + r[1..]) == m
    ensures VarLengthAt(data, pos) == Parsed(m + 255 * (m % Pow256(c)), pos + |r|)
  {
    var xs := r[1..];
    assert r == [r[0]] + xs;
    VarLengthParts(data, pos, r[0], xs);
    var hi := r[0] % 64;
    BeValueCons(hi, xs);
    VarLengthSum(m, c, hi, BeValue(xs));
  }

  /** `read_var_length` on a first byte a followed by its a / 64 continuation bytes. */
  lemma VarLengthParts(data: seq<byte>, pos: nat, a: byte, xs: seq<byte>)
    requires At(data, pos, [a] + xs) && |xs| == a / 64
    ensures VarLengthAt(data, pos) == Parsed((a % 64) * Pow256(|xs|) + 256 * BeValue(xs), pos + 1 + |xs|)
  {
    AtSplit(data, pos, [a], xs);
    OneAtByte(data, pos, a);
    ManyAtBytes(data, pos + 1, xs);
    ShiftedValue(xs, |xs|);
    assert Pow256(1) == 256;
  }

  lemma VarLengthSum(m: nat, c: nat, hi: nat, low: nat)
    requires m == hi * Pow256(c) + low && low < Pow256(c)
    ensures hi * Pow256(c) + 256 * low == m + 255 * (m % Pow256(c))
  {
    assert m == Pow256(c) * hi + low;
    DivUnique(m, Pow256(c), hi, low);
  }

  /** The decoder gives the encoded length back exactly when the low class bytes of
      the masked length are zero. */
  lemma VarLengthRoundTripIff(size: u32)
    ensures var m := size % LengthMask;
      DecodedLength(size) == m <==> m % Pow256(SizeClass(m)) == 0
  {
    ClassResidueMod(size % LengthMask, SizeClass(size % LengthMask));
  }

  /** One-byte lengths (below 63) come back unchanged. */
  lemma VarLengthSmallRoundTrip(data: seq<byte>, pos: nat, n: u32)
    requires n < 0x3F && At(data, pos, EncodeVarLength(n))
    ensures VarLengthAt(data, pos) == Parsed(n, pos + 1)
  {
    VarLengthDecodeEncode(data, pos, n);
    VarLengthSmall(n);
  }

  /** The encoding [64, 64] of 64 (see NibbleEncode.VarLengthVectors) decodes to
      16384, and [64, 255], the encoding of 255, to 65280; [68, 0], the encoding of
      1024, happens to come back as 1024. */
  lemma VarLengthDecodeVectors()
    ensures VarLengthAt([64, 64], 0) == Parsed(16384, 2)
    ensures VarLengthAt([64, 255], 0) == Parsed(65280, 2)
    ensures VarLengthAt([68, 0], 0) == Parsed(1024, 2)
  {
    VarLengthDecodeTwo(64, 64, 64, 16384);
    VarLengthDecodeTwo(64, 255, 255, 65280);
    VarLengthDecodeTwo(68, 0, 1024, 1024);
  }

  /** A two-byte code [a, b] of class 1 holding m. */
  lemma VarLengthDecodeTwo(a: byte, b: byte, m: nat, n: nat)
    requires a / 64 == 1 && m == (a % 64) * 256 + b && n == m + 255 * (m % 256)
    ensures VarLengthAt([a, b], 0) == Parsed(n, 2)
  {
    var r: seq<byte> := [a, b];
    assert r[1..] == [b];
    var hi: seq<byte> := [a % 64];
    assert BeValue(hi) == a % 64 by { assert hi[..0] == []; }
    BeValueSnoc(hi, b);
    assert [r[0] % 64] + r[1..] == hi + [b];
    assert Pow256(1) == 256;
    VarLengthDecodeOf(r, 0, r, m, 1);
  }

  /** A length is read back as written: below 2^30, with zero low class bytes. */
  predicate LengthRoundTrips(n: nat)
  {
    n < LengthMask && ClassResidue(n, SizeClass(n)) == 0
  }

  lemma LengthRoundTripsAt(data: seq<byte>, pos: nat, n: nat)
    requires LengthRoundTrips(n) && At(data, pos, EncodeVarLength(AsU32(n)))
    ensures AsU32(n) == n
    ensures VarLengthAt(data, pos) == Parsed(n, pos + |EncodeVarLength(AsU32(n))|)
  {
    VarLengthDecodeEncode(data, pos, n);
    DivUnique(n, LengthMask, 0, n);
  }

  // ---------------------------------------------------------------------------
  // Strings

  /** `read_string` inverts `encode_string` when the byte length survives the
      length code, and consumes exactly the encoding. */
  lemma StringRoundTrip(data: seq<byte>, pos: nat, s: string)
    requires LengthRoundTrips(|Utf8.Encode(s)|) && At(data, pos, EncodeString(s))
    ensures StringAt(data, pos) == Parsed(s, pos + |EncodeString(s)|)
  {
    Utf8.DecodeEncode(s);
    StringOfBytes(data, pos, Utf8.Encode(s), s);
  }

  /** A surviving length code and then bytes that spell s. */
  lemma StringOfBytes(data: seq<byte>, pos: nat, bytes: seq<byte>, s: string)
    requires LengthRoundTrips(|bytes|) && At(data, pos, EncodeVarLength(AsU32(|bytes|)) + bytes)
    requires Utf8.Decode(bytes) == Some(s)
    ensures StringAt(data, pos) == Parsed(s, pos + |EncodeVarLength(AsU32(|bytes|))| + |bytes|)
  {
    var p := pos + |EncodeVarLength(AsU32(|bytes|))|;
    LengthThenBytes(data, pos, bytes, p);
    StringAtOf(data, pos, p, bytes, s);
  }

  /** A length code that survives, then that many bytes from p on. */
  lemma LengthThenBytes(data: seq<byte>, pos: nat, bytes: seq<byte>, p: nat)
    requires LengthRoundTrips(|bytes|) && At(data, pos, EncodeVarLength(AsU32(|bytes|)) + bytes)
    requires p == pos + |EncodeVarLength(AsU32(|bytes|))|
    ensures VarLengthAt(data, pos) == Parsed(|bytes|, p) && ManyAt(data, p, |bytes|) == Parsed(bytes, p + |bytes|)
  {
    var len := EncodeVarLength(AsU32(|bytes|));
    AtSplit(data, pos, len, bytes);
    LengthRoundTripsAt(data, pos, |bytes|);
    ManyAtBytes(data, pos + |len|, bytes);
  }

  /** `read_string` from its three steps: the length, the bytes, their UTF-8. */
  lemma StringAtOf(data: seq<byte>, pos: nat, p: nat, bytes: seq<byte>, s: string)
    requires pos <= |data| && VarLengthAt(data, pos) == Parsed(|bytes|, p)
    requires ManyAt(data, p, |bytes|) == Parsed(bytes, p + |bytes|)
    requires Utf8.Decode(bytes) == Some(s)
    ensures StringAt(data, pos) == Parsed(s, p + |bytes|)
  {
  }

  /** Bytes that are not UTF-8 are reported at the offset where they start, just
      after the length. */
  lemma StringBadUtf8(data: seq<byte>, pos: nat)
    requires pos <= |data| && VarLengthAt(data, pos).Parsed?
    requires var p := VarLengthAt(data, pos).next;
      var n := VarLengthAt(data, pos).value;
      p + n <= |data| && Utf8.Decode(data[p..p + n]).None?
    ensures StringAt(data, pos) == Failed(StringDecodeError(VarLengthAt(data, pos).next))
  {
  }

  /** Scanning for the terminator collects exactly the non-zero bytes before it. */
  lemma {:induction false} TermBytesScan(data: seq<byte>, pos: nat, acc: seq<byte>, b: seq<byte>)
    requires 0 !in b && At(data, pos, b + [0])
    ensures TermBytesAt(data, pos, acc) == Parsed(acc + b, pos + |b| + 1)
    decreases |b|
  {
    assert data[pos] == (b + [0])[0];
    if b != [] {
      assert b + [0] == [b[0]] + (b[1..] + [0]);
      AtSplit(data, pos, [b[0]], b[1..] + [0]);
      TermBytesScan(data, pos + 1, acc + [b[0]], b[1..]);
      assert acc + [b[0]] + b[1..] == acc + b;
    } else {
      assert acc + b == acc;
    }
  }

  /** Whatever the scan returns is the run of non-zero bytes up to a zero, which is
      consumed. */
  lemma {:induction false} TermBytesFound(data: seq<byte>, pos: nat, acc: seq<byte>)
    requires pos <= |data| && TermBytesAt(data, pos, acc).Parsed?
    ensures var q := TermBytesAt(data, pos, acc).next;
      data[q - 1] == 0 && 0 !in data[pos..q - 1]
      && TermBytesAt(data, pos, acc).value == acc + data[pos..q - 1]
    decreases |data| - pos
  {
    if data[pos] != 0 {
      TermBytesFound(data, pos + 1, acc + [data[pos]]);
      var q := TermBytesAt(data, pos, acc).next;
      assert data[pos..q - 1] == [data[pos]] + data[pos + 1..q - 1];
    }
  }

  /** Without a zero before the end, the scan fails like `read_one` at the end. */
  lemma {:induction false} TermBytesMissing(data: seq<byte>, pos: nat, acc: seq<byte>)
    requires pos <= |data| && 0 !in data[pos..]
    ensures TermBytesAt(data, pos, acc) == Failed(UnexpectedEnd(1, 0))
    decreases |data| - pos
  {
    if pos < |data| {
      assert data[pos] in data[pos..];
      assert data[pos + 1..] == data[pos..][1..];
      TermBytesMissing(data, pos + 1, acc + [data[pos]]);
    }
  }

  /** `read_term_string` inverts `encode_term_string` for strings without U+0000. */
  lemma TermStringRoundTrip(data: seq<byte>, pos: nat, s: string)
    requires '\0' !in s && At(data, pos, EncodeTermString(s))
    ensures TermStringAt(data, pos) == Parsed(s, pos + |Utf8.Encode(s)| + 1)
  {
    Utf8.EncodeHasNul(s);
    TermBytesScan(data, pos, [], Utf8.Encode(s));
    assert [] + Utf8.Encode(s) == Utf8.Encode(s);
    Utf8.DecodeEncode(s);
  }

  // ---------------------------------------------------------------------------
  // Values

  /** The values whose body `decode_value` reads back as written: a Char other than
      U+0000, and a String or Bytes whose length survives the length code. */
  predicate Survives(v: NibbleValues.Value)
  {
    match v
    case String(s) => LengthRoundTrips(|Utf8.Encode(s)|)
    case Char(c) => c != '\0'
    case Bytes(b) => LengthRoundTrips(|b|)
    case _ => true
  }

  lemma OneByteBody(n: nat)
    requires n < 256
    ensures Pow256(1) == 256 && BeBytes(n, 1) == [n]
  {
    assert Pow256(1) == 256;
  }

  /** Decoding `body(v)` with `ident(v)` gives back v and consumes exactly the body. */
  lemma ValueRoundTrip(data: seq<byte>, pos: nat, v: NibbleValues.Value)
    requires Survives(v) && At(data, pos, Body(v))
    ensures ValueAt(IdentOf(v), data, pos) == Parsed(v, pos + |Body(v)|)
  {
    if v.String? {
      StringRoundTrip(data, pos, v.s);
    } else if v.Char? {
      CharFirst(data, pos, [v.c]);
    } else if v.Bytes? {
      BytesRoundTrip(data, pos, v.bytes);
    } else if v.Boolean? || v.Unsigned8? || v.Signed8? {
      ByteValueRoundTrip(data, pos, v);
    } else if v.Signed16? || v.Signed32? || v.Signed64? || v.Signed128? {
      SignedValueRoundTrip(data, pos, v);
    } else {
      UnsignedValueRoundTrip(data, pos, v);
    }
  }

  /** The one-byte values. */
  lemma ByteValueRoundTrip(data: seq<byte>, pos: nat, v: NibbleValues.Value)
    requires v.Boolean? || v.Unsigned8? || v.Signed8?
    requires At(data, pos, Body(v))
    ensures ValueAt(IdentOf(v), data, pos) == Parsed(v, pos + |Body(v)|)
  {
    match v
    case Boolean(b) => OneAtByte(data, pos, if b then 1 else 0);
    case Unsigned8(n) => OneByteBody(n); OneAtByte(data, pos, n);
    case Signed8(n) =>
      assert Pow256(1) == 256;
      OneByteBody(ToTwos(n, 1));
      OneAtByte(data, pos, ToTwos(n, 1));
      TwosRoundTrip(n, 1);
  }

  /** The wider two's complement values. */
  lemma SignedValueRoundTrip(data: seq<byte>, pos: nat, v: NibbleValues.Value)
    requires v.Signed16? || v.Signed32? || v.Signed64? || v.Signed128?
    requires At(data, pos, Body(v))
    ensures ValueAt(IdentOf(v), data, pos) == Parsed(v, pos + |Body(v)|)
  {
    Pow256Widths();
    match v
    case Signed16(n) => SignedAtBytes(data, pos, n, 2);
    case Signed32(n) => SignedAtBytes(data, pos, n, 4);
    case Signed64(n) => SignedAtBytes(data, pos, n, 8);
    case Signed128(n) => SignedAtBytes(data, pos, n, 16);
  }

  /** The wider unsigned values and the float bit patterns. */
  lemma UnsignedValueRoundTrip(data: seq<byte>, pos: nat, v: NibbleValues.Value)
    requires v.Unsigned16? || v.Unsigned32? || v.Unsigned64? || v.Unsigned128? || v.Float32? || v.Float64?
    requires At(data, pos, Body(v))
    ensures ValueAt(IdentOf(v), data, pos) == Parsed(v, pos + |Body(v)|)
  {
    Pow256Widths();
    match v
    case Unsigned16(n) => UnsignedAtBytes(data, pos, n, 2);
    case Unsigned32(n) => UnsignedAtBytes(data, pos, n, 4);
    case Unsigned64(n) => UnsignedAtBytes(data, pos, n, 8);
    case Unsigned128(n) => UnsignedAtBytes(data, pos, n, 16);
    case Float32(n) => UnsignedAtBytes(data, pos, n, 4);
    case Float64(n) => UnsignedAtBytes(data, pos, n, 8);
  }

  lemma BytesRoundTrip(data: seq<byte>, pos: nat, b: seq<byte>)
    requires LengthRoundTrips(|b|) && At(data, pos, Body(Value.Bytes(b)))
    ensures ValueAt(ValueIdent.Bytes, data, pos) == Parsed(Value.Bytes(b), pos + |Body(Value.Bytes(b))|)
  {
    var len := EncodeVarLength(AsU32(|b|));
    assert Body(Value.Bytes(b)) == len + b;
    LengthThenBytes(data, pos, b, pos + |len|);
  }

  /** A Char is the first code point of the terminated string; the rest is dropped. */
  lemma CharFirst(data: seq<byte>, pos: nat, s: string)
    requires |s| > 0 && '\0' !in s && At(data, pos, EncodeTermString(s))
    ensures ValueAt(ValueIdent.Char, data, pos) == Parsed(Value.Char(s[0]), pos + |EncodeTermString(s)|)
  {
    TermStringRoundTrip(data, pos, s);
  }

  /** U+0000 encodes as the terminator itself, so it reads back as an empty string
      and fails with BadCharLength after the first zero. */
  lemma CharNul(data: seq<byte>, pos: nat)
    requires At(data, pos, [0, 0])
    ensures Body(Value.Char('\0')) == [0, 0]
    ensures ValueAt(ValueIdent.Char, data, pos) == Failed(BadCharLength(pos + 1))
  {
    CharNulBody();
    AtSplit(data, pos, [0], [0]);
    TermBytesScan(data, pos, [], []);
    assert TermStringAt(data, pos) == Parsed([], pos + 1) by {
      assert Utf8.Decode([]) == Some([]);
    }
  }

  lemma CharNulBody()
    ensures Body(Value.Char('\0')) == [0, 0]
  {
    Utf8.AsciiBytes(['\0'], [0]);
    assert EncodeTermString(['\0']) == [0] + [0];
  }

  /** A Boolean reads one byte and is true exactly when that byte is 0x01. */
  lemma BooleanByte(data: seq<byte>, pos: nat)
    requires pos <= |data|
    ensures ValueAt(ValueIdent.Boolean, data, pos).Parsed? <==> pos < |data|
    ensures pos < |data| ==>
      ValueAt(ValueIdent.Boolean, data, pos) == Parsed(Value.Boolean(data[pos] == 1), pos + 1)
  {
  }

  /** Every fixed-width tag consumes exactly its width, or fails for lack of bytes. */
  lemma FixedWidthConsumed(i: ValueIdent, data: seq<byte>, pos: nat)
    requires IsFixed(i) && pos <= |data|
    ensures ValueAt(i, data, pos).Parsed? <==> pos + FixedWidth(i) <= |data|
    ensures ValueAt(i, data, pos).Parsed? ==> ValueAt(i, data, pos).next == pos + FixedWidth(i)
  {
  }

  /** The NIL tag has no body: decoding with it fails at once. */
  lemma NilValueFails(data: seq<byte>, pos: nat)
    requires pos <= |data|
    ensures ValueAt(NIL, data, pos) == Failed(LogicalDecodeError(pos))
  {
  }

  /** `decode_value` only reports running out of input, bad UTF-8, an empty Char or
      the NIL tag. */
  lemma ValueErrors(i: ValueIdent, data: seq<byte>, pos: nat)
    requires pos <= |data| && ValueAt(i, data, pos).Failed?
    ensures var e := ValueAt(i, data, pos).error;
      e.UnexpectedEnd? || e.StringDecodeError? || e.BadCharLength? || e.LogicalDecodeError?
  {
    if i == ValueIdent.Char {
      TermBytesFails(data, pos, []);
    }
  }

  /** The terminator scan can only fail by reaching the end. */
  lemma {:induction false} TermBytesFails(data: seq<byte>, pos: nat, acc: seq<byte>)
    requires pos <= |data|
    ensures TermBytesAt(data, pos, acc).Failed? ==> TermBytesAt(data, pos, acc).error == UnexpectedEnd(1, 0)
    decreases |data| - pos
  {
    if pos < |data| && data[pos] != 0 {
      TermBytesFails(data, pos + 1, acc + [data[pos]]);
    }
  }
}
