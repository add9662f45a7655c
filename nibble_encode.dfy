/** Byte-level encoders of the nibble-prefixed format: the helpers of
    src/encode/util.rs, the 2-bit size-class length of src/encode/length.rs, the
    strings of src/encode/string.rs and the value bodies of src/encode/value.rs. */
module NibbleEncode {
  import opened Bytes
  import opened NibbleIdent
  import V = NibbleValues
  import Utf8
  import opened Wrappers

  /** `join_bytes`. */
  function JoinBytes(a: seq<byte>, b: seq<byte>): (r: seq<byte>)
    ensures |r| == |a| + |b| && r[..|a|] == a && r[|a|..] == b
  {
    a + b
  }

  /** `prefix_bytes`. */
  function PrefixBytes(p: byte, b: seq<byte>): (r: seq<byte>)
    ensures |r| == |b| + 1 && r[0] == p && r[1..] == b
  {
    [p] + b
  }

  /** `join_nibs`: the low nibble of a above the low nibble of b, masks written as
      `% 16` and the shift as `* 16`; the sum is at most 0xFF, so it never overflows. */
  function JoinNibs(a: byte, b: byte): (r: byte)
    ensures r / 16 == a % 16 && r % 16 == b % 16
  {
    (a % 16) * 16 + b % 16
  }

  /** `join_idents` for an element tag and a value tag. */
  function JoinIdents(a: ElementIdent, b: ValueIdent): (r: byte)
    ensures r / 16 == ElementCode(a) && r % 16 == ValueCode(b) % 16
  {
    JoinNibs(ElementCode(a), ValueCode(b))
  }

  /** `one_ident`: an element tag with an empty operand. */
  function OneIdent(a: ElementIdent): (r: byte)
    ensures r / 16 == ElementCode(a) && r % 16 == 0
  {
    JoinNibs(ElementCode(a), 0)
  }

  /** The NIL tag only survives as its low nibble 0xD, the String tag. */
  lemma JoinIdentsLosesNil(a: ElementIdent)
    ensures JoinIdents(a, NIL) == JoinIdents(a, ValueIdent.String)
    ensures JoinIdents(a, NIL) % 16 == 0xD
  {
  }

  const LengthMask := 0x4000_0000

  /** The size class of a masked length: strict thresholds, so 63 already needs two bytes. */
  function SizeClass(m: nat): (c: nat)
    ensures c <= 3
  {
    if m < 0x3F then 0 else if m < 0x3FFF then 1 else if m < 0x3F_FFFF then 2 else 3
  }

  /** A masked length fits the six free bits of its class's first byte and the
      class bytes after it. */
  lemma SizeClassFits(m: nat)
    requires m < LengthMask
    ensures m < 64 * Pow256(SizeClass(m))
  {
    Pow256Widths();
    assert Pow256(0) == 1;
  }

  /** The class bytes of m below the first one, m modulo 256^c, for the classes 0 to 3. */
  function ClassResidue(m: nat, c: nat): nat
  {
    if c == 0 then 0 else if c == 1 then m % 0x100 else if c == 2 then m % 0x1_0000 else m % 0x100_0000
  }

  lemma ClassResidueMod(m: nat, c: nat)
    requires c <= 3
    ensures ClassResidue(m, c) == m % Pow256(c)
  {
    Pow256Widths();
    assert Pow256(0) == 1;
  }

  /** `encode_variable_length`: the class in the top two bits of the first byte, the
      masked length in the remaining 30, big-endian, in class+1 bytes. Those bytes
      are the low class+1 bytes of `to_be_bytes` (see VarLengthToBeBytes). The OR
      into byte 0 is an addition, because that byte is below 64 (see VarLengthShape). */
  function EncodeVarLength(size: u32): (r: seq<byte>)
    ensures 1 <= |r| <= 4
  {
    var m := size % LengthMask;
    var c := SizeClass(m);
    FirstByteBound(m, c);
    var bytes := BeBytes(m, c + 1);
    [bytes[0] + c * 64] + bytes[1..]
  }

  /** The code is the slice `to_be_bytes()[3 - class..4]` of the masked length, with
      the class ORed into its first byte. */
  lemma VarLengthToBeBytes(size: u32)
    ensures var m := size % LengthMask;
      var c := SizeClass(m);
      var r := EncodeVarLength(size);
      |r| == c + 1 && r[0] == BeBytes(m, 4)[3 - c] + 64 * c && r[1..] == BeBytes(m, 4)[4 - c..]
  {
    var m := size % LengthMask;
    var c := SizeClass(m);
    FirstByteBound(m, c);
    BeBytesTail(m, 4, c + 1);
    assert BeBytes(m, 4)[3 - c..][1..] == BeBytes(m, 4)[4 - c..];
  }

  lemma {:induction false} BeBytesTail(n: nat, w: nat, k: nat)
    requires k <= w && n < Pow256(k)
    ensures Pow256(k) <= Pow256(w)
    ensures BeBytes(n, w)[w - k..] == BeBytes(n, k)
  {
    if w > k {
      BeBytesTail(n, w - 1, k);
      assert BeBytes(n, w) == BeBytes(n / 256, w - 1) + [n % 256];
      if k > 0 {
        BeBytesTail(n / 256, w - 1, k - 1);
      } else {
        assert BeBytes(n, w)[w - k..] == [];
      }
      Pow256Mono(k, w);
    }
  }

  lemma {:induction false} Pow256Mono(k: nat, w: nat)
    requires k <= w
    ensures Pow256(k) <= Pow256(w)
    decreases w
  {
    if k < w { Pow256Mono(k, w - 1); }
  }

  /** A leading byte b of a big-endian number below 64 * 256^|rest| is below 64. */
  lemma HeadBound(b: byte, rest: seq<byte>)
    requires BeValue([b] + rest) < 64 * Pow256(|rest|)
    ensures b < 64
  {
    BeValueCons(b, rest);
    if b >= 64 {
      MulAtLeast(b, Pow256(|rest|));
    }
  }

  lemma MulAtLeast(b: int, p: int)
    requires b >= 64 && p > 0
    ensures b * p >= 64 * p
  {
  }

  /** The class sits in the top two bits of the first byte, and the encoding has
      class + 1 bytes. */
  lemma VarLengthShape(size: u32)
    ensures var c := SizeClass(size % LengthMask);
      var r := EncodeVarLength(size);
      |r| == c + 1 && r[0] / 64 == c
  {
    var m := size % LengthMask;
    FirstByteBound(m, SizeClass(m));
  }

  /** The first of the class + 1 bytes of a masked length leaves room for the class bits. */
  lemma FirstByteBound(m: nat, c: nat)
    requires m < LengthMask && c == SizeClass(m)
    ensures m < Pow256(c + 1)
    ensures BeBytes(m, c + 1)[0] < 64
  {
    SizeClassFits(m);
    assert Pow256(c + 1) == 256 * Pow256(c);
    var bytes := BeBytes(m, c + 1);
    BeValueOfBytes(m, c + 1);
    assert bytes == [bytes[0]] + bytes[1..];
    HeadBound(bytes[0], bytes[1..]);
  }

  /** Clearing the class bits and reading the bytes big-endian gives back the masked length. */
  lemma VarLengthValue(size: u32)
    ensures var r := EncodeVarLength(size);
      BeValue([r[0] % 64] + r[1..]) == size % LengthMask
  {
    var m := size % LengthMask;
    var c := SizeClass(m);
    VarLengthShape(size);
    var bytes := BeBytes(m, c + 1);
    var r := EncodeVarLength(size);
    assert [r[0] % 64] + r[1..] == bytes;
    BeValueOfBytes(m, c + 1);
  }

  /** A length below 63 is its own one-byte encoding. */
  lemma VarLengthSmall(n: u32)
    requires n < 0x3F
    ensures EncodeVarLength(n) == [n]
  {
    DivUnique(n, LengthMask, 0, n);
  }

  /** Lengths that agree below bit 30 encode identically. */
  lemma VarLengthMask(a: u32, b: u32)
    requires a % LengthMask == b % LengthMask
    ensures EncodeVarLength(a) == EncodeVarLength(b)
  {
  }

  /** The test vectors of src/encode/length.rs. */
  lemma VarLengthVectors()
    ensures EncodeVarLength(1) == [1]
    ensures EncodeVarLength(64) == [64, 64]
    ensures EncodeVarLength(255) == [64, 255]
    ensures EncodeVarLength(1024) == [68, 0]
    ensures EncodeVarLength(42069) == [128, 164, 85]
    ensures EncodeVarLength(42069420) == [194, 129, 237, 172]
  {
    VarLengthOfBytes(1, [1], [1]);
    VarLengthOfBytes(64, [0, 64], [64, 64]);
    VarLengthOfBytes(255, [0, 255], [64, 255]);
    VarLengthOfBytes(1024, [4, 0], [68, 0]);
    VarLengthOfBytes(42069, [0, 164, 85], [128, 164, 85]);
    assert BeValue([2, 129, 237, 172]) == 42069420 by {
      var a, b, c, d: seq<byte> := [2], [2, 129], [2, 129, 237], [2, 129, 237, 172];
      assert BeValue(a) == 2 by { assert a[..0] == []; }
      assert b == a + [129] && c == b + [237] && d == c + [172];
      BeValueSnoc(a, 129);
      BeValueSnoc(b, 237);
      BeValueSnoc(c, 172);
    }
    VarLengthOfBytes(42069420, [2, 129, 237, 172], [194, 129, 237, 172]);
  }

  /** The code of a length below 2^30 whose class + 1 big-endian bytes are given. */
  lemma VarLengthOfBytes(n: u32, bytes: seq<byte>, r: seq<byte>)
    requires n < LengthMask && |bytes| == SizeClass(n) + 1 && BeValue(bytes) == n
    requires |r| == |bytes| && r[0] == bytes[0] + 64 * SizeClass(n)
    requires forall i :: 1 <= i < |r| ==> r[i] == bytes[i]
    ensures EncodeVarLength(n) == r
  {
    DivUnique(n, LengthMask, 0, n);
    BeBytesOfValue(bytes);
    assert EncodeVarLength(n) == [r[0]] + bytes[1..];
  }

  /** `encode_string`: the byte length, cast to u32, as a variable length, then the
      bytes. The prefix is that of the length modulo 2^30, and the bytes after it are
      the UTF-8 form the decoder turns back into `s`. */
  function EncodeString(s: string): (r: seq<byte>)
    ensures |r| == |EncodeVarLength(|Utf8.Encode(s)| % LengthMask)| + |Utf8.Encode(s)|
    ensures r[..|r| - |Utf8.Encode(s)|] == EncodeVarLength(|Utf8.Encode(s)| % LengthMask)
    ensures Utf8.Decode(r[|r| - |Utf8.Encode(s)|..]) == Some(s)
  {
    var data := Utf8.Encode(s);
    StringLengthWraps(|data|);
    Utf8.DecodeEncode(s);
    JoinBytes(EncodeVarLength(AsU32(|data|)), data)
  }

  /** The length prefix only sees the byte length modulo 2^30, so a string of 2^30
      bytes or more gets a wrong prefix. */
  lemma StringLengthWraps(n: nat)
    ensures EncodeVarLength(AsU32(n)) == EncodeVarLength(n % LengthMask)
    ensures EncodeVarLength(AsU32(LengthMask)) == EncodeVarLength(0)
  {
    Pow256Widths();
    var q, r := n / 0x1_0000_0000, n % 0x1_0000_0000;
    assert n == 0x1_0000_0000 * q + r;
    var q', r' := r / LengthMask, r % LengthMask;
    assert r == LengthMask * q' + r';
    DivUnique(n, LengthMask, 4 * q + q', r');
    VarLengthMask(LengthMask, 0);
  }

  /** `encode_term_string`: the bytes followed by a zero. */
  function EncodeTermString(s: string): (r: seq<byte>)
    ensures |r| == |Utf8.Encode(s)| + 1 && r[|r| - 1] == 0
    ensures r[..|r| - 1] == Utf8.Encode(s)
  {
    Utf8.Encode(s) + [0]
  }

  /** The byte width of each fixed-size value tag. */
  function FixedWidth(i: ValueIdent): nat
  {
    match i
    case Boolean => 1
    case Unsigned8 => 1
    case Unsigned16 => 2
    case Unsigned32 => 4
    case Unsigned64 => 8
    case Unsigned128 => 16
    case Signed8 => 1
    case Signed16 => 2
    case Signed32 => 4
    case Signed64 => 8
    case Signed128 => 16
    case Float32 => 4
    case Float64 => 8
    case _ => 0
  }

  predicate IsFixed(i: ValueIdent) { FixedWidth(i) > 0 }

  /** `ValueEncoder::body`. */
  function Body(v: V.Value): seq<byte>
  {
    Pow256Widths();
    match v
    case Boolean(b) => [if b then 0x01 else 0x00]
    case Unsigned8(n) => BeBytes(n, 1)
    case Unsigned16(n) => BeBytes(n, 2)
    case Unsigned32(n) => BeBytes(n, 4)
    case Unsigned64(n) => BeBytes(n, 8)
    case Unsigned128(n) => BeBytes(n, 16)
    case Signed8(n) => BeBytes(ToTwos(n, 1), 1)
    case Signed16(n) => BeBytes(ToTwos(n, 2), 2)
    case Signed32(n) => BeBytes(ToTwos(n, 4), 4)
    case Signed64(n) => BeBytes(ToTwos(n, 8), 8)
    case Signed128(n) => BeBytes(ToTwos(n, 16), 16)
    case Float32(bits) => BeBytes(bits, 4)
    case Float64(bits) => BeBytes(bits, 8)
    case String(s) => EncodeString(s)
    case Char(c) => EncodeTermString([c])
    case Bytes(b) => JoinBytes(EncodeVarLength(AsU32(|b|)), b)
  }

  /** A fixed-size value's body is exactly its tag's width. */
  lemma FixedBodyWidth(v: V.Value)
    requires IsFixed(V.IdentOf(v))
    ensures |Body(v)| == FixedWidth(V.IdentOf(v))
  {
    Pow256Widths();
  }

  /** `ValueEncoder::encode`: the whole tag byte (not a nibble pair) before the body. */
  function EncodeValue(v: V.Value): (r: seq<byte>)
    ensures |r| == |Body(v)| + 1
    ensures r[0] == ValueCode(V.IdentOf(v)) && r[0] < 16
    ensures r[1..] == Body(v)
  {
    PrefixBytes(ValueCode(V.IdentOf(v)), Body(v))
  }

  /** The string element of the first documentation example of src/lib.rs is the
      prefix byte 29 (Value over String) followed by the string body. */
  lemma HelloWorldPrefix()
    ensures JoinIdents(ElementIdent.Value, ValueIdent.String) == 29
  {
  }

  lemma HelloWorldEncoding()
    ensures Body(V.Value.String("Hello World")) == [11, 72, 101, 108, 108, 111, 32, 87, 111, 114, 108, 100]
  {
    ShortAscii("Hello World", [72, 101, 108, 108, 111, 32, 87, 111, 114, 108, 100],
      [11, 72, 101, 108, 108, 111, 32, 87, 111, 114, 108, 100]);
  }

  /** A string of fewer than 63 bytes is prefixed by its byte length alone. */
  lemma ShortString(s: string)
    requires |Utf8.Encode(s)| < 0x3F
    ensures Body(V.Value.String(s)) == [|Utf8.Encode(s)|] + Utf8.Encode(s)
  {
    var n := |Utf8.Encode(s)|;
    assert AsU32(n) == n;
    VarLengthSmall(n);
    assert EncodeString(s) == [n] + Utf8.Encode(s);
  }

  /** The body r of a short ASCII string: its length, then its code points b. */
  lemma ShortAscii(s: string, b: seq<byte>, r: seq<byte>)
    requires |b| == |s| < 0x3F && forall i :: 0 <= i < |s| ==> s[i] as int < 0x80 && b[i] == s[i] as int
    requires r == [|b|] + b
    ensures Body(V.Value.String(s)) == r
  {
    Utf8.AsciiBytes(s, b);
    ShortString(s);
  }

  lemma HelloWorldBytes()
    ensures Utf8.Encode("Hello World") == [72, 101, 108, 108, 111, 32, 87, 111, 114, 108, 100]
  {
    Utf8.AsciiBytes("Hello World", [72, 101, 108, 108, 111, 32, 87, 111, 114, 108, 100]);
  }
}
