/** Bytes, fixed-width integers and their big-endian and two's complement forms,
    shared by both codec generations and the UUID helper. */
module Bytes {

  type byte = x: int | 0 <= x < 0x100

  type u8 = x: int | 0 <= x < 0x100
  type u16 = x: int | 0 <= x < 0x1_0000
  type u32 = x: int | 0 <= x < 0x1_0000_0000
  type u64 = x: int | 0 <= x < 0x1_0000_0000_0000_0000
  type u128 = x: int | 0 <= x < 0x1_0000_0000_0000_0000_0000_0000_0000_0000

  type i8 = x: int | -0x80 <= x < 0x80
  type i16 = x: int | -0x8000 <= x < 0x8000
  type i32 = x: int | -0x8000_0000 <= x < 0x8000_0000
  type i64 = x: int | -0x8000_0000_0000_0000 <= x < 0x8000_0000_0000_0000
  type i128 = x: int | -0x8000_0000_0000_0000_0000_0000_0000_0000 <= x < 0x8000_0000_0000_0000_0000_0000_0000_0000

  /** Rust's `as u32` on a length: the value modulo 2^32. */
  function AsU32(n: nat): u32
  {
    n % 0x1_0000_0000
  }

  /** Rust's `as u64` on a length: the value modulo 2^64. */
  function AsU64(n: nat): u64
  {
    n % 0x1_0000_0000_0000_0000
  }

  /** 256 to the power w: the number of values a w-byte field can hold. */
  function Pow256(w: nat): (p: int)
    ensures p > 0
  {
    if w == 0 then 1 else 256 * Pow256(w - 1)
  }

  /** The widths the codecs use, written out. */
  lemma Pow256Widths()
    ensures Pow256(1) == 0x100
    ensures Pow256(2) == 0x1_0000
    ensures Pow256(3) == 0x100_0000
    ensures Pow256(4) == 0x1_0000_0000
    ensures Pow256(8) == 0x1_0000_0000_0000_0000
    ensures Pow256(16) == 0x1_0000_0000_0000_0000_0000_0000_0000_0000
  {
    assert Pow256(1) == 0x100;
    assert Pow256(2) == 0x1_0000;
    assert Pow256(3) == 0x100_0000;
    assert Pow256(4) == 0x1_0000_0000;
    assert Pow256(5) == 0x100_0000_0000;
    assert Pow256(6) == 0x1_0000_0000_0000;
    assert Pow256(7) == 0x100_0000_0000_0000;
    assert Pow256(8) == 0x1_0000_0000_0000_0000;
    assert Pow256(9) == 0x100_0000_0000_0000_0000;
    assert Pow256(10) == 0x1_0000_0000_0000_0000_0000;
    assert Pow256(11) == 0x100_0000_0000_0000_0000_0000;
    assert Pow256(12) == 0x1_0000_0000_0000_0000_0000_0000;
    assert Pow256(13) == 0x100_0000_0000_0000_0000_0000_0000;
    assert Pow256(14) == 0x1_0000_0000_0000_0000_0000_0000_0000;
    assert Pow256(15) == 0x100_0000_0000_0000_0000_0000_0000_0000;
  }

  /** The unsigned number a byte string denotes, most significant byte first. */
  function BeValue(s: seq<byte>): (n: nat)
    ensures n < Pow256(|s|)
  {
    if s == [] then 0 else BeValue(s[..|s| - 1]) * 256 + s[|s| - 1]
  }

  /** The w-byte big-endian form of n (Rust's `to_be_bytes`). */
  function BeBytes(n: nat, w: nat): (r: seq<byte>)
    requires n < Pow256(w)
    ensures |r| == w
  {
    if w == 0 then [] else BeBytes(n / 256, w - 1) + [n % 256]
  }

  lemma {:induction false} BeValueOfBytes(n: nat, w: nat)
    requires n < Pow256(w)
    ensures BeValue(BeBytes(n, w)) == n
  {
    if w > 0 {
      BeValueOfBytes(n / 256, w - 1);
      var r := BeBytes(n, w);
      assert r[..|r| - 1] == BeBytes(n / 256, w - 1);
    }
  }

  lemma {:induction false} BeBytesOfValue(s: seq<byte>)
    ensures BeBytes(BeValue(s), |s|) == s
  {
    if s != [] {
      var init := s[..|s| - 1];
      BeBytesOfValue(init);
      assert s == init + [s[|s| - 1]];
    }
  }

  /** Reading one more trailing byte shifts the value one byte left. */
  lemma BeValueSnoc(s: seq<byte>, b: byte)
    ensures BeValue(s + [b]) == BeValue(s) * 256 + b
  {
    assert (s + [b])[..|s + [b]| - 1] == s;
  }

  /** A leading byte contributes its weight in the place it occupies. */
  lemma {:induction false} BeValueCons(b: byte, s: seq<byte>)
    ensures BeValue([b] + s) == b * Pow256(|s|) + BeValue(s)
  {
    if s != [] {
      var init, last := s[..|s| - 1], s[|s| - 1];
      BeValueCons(b, init);
      assert ([b] + s)[..|[b] + s| - 1] == [b] + init;
      var p := Pow256(|init|);
      assert Pow256(|s|) == 256 * p;
      var x, y := BeValue(init), BeValue([b] + init);
      assert y == b * p + x;
      assert BeValue([b] + s) == y * 256 + last;
      assert BeValue(s) == x * 256 + last;
      MulAssoc(b, p);
      calc {
        BeValue([b] + s);
        y * 256 + last;
        (b * p + x) * 256 + last;
        b * p * 256 + x * 256 + last;
        b * (256 * p) + x * 256 + last;
        b * Pow256(|s|) + BeValue(s);
      }
    }
  }

  /** The w-byte little-endian form of n (Rust's `to_le_bytes`, and `to_ne_bytes` on
      a little-endian machine). */
  function LeBytes(n: nat, w: nat): (r: seq<byte>)
    requires n < Pow256(w)
    ensures |r| == w
  {
    if w == 0 then [] else [n % 256] + LeBytes(n / 256, w - 1)
  }

  function LeValue(s: seq<byte>): (n: nat)
    ensures n < Pow256(|s|)
  {
    if s == [] then 0 else s[0] + 256 * LeValue(s[1..])
  }

  lemma {:induction false} LeValueOfBytes(n: nat, w: nat)
    requires n < Pow256(w)
    ensures LeValue(LeBytes(n, w)) == n
  {
    if w > 0 {
      LeValueOfBytes(n / 256, w - 1);
      assert LeBytes(n, w)[1..] == LeBytes(n / 256, w - 1);
    }
  }

  lemma MulMono(d: int, a: int, b: int)
    requires d >= 0 && a <= b
    ensures d * a <= d * b
  {
    assert d * b - d * a == d * (b - a);
  }

  /** Euclidean division is determined by any quotient and remainder in range. */
  lemma DivUnique(n: int, d: int, q: int, r: int)
    requires d > 0 && n == d * q + r && 0 <= r < d
    ensures n / d == q && n % d == r
  {
    var q', r' := n / d, n % d;
    assert n == d * q' + r';
    assert d * (q + 1) == d * q + d;
    assert d * (q' + 1) == d * q' + d;
    if q' > q { MulMono(d, q + 1, q'); }
    if q' < q { MulMono(d, q' + 1, q); }
  }

  lemma MulAssoc(b: int, p: int)
    ensures b * p * 256 == b * (256 * p)
  {
  }

  /** Two's complement: the unsigned w-byte pattern of a signed number, ... */
  function ToTwos(i: int, w: nat): (n: nat)
    requires w > 0
    requires -(Pow256(w) / 2) <= i < Pow256(w) / 2
    ensures n < Pow256(w)
  {
    if i < 0 then i + Pow256(w) else i
  }

  /** ... and the signed number a w-byte pattern stands for. */
  function FromTwos(n: nat, w: nat): (i: int)
    requires w > 0 && n < Pow256(w)
    ensures -(Pow256(w) / 2) <= i < Pow256(w) / 2
  {
    HalfPow256(w);
    if n >= Pow256(w) / 2 then n - Pow256(w) else n
  }

  lemma TwosRoundTrip(i: int, w: nat)
    requires w > 0
    requires -(Pow256(w) / 2) <= i < Pow256(w) / 2
    ensures FromTwos(ToTwos(i, w), w) == i
  {
    HalfPow256(w);
  }

  /** Half of 256^w, the first pattern with its sign bit set. */
  lemma HalfPow256(w: nat)
    requires w > 0
    ensures Pow256(w) / 2 == 128 * Pow256(w - 1) && Pow256(w) == 2 * (Pow256(w) / 2)
  {
    DivUnique(Pow256(w), 2, 128 * Pow256(w - 1), 0);
  }

  /** `b` sits in `data` at `pos`. */
  predicate At(data: seq<byte>, pos: nat, b: seq<byte>)
  {
    pos + |b| <= |data| && data[pos..pos + |b|] == b
  }

  lemma AtSplit(data: seq<byte>, pos: nat, a: seq<byte>, b: seq<byte>)
    requires At(data, pos, a + b)
    ensures At(data, pos, a) && At(data, pos + |a|, b)
  {
    assert data[pos..pos + |a|] == (a + b)[..|a|];
    assert data[pos + |a|..pos + |a| + |b|] == (a + b)[|a|..];
  }

  /** The same, for a + b that runs to the end of data, with q where b starts. */
  lemma AtFront(data: seq<byte>, pos: nat, a: seq<byte>, b: seq<byte>, q: nat)
    requires At(data, pos, a + b) && pos + |a + b| == |data| && q == pos + |a|
    ensures At(data, pos, a) && At(data, q, b) && q + |b| == |data|
  {
    AtSplit(data, pos, a, b);
  }
}

/** The optional value used throughout the model. */
module Wrappers {
  datatype Option<+T> = None | Some(value: T)
}
