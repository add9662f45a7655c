/** The UUID helper (src/uuid/mod.rs): a 128-bit number, its 16 big-endian bytes, its
    version nibble, v4 masking, lowercase hex with and without hyphens, and hex parsing,
    strict and lossy. The source's masks and shifts are written as arithmetic on the
    number: `n >> 76` is n / 2^76, `& 0xf` is % 16, and clearing or setting a nibble
    subtracts or adds its weight. */
module Uuids {
  import opened Bytes
  import opened Wrappers

  /** 2 to the power 128, one more than the largest u128. */
  const U128Limit: int := 0x1_0000_0000_0000_0000_0000_0000_0000_0000
  /** The weight of bit 76, where the version nibble starts. */
  const Bit76: int := 0x1000_0000_0000_0000_0000
  /** The weight of bit 80, just above the version nibble. */
  const Bit80: int := 0x1_0000_0000_0000_0000_0000
  /** The weight of bit 62, where the variant bits of section 4.1.1 of RFC 4122 start. */
  const Bit62: int := 0x4000_0000_0000_0000

  /** `Uuid`: the number itself (`from_numeric` and `numeric`). */
  datatype Uuid = Uuid(numeric: u128)

  /** `nil()`, and `Default`. */
  function Nil(): Uuid
  {
    Uuid(0)
  }

  /** `is_nil()`. */
  predicate IsNil(u: Uuid)
  {
    u.numeric == 0
  }

  /** Nil is the one uuid `is_nil` accepts, and its hyphenated form is
      `00000000-0000-0000-0000-000000000000`. */
  lemma NilIsNil(u: Uuid)
    ensures IsNil(u) <==> u == Nil()
    ensures |Formatted(Nil())| == 36
    ensures forall i :: 0 <= i < 36 ==> Formatted(Nil())[i] == if i in {8, 13, 18, 23} then '-' else '0'
  {
    HexDigitsZero(32);
    var h := Hex(Nil());
    var f := Formatted(Nil());
    forall i | 0 <= i < 36
      ensures f[i] == if i in {8, 13, 18, 23} then '-' else '0'
    {
      if i < 8 { assert f[i] == h[i]; }
      else if 8 < i < 13 { assert f[i] == h[i - 1]; }
      else if 13 < i < 18 { assert f[i] == h[i - 2]; }
      else if 18 < i < 23 { assert f[i] == h[i - 3]; }
      else if 23 < i { assert f[i] == h[i - 4]; }
    }
  }

  lemma {:induction false} HexDigitsZero(w: nat)
    ensures HexDigits(0, w) == seq(w, i => '0')
  {
    if w > 0 {
      HexDigitsZero(w - 1);
      assert seq(w - 1, i => '0') + ['0'] == seq(w, i => '0');
    }
  }

  // ---------------------------------------------------------------------------
  // Bytes

  /** `slice()` and `bytes()`: the 16 bytes, most significant first. */
  function Slice(u: Uuid): (b: seq<byte>)
    ensures |b| == 16 && BeValue(b) == u.numeric
  {
    Pow256Widths();
    BeValueOfBytes(u.numeric, 16);
    BeBytes(u.numeric, 16)
  }

  /** `from_slice`: the number 16 bytes spell, most significant first. */
  function FromSlice(b: seq<byte>): (u: Uuid)
    requires |b| == 16
    ensures Slice(u) == b
  {
    Pow256Widths();
    BeBytesOfValue(b);
    Uuid(BeValue(b))
  }

  /** `from_slice(slice(u)) == u`. */
  lemma SliceRoundTrip(u: Uuid)
    ensures FromSlice(Slice(u)) == u
  {
  }

  /** `from_bytes`: the copy into a 16-byte buffer panics (None here) unless exactly 16
      bytes are given. */
  function FromBytes(x: seq<byte>): (r: Option<Uuid>)
    ensures r.Some? <==> |x| == 16
    ensures r.Some? ==> Slice(r.value) == x
  {
    if |x| == 16 then Some(FromSlice(x)) else None
  }

  // ---------------------------------------------------------------------------
  // Version and v4

  /** `version()`: bits 76 to 79. */
  function Version(u: Uuid): (v: u8)
    ensures v < 16
  {
    u.numeric / Bit76 % 16
  }

  /** `v4()` over the random number it draws: bits 76 to 79 cleared by the mask, then
      bit 78 set, so the nibble reads 4. */
  function V4(random: u128): (u: Uuid)
    ensures Version(u) == 4
    ensures u.numeric % Bit76 == random % Bit76 && u.numeric / Bit80 == random / Bit80
  {
    var masked := random - random / Bit76 % 16 * Bit76;
    V4Bits(random, masked);
    Uuid(masked + 4 * Bit76)
  }

  lemma V4Bits(random: u128, masked: int)
    requires masked == random - random / Bit76 % 16 * Bit76
    ensures 0 <= masked + 4 * Bit76 < U128Limit
    ensures (masked + 4 * Bit76) / Bit76 % 16 == 4
    ensures (masked + 4 * Bit76) % Bit76 == random % Bit76
    ensures (masked + 4 * Bit76) / Bit80 == random / Bit80
  {
    var lo, q := random % Bit76, random / Bit76;
    var nib, hi := q % 16, q / 16;
    assert random == hi * Bit80 + nib * Bit76 + lo;
    var n := masked + 4 * Bit76;
    assert n == hi * Bit80 + 4 * Bit76 + lo;
    DivUnique(n, Bit76, hi * 16 + 4, lo);
    DivUnique(hi * 16 + 4, 16, hi, 4);
    DivUnique(n, Bit80, hi, 4 * Bit76 + lo);
    DivUnique(random, Bit80, hi, nib * Bit76 + lo);
  }

  /** The two bits below bit 64 that section 4.1.1 of RFC 4122 sets to 10 for its
      variant. */
  function VariantBits(u: Uuid): (v: nat)
    ensures v < 4
  {
    u.numeric / Bit62 % 4
  }

  /** `v4` sets only the version: the variant bits stay as random as the input, so a
      draw of 0 gives a v4 uuid without the RFC 4122 variant. */
  lemma V4KeepsVariant(random: u128)
    ensures VariantBits(V4(random)) == VariantBits(Uuid(random))
    ensures VariantBits(V4(0)) == 0
  {
    var n := V4(random).numeric;
    assert n % Bit76 == random % Bit76;
    var k := Bit76 / Bit62;
    assert k * Bit62 == Bit76;
    DivInside(n, Bit62, k);
    DivInside(random, Bit62, k);
  }

  /** What lies below a multiple of d decides the quotient by d modulo 4. */
  lemma DivInside(n: nat, d: nat, k: nat)
    requires d > 0 && k > 0 && k % 4 == 0
    ensures n / d % 4 == n % (k * d) / d % 4
  {
    var big := k * d;
    var r := n % big;
    var q := n / big;
    assert n == q * big + r;
    var a, b := r / d, r % d;
    assert r == a * d + b;
    assert n == (q * k + a) * d + b;
    DivUnique(n, d, q * k + a, b);
    DivUnique(q * k + a, 4, q * (k / 4) + a / 4, a % 4);
  }

  // ---------------------------------------------------------------------------
  // Hex

  /** 16 to the power w. */
  function Pow16(w: nat): (p: nat)
    ensures p > 0
  {
    if w == 0 then 1 else 16 * Pow16(w - 1)
  }

  /** The lowercase digit of d. */
  function HexDigit(d: nat): (c: char)
    requires d < 16
  {
    if d < 10 then (('0' as int) + d) as char else (('a' as int) + d - 10) as char
  }

  /** A digit `hex()` writes. */
  predicate IsLowerDigit(c: char)
  {
    '0' <= c <= '9' || 'a' <= c <= 'f'
  }

  predicate LowerHex(s: string)
  {
    forall i :: 0 <= i < |s| ==> IsLowerDigit(s[i])
  }

  /** The lowest w digits of n, zero-padded, most significant first. */
  function HexDigits(n: nat, w: nat): (s: string)
    ensures |s| == w && LowerHex(s)
  {
    if w == 0 then [] else HexDigits(n / 16, w - 1) + [HexDigit(n % 16)]
  }

  /** `hex()`: 32 lowercase digits; every u128 has at most 32. */
  function Hex(u: Uuid): (s: string)
    ensures |s| == 32 && LowerHex(s)
  {
    HexDigits(u.numeric, 32)
  }

  /** Digit i of the w-digit form counts n's digits from the top. */
  lemma {:induction false} HexDigitAt(n: nat, w: nat, i: nat)
    requires i < w
    ensures HexDigits(n, w)[i] == HexDigit(n / Pow16(w - 1 - i) % 16)
  {
    if i < w - 1 {
      HexDigitAt(n / 16, w - 1, i);
      DivDiv(n, 16, Pow16(w - 2 - i));
    }
  }

  lemma DivDiv(n: nat, a: nat, b: nat)
    requires a > 0 && b > 0
    ensures n / a / b == n / (a * b)
  {
    var q, r := n / a, n % a;
    var q2, r2 := q / b, q % b;
    assert n == a * (b * q2 + r2) + r;
    assert n == (a * b) * q2 + (a * r2 + r);
    MulMono(a, r2, b - 1);
    assert a * (b - 1) == a * b - a;
    DivUnique(n, a * b, q2, a * r2 + r);
  }

  /** The version is the 13th hex digit, the one after the second hyphen. */
  lemma VersionDigit(u: Uuid)
    ensures Hex(u)[12] == HexDigit(Version(u))
    ensures Formatted(u)[14] == HexDigit(Version(u))
  {
    assert Pow16(8) == 0x1_0000_0000;
    assert Pow16(16) == 0x1_0000_0000_0000_0000;
    assert Pow16(19) == Bit76;
    HexDigitAt(u.numeric, 32, 12);
  }

  /** The hyphenated form of 32 hex digits: groups of 8, 4, 4, 4 and 12 with a hyphen
      between groups. */
  function Hyphenated(h: string): (s: string)
    requires |h| == 32
  {
    h[..8] + "-" + h[8..12] + "-" + h[12..16] + "-" + h[16..20] + "-" + h[20..]
  }

  /** What `string()` builds. */
  function Formatted(u: Uuid): (s: string)
  {
    Hyphenated(Hex(u))
  }

  /** `string()`: four `insert`s of a hyphen into the hex, at 8, 13, 18 and 23. */
  method StringOf(u: Uuid) returns (s: string)
    ensures s == Formatted(u)
  {
    var h := Hex(u);
    s := h;
    s := s[..8] + "-" + s[8..];
    assert s == h[..8] + "-" + h[8..];
    s := s[..13] + "-" + s[13..];
    assert s == h[..8] + "-" + h[8..12] + "-" + h[12..];
    s := s[..18] + "-" + s[18..];
    assert s == h[..8] + "-" + h[8..12] + "-" + h[12..16] + "-" + h[16..];
    s := s[..23] + "-" + s[23..];
    assert s == h[..8] + "-" + h[8..12] + "-" + h[12..16] + "-" + h[16..20] + "-" + h[20..];
  }

  /** The shape of `string()`: 36 characters, hyphens at 8, 13, 18 and 23 and nowhere
      else, and the hex digits in order once the hyphens are taken out. */
  lemma FormattedShape(u: Uuid)
    ensures |Formatted(u)| == 36
    ensures forall i :: 0 <= i < 36 ==> (Formatted(u)[i] == '-' <==> i in {8, 13, 18, 23})
    ensures Without(Formatted(u), '-') == Hex(u) && Kept(Formatted(u)) == Hex(u)
  {
    HyphenPlaces(Hex(u));
    HyphensOut(Hex(u));
  }

  lemma HyphenPlaces(h: string)
    requires |h| == 32 && LowerHex(h)
    ensures |Hyphenated(h)| == 36
    ensures forall i :: 0 <= i < 36 ==> (Hyphenated(h)[i] == '-' <==> i in {8, 13, 18, 23})
  {
    var f := Hyphenated(h);
    forall i | 0 <= i < 36
      ensures f[i] == '-' <==> i in {8, 13, 18, 23}
    {
      if i < 8 { assert f[i] == h[i]; }
      else if 8 < i < 13 { assert f[i] == h[i - 1]; }
      else if 13 < i < 18 { assert f[i] == h[i - 2]; }
      else if 18 < i < 23 { assert f[i] == h[i - 3]; }
      else if 23 < i { assert f[i] == h[i - 4]; }
    }
  }

  /** Taking the hyphens out, or keeping only the digits, undoes the hyphenation. */
  lemma HyphensOut(h: string)
    requires |h| == 32 && LowerHex(h)
    ensures Without(Hyphenated(h), '-') == h && Kept(Hyphenated(h)) == h
  {
    var g1, g2, g3, g4, g5 := h[..8], h[8..12], h[12..16], h[16..20], h[20..];
    LowerParts(h);
    var a := g1 + "-";
    var b := a + g2 + "-";
    var c := b + g3 + "-";
    var d := c + g4 + "-";
    assert Hyphenated(h) == d + g5;
    assert h == g1 + g2 + g3 + g4 + g5;
    assert [] + g1 + "-" == a;
    WithoutPart(g1, []);
    WithoutPart(g2, a);
    WithoutPart(g3, b);
    WithoutPart(g4, c);
    WithoutApp(d, g5, '-');
    WithoutNone(g5, '-');
    KeptPart(g1, []);
    KeptPart(g2, a);
    KeptPart(g3, b);
    KeptPart(g4, c);
    KeptApp(d, g5);
  }

  /** A group of digits and its hyphen, after what came before, lose the hyphen. */
  lemma KeptPart(g: string, before: string)
    requires LowerHex(g) && Kept(g) == g
    ensures Kept(before + g + "-") == Kept(before) + g
  {
    KeptApp(before + g, "-");
    KeptApp(before, g);
    assert Kept("-") == [];
  }

  /** A group of digits and its hyphen, after what came before, lose the hyphen. */
  lemma WithoutPart(g: string, before: string)
    requires LowerHex(g)
    ensures Without(before + g + "-", '-') == Without(before, '-') + g
  {
    WithoutNone(g, '-');
    WithoutApp(before + g, "-", '-');
    WithoutApp(before, g, '-');
    assert Without("-", '-') == [];
  }

  // ---------------------------------------------------------------------------
  // Parsing

  /** `char::to_digit(16)`: either case. */
  function DigitValue(c: char): (r: Option<nat>)
    ensures r.Some? ==> r.value < 16
  {
    if '0' <= c <= '9' then Some(c as int - '0' as int)
    else if 'a' <= c <= 'f' then Some(c as int - 'a' as int + 10)
    else if 'A' <= c <= 'F' then Some(c as int - 'A' as int + 10)
    else None
  }

  lemma DigitOfHex(d: nat)
    requires d < 16
    ensures DigitValue(HexDigit(d)) == Some(d) && IsLowerDigit(HexDigit(d))
  {
  }

  /** A lowercase digit is the digit of its value. */
  lemma HexOfDigit(c: char)
    requires IsLowerDigit(c)
    ensures DigitValue(c).Some? && HexDigit(DigitValue(c).value) == c
  {
  }

  predicate AllDigits(s: string)
  {
    forall i :: 0 <= i < |s| ==> DigitValue(s[i]).Some?
  }

  /** The number the digits of s spell, put after acc, with no bound. */
  function DigitsValue(s: string, acc: nat): (n: nat)
    requires AllDigits(s)
    decreases |s|
  {
    if s == [] then acc else DigitsValue(s[1..], acc * 16 + DigitValue(s[0]).value)
  }

  /** The digit loop of `u128::from_str_radix(_, 16)`, going on from acc: a non-digit
      fails, and so does a multiplication or an addition past u128. */
  function AccumulateHex(s: string, acc: u128): (r: Option<u128>)
    decreases |s|
  {
    if s == [] then Some(acc)
    else match DigitValue(s[0])
      case None => None
      case Some(d) =>
        if acc * 16 >= U128Limit then None
        else if acc * 16 + d >= U128Limit then None
        else AccumulateHex(s[1..], acc * 16 + d)
  }

  /** `u128::from_str_radix(s, 16)`: empty fails; a lone sign fails; one leading `+` is
      dropped; a `-` is read as a digit and so fails. */
  function FromStrRadix16(s: string): (r: Option<u128>)
  {
    if s == [] || s == "+" || s == "-" then None
    else if s[0] == '+' then AccumulateHex(s[1..], 0)
    else AccumulateHex(s, 0)
  }

  /** The checked loop gives what unbounded arithmetic gives when that fits, and fails
      exactly when a character is not a digit or the number does not fit. */
  lemma {:induction false} AccumulateValue(s: string, acc: u128)
    ensures AccumulateHex(s, acc).Some? <==> AllDigits(s) && DigitsValue(s, acc) < U128Limit
    ensures AccumulateHex(s, acc).Some? ==> AccumulateHex(s, acc).value == DigitsValue(s, acc)
    decreases |s|
  {
    if s != [] {
      var rest := s[1..];
      assert AllDigits(s) <==> DigitValue(s[0]).Some? && AllDigits(rest) by {
        if DigitValue(s[0]).Some? && AllDigits(rest) {
          forall i | 0 <= i < |s| ensures DigitValue(s[i]).Some? {
            if i > 0 { assert s[i] == rest[i - 1]; }
          }
        }
        if AllDigits(s) {
          forall i | 0 <= i < |rest| ensures DigitValue(rest[i]).Some? {
            assert rest[i] == s[i + 1];
          }
        }
      }
      match DigitValue(s[0])
      case None =>
      case Some(d) =>
        if AllDigits(rest) {
          DigitsGrow(rest, acc * 16 + d);
        }
        if acc * 16 + d < U128Limit {
          AccumulateValue(rest, acc * 16 + d);
        }
    }
  }

  lemma {:induction false} DigitsGrow(s: string, acc: nat)
    requires AllDigits(s)
    ensures DigitsValue(s, acc) >= acc
    decreases |s|
  {
    if s != [] {
      assert AllDigits(s[1..]) by {
        forall i | 0 <= i < |s[1..]| ensures DigitValue(s[1..][i]).Some? {
          assert s[1..][i] == s[i + 1];
        }
      }
      DigitsGrow(s[1..], acc * 16 + DigitValue(s[0]).value);
    }
  }

  /** One more digit at the end multiplies what came before by 16. */
  lemma {:induction false} DigitsSnoc(s: string, c: char, acc: nat)
    requires AllDigits(s) && DigitValue(c).Some?
    ensures AllDigits(s + [c])
    ensures DigitsValue(s + [c], acc) == DigitsValue(s, acc) * 16 + DigitValue(c).value
    decreases |s|
  {
    var t := s + [c];
    assert AllDigits(t) by {
      forall i | 0 <= i < |t| ensures DigitValue(t[i]).Some? {
        if i < |s| { assert t[i] == s[i]; }
      }
    }
    if s != [] {
      assert t[1..] == s[1..] + [c];
      assert t[0] == s[0];
      assert AllDigits(s[1..]) by {
        forall i | 0 <= i < |s[1..]| ensures DigitValue(s[1..][i]).Some? {
          assert s[1..][i] == s[i + 1];
        }
      }
      DigitsSnoc(s[1..], c, acc * 16 + DigitValue(s[0]).value);
    } else {
      assert t[1..] == [];
    }
  }

  /** The w digits of n spell n when n has at most w digits. */
  lemma {:induction false} HexDigitsValue(n: nat, w: nat)
    requires n < Pow16(w)
    ensures AllDigits(HexDigits(n, w)) && DigitsValue(HexDigits(n, w), 0) == n
  {
    var s := HexDigits(n, w);
    if w == 0 {
    } else {
      HexDigitsValue(n / 16, w - 1);
      DigitOfHex(n % 16);
      DigitsSnoc(HexDigits(n / 16, w - 1), HexDigit(n % 16), 0);
    }
  }

  /** A string of w lowercase digits is the w-digit form of the number it spells. */
  lemma {:induction false} DigitsHex(s: string)
    requires LowerHex(s)
    ensures AllDigits(s) && DigitsValue(s, 0) < Pow16(|s|) && HexDigits(DigitsValue(s, 0), |s|) == s
    decreases |s|
  {
    assert AllDigits(s) by {
      forall i | 0 <= i < |s| ensures DigitValue(s[i]).Some? {
        HexOfDigit(s[i]);
      }
    }
    if s != [] {
      var init, last := s[..|s| - 1], s[|s| - 1];
      assert LowerHex(init) by {
        forall i | 0 <= i < |init| ensures IsLowerDigit(init[i]) {
          assert init[i] == s[i];
        }
      }
      DigitsHex(init);
      HexOfDigit(last);
      assert s == init + [last];
      DigitsSnoc(init, last, 0);
      var m, d := DigitsValue(init, 0), DigitValue(last).value;
      DivUnique(m * 16 + d, 16, m, d);
    }
  }

  /** `from_hex`. */
  function FromHex(x: string): (r: Option<Uuid>)
  {
    match FromStrRadix16(x)
    case None => None
    case Some(n) => Some(Uuid(n))
  }

  lemma Pow16Limit()
    ensures Pow16(32) == U128Limit
  {
    assert Pow16(8) == 0x1_0000_0000;
    assert Pow16(16) == 0x1_0000_0000_0000_0000;
    assert Pow16(24) == 0x1_0000_0000_0000_0000_0000_0000;
  }

  /** `from_hex(hex(u)) == Some(u)`. */
  lemma HexRoundTrip(u: Uuid)
    ensures FromHex(Hex(u)) == Some(u)
  {
    Pow16Limit();
    HexDigitsValue(u.numeric, 32);
    AccumulateValue(Hex(u), 0);
  }

  /** The other way round: 32 lowercase digits are the hex of the uuid they parse to. */
  lemma HexCanonical(s: string)
    requires |s| == 32 && LowerHex(s)
    ensures FromHex(s).Some? && Hex(FromHex(s).value) == s
  {
    Pow16Limit();
    DigitsHex(s);
    AccumulateValue(s, 0);
    assert s[0] != '+' && s != "-";
  }

  /** `str::replace(_, "-", "")` with a one-character pattern: every c taken out. */
  function Without(s: string, c: char): (r: string)
    ensures c !in r && |r| <= |s|
  {
    if s == [] then [] else (if s[0] == c then [] else [s[0]]) + Without(s[1..], c)
  }

  lemma {:induction false} WithoutApp(a: string, b: string, c: char)
    ensures Without(a + b, c) == Without(a, c) + Without(b, c)
    decreases |a|
  {
    if a != [] {
      assert (a + b)[1..] == a[1..] + b;
      WithoutApp(a[1..], b, c);
    } else {
      assert a + b == b;
    }
  }

  lemma {:induction false} WithoutNone(s: string, c: char)
    requires LowerHex(s) && c == '-'
    ensures Without(s, c) == s
    decreases |s|
  {
    if s != [] {
      assert LowerHex(s[1..]) by {
        forall i | 0 <= i < |s[1..]| ensures IsLowerDigit(s[1..][i]) {
          assert s[1..][i] == s[i + 1];
        }
      }
      WithoutNone(s[1..], c);
      assert s[0] != c;
      assert s == [s[0]] + s[1..];
    }
  }

  /** `from_string`: the hyphens taken out, then `from_hex`. */
  function FromString(x: string): (r: Option<Uuid>)
  {
    FromHex(Without(x, '-'))
  }

  /** `from_string(string(u)) == Some(u)`. */
  lemma StringRoundTrip(u: Uuid)
    ensures FromString(Formatted(u)) == Some(u)
  {
    FormattedShape(u);
    HexRoundTrip(u);
  }

  // ---------------------------------------------------------------------------
  // Lossy parsing

  /** The lowercase digits of x, in order (the `filter` of `from_string_lossy`). */
  function Kept(x: string): (y: string)
    ensures LowerHex(y) && |y| <= |x|
  {
    if x == [] then []
    else
      var init, last := x[..|x| - 1], x[|x| - 1];
      Kept(init) + (if IsLowerDigit(last) then [last] else [])
  }

  /** What `from_string_lossy` gives: the kept digits cut to 32, parsed, and nil when
      parsing fails. */
  function Lossy(x: string): (u: Uuid)
  {
    var y := Kept(x);
    var t := if |y| > 32 then y[..32] else y;
    match FromHex(t)
    case Some(v) => v
    case None => Nil()
  }

  /** `from_string_lossy`: a filter loop over the characters, `truncate(32)`, then
      `from_hex` with nil in place of a failure. */
  method FromStringLossy(x: string) returns (u: Uuid)
    ensures u == Lossy(x)
  {
    var y: string := [];
    var i := 0;
    while i < |x|
      invariant 0 <= i <= |x| && y == Kept(x[..i])
    {
      assert x[..i + 1][..i] == x[..i];
      if IsLowerDigit(x[i]) {
        y := y + [x[i]];
      }
      i := i + 1;
    }
    assert x[..|x|] == x;
    if |y| > 32 {
      y := y[..32];
    }
    var parsed := FromHex(y);
    u := if parsed.Some? then parsed.value else Nil();
  }

  /** The lossy parse fails only on nothing: otherwise it is the number the first 32
      kept digits spell. */
  lemma LossyValue(x: string)
    ensures Kept(x) == [] ==> Lossy(x) == Nil()
    ensures Kept(x) != [] ==>
              var y := Kept(x);
              var t := if |y| > 32 then y[..32] else y;
              AllDigits(t) && Lossy(x).numeric == DigitsValue(t, 0)
  {
    var y := Kept(x);
    var t := if |y| > 32 then y[..32] else y;
    if t != [] {
      assert LowerHex(t) by {
        forall i | 0 <= i < |t| ensures IsLowerDigit(t[i]) {
          assert t[i] == y[i];
        }
      }
      DigitsHex(t);
      PowMono(|t|, 32);
      Pow16Limit();
      AccumulateValue(t, 0);
      assert t[0] != '+' && t != "-";
    }
  }

  lemma {:induction false} PowMono(a: nat, b: nat)
    requires a <= b
    ensures Pow16(a) <= Pow16(b)
    decreases b
  {
    if a < b {
      PowMono(a, b - 1);
    }
  }

  /** The lossy parse of a parseable hex or hyphenated form is the strict one. */
  lemma LossyOfFormatted(u: Uuid)
    ensures Lossy(Hex(u)) == u && Lossy(Formatted(u)) == u
  {
    KeptLower(Hex(u));
    HexRoundTrip(u);
    FormattedShape(u);
  }

  lemma {:induction false} KeptLower(s: string)
    requires LowerHex(s)
    ensures Kept(s) == s
    decreases |s|
  {
    if s != [] {
      var init := s[..|s| - 1];
      assert LowerHex(init) by {
        forall i | 0 <= i < |init| ensures IsLowerDigit(init[i]) {
          assert init[i] == s[i];
        }
      }
      KeptLower(init);
      assert s == init + [s[|s| - 1]];
    }
  }

  lemma LowerParts(h: string)
    requires |h| == 32 && LowerHex(h)
    ensures Kept(h[..8]) == h[..8] && Kept(h[8..12]) == h[8..12] && Kept(h[12..16]) == h[12..16]
    ensures Kept(h[16..20]) == h[16..20] && Kept(h[20..]) == h[20..]
    ensures LowerHex(h[..8]) && LowerHex(h[8..12]) && LowerHex(h[12..16]) && LowerHex(h[16..20]) && LowerHex(h[20..])
  {
    LowerSlice(h, 0, 8);
    LowerSlice(h, 8, 12);
    LowerSlice(h, 12, 16);
    LowerSlice(h, 16, 20);
    LowerSlice(h, 20, 32);
    assert h[20..] == h[20..32];
  }

  lemma LowerSlice(h: string, i: nat, j: nat)
    requires i <= j <= |h| && LowerHex(h)
    ensures LowerHex(h[i..j]) && Kept(h[i..j]) == h[i..j]
  {
    assert LowerHex(h[i..j]) by {
      forall k | 0 <= k < j - i ensures IsLowerDigit(h[i..j][k]) {
        assert h[i..j][k] == h[i + k];
      }
    }
    KeptLower(h[i..j]);
  }

  lemma {:induction false} KeptApp(a: string, b: string)
    ensures Kept(a + b) == Kept(a) + Kept(b)
    decreases |b|
  {
    if b == [] {
      assert a + b == a;
    } else {
      var init := b[..|b| - 1];
      KeptApp(a, init);
      assert (a + b)[..|a + b| - 1] == a + init;
      assert (a + b)[|a + b| - 1] == b[|b| - 1];
    }
  }

  /** The number of the source's examples, 2f543f3c-0659-4e92-33b0-c8a85c2ac85e. */
  const Example: u128 := 62911151285467627956781226334379231326

  /** Its version is 4, while its variant bits are 00 rather than the 10 of RFC 4122. */
  lemma ExampleVersion()
    ensures Version(Uuid(Example)) == 4 && VariantBits(Uuid(Example)) == 0
  {
  }

  // ---------------------------------------------------------------------------
  // The documented example

  /** The uuid of the doc comments of `hex`, `string`, `numeric`, `bytes` and `slice`,
      made with `from_numeric`, and the forms they document for it. */
  const Documented: Uuid := Uuid(62911151285467627956781226334379231326)
  const DocumentedHex: string := "2f543f3c" + "0659" + "4e92" + "33b0" + "c8a8" + "5c2ac85e"
  const DocumentedString: string := "2f543f3c" + "-" + "0659" + "-" + "4e92" + "-" + "33b0" + "-" + "c8a8" + "5c2ac85e"
  const DocumentedBytes: seq<byte> := [47, 84, 63, 60, 6, 89, 78, 146, 51, 176, 200, 168, 92, 42, 200, 94]

  /** The w + v digits of n are the w digits of q, the number above the lowest v
      digits, followed by the lowest v. */
  lemma {:induction false} HexDigitsSplit(n: nat, w: nat, v: nat, q: nat)
    requires q == n / Pow16(v)
    ensures HexDigits(n, w + v) == HexDigits(q, w) + HexDigits(n, v)
    decreases v
  {
    if v > 0 {
      var d := [HexDigit(n % 16)];
      DivDiv(n, 16, Pow16(v - 1));
      assert Pow16(v) == 16 * Pow16(v - 1);
      HexDigitsSplit(n / 16, w, v - 1, q);
      calc {
        HexDigits(n, w + v);
        HexDigits(n / 16, w + (v - 1)) + d;
        HexDigits(q, w) + HexDigits(n / 16, v - 1) + d;
        HexDigits(q, w) + HexDigits(n, v);
      }
    } else {
      assert q == n && HexDigits(n, v) == [];
    }
  }

  lemma DocumentedHexGroup1()
    ensures HexDigits(794050364, 8) == "2f543f3c"
  {
    assert HexDigits(2, 1) == "2";
    assert HexDigits(47, 2) == "2f";
    assert HexDigits(757, 3) == "2f5";
    assert HexDigits(12116, 4) == "2f54";
    assert HexDigits(193859, 5) == "2f543";
    assert HexDigits(3101759, 6) == "2f543f";
    assert HexDigits(49628147, 7) == "2f543f3";
    assert HexDigits(794050364, 8) == "2f543f3c";
  }

  lemma DocumentedHexGroup2()
    ensures HexDigits(3410420344863411858, 8) == "0659" + "4e92"
  {
    assert HexDigits(12704805824, 1) == "0";
    assert HexDigits(203276893190, 2) == "06";
    assert HexDigits(3252430291045, 3) == "065";
    assert HexDigits(52038884656729, 4) == "0659";
    assert HexDigits(832622154507668, 5) == "06594";
    assert HexDigits(13321954472122702, 6) == "06594e";
    assert HexDigits(213151271553963241, 7) == "06594e9";
    assert HexDigits(3410420344863411858, 8) == "06594e92";
  }

  lemma DocumentedHexGroup3()
    ensures HexDigits(14647643846801395517955819688, 8) == "33b0" + "c8a8"
  {
    assert HexDigits(54566725517814589731, 1) == "3";
    assert HexDigits(873067608285033435699, 2) == "33";
    assert HexDigits(13969081732560534971195, 3) == "33b";
    assert HexDigits(223505307720968559539120, 4) == "33b0";
    assert HexDigits(3576084923535496952625932, 5) == "33b0c";
    assert HexDigits(57217358776567951242014920, 6) == "33b0c8";
    assert HexDigits(915477740425087219872238730, 7) == "33b0c8a";
    assert HexDigits(14647643846801395517955819688, 8) == "33b0c8a8";
  }

  lemma DocumentedHexGroup4()
    ensures HexDigits(62911151285467627956781226334379231326, 8) == "5c2ac85e"
  {
    assert HexDigits(234362301548822328287293115013, 1) == "5";
    assert HexDigits(3749796824781157252596689840220, 2) == "5c";
    assert HexDigits(59996749196498516041547037443522, 3) == "5c2";
    assert HexDigits(959947987143976256664752599096362, 4) == "5c2a";
    assert HexDigits(15359167794303620106636041585541804, 5) == "5c2ac";
    assert HexDigits(245746684708857921706176665368668872, 6) == "5c2ac8";
    assert HexDigits(3931946955341726747298826645898701957, 7) == "5c2ac85";
    assert HexDigits(62911151285467627956781226334379231326, 8) == "5c2ac85e";
  }

  /** 32 digits are four groups of eight: those of n shifted down by 24, 16 and 8
      digits and those of n, the highest first. The middle groups come as two halves. */
  lemma HexFromGroups(n: nat, q1: nat, q2: nat, q3: nat,
                      a: string, b: string, c: string, d: string, e: string, f: string)
    requires q1 == n / 0x1_0000_0000 && q2 == q1 / 0x1_0000_0000 && q3 == q2 / 0x1_0000_0000
    requires HexDigits(q3, 8) == a && HexDigits(q2, 8) == b + c
    requires HexDigits(q1, 8) == d + e && HexDigits(n, 8) == f
    ensures HexDigits(n, 32) == a + b + c + d + e + f
  {
    assert Pow16(8) == 0x1_0000_0000;
    HexDigitsSplit(q2, 8, 8, q3);
    assert HexDigits(q2, 16) == a + (b + c);
    HexDigitsSplit(q1, 16, 8, q2);
    assert HexDigits(q1, 24) == a + (b + c) + (d + e);
    HexDigitsSplit(n, 24, 8, q1);
    Regroup(a, b, c, d, e, f);
  }

  lemma Regroup(a: string, b: string, c: string, d: string, e: string, f: string)
    ensures a + (b + c) + (d + e) + f == a + b + c + d + e + f
  {
  }

  /** `hex()` of the documented uuid, eight digits at a time. */
  lemma DocumentedHexForm()
    ensures Hex(Documented) == DocumentedHex
  {
    DocumentedHexGroup1();
    DocumentedHexGroup2();
    DocumentedHexGroup3();
    DocumentedHexGroup4();
    HexFromGroups(62911151285467627956781226334379231326, 14647643846801395517955819688,
      3410420344863411858, 794050364, "2f543f3c", "0659", "4e92", "33b0", "c8a8", "5c2ac85e");
  }

  /** Hyphenating groups of 8, 4, 4, 4 and 4 + 8 digits puts a hyphen between them. */
  lemma HyphenatedGroups(a: string, b: string, c: string, d: string, e: string, f: string)
    requires |a| == 8 && |b| == 4 && |c| == 4 && |d| == 4 && |e| == 4 && |f| == 8
    ensures Hyphenated(a + b + c + d + e + f) == a + "-" + b + "-" + c + "-" + d + "-" + e + f
  {
    var h := a + b + c + d + e + f;
    assert h[..8] == a && h[8..12] == b && h[12..16] == c && h[16..20] == d && h[20..] == e + f;
  }

  /** `string()` of the documented uuid. */
  lemma DocumentedStringForm()
    ensures Formatted(Documented) == DocumentedString
  {
    DocumentedHexForm();
    HyphenatedGroups("2f543f3c", "0659", "4e92", "33b0", "c8a8", "5c2ac85e");
  }

  /** `from_string` of the documented string gives back the documented number. */
  lemma DocumentedNumeric()
    ensures FromString(DocumentedString) == Some(Documented)
  {
    DocumentedStringForm();
    StringRoundTrip(Documented);
  }

  /** `bytes()` and `slice()` of the documented uuid. */
  lemma DocumentedSlice()
    ensures Slice(Documented) == DocumentedBytes
  {
    Pow256Widths();
    assert BeBytes(47, 1) == [47];
    assert BeBytes(12116, 2) == [47, 84];
    assert BeBytes(3101759, 3) == [47, 84, 63];
    assert BeBytes(794050364, 4) == [47, 84, 63, 60];
    assert BeBytes(203276893190, 5) == [47, 84, 63, 60, 6];
    assert BeBytes(52038884656729, 6) == [47, 84, 63, 60, 6, 89];
    assert BeBytes(13321954472122702, 7) == [47, 84, 63, 60, 6, 89, 78];
    assert BeBytes(3410420344863411858, 8) == [47, 84, 63, 60, 6, 89, 78, 146];
    assert BeBytes(873067608285033435699, 9) == [47, 84, 63, 60, 6, 89, 78, 146, 51];
    assert BeBytes(223505307720968559539120, 10) == [47, 84, 63, 60, 6, 89, 78, 146, 51, 176];
    assert BeBytes(57217358776567951242014920, 11) == [47, 84, 63, 60, 6, 89, 78, 146, 51, 176, 200];
    assert BeBytes(14647643846801395517955819688, 12) == [47, 84, 63, 60, 6, 89, 78, 146, 51, 176, 200, 168];
    assert BeBytes(3749796824781157252596689840220, 13) == [47, 84, 63, 60, 6, 89, 78, 146, 51, 176, 200, 168, 92];
    assert BeBytes(959947987143976256664752599096362, 14) == [47, 84, 63, 60, 6, 89, 78, 146, 51, 176, 200, 168, 92, 42];
    assert BeBytes(245746684708857921706176665368668872, 15) == [47, 84, 63, 60, 6, 89, 78, 146, 51, 176, 200, 168, 92, 42, 200];
    assert BeBytes(62911151285467627956781226334379231326, 16) == [47, 84, 63, 60, 6, 89, 78, 146, 51, 176, 200, 168, 92, 42, 200, 94];
  }
}
