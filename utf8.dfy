/** UTF-8 as Rust's `String::into_bytes` produces it and `String::from_utf8` accepts it:
    the encoding of RFC 3629 section 3, with the well-formedness table of RFC 3629
    section 4 (no overlong forms, no surrogates, nothing above U+10FFFF). */
module Utf8 {
  import opened Bytes
  import opened Wrappers

  predicate IsCont(b: byte) { 0x80 <= b < 0xC0 }

  /** The number of bytes RFC 3629 section 3 uses for a code point. */
  function Width(c: char): (n: nat)
    ensures 1 <= n <= 4
  {
    var cp := c as int;
    if cp < 0x80 then 1 else if cp < 0x800 then 2 else if cp < 0x1_0000 then 3 else 4
  }

  /** The UTF-8 form of one character. */
  function EncodeChar(c: char): (r: seq<byte>)
    ensures |r| == Width(c)
    ensures IsCont(r[0]) == false
    ensures forall i :: 1 <= i < |r| ==> IsCont(r[i])
  {
    var cp := c as int;
    if cp < 0x80 then [cp]
    else if cp < 0x800 then [0xC0 + cp / 64, 0x80 + cp % 64]
    else if cp < 0x1_0000 then [0xE0 + cp / 4096, 0x80 + (cp / 64) % 64, 0x80 + cp % 64]
    else [0xF0 + cp / 262144, 0x80 + (cp / 4096) % 64, 0x80 + (cp / 64) % 64, 0x80 + cp % 64]
  }

  /** The UTF-8 form of a string (`String::into_bytes`). */
  function Encode(s: string): (r: seq<byte>)
    ensures |r| >= |s|
  {
    if s == [] then [] else EncodeChar(s[0]) + Encode(s[1..])
  }

  /** The first well-formed character of a byte string and the bytes it occupies,
      following the table of RFC 3629 section 4. */
  function DecodeFirst(s: seq<byte>): (r: Option<(char, nat)>)
    ensures r.Some? ==> 1 <= r.value.1 <= |s| && r.value.1 <= 4
  {
    if |s| == 0 then None
    else
      var b0: int := s[0];
      if b0 < 0x80 then Some(((b0 as char), 1))
      else if 0xC2 <= b0 <= 0xDF then
        if |s| >= 2 && IsCont(s[1]) then
          Some((((b0 - 0xC0) * 64 + (s[1] as int - 0x80)) as char, 2))
        else None
      else if 0xE0 <= b0 <= 0xEF then
        var lo := if b0 == 0xE0 then 0xA0 else 0x80;
        var hi := if b0 == 0xED then 0x9F else 0xBF;
        if |s| >= 3 && lo <= s[1] <= hi && IsCont(s[2]) then
          Some((((b0 - 0xE0) * 4096 + (s[1] as int - 0x80) * 64 + (s[2] as int - 0x80)) as char, 3))
        else None
      else if 0xF0 <= b0 <= 0xF4 then
        var lo := if b0 == 0xF0 then 0x90 else 0x80;
        var hi := if b0 == 0xF4 then 0x8F else 0xBF;
        if |s| >= 4 && lo <= s[1] <= hi && IsCont(s[2]) && IsCont(s[3]) then
          Some((((b0 - 0xF0) * 262144 + (s[1] as int - 0x80) * 4096 + (s[2] as int - 0x80) * 64 + (s[3] as int - 0x80)) as char, 4))
        else None
      else None
  }

  /** `String::from_utf8`: the string a byte sequence spells, or None when it is not
      well-formed UTF-8. */
  function Decode(s: seq<byte>): Option<string>
    decreases |s|
  {
    if s == [] then Some([])
    else match DecodeFirst(s)
      case None => None
      case Some((c, n)) =>
        match Decode(s[n..])
        case None => None
        case Some(t) => Some([c] + t)
  }

  lemma DecodeFirstOfEncodeChar(c: char, rest: seq<byte>)
    ensures DecodeFirst(EncodeChar(c) + rest) == Some((c, Width(c)))
  {
    var cp := c as int;
    var s := EncodeChar(c) + rest;
    if cp < 0x80 {
    } else if cp < 0x800 {
      var b0, b1: int := s[0], s[1];
      assert b0 == 0xC0 + cp / 64 && b1 == 0x80 + cp % 64;
      assert (b0 - 0xC0) * 64 + (b1 - 0x80) == cp;
    } else if cp < 0x1_0000 {
      Decode3(c, rest);
    } else {
      Decode4(c, rest);
    }
  }

  lemma Decode3(c: char, rest: seq<byte>)
    requires 0x800 <= c as int < 0x1_0000
    ensures DecodeFirst(EncodeChar(c) + rest) == Some((c, 3))
  {
    var cp := c as int;
    var s := EncodeChar(c) + rest;
    var b0, b1, b2: int := s[0], s[1], s[2];
    Digits3(cp, cp / 4096, (cp / 64) % 64, cp % 64);
    assert (b0 - 0xE0) * 4096 + (b1 - 0x80) * 64 + (b2 - 0x80) == cp;
  }

  lemma Decode4(c: char, rest: seq<byte>)
    requires 0x1_0000 <= c as int
    ensures DecodeFirst(EncodeChar(c) + rest) == Some((c, 4))
  {
    var cp := c as int;
    var s := EncodeChar(c) + rest;
    var b0, b1, b2, b3: int := s[0], s[1], s[2], s[3];
    Digits4(cp, cp / 262144, (cp / 4096) % 64, (cp / 64) % 64, cp % 64);
    assert (b0 - 0xF0) * 262144 + (b1 - 0x80) * 4096 + (b2 - 0x80) * 64 + (b3 - 0x80) == cp;
  }

  /** The base-64 digits of a three-byte code point, both ways. */
  lemma Digits3(cp: int, d0: int, d1: int, d2: int)
    requires cp >= 0
    requires (d0, d1, d2) == (cp / 4096, (cp / 64) % 64, cp % 64)
      || (cp == 4096 * d0 + 64 * d1 + d2 && d0 >= 0 && 0 <= d1 < 64 && 0 <= d2 < 64)
    ensures cp == 4096 * d0 + 64 * d1 + d2
    ensures cp / 4096 == d0 && (cp / 64) % 64 == d1 && cp % 64 == d2
  {
    var a := cp / 64;
    var r2 := cp % 64;
    assert cp == 64 * a + r2;
    var r1 := a % 64;
    var q := a / 64;
    assert a == 64 * q + r1;
    DivUnique(cp, 4096, q, 64 * r1 + r2);
    if cp == 4096 * d0 + 64 * d1 + d2 && d0 >= 0 && 0 <= d1 < 64 && 0 <= d2 < 64 {
      DivUnique(cp, 64, 64 * d0 + d1, d2);
      DivUnique(64 * d0 + d1, 64, d0, d1);
    }
  }

  /** The base-64 digits of a four-byte code point, both ways. */
  lemma Digits4(cp: int, d0: int, d1: int, d2: int, d3: int)
    requires cp >= 0
    requires (d0, d1, d2, d3) == (cp / 262144, (cp / 4096) % 64, (cp / 64) % 64, cp % 64)
      || (cp == 262144 * d0 + 4096 * d1 + 64 * d2 + d3 && d0 >= 0 && 0 <= d1 < 64 && 0 <= d2 < 64 && 0 <= d3 < 64)
    ensures cp == 262144 * d0 + 4096 * d1 + 64 * d2 + d3
    ensures cp / 262144 == d0 && (cp / 4096) % 64 == d1 && (cp / 64) % 64 == d2 && cp % 64 == d3
  {
    var a := cp / 64;
    var r3 := cp % 64;
    assert cp == 64 * a + r3;
    var b := a / 64;
    var r2 := a % 64;
    assert a == 64 * b + r2;
    var q := b / 64;
    var r1 := b % 64;
    assert b == 64 * q + r1;
    DivUnique(cp, 4096, b, 64 * r2 + r3);
    DivUnique(cp, 262144, q, 4096 * r1 + 64 * r2 + r3);
    if cp == 262144 * d0 + 4096 * d1 + 64 * d2 + d3 && d0 >= 0 && 0 <= d1 < 64 && 0 <= d2 < 64 && 0 <= d3 < 64 {
      DivUnique(cp, 64, 4096 * d0 + 64 * d1 + d2, d3);
      DivUnique(4096 * d0 + 64 * d1 + d2, 64, 64 * d0 + d1, d2);
      DivUnique(64 * d0 + d1, 64, d0, d1);
      DivUnique(cp, 4096, 64 * d0 + d1, 64 * d2 + d3);
      DivUnique(cp, 262144, d0, 4096 * d1 + 64 * d2 + d3);
    }
  }

  /** Every well-formed first character occupies exactly the bytes of its own encoding,
      so a byte string decodes in at most one way. */
  lemma EncodeCharOfDecodeFirst(s: seq<byte>)
    requires DecodeFirst(s).Some?
    ensures s[..DecodeFirst(s).value.1] == EncodeChar(DecodeFirst(s).value.0)
  {
    var b0: int := s[0];
    if b0 < 0x80 {
    } else if b0 <= 0xDF {
      var c := DecodeFirst(s).value.0;
      var cp, b1: int := c as int, s[1];
      assert cp == (b0 - 0xC0) * 64 + (b1 - 0x80);
      assert cp / 64 == b0 - 0xC0 && cp % 64 == b1 - 0x80;
    } else if b0 <= 0xEF {
      Encode3(s);
    } else {
      Encode4(s);
    }
  }

  lemma Encode3(s: seq<byte>)
    requires |s| >= 3 && 0xE0 <= s[0] <= 0xEF && DecodeFirst(s).Some?
    ensures s[..3] == EncodeChar(DecodeFirst(s).value.0)
  {
    var c := DecodeFirst(s).value.0;
    var cp, b0, b1, b2: int := c as int, s[0], s[1], s[2];
    assert cp == (b0 - 0xE0) * 4096 + (b1 - 0x80) * 64 + (b2 - 0x80);
    Digits3(cp, b0 - 0xE0, b1 - 0x80, b2 - 0x80);
    assert 0x800 <= cp < 0x1_0000;
  }

  lemma Encode4(s: seq<byte>)
    requires |s| >= 4 && 0xF0 <= s[0] && DecodeFirst(s).Some?
    ensures s[..4] == EncodeChar(DecodeFirst(s).value.0)
  {
    var c := DecodeFirst(s).value.0;
    var cp, b0, b1, b2, b3: int := c as int, s[0], s[1], s[2], s[3];
    assert cp == (b0 - 0xF0) * 262144 + (b1 - 0x80) * 4096 + (b2 - 0x80) * 64 + (b3 - 0x80);
    Digits4(cp, b0 - 0xF0, b1 - 0x80, b2 - 0x80, b3 - 0x80);
    assert 0x1_0000 <= cp;
  }

  lemma {:induction false} EncodeAppend(a: string, b: string)
    ensures Encode(a + b) == Encode(a) + Encode(b)
  {
    if a != [] {
      assert (a + b)[0] == a[0] && (a + b)[1..] == a[1..] + b;
      EncodeAppend(a[1..], b);
      calc {
        Encode(a + b);
        EncodeChar(a[0]) + Encode(a[1..] + b);
        EncodeChar(a[0]) + (Encode(a[1..]) + Encode(b));
        (EncodeChar(a[0]) + Encode(a[1..])) + Encode(b);
      }
    } else {
      assert a + b == b;
    }
  }

  /** `from_utf8(into_bytes(s)) == Ok(s)`. */
  lemma {:induction false} DecodeEncode(s: string)
    ensures Decode(Encode(s)) == Some(s)
  {
    if s != [] {
      var e := Encode(s);
      DecodeFirstOfEncodeChar(s[0], Encode(s[1..]));
      assert e[Width(s[0])..] == Encode(s[1..]);
      DecodeEncode(s[1..]);
      assert [s[0]] + s[1..] == s;
    }
  }

  /** Conversely, whatever `from_utf8` accepts is the encoding of what it returns. */
  lemma {:induction false} EncodeDecode(b: seq<byte>)
    requires Decode(b).Some?
    ensures Encode(Decode(b).value) == b
    decreases |b|
  {
    if b != [] {
      var c, n := DecodeCons(b);
      EncodeCharOfDecodeFirst(b);
      var t := Decode(b[n..]).value;
      EncodeDecode(b[n..]);
      EncodeCons(c, t);
      Glue(b, n, EncodeChar(c), Encode(t));
    }
  }

  lemma Glue(b: seq<byte>, n: nat, x: seq<byte>, y: seq<byte>)
    requires n <= |b| && b[..n] == x && b[n..] == y
    ensures b == x + y
  {
    assert b == b[..n] + b[n..];
  }

  /** A nonempty decodable byte string is its first character followed by the rest. */
  lemma DecodeCons(b: seq<byte>) returns (c: char, n: nat)
    requires b != [] && Decode(b).Some?
    ensures DecodeFirst(b) == Some((c, n)) && Decode(b[n..]).Some?
    ensures Decode(b).value == [c] + Decode(b[n..]).value
  {
    c, n := DecodeFirst(b).value.0, DecodeFirst(b).value.1;
  }

  lemma EncodeCons(c: char, t: string)
    ensures Encode([c] + t) == EncodeChar(c) + Encode(t)
  {
    var u := [c] + t;
    assert u[0] == c && u[1..] == t;
  }

  /** A zero byte appears in the encoding exactly where the string holds U+0000. */
  lemma {:induction false} EncodeHasNul(s: string)
    ensures (0 in Encode(s)) <==> ('\0' in s)
  {
    if s != [] {
      EncodeHasNul(s[1..]);
      var e := EncodeChar(s[0]);
      assert (0 in e) <==> s[0] == '\0' by {
        if s[0] != '\0' && |e| == 1 { assert e[0] == s[0] as int; }
      }
      assert s == [s[0]] + s[1..];
    }
  }

  /** ASCII strings are their own encoding, one byte per character. */
  predicate IsAscii(s: string) { forall i :: 0 <= i < |s| ==> s[i] as int < 0x80 }

  lemma {:induction false} EncodeAscii(s: string)
    requires IsAscii(s)
    ensures |Encode(s)| == |s|
    ensures forall i :: 0 <= i < |s| ==> Encode(s)[i] == s[i] as int
  {
    if s != [] {
      EncodeAscii(s[1..]);
    }
  }

  /** An ASCII string encodes to the given bytes when they are its code points. */
  lemma AsciiBytes(s: string, b: seq<byte>)
    requires |b| == |s| && forall i :: 0 <= i < |s| ==> s[i] as int < 0x80 && b[i] == s[i] as int
    ensures Encode(s) == b
  {
    EncodeAscii(s);
  }
}
