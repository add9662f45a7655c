/** The value vectors of src/tests/encode.rs and src/tests/numbers.rs: the bytes
    `marshall_vec` gives for the value element each test value serialises to, and for
    the numbers the element `unmarshall_vec` reads back from those bytes. Values hold no
    struct or map, so the order in which maps are written plays no part. */
module TychoVectors {
  import opened Bytes
  import opened Wrappers
  import opened TychoErrors
  import opened TychoValues
  import opened TychoReadSpec
  import opened TychoFormat
  import opened TychoLemmas
  import opened TychoElementLemmas
  import Utf8

  /** An element holding a string whose UTF-8 form is shorter than 128 bytes is its tag,
      the string tag, the byte count and the bytes. */
  lemma ShortStringElement(s: string, b: seq<byte>, ord: Orders)
    requires Utf8.Encode(s) == b && |b| < 0x80
    ensures ElementBytes(Element.Value(Value.String(s)), ord) == [1, 2, |b|] + b
  {
    assert StringBytes(s) == [|b|] + b;
  }

  /** The string of `encode_string_ascii` and its ASCII codes. */
  const Hello: string := "Hello World!"
  const HelloCodes: seq<byte> := [72, 101, 108, 108, 111, 32, 87, 111, 114, 108, 100, 33]

  /** The string of `encode_string_emoji`: a four-byte emoji, sixteen ASCII characters
      and the emoji again. */
  const Gamers: string := "\U{1F3AE} !Gamers unite! \U{1F3AE}"
  const GamersCodes: seq<byte> :=
    [240, 159, 142, 174, 32, 33, 71, 97, 109, 101, 114, 115, 32, 117, 110,
     105, 116, 101, 33, 32, 240, 159, 142, 174]

  lemma HelloBytes()
    ensures Utf8.Encode(Hello) == HelloCodes
  {
    assert |Hello| == |HelloCodes| == 12;
    assert forall i :: 0 <= i < |Hello| ==> Hello[i] as int < 0x80 && HelloCodes[i] == Hello[i] as int;
    Utf8.AsciiBytes(Hello, HelloCodes);
  }

  /** The emoji at both ends of `Gamers` and the sixteen ASCII characters between them. */
  const Pad: string := "\U{1F3AE}"
  const PadCodes: seq<byte> := [240, 159, 142, 174]
  const Mid: string := " !Gamers unite! "
  const MidCodes: seq<byte> := [32, 33, 71, 97, 109, 101, 114, 115, 32, 117, 110, 105, 116, 101, 33, 32]

  lemma MidBytes()
    ensures Utf8.Encode(Mid) == MidCodes
  {
    assert |Mid| == |MidCodes| == 16;
    assert forall i :: 0 <= i < |Mid| ==> Mid[i] as int < 0x80 && MidCodes[i] == Mid[i] as int;
    Utf8.AsciiBytes(Mid, MidCodes);
  }

  lemma PadBytes()
    ensures Utf8.Encode(Pad) == PadCodes
  {
    assert Pad == [Pad[0]] && Utf8.EncodeChar(Pad[0]) == PadCodes;
  }

  /** The UTF-8 form of three strings joined is their three UTF-8 forms joined. */
  lemma EncodeThree(a: string, b: string, c: string)
    ensures Utf8.Encode(a + b + c) == Utf8.Encode(a) + Utf8.Encode(b) + Utf8.Encode(c)
  {
    Utf8.EncodeAppend(a, b);
    Utf8.EncodeAppend(a + b, c);
  }

  lemma GamersParts()
    ensures Gamers == Pad + Mid + Pad
    ensures GamersCodes == PadCodes + MidCodes + PadCodes
  {
  }

  lemma GamersBytes()
    ensures Utf8.Encode(Gamers) == GamersCodes
  {
    GamersParts();
    MidBytes();
    PadBytes();
    EncodeThree(Pad, Mid, Pad);
  }

  /** `encode_bool_false` and `encode_bool_true`. */
  lemma BooleanVectors(ord: Orders)
    ensures ElementBytes(Element.Value(Boolean(false)), ord) == [1, 1, 0]
    ensures ElementBytes(Element.Value(Boolean(true)), ord) == [1, 1, 1]
  {
  }

  /** `encode_char_ascii` and `encode_char_emoji`: a character is written as its UTF-8 bytes. */
  lemma CharVectors(ord: Orders)
    ensures ElementBytes(Element.Value(Char('A')), ord) == [1, 3, 65]
    ensures ElementBytes(Element.Value(Char('\U{1F680}')), ord) == [1, 3, 240, 159, 154, 128]
  {
  }

  /** `encode_string_ascii`. */
  lemma AsciiStringVector(ord: Orders)
    ensures ElementBytes(Element.Value(Value.String(Hello)), ord) == [1, 2, 12] + HelloCodes
  {
    HelloBytes();
    ShortStringElement(Hello, HelloCodes, ord);
  }

  /** `encode_string_emoji`: the length is the count of UTF-8 bytes, 24, not of characters, 18. */
  lemma Utf8StringVector(ord: Orders)
    ensures |Gamers| == 18
    ensures ElementBytes(Element.Value(Value.String(Gamers)), ord) == [1, 2, 24] + GamersCodes
  {
    GamersBytes();
    ShortStringElement(Gamers, GamersCodes, ord);
  }

  /** The UUID of `encode_uuid`, 13c5ded9-50af-4cf7-81e1-5e1f57a58b4c, and its bytes. */
  const Uuid: u128 := 0x13c5ded9_50af_4cf7_81e1_5e1f57a58b4c
  const UuidCodes: seq<byte> := [19, 197, 222, 217, 80, 175, 76, 247, 129, 225, 94, 31, 87, 165, 139, 76]

  lemma UuidBytes()
    ensures Uuid < Pow256(16) && BeBytes(Uuid, 16) == UuidCodes
  {
    Pow256Widths();
    assert BeBytes(0x13, 1) == [19];
    assert BeBytes(0x13c5, 2) == [19, 197];
    assert BeBytes(0x13c5de, 3) == [19, 197, 222];
    assert BeBytes(0x13c5ded9, 4) == [19, 197, 222, 217];
    assert BeBytes(0x13c5ded9_50, 5) == [19, 197, 222, 217, 80];
    assert BeBytes(0x13c5ded9_50af, 6) == [19, 197, 222, 217, 80, 175];
    assert BeBytes(0x13c5ded9_50af_4c, 7) == [19, 197, 222, 217, 80, 175, 76];
    assert BeBytes(0x13c5ded9_50af_4cf7, 8) == [19, 197, 222, 217, 80, 175, 76, 247];
    assert BeBytes(0x13c5ded9_50af_4cf7_81, 9) == [19, 197, 222, 217, 80, 175, 76, 247, 129];
    assert BeBytes(0x13c5ded9_50af_4cf7_81e1, 10) == [19, 197, 222, 217, 80, 175, 76, 247, 129, 225];
    assert BeBytes(0x13c5ded9_50af_4cf7_81e1_5e, 11)
        == [19, 197, 222, 217, 80, 175, 76, 247, 129, 225, 94];
    assert BeBytes(0x13c5ded9_50af_4cf7_81e1_5e1f, 12)
        == [19, 197, 222, 217, 80, 175, 76, 247, 129, 225, 94, 31];
    assert BeBytes(0x13c5ded9_50af_4cf7_81e1_5e1f57, 13)
        == [19, 197, 222, 217, 80, 175, 76, 247, 129, 225, 94, 31, 87];
    assert BeBytes(0x13c5ded9_50af_4cf7_81e1_5e1f57a5, 14)
        == [19, 197, 222, 217, 80, 175, 76, 247, 129, 225, 94, 31, 87, 165];
    assert BeBytes(0x13c5ded9_50af_4cf7_81e1_5e1f57a58b, 15)
        == [19, 197, 222, 217, 80, 175, 76, 247, 129, 225, 94, 31, 87, 165, 139];
    assert BeBytes(Uuid, 16) == UuidCodes;
  }

  /** `encode_uuid`: the sixteen bytes of the UUID, most significant first. */
  lemma UuidVector(ord: Orders)
    ensures ElementBytes(Element.Value(UUID(Uuid)), ord) == [1, 6] + UuidCodes
  {
    UuidBytes();
  }

  /** `encode_bytes`: the bytes preceded by their count. */
  lemma BytesVector(ord: Orders)
    ensures ElementBytes(Element.Value(Value.Bytes([10, 20, 30, 40, 50])), ord) == [1, 5, 5, 10, 20, 30, 40, 50]
  {
  }

  /** `number_u8_min_encode`, `number_u8_max_encode` and `number_u8_norm_encode`. */
  lemma U8EncodeVectors(ord: Orders)
    ensures ElementBytes(Element.Value(Number(Unsigned8(0))), ord) == [1, 4, 1, 0]
    ensures ElementBytes(Element.Value(Number(Unsigned8(255))), ord) == [1, 4, 1, 255]
    ensures ElementBytes(Element.Value(Number(Unsigned8(69))), ord) == [1, 4, 1, 69]
  {
    Pow256Widths();
  }

  /** `number_u8_min_decode`, `number_u8_max_decode` and `number_u8_norm_decode`: the
      element read from the bytes is the number, and the read ends after the fourth byte. */
  lemma U8DecodeVectors()
    ensures ElementAt([1, 4, 1, 0], 0) == Parsed(Element.Value(Number(Unsigned8(0))), 4)
    ensures ElementAt([1, 4, 1, 255], 0) == Parsed(Element.Value(Number(Unsigned8(255))), 4)
    ensures ElementAt([1, 4, 1, 69], 0) == Parsed(Element.Value(Number(Unsigned8(69))), 4)
  {
    var ord := Orders(s => [], s => []);
    U8EncodeVectors(ord);
    ValueElementRoundTrip([1, 4, 1, 0], 0, Number(Unsigned8(0)), ord);
    ValueElementRoundTrip([1, 4, 1, 255], 0, Number(Unsigned8(255)), ord);
    ValueElementRoundTrip([1, 4, 1, 69], 0, Number(Unsigned8(69)), ord);
  }
}
