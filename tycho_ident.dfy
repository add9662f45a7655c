/** The identities of the byte-prefixed format (src/types/ident.rs) and the byte codes
    its writer and reader give them: number sub-idents (src/write/number.rs,
    src/read/number.rs), value idents (src/write/value.rs, src/read/value.rs), element
    tags (src/write/element.rs, src/read/element.rs) and the one-byte internal prefix
    (src/into/internal.rs). */
module TychoIdent {
  import opened Bytes
  import W = Wrappers

  datatype NumberIdent =
    | Bit
    | Unsigned8 | Signed8 | Unsigned16 | Signed16 | Unsigned32 | Signed32
    | Unsigned64 | Signed64 | Unsigned128 | Signed128
    | Float32 | Float64

  datatype ValueIdent = Null | Boolean | String | Char | Number(number: NumberIdent) | Bytes | UUID

  datatype ElementIdent = Unit | Value | Some | None | Variant | Struct | List | Array | Map | Compression

  /** The length code of a number ident: 0 for a bit, then one step per doubling of
      the width from 8 to 128 bits. */
  function LengthCode(n: NumberIdent): (c: byte)
    ensures c <= 5
  {
    match n
    case Bit => 0
    case Unsigned8 | Signed8 => 1
    case Unsigned16 | Signed16 => 2
    case Unsigned32 | Signed32 | Float32 => 3
    case Unsigned64 | Signed64 | Float64 => 4
    case Unsigned128 | Signed128 => 5
  }

  predicate IsSigned(n: NumberIdent)
  {
    n.Signed8? || n.Signed16? || n.Signed32? || n.Signed64? || n.Signed128?
  }

  predicate IsFloat(n: NumberIdent)
  {
    n.Float32? || n.Float64?
  }

  /** The byte `write_number_ident` emits. */
  function NumberCode(n: NumberIdent): (b: byte)
  {
    match n
    case Bit => 0x00
    case Unsigned8 => 0x01
    case Signed8 => 0x11
    case Unsigned16 => 0x02
    case Signed16 => 0x12
    case Unsigned32 => 0x03
    case Signed32 => 0x13
    case Unsigned64 => 0x04
    case Signed64 => 0x14
    case Unsigned128 => 0x05
    case Signed128 => 0x15
    case Float32 => 0x23
    case Float64 => 0x24
  }

  /** The code is the length code, plus 0x10 when signed and 0x20 when a float. */
  lemma NumberCodeFlags(n: NumberIdent)
    ensures NumberCode(n) == LengthCode(n) + (if IsSigned(n) then 0x10 else 0) + (if IsFloat(n) then 0x20 else 0)
  {
  }

  /** `parse_number_ident`, with None where the source reports an invalid ident. */
  function ParseNumber(b: byte): (r: W.Option<NumberIdent>)
    ensures r.Some? ==> NumberCode(r.value) == b
  {
    match b
    case 0x00 => W.Some(Bit)
    case 0x01 => W.Some(Unsigned8)
    case 0x02 => W.Some(Unsigned16)
    case 0x03 => W.Some(Unsigned32)
    case 0x04 => W.Some(Unsigned64)
    case 0x05 => W.Some(Unsigned128)
    case 0x11 => W.Some(Signed8)
    case 0x12 => W.Some(Signed16)
    case 0x13 => W.Some(Signed32)
    case 0x14 => W.Some(Signed64)
    case 0x15 => W.Some(Signed128)
    case 0x23 => W.Some(Float32)
    case 0x24 => W.Some(Float64)
    case _ => W.None
  }

  /** Parsing inverts the code on all thirteen idents, so the code is injective. */
  lemma ParseNumberCode(n: NumberIdent)
    ensures ParseNumber(NumberCode(n)) == W.Some(n)
  {
  }

  lemma NumberCodeInjective(n: NumberIdent, m: NumberIdent)
    ensures NumberCode(n) == NumberCode(m) ==> n == m
  {
    ParseNumberCode(n);
    ParseNumberCode(m);
  }

  /** Exactly the thirteen codes parse. */
  lemma ParseNumberDomain(b: byte)
    ensures ParseNumber(b).Some? <==> b in {0x00, 0x01, 0x02, 0x03, 0x04, 0x05, 0x11, 0x12, 0x13, 0x14, 0x15, 0x23, 0x24}
  {
  }

  /** The bytes `write_value_ident` emits: one tag byte, and for a number the sub-ident
      after it. */
  function ValueIdentBytes(v: ValueIdent): (r: seq<byte>)
    ensures |r| == if v.Number? then 2 else 1
    ensures r[0] <= 6 && (r[0] == 4 <==> v.Number?)
  {
    match v
    case Null => [0x00]
    case Boolean => [0x01]
    case String => [0x02]
    case Char => [0x03]
    case Number(n) => [0x04, NumberCode(n)]
    case Bytes => [0x05]
    case UUID => [0x06]
  }

  /** The value ident a first byte other than 0x04 stands for in `read_value_ident`;
      None for bytes of 7 and above (0x04 is followed by a number ident). */
  function ParseValueTag(b: byte): (r: W.Option<ValueIdent>)
    ensures r.Some? <==> b <= 6 && b != 4
    ensures r.Some? ==> ValueIdentBytes(r.value) == [b]
  {
    match b
    case 0x00 => W.Some(Null)
    case 0x01 => W.Some(Boolean)
    case 0x02 => W.Some(String)
    case 0x03 => W.Some(Char)
    case 0x05 => W.Some(Bytes)
    case 0x06 => W.Some(UUID)
    case _ => W.None
  }

  lemma ValueIdentBytesInjective(v: ValueIdent, w: ValueIdent)
    ensures ValueIdentBytes(v) == ValueIdentBytes(w) ==> v == w
  {
    if v.Number? && w.Number? {
      NumberCodeInjective(v.number, w.number);
    }
  }

  /** The tag byte `write_element` starts each element with. */
  function ElementTag(e: ElementIdent): (b: byte)
  {
    match e
    case Unit => 0x00
    case Value => 0x01
    case None => 0x02
    case Some => 0x03
    case Variant => 0x04
    case Struct => 0x05
    case List => 0x06
    case Array => 0x07
    case Map => 0x08
    case Compression => 0xF0
  }

  /** `read_element_ident`, with None where the source reports an invalid ident. */
  function ParseElementTag(b: byte): (r: W.Option<ElementIdent>)
    ensures r.Some? <==> b <= 8 || b == 0xF0
    ensures r.Some? ==> ElementTag(r.value) == b
  {
    match b
    case 0x00 => W.Some(Unit)
    case 0x01 => W.Some(Value)
    case 0x02 => W.Some(None)
    case 0x03 => W.Some(Some)
    case 0x04 => W.Some(Variant)
    case 0x05 => W.Some(Struct)
    case 0x06 => W.Some(List)
    case 0x07 => W.Some(Array)
    case 0x08 => W.Some(Map)
    case 0xF0 => W.Some(Compression)
    case _ => W.None
  }

  /** The reader accepts exactly the tags the writer emits, and maps each back. */
  lemma ParseElementTagOfTag(e: ElementIdent)
    ensures ParseElementTag(ElementTag(e)) == W.Some(e)
  {
  }

  /** `to_internal_prefix`: numbers occupy 0xF0..0xFC in declaration order, the other
      idents 0x00..0x06 without 0x04. */
  function InternalPrefix(v: ValueIdent): (b: byte)
    ensures v.Number? <==> 0xF0 <= b <= 0xFC
    ensures !v.Number? ==> b <= 6 && b != 4
  {
    match v
    case Null => 0x00
    case Boolean => 0x01
    case String => 0x02
    case Char => 0x03
    case Number(n) => (
      match n
      case Bit => 0xF0
      case Unsigned8 => 0xF1
      case Signed8 => 0xF2
      case Unsigned16 => 0xF3
      case Signed16 => 0xF4
      case Unsigned32 => 0xF5
      case Signed32 => 0xF6
      case Unsigned64 => 0xF7
      case Signed64 => 0xF8
      case Unsigned128 => 0xF9
      case Signed128 => 0xFA
      case Float32 => 0xFB
      case Float64 => 0xFC)
    case Bytes => 0x05
    case UUID => 0x06
  }

  /** `from_internal_prefix`. */
  function FromInternalPrefix(b: byte): (r: W.Option<ValueIdent>)
    ensures r.Some? ==> InternalPrefix(r.value) == b
  {
    match b
    case 0x00 => W.Some(Null)
    case 0x01 => W.Some(Boolean)
    case 0x02 => W.Some(String)
    case 0x03 => W.Some(Char)
    case 0x05 => W.Some(Bytes)
    case 0x06 => W.Some(UUID)
    case 0xF0 => W.Some(Number(Bit))
    case 0xF1 => W.Some(Number(Unsigned8))
    case 0xF2 => W.Some(Number(Signed8))
    case 0xF3 => W.Some(Number(Unsigned16))
    case 0xF4 => W.Some(Number(Signed16))
    case 0xF5 => W.Some(Number(Unsigned32))
    case 0xF6 => W.Some(Number(Signed32))
    case 0xF7 => W.Some(Number(Unsigned64))
    case 0xF8 => W.Some(Number(Signed64))
    case 0xF9 => W.Some(Number(Unsigned128))
    case 0xFA => W.Some(Number(Signed128))
    case 0xFB => W.Some(Number(Float32))
    case 0xFC => W.Some(Number(Float64))
    case _ => W.None
  }

  /** The prefix round-trips, so `to_internal_prefix` is injective ... */
  lemma FromInternalPrefixOfPrefix(v: ValueIdent)
    ensures FromInternalPrefix(InternalPrefix(v)) == W.Some(v)
  {
  }

  lemma InternalPrefixInjective(v: ValueIdent, w: ValueIdent)
    ensures InternalPrefix(v) == InternalPrefix(w) ==> v == w
  {
    FromInternalPrefixOfPrefix(v);
    FromInternalPrefixOfPrefix(w);
  }

  /** ... and every byte it never produces maps to None. */
  lemma FromInternalPrefixUnused(b: byte)
    requires forall v: ValueIdent :: InternalPrefix(v) != b
    ensures FromInternalPrefix(b) == W.None
  {
  }

  lemma UnusedPrefixes()
    ensures FromInternalPrefix(0x04) == W.None && FromInternalPrefix(0xFD) == W.None
  {
  }
}
