/** The data model of the nibble-prefixed format (src/values.rs, src/elements.rs). */
module NibbleValues {
  import opened Bytes
  import opened Wrappers
  import I = NibbleIdent
  import Utf8

  /** A primitive value. Floats are carried as their IEEE 754 bit patterns. */
  datatype Value =
    | Boolean(b: bool)
    | Unsigned8(u8: u8) | Unsigned16(u16: u16) | Unsigned32(u32: u32)
    | Unsigned64(u64: u64) | Unsigned128(u128: u128)
    | Signed8(i8: i8) | Signed16(i16: i16) | Signed32(i32: i32)
    | Signed64(i64: i64) | Signed128(i128: i128)
    | Float32(f32bits: u32) | Float64(f64bits: u64)
    | String(s: string)
    | Char(c: char)
    | Bytes(bytes: seq<byte>)

  /** A tree of values. Array is heterogeneous, List holds bare values,
      Struct is keyed by name and Map by value. */
  datatype Element =
    | Unit
    | Value(value: Value)
    | Opt(inner: Option<Element>)
    | Array(items: seq<Element>)
    | Struct(fields: map<string, Element>)
    | Variant(name: string, body: Element)
    | Map(entries: map<Value, Element>)
    | List(values: seq<Value>)

  /** The value tag of each variant (`ValueEncoder::ident`, src/encode/value.rs). */
  function IdentOf(v: Value): (i: I.ValueIdent)
    ensures i != I.NIL
  {
    match v
    case Boolean(_) => I.ValueIdent.Boolean
    case Unsigned8(_) => I.ValueIdent.Unsigned8
    case Unsigned16(_) => I.ValueIdent.Unsigned16
    case Unsigned32(_) => I.ValueIdent.Unsigned32
    case Unsigned64(_) => I.ValueIdent.Unsigned64
    case Unsigned128(_) => I.ValueIdent.Unsigned128
    case Signed8(_) => I.ValueIdent.Signed8
    case Signed16(_) => I.ValueIdent.Signed16
    case Signed32(_) => I.ValueIdent.Signed32
    case Signed64(_) => I.ValueIdent.Signed64
    case Signed128(_) => I.ValueIdent.Signed128
    case Float32(_) => I.ValueIdent.Float32
    case Float64(_) => I.ValueIdent.Float64
    case String(_) => I.ValueIdent.String
    case Char(_) => I.ValueIdent.Char
    case Bytes(_) => I.ValueIdent.Bytes
  }

  /** A representative value of every tag but NIL. */
  function Sample(i: I.ValueIdent): Value
  {
    match i
    case Boolean => Value.Boolean(false)
    case Unsigned8 => Unsigned8(0)
    case Unsigned16 => Unsigned16(0)
    case Unsigned32 => Unsigned32(0)
    case Unsigned64 => Unsigned64(0)
    case Unsigned128 => Unsigned128(0)
    case Signed8 => Signed8(0)
    case Signed16 => Signed16(0)
    case Signed32 => Signed32(0)
    case Signed64 => Signed64(0)
    case Signed128 => Signed128(0)
    case Float32 => Float32(0)
    case Float64 => Float64(0)
    case String => Value.String("")
    case Char => Value.Char('a')
    case Bytes => Value.Bytes([])
    case NIL => Value.Boolean(false)
  }

  /** The sixteen variants and the sixteen tags other than NIL correspond one to one. */
  lemma IdentOfOnto(i: I.ValueIdent)
    requires i != I.NIL
    ensures IdentOf(Sample(i)) == i
  {
  }

  /** The element tag of each variant, as the serializers report it. */
  function ElementIdentOf(e: Element): (i: I.ElementIdent)
    ensures (i == I.ElementIdent.Value) <==> e.Value?
  {
    match e
    case Unit => I.ElementIdent.Unit
    case Value(_) => I.ElementIdent.Value
    case Opt(_) => I.ElementIdent.Option
    case Array(_) => I.ElementIdent.Array
    case Struct(_) => I.ElementIdent.Struct
    case Variant(_, _) => I.ElementIdent.Variant
    case Map(_) => I.ElementIdent.Map
    case List(_) => I.ElementIdent.List
  }

  /** `can_hash`. */
  predicate CanHash(v: Value)
  {
    !v.Float32? && !v.Float64?
  }

  /** The bytes the `Hash` impl feeds to a hasher: only the payload, through the
      standard `Hash` of its Rust type. Integers go in native byte order, taken here
      as little-endian; a string adds a 0xFF terminator; a char goes in as a u32;
      a byte vector is preceded by its length as a 64-bit usize. The float arms
      panic, which is the precondition. */
  function HashFeed(v: Value): (r: seq<byte>)
    requires CanHash(v)
    ensures |r| >= 1
  {
    Pow256Widths();
    match v
    case Boolean(b) => [if b then 1 else 0]
    case Unsigned8(n) => LeBytes(n, 1)
    case Unsigned16(n) => LeBytes(n, 2)
    case Unsigned32(n) => LeBytes(n, 4)
    case Unsigned64(n) => LeBytes(n, 8)
    case Unsigned128(n) => LeBytes(n, 16)
    case Signed8(n) => LeBytes(ToTwos(n, 1), 1)
    case Signed16(n) => LeBytes(ToTwos(n, 2), 2)
    case Signed32(n) => LeBytes(ToTwos(n, 4), 4)
    case Signed64(n) => LeBytes(ToTwos(n, 8), 8)
    case Signed128(n) => LeBytes(ToTwos(n, 16), 16)
    case String(s) => Utf8.Encode(s) + [0xFF]
    case Char(c) => LeBytes(c as int, 4)
    case Bytes(b) => LeBytes(AsU64(|b|), 8) + b
  }

  /** The variant itself is not hashed: a boolean and a byte with the same bits
      collide, and so do a signed and an unsigned byte with the same pattern. */
  lemma HashIgnoresVariant()
    ensures HashFeed(Value.Boolean(true)) == HashFeed(Unsigned8(1))
    ensures HashFeed(Signed8(-1)) == HashFeed(Unsigned8(255))
  {
    assert LeBytes(1, 1) == [1];
    assert LeBytes(255, 1) == [255];
  }

  /** Within one integer variant the feed determines the payload. */
  lemma HashUnsigned64Injective(a: u64, b: u64)
    ensures HashFeed(Unsigned64(a)) == HashFeed(Unsigned64(b)) ==> a == b
  {
    Pow256Widths();
    LeValueOfBytes(a, 8);
    LeValueOfBytes(b, 8);
  }
}
