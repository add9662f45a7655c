/** The data model of the byte-prefixed format: numbers, values and elements as the
    writer (src/write/value.rs, src/write/element.rs) and the reader
    (src/read/value.rs, src/read/element.rs) handle them, their idents
    (src/into/ident.rs) and the compression wrapper (src/into/compression.rs). */
module TychoValues {
  import opened Bytes
  import opened Wrappers
  import opened TychoErrors
  import I = TychoIdent

  /** `Number`. Floats are carried as their IEEE 754 bit patterns. */
  datatype Number =
    | Bit(bit: bool)
    | Unsigned8(u8: u8) | Signed8(i8: i8)
    | Unsigned16(u16: u16) | Signed16(i16: i16)
    | Unsigned32(u32: u32) | Signed32(i32: i32)
    | Unsigned64(u64: u64) | Signed64(i64: i64)
    | Unsigned128(u128: u128) | Signed128(i128: i128)
    | Float32(f32: u32) | Float64(f64: u64)

  /** `Value`. A UUID is carried as the 128-bit number its 16 bytes spell big-endian. */
  datatype Value =
    | Null
    | Boolean(boolean: bool)
    | String(text: string)
    | Char(character: char)
    | Number(number: Number)
    | Bytes(bytes: seq<byte>)
    | UUID(uuid: u128)

  /** `Element`. `List` holds elements of any shape; `Array` and `Map` carry the ident of
      their values and keys. */
  datatype Element =
    | Unit
    | Value(value: Value)
    | Opt(option: Option<Element>)
    | Variant(name: string, inner: Element)
    | Struct(fields: map<string, Element>)
    | List(items: seq<Element>)
    | Array(itemType: I.ValueIdent, values: seq<Value>)
    | Map(keyType: I.ValueIdent, entries: map<Value, Element>)
    | Compression(inner: Element)

  /** `Ident for Number`: the same-named ident. */
  function NumberIdentOf(n: Number): (i: I.NumberIdent)
  {
    match n
    case Bit(_) => I.Bit
    case Unsigned8(_) => I.Unsigned8
    case Signed8(_) => I.Signed8
    case Unsigned16(_) => I.Unsigned16
    case Signed16(_) => I.Signed16
    case Unsigned32(_) => I.Unsigned32
    case Signed32(_) => I.Signed32
    case Unsigned64(_) => I.Unsigned64
    case Signed64(_) => I.Signed64
    case Unsigned128(_) => I.Unsigned128
    case Signed128(_) => I.Signed128
    case Float32(_) => I.Float32
    case Float64(_) => I.Float64
  }

  /** `Ident for Value`: the same-named ident, with a number's ident inside. */
  function ValueIdentOf(v: Value): (i: I.ValueIdent)
  {
    match v
    case Null => I.Null
    case Boolean(_) => I.Boolean
    case String(_) => I.String
    case Char(_) => I.Char
    case Number(n) => I.Number(NumberIdentOf(n))
    case Bytes(_) => I.Bytes
    case UUID(_) => I.UUID
  }

  /** `Ident for Element`: one ident per variant, an option split into Some and None. */
  function ElementIdentOf(e: Element): (i: I.ElementIdent)
  {
    match e
    case Unit => I.Unit
    case Value(_) => I.Value
    case Opt(o) => if o.Some? then I.Some else I.None
    case Variant(_, _) => I.Variant
    case Struct(_) => I.Struct
    case List(_) => I.List
    case Array(_, _) => I.Array
    case Map(_, _) => I.Map
    case Compression(_) => I.Compression
  }

  /** Every value ident is the ident of some value, so the idents and the value
      variants correspond one to one. */
  function SampleValue(i: I.ValueIdent): (v: Value)
    ensures ValueIdentOf(v) == i
  {
    match i
    case Null => Null
    case Boolean => Boolean(false)
    case String => String("")
    case Char => Char('a')
    case Number(n) => Number(
      match n
      case Bit => Bit(false)
      case Unsigned8 => Unsigned8(0)
      case Signed8 => Signed8(0)
      case Unsigned16 => Unsigned16(0)
      case Signed16 => Signed16(0)
      case Unsigned32 => Unsigned32(0)
      case Signed32 => Signed32(0)
      case Unsigned64 => Unsigned64(0)
      case Signed64 => Signed64(0)
      case Unsigned128 => Unsigned128(0)
      case Signed128 => Signed128(0)
      case Float32 => Float32(0)
      case Float64 => Float64(0))
    case Bytes => Bytes([])
    case UUID => UUID(0)
  }

  /** Elements of different variants, and the two kinds of option, never share an
      ident: the ident determines the variant. */
  lemma ElementIdentDistinct(a: Element, b: Element)
    requires ElementIdentOf(a) == ElementIdentOf(b)
    ensures a.Unit? == b.Unit? && a.Value? == b.Value? && a.Variant? == b.Variant?
    ensures a.Struct? == b.Struct? && a.List? == b.List? && a.Array? == b.Array?
    ensures a.Map? == b.Map? && a.Compression? == b.Compression?
    ensures a.Opt? == b.Opt? && (a.Opt? ==> a.option.Some? == b.option.Some?)
  {
  }

  /** `compress`: mark an element for compression. */
  function Compress(e: Element): (r: Element)
    ensures r.Compression? && r.inner == e
  {
    Compression(e)
  }

  /** What `_impl_decompress` gives: the wrapped element, or the element itself back
      with the error. */
  datatype Unwrap = Unwrapped(element: Element) | Refused(original: Element, error: TychoError)

  /** `_impl_decompress`. */
  function ImplDecompress(e: Element): (r: Unwrap)
    ensures r.Unwrapped? <==> e.Compression?
    ensures r.Refused? ==> r.original == e && r.error.Other?
  {
    if e.Compression? then Unwrapped(e.inner)
    else Refused(e, Other("Element cannot be decompressed"))
  }

  /** `decompress`. */
  function Decompress(e: Element): (r: Result<Element>)
    ensures r.Ok? <==> e.Compression?
    ensures r.Ok? ==> r.value == e.inner
    ensures r.Err? ==> r.error == Other("Element cannot be decompressed")
  {
    match ImplDecompress(e)
    case Unwrapped(x) => Ok(x)
    case Refused(_, err) => Err(err)
  }

  /** `decompress_lossy`: the element untouched when it is not a compression. */
  function DecompressLossy(e: Element): (r: Element)
    ensures Decompress(e).Ok? ==> r == Decompress(e).value
    ensures Decompress(e).Err? ==> r == e
  {
    match ImplDecompress(e)
    case Unwrapped(x) => x
    case Refused(original, _) => original
  }

  /** `decompress_opt`: None exactly when `decompress` fails. */
  function DecompressOpt(e: Element): (r: Option<Element>)
    ensures r.None? <==> Decompress(e).Err?
    ensures r.Some? ==> r.value == Decompress(e).value
  {
    match ImplDecompress(e)
    case Unwrapped(x) => Some(x)
    case Refused(_, _) => None
  }

  lemma DecompressCompress(e: Element)
    ensures Decompress(Compress(e)) == Ok(e)
    ensures DecompressLossy(Compress(e)) == e && DecompressOpt(Compress(e)) == Some(e)
  {
  }

  /** Decompressing anything but a compression element leaves it as it is. */
  lemma DecompressLossyIdentity(e: Element)
    requires !e.Compression?
    ensures DecompressLossy(e) == e && DecompressOpt(e) == None
  {
  }
}
