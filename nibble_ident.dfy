/** The tags of the nibble-prefixed format: a value tag fills the low nibble of a
    prefix byte, an element tag its high nibble (src/ident.rs). */
module NibbleIdent {
  import opened Bytes
  import opened Wrappers

  datatype ValueIdent =
    | Boolean
    | Unsigned8 | Unsigned16 | Unsigned32 | Unsigned64 | Unsigned128
    | Signed8 | Signed16 | Signed32 | Signed64 | Signed128
    | Float32 | Float64
    | String | Char | Bytes
    | NIL

  datatype ElementIdent = Unit | Value | Option | Array | Struct | Variant | Map | List

  /** The discriminant a value tag is cast to. */
  function ValueCode(i: ValueIdent): (b: byte)
    ensures i == NIL <==> b == 0xFD
    ensures i != NIL <==> b < 16
  {
    match i
    case Boolean => 0
    case Unsigned8 => 1
    case Unsigned16 => 2
    case Unsigned32 => 3
    case Unsigned64 => 4
    case Unsigned128 => 5
    case Signed8 => 6
    case Signed16 => 7
    case Signed32 => 8
    case Signed64 => 9
    case Signed128 => 10
    case Float32 => 11
    case Float64 => 12
    case String => 13
    case Char => 14
    case Bytes => 15
    case NIL => 0xFD
  }

  /** `ValueIdent::parse`: the tag with a discriminant, NIL excluded. */
  function ParseValue(b: byte): (r: Option<ValueIdent>)
    ensures r.Some? <==> b < 16
    ensures r.Some? ==> r.value != NIL && ValueCode(r.value) == b
  {
    if b == 0 then Some(Boolean)
    else if b == 1 then Some(Unsigned8)
    else if b == 2 then Some(Unsigned16)
    else if b == 3 then Some(Unsigned32)
    else if b == 4 then Some(Unsigned64)
    else if b == 5 then Some(Unsigned128)
    else if b == 6 then Some(Signed8)
    else if b == 7 then Some(Signed16)
    else if b == 8 then Some(Signed32)
    else if b == 9 then Some(Signed64)
    else if b == 10 then Some(Signed128)
    else if b == 11 then Some(Float32)
    else if b == 12 then Some(Float64)
    else if b == 13 then Some(String)
    else if b == 14 then Some(Char)
    else if b == 15 then Some(Bytes)
    else None
  }

  /** Parsing inverts the discriminant for every tag but NIL, which never parses back. */
  lemma ParseValueCode(i: ValueIdent)
    ensures ParseValue(ValueCode(i)) == if i == NIL then None else Some(i)
  {
  }

  lemma ValueCodeInjective(i: ValueIdent, j: ValueIdent)
    ensures ValueCode(i) == ValueCode(j) ==> i == j
  {
    ParseValueCode(i);
    ParseValueCode(j);
  }

  function ElementCode(i: ElementIdent): (b: byte)
    ensures b < 8
  {
    match i
    case Unit => 0
    case Value => 1
    case Option => 2
    case Array => 3
    case Struct => 4
    case Variant => 5
    case Map => 6
    case List => 7
  }

  /** `ElementIdent::parse`. */
  function ParseElement(b: byte): (r: Option<ElementIdent>)
    ensures r.Some? <==> b < 8
    ensures r.Some? ==> ElementCode(r.value) == b
  {
    if b == 0 then Some(Unit)
    else if b == 1 then Some(Value)
    else if b == 2 then Some(Option)
    else if b == 3 then Some(Array)
    else if b == 4 then Some(Struct)
    else if b == 5 then Some(Variant)
    else if b == 6 then Some(Map)
    else if b == 7 then Some(List)
    else None
  }

  lemma ParseElementCode(i: ElementIdent)
    ensures ParseElement(ElementCode(i)) == Some(i)
  {
  }
}
