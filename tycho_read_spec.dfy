/** What the byte-prefixed reader returns, as functions of the input and the position
    it starts at: src/read/length.rs, src/read/string.rs, src/read/number.rs,
    src/read/value.rs and src/read/element.rs. Each gives the value read and the
    position after it, or the error; the methods of TychoRead are proved to return
    what these say. */
module TychoReadSpec {
  import opened Bytes
  import opened Wrappers
  import opened TychoErrors
  import I = TychoIdent
  import opened TychoValues
  import opened TychoInput
  import F = TychoFormat
  import Utf8

  /** The bits byte b contributes as the count-th group of `read_length`: its low seven
      bits shifted left 7*count places within a u64, so that of the tenth group
      (count 9, shift 63) only the lowest bit is kept. The groups occupy disjoint bits,
      so or-ing them in is adding them. */
  function Group(b: byte, count: nat): (g: nat)
    requires count < 10
    ensures count < 9 ==> g == (b % 0x80) * F.Pow128(count)
  {
    if count < 9 then (b % 0x80) * F.Pow128(count) else (b % 2) * 0x8000_0000_0000_0000
  }

  /** `read_length` after `count` bytes that had their high bit set and added up to
      acc. The shift is computed before the high bit is checked, so an eleventh byte
      panics whatever its value. */
  function LengthAt(data: seq<byte>, pos: nat, count: nat, acc: nat): (r: Step<nat>)
    requires pos <= |data|
    ensures r.Parsed? ==> pos < r.next <= |data|
    decreases |data| - pos
  {
    match ByteAt(data, pos)
    case Failed(e) => Failed(e)
    case Parsed(b, p) =>
      if count >= 10 then Failed(ShiftOverflowPanic)
      else if b < 0x80 then Parsed(acc + Group(b, count), p)
      else LengthAt(data, p, count + 1, acc + Group(b, count))
  }

  /** A length and then that many bytes: the bodies of Bytes values and of containers. */
  function FramedAt(data: seq<byte>, pos: nat): (r: Step<seq<byte>>)
    requires pos <= |data|
    ensures r.Parsed? ==> pos + |r.value| < r.next <= |data|
  {
    match LengthAt(data, pos, 0, 0)
    case Failed(e) => Failed(e)
    case Parsed(n, p) => BytesAt(data, p, n)
  }

  /** `String::from_utf8`. */
  function FromUtf8(b: seq<byte>, next: nat): (r: Step<string>)
  {
    match Utf8.Decode(b)
    case None => Failed(StringError)
    case Some(s) => Parsed(s, next)
  }

  /** `read_string`. */
  function StringAt(data: seq<byte>, pos: nat): (r: Step<string>)
    requires pos <= |data|
    ensures r.Parsed? ==> pos < r.next <= |data|
  {
    match FramedAt(data, pos)
    case Failed(e) => Failed(e)
    case Parsed(b, p) => FromUtf8(b, p)
  }

  /** The loop of `read_tstring`, with the bytes before pos already collected in acc. */
  function TBytesAt(data: seq<byte>, pos: nat, acc: seq<byte>): (r: Step<seq<byte>>)
    requires pos <= |data|
    ensures r.Parsed? ==> pos < r.next <= |data|
    decreases |data| - pos
  {
    match ByteAt(data, pos)
    case Failed(e) => Failed(e)
    case Parsed(b, p) => if b == 0 then Parsed(acc, p) else TBytesAt(data, p, acc + [b])
  }

  /** `read_tstring`: the bytes up to the first zero, which is consumed. */
  function TStringAt(data: seq<byte>, pos: nat): (r: Step<string>)
    requires pos <= |data|
    ensures r.Parsed? ==> pos < r.next <= |data|
  {
    match TBytesAt(data, pos, [])
    case Failed(e) => Failed(e)
    case Parsed(b, p) => FromUtf8(b, p)
  }

  /** The number of bytes `read_char` reads after a lead byte with its high bit set: one
      per leading one bit (up to six), and none for 0xFE and 0xFF. */
  function ExtraCount(b: byte): (n: nat)
    requires b >= 0x80
    ensures n <= 6
  {
    if b < 0xC0 then 1
    else if b < 0xE0 then 2
    else if b < 0xF0 then 3
    else if b < 0xF8 then 4
    else if b < 0xFC then 5
    else if b < 0xFE then 6
    else 0
  }

  /** The first character of the bytes `read_char` buffered; empty bytes make the
      `unwrap` panic. */
  function FirstChar(b: seq<byte>, next: nat): (r: Step<char>)
  {
    match Utf8.Decode(b)
    case None => Failed(StringError)
    case Some(s) => if s == [] then Failed(EmptyCharPanic) else Parsed(s[0], next)
  }

  /** `read_char`. An ASCII byte is the buffer; after any other lead byte the buffer is
      the ExtraCount(lead) bytes that follow it, and the lead itself is not kept. */
  function CharAt(data: seq<byte>, pos: nat): (r: Step<char>)
    requires pos <= |data|
    ensures r.Parsed? ==> pos < r.next <= |data|
  {
    match ByteAt(data, pos)
    case Failed(e) => Failed(e)
    case Parsed(b, p) =>
      if b < 0x80 then FirstChar([b], p)
      else match BytesAt(data, p, ExtraCount(b))
        case Failed(e) => Failed(e)
        case Parsed(more, q) => FirstChar(more, q)
  }

  /** `read_number_ident`. */
  function NumberIdentAt(data: seq<byte>, pos: nat): (r: Step<I.NumberIdent>)
    requires pos <= |data|
    ensures r.Parsed? ==> r.next == pos + 1 <= |data|
  {
    match ByteAt(data, pos)
    case Failed(e) => Failed(e)
    case Parsed(b, p) =>
      match I.ParseNumber(b)
      case None => Failed(InvalidIdent(b, "number ident"))
      case Some(n) => Parsed(n, p)
  }

  /** A w-byte big-endian read (`read_u16` ... `read_u128`, the bit patterns of
      `read_f32` and `read_f64`). */
  function UnsignedAt(data: seq<byte>, pos: nat, w: nat): (r: Step<nat>)
    requires pos <= |data|
    ensures r.Parsed? ==> r.value < Pow256(w) && r.next == pos + w <= |data|
  {
    match BytesAt(data, pos, w)
    case Failed(e) => Failed(e)
    case Parsed(b, p) => Parsed(BeValue(b), p)
  }

  /** A w-byte big-endian two's complement read (`read_i8` ... `read_i128`). */
  function SignedAt(data: seq<byte>, pos: nat, w: nat): (r: Step<int>)
    requires pos <= |data| && w > 0
    ensures r.Parsed? ==> -(Pow256(w) / 2) <= r.value < Pow256(w) / 2 && r.next == pos + w <= |data|
  {
    match BytesAt(data, pos, w)
    case Failed(e) => Failed(e)
    case Parsed(b, p) => Parsed(FromTwos(BeValue(b), w), p)
  }

  /** `read_number`. A bit is true when its byte is zero. */
  function NumberAt(n: I.NumberIdent, data: seq<byte>, pos: nat): (r: Step<Number>)
    requires pos <= |data|
    ensures r.Parsed? ==> NumberIdentOf(r.value) == n && pos < r.next <= |data|
  {
    Pow256Widths();
    match n
    case Bit =>
      (match ByteAt(data, pos)
       case Failed(e) => Failed(e)
       case Parsed(b, p) => Parsed(Bit(b == 0x00), p))
    case Unsigned8 => (match UnsignedAt(data, pos, 1) case Failed(e) => Failed(e) case Parsed(x, p) => Parsed(Unsigned8(x), p))
    case Signed8 => (match SignedAt(data, pos, 1) case Failed(e) => Failed(e) case Parsed(x, p) => Parsed(Signed8(x), p))
    case Unsigned16 => (match UnsignedAt(data, pos, 2) case Failed(e) => Failed(e) case Parsed(x, p) => Parsed(Unsigned16(x), p))
    case Signed16 => (match SignedAt(data, pos, 2) case Failed(e) => Failed(e) case Parsed(x, p) => Parsed(Signed16(x), p))
    case Unsigned32 => (match UnsignedAt(data, pos, 4) case Failed(e) => Failed(e) case Parsed(x, p) => Parsed(Unsigned32(x), p))
    case Signed32 => (match SignedAt(data, pos, 4) case Failed(e) => Failed(e) case Parsed(x, p) => Parsed(Signed32(x), p))
    case Unsigned64 => (match UnsignedAt(data, pos, 8) case Failed(e) => Failed(e) case Parsed(x, p) => Parsed(Unsigned64(x), p))
    case Signed64 => (match SignedAt(data, pos, 8) case Failed(e) => Failed(e) case Parsed(x, p) => Parsed(Signed64(x), p))
    case Unsigned128 => (match UnsignedAt(data, pos, 16) case Failed(e) => Failed(e) case Parsed(x, p) => Parsed(Unsigned128(x), p))
    case Signed128 => (match SignedAt(data, pos, 16) case Failed(e) => Failed(e) case Parsed(x, p) => Parsed(Signed128(x), p))
    case Float32 => (match UnsignedAt(data, pos, 4) case Failed(e) => Failed(e) case Parsed(x, p) => Parsed(Float32(x), p))
    case Float64 => (match UnsignedAt(data, pos, 8) case Failed(e) => Failed(e) case Parsed(x, p) => Parsed(Float64(x), p))
  }

  /** `read_value_ident`: 0x04 is followed by a number ident. */
  function ValueIdentAt(data: seq<byte>, pos: nat): (r: Step<I.ValueIdent>)
    requires pos <= |data|
    ensures r.Parsed? ==> pos < r.next <= |data|
  {
    match ByteAt(data, pos)
    case Failed(e) => Failed(e)
    case Parsed(b, p) =>
      if b == 0x04 then
        (match NumberIdentAt(data, p)
         case Failed(e) => Failed(e)
         case Parsed(n, q) => Parsed(I.Number(n), q))
      else
        (match I.ParseValueTag(b)
         case None => Failed(InvalidIdent(b, "value ident"))
         case Some(t) => Parsed(t, p))
  }

  /** `read_value`: the body of a value of type t. Null reads nothing; a boolean is true
      only for the byte 0x01; a UUID is sixteen bytes read big-endian. */
  function ValueAt(t: I.ValueIdent, data: seq<byte>, pos: nat): (r: Step<Value>)
    requires pos <= |data|
    ensures r.Parsed? ==> ValueIdentOf(r.value) == t
    ensures r.Parsed? ==> pos <= r.next <= |data| && (t != I.Null ==> pos < r.next)
  {
    Pow256Widths();
    match t
    case Null => Parsed(Null, pos)
    case Boolean =>
      (match ByteAt(data, pos)
       case Failed(e) => Failed(e)
       case Parsed(b, p) => Parsed(Boolean(b == 0x01), p))
    case String =>
      (match StringAt(data, pos)
       case Failed(e) => Failed(e)
       case Parsed(s, p) => Parsed(String(s), p))
    case Char =>
      (match CharAt(data, pos)
       case Failed(e) => Failed(e)
       case Parsed(c, p) => Parsed(Char(c), p))
    case Number(n) =>
      (match NumberAt(n, data, pos)
       case Failed(e) => Failed(e)
       case Parsed(x, p) => Parsed(Number(x), p))
    case Bytes =>
      (match FramedAt(data, pos)
       case Failed(e) => Failed(e)
       case Parsed(b, p) => Parsed(Bytes(b), p))
    case UUID =>
      (match UnsignedAt(data, pos, 16)
       case Failed(e) => Failed(e)
       case Parsed(u, p) => Parsed(UUID(u), p))
  }

  /** `read_element_ident`. */
  function ElementIdentAt(data: seq<byte>, pos: nat): (r: Step<I.ElementIdent>)
    requires pos <= |data|
    ensures r.Parsed? ==> r.next == pos + 1 <= |data|
  {
    match ByteAt(data, pos)
    case Failed(e) => Failed(e)
    case Parsed(b, p) =>
      match I.ParseElementTag(b)
      case None => Failed(InvalidIdent(b, "element ident"))
      case Some(id) => Parsed(id, p)
  }

  /** `read_element`. A container reads its byte length and that many bytes, then
      parses its items from those bytes alone. */
  function ElementAt(data: seq<byte>, pos: nat): (r: Step<Element>)
    requires pos <= |data|
    ensures r.Parsed? ==> pos < r.next <= |data|
    decreases |data| - pos, 3
  {
    match ElementIdentAt(data, pos)
    case Failed(e) => Failed(e)
    case Parsed(id, p) =>
      match id
      case Unit => Parsed(Unit, p)
      case Value => ValueElementAt(data, p)
      case Some => SomeAt(data, p)
      case None => Parsed(Opt(None), p)
      case Variant => VariantAt(data, p)
      case Struct => StructAt(data, p)
      case List => ListAt(data, p)
      case Array => ArrayAt(data, p)
      case Map => MapAt(data, p)
      case Compression => CompressionAt(data, p)
  }

  /** The Value arm, after the tag: the value's ident, then its body. */
  function ValueElementAt(data: seq<byte>, pos: nat): (r: Step<Element>)
    requires pos <= |data|
    ensures r.Parsed? ==> pos < r.next <= |data|
  {
    match ValueIdentAt(data, pos)
    case Failed(e) => Failed(e)
    case Parsed(t, q) =>
      match ValueAt(t, data, q)
      case Failed(e) => Failed(e)
      case Parsed(v, q2) => Parsed(Element.Value(v), q2)
  }

  /** The Some arm, after the tag: the inner element. */
  function SomeAt(data: seq<byte>, pos: nat): (r: Step<Element>)
    requires pos <= |data|
    ensures r.Parsed? ==> pos < r.next <= |data|
    decreases |data| - pos + 1, 0
  {
    match ElementAt(data, pos)
    case Failed(e) => Failed(e)
    case Parsed(x, q) => Parsed(Opt(Some(x)), q)
  }

  /** The Variant arm, after the tag: the terminated name, then the inner element. */
  function VariantAt(data: seq<byte>, pos: nat): (r: Step<Element>)
    requires pos <= |data|
    ensures r.Parsed? ==> pos < r.next <= |data|
    decreases |data| - pos, 2
  {
    match TStringAt(data, pos)
    case Failed(e) => Failed(e)
    case Parsed(name, q) =>
      match ElementAt(data, q)
      case Failed(e) => Failed(e)
      case Parsed(x, q2) => Parsed(Element.Variant(name, x), q2)
  }

  /** The Struct arm, after the tag. */
  function StructAt(data: seq<byte>, pos: nat): (r: Step<Element>)
    requires pos <= |data|
    ensures r.Parsed? ==> pos < r.next <= |data|
    decreases |data| - pos, 2
  {
    match FramedAt(data, pos)
    case Failed(e) => Failed(e)
    case Parsed(body, p) =>
      match StructItemsAt(body, 0, map[])
      case Failed(e) => Failed(e)
      case Parsed(m, _) => Parsed(Element.Struct(m), p)
  }

  /** The Struct loop: entries until the body is used up exactly; a later entry for a
      key replaces an earlier one. */
  function StructItemsAt(body: seq<byte>, pos: nat, acc: map<string, Element>): (r: Step<map<string, Element>>)
    requires pos <= |body|
    ensures r.Parsed? ==> r.next == |body|
    decreases |body| - pos, 4
  {
    if pos == |body| then Parsed(acc, pos)
    else match TStringAt(body, pos)
      case Failed(e) => Failed(e)
      case Parsed(k, q) =>
        match ElementAt(body, q)
        case Failed(e) => Failed(e)
        case Parsed(x, q2) => StructItemsAt(body, q2, acc[k := x])
  }

  /** The List arm, after the tag. */
  function ListAt(data: seq<byte>, pos: nat): (r: Step<Element>)
    requires pos <= |data|
    ensures r.Parsed? ==> pos < r.next <= |data|
    decreases |data| - pos, 2
  {
    match FramedAt(data, pos)
    case Failed(e) => Failed(e)
    case Parsed(body, p) =>
      match ListItemsAt(body, 0, [])
      case Failed(e) => Failed(e)
      case Parsed(xs, _) => Parsed(Element.List(xs), p)
  }

  /** The List loop: elements in order until the body is used up exactly. */
  function ListItemsAt(body: seq<byte>, pos: nat, acc: seq<Element>): (r: Step<seq<Element>>)
    requires pos <= |body|
    ensures r.Parsed? ==> r.next == |body|
    decreases |body| - pos, 4
  {
    if pos == |body| then Parsed(acc, pos)
    else match ElementAt(body, pos)
      case Failed(e) => Failed(e)
      case Parsed(x, q) => ListItemsAt(body, q, acc + [x])
  }

  /** The Array arm, after the tag: a Null element type ends the array, empty, before
      any length is read. */
  function ArrayAt(data: seq<byte>, pos: nat): (r: Step<Element>)
    requires pos <= |data|
    ensures r.Parsed? ==> pos < r.next <= |data|
    decreases |data| - pos, 2
  {
    match ValueIdentAt(data, pos)
    case Failed(e) => Failed(e)
    case Parsed(t, p) =>
      if t == I.Null then Parsed(Element.Array(I.Null, []), p)
      else match FramedAt(data, p)
        case Failed(e) => Failed(e)
        case Parsed(body, q) =>
          match ArrayItemsAt(t, body, 0, [])
          case Failed(e) => Failed(e)
          case Parsed(xs, _) => Parsed(Element.Array(t, xs), q)
  }

  /** The Array loop: bare value bodies of type t until the body is used up exactly. */
  function ArrayItemsAt(t: I.ValueIdent, body: seq<byte>, pos: nat, acc: seq<Value>): (r: Step<seq<Value>>)
    requires t != I.Null && pos <= |body|
    ensures r.Parsed? ==> r.next == |body|
    decreases |body| - pos
  {
    if pos == |body| then Parsed(acc, pos)
    else match ValueAt(t, body, pos)
      case Failed(e) => Failed(e)
      case Parsed(v, q) => ArrayItemsAt(t, body, q, acc + [v])
  }

  /** The Map arm, after the tag: as the Array arm. */
  function MapAt(data: seq<byte>, pos: nat): (r: Step<Element>)
    requires pos <= |data|
    ensures r.Parsed? ==> pos < r.next <= |data|
    decreases |data| - pos, 2
  {
    match ValueIdentAt(data, pos)
    case Failed(e) => Failed(e)
    case Parsed(t, p) =>
      if t == I.Null then Parsed(Element.Map(I.Null, map[]), p)
      else match FramedAt(data, p)
        case Failed(e) => Failed(e)
        case Parsed(body, q) =>
          match MapItemsAt(t, body, 0, map[])
          case Failed(e) => Failed(e)
          case Parsed(m, _) => Parsed(Element.Map(t, m), q)
  }

  /** The Map loop: a bare key of type t, then an element, until the body is used up
      exactly; a later entry for a key replaces an earlier one. */
  function MapItemsAt(t: I.ValueIdent, body: seq<byte>, pos: nat, acc: map<Value, Element>): (r: Step<map<Value, Element>>)
    requires t != I.Null && pos <= |body|
    ensures r.Parsed? ==> r.next == |body|
    decreases |body| - pos, 4
  {
    if pos == |body| then Parsed(acc, pos)
    else match ValueAt(t, body, pos)
      case Failed(e) => Failed(e)
      case Parsed(k, q) =>
        match ElementAt(body, q)
        case Failed(e) => Failed(e)
        case Parsed(x, q2) => MapItemsAt(t, body, q2, acc[k := x])
  }

  /** The Compression arm, after the tag: one element from the framed body; bytes of
      the body after it are skipped. */
  function CompressionAt(data: seq<byte>, pos: nat): (r: Step<Element>)
    requires pos <= |data|
    ensures r.Parsed? ==> pos < r.next <= |data|
    decreases |data| - pos, 2
  {
    match FramedAt(data, pos)
    case Failed(e) => Failed(e)
    case Parsed(body, p) =>
      match ElementAt(body, 0)
      case Failed(e) => Failed(e)
      case Parsed(x, _) => Parsed(Compression(x), p)
  }
}
