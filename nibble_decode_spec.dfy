/** The nibble-prefixed decoder as functions of the input and a position
    (src/decode/length.rs, src/decode/string.rs, src/decode/value.rs,
    src/decode/element.rs, src/decode/mod.rs). Each returns the value read and the
    position after it, or the error the source returns; NibbleDecode proves the
    imperative decoder equal to these. */
module NibbleDecodeSpec {
  import opened Bytes
  import opened Wrappers
  import opened NibbleIdent
  import opened NibbleValues
  import opened NibbleReader
  import Utf8

  /** The continuation bytes of a variable length as `read_var_length` adds them up:
      byte i of s is shifted by (s - i) bytes, one byte further than big-endian. */
  function Shifted(xs: seq<byte>, s: nat): nat
    requires |xs| <= s
  {
    if xs == [] then 0
    else Shifted(xs[..|xs| - 1], s) + xs[|xs| - 1] * Pow256(s - (|xs| - 1))
  }

  /** `read_var_length`: the class from the top two bits, the low six bits shifted by
      class bytes, then class further bytes. Arithmetic is unbounded here. */
  function VarLengthAt(data: seq<byte>, pos: nat): (r: Step<nat>)
    requires pos <= |data|
    ensures r.Parsed? ==> pos < r.next <= |data|
  {
    match OneAt(data, pos)
    case Failed(e) => Failed(e)
    case Parsed(a, p) =>
      var size := a / 64;
      match ManyAt(data, p, size)
      case Failed(e) => Failed(e)
      case Parsed(xs, q) => Parsed((a % 64) * Pow256(size) + Shifted(xs, size), q)
  }

  /** `read_string`: a variable length n, then n bytes of UTF-8; a decoding failure is
      reported at the offset where the bytes start. */
  function StringAt(data: seq<byte>, pos: nat): (r: Step<string>)
    requires pos <= |data|
    ensures r.Parsed? ==> pos < r.next <= |data|
  {
    match VarLengthAt(data, pos)
    case Failed(e) => Failed(e)
    case Parsed(n, p) =>
      match ManyAt(data, p, n)
      case Failed(e) => Failed(e)
      case Parsed(bytes, q) =>
        match Utf8.Decode(bytes)
        case None => Failed(StringDecodeError(q - |bytes|))
        case Some(s) => Parsed(s, q)
  }

  /** The byte loop of `read_term_string`, with the bytes gathered so far. */
  function TermBytesAt(data: seq<byte>, pos: nat, acc: seq<byte>): (r: Step<seq<byte>>)
    requires pos <= |data|
    ensures r.Parsed? ==> pos < r.next <= |data|
    ensures r.Parsed? ==> |acc| <= |r.value| && r.next == pos + (|r.value| - |acc|) + 1
    decreases |data| - pos
  {
    match OneAt(data, pos)
    case Failed(e) => Failed(e)
    case Parsed(b, p) => if b == 0 then Parsed(acc, p) else TermBytesAt(data, p, acc + [b])
  }

  /** `read_term_string`: the bytes up to the first zero, which is consumed. The
      error offset is taken after the terminator, so it is one past the start. */
  function TermStringAt(data: seq<byte>, pos: nat): (r: Step<string>)
    requires pos <= |data|
    ensures r.Parsed? ==> pos < r.next <= |data|
  {
    match TermBytesAt(data, pos, [])
    case Failed(e) => Failed(e)
    case Parsed(bytes, q) =>
      match Utf8.Decode(bytes)
      case None => Failed(StringDecodeError(q - |bytes|))
      case Some(s) => Parsed(s, q)
  }

  /** `decode_value`: the body of one value of the given tag. */
  function ValueAt(i: ValueIdent, data: seq<byte>, pos: nat): (r: Step<NibbleValues.Value>)
    requires pos <= |data|
    ensures r.Parsed? ==> pos <= r.next <= |data|
  {
    Pow256Widths();
    match i
    case Boolean =>
      (match OneAt(data, pos)
       case Failed(e) => Failed(e)
       case Parsed(b, p) => Parsed(Value.Boolean(b == 0x01), p))
    case Unsigned8 =>
      (match OneAt(data, pos)
       case Failed(e) => Failed(e)
       case Parsed(b, p) => Parsed(Value.Unsigned8(b), p))
    case Unsigned16 =>
      (match UnsignedAt(data, pos, 2)
       case Failed(e) => Failed(e)
       case Parsed(n, p) => Parsed(Value.Unsigned16(n), p))
    case Unsigned32 =>
      (match UnsignedAt(data, pos, 4)
       case Failed(e) => Failed(e)
       case Parsed(n, p) => Parsed(Value.Unsigned32(n), p))
    case Unsigned64 =>
      (match UnsignedAt(data, pos, 8)
       case Failed(e) => Failed(e)
       case Parsed(n, p) => Parsed(Value.Unsigned64(n), p))
    case Unsigned128 =>
      (match UnsignedAt(data, pos, 16)
       case Failed(e) => Failed(e)
       case Parsed(n, p) => Parsed(Value.Unsigned128(n), p))
    case Signed8 =>
      (match I8At(data, pos)
       case Failed(e) => Failed(e)
       case Parsed(n, p) => Parsed(Value.Signed8(n), p))
    case Signed16 =>
      (match SignedAt(data, pos, 2)
       case Failed(e) => Failed(e)
       case Parsed(n, p) => Parsed(Value.Signed16(n), p))
    case Signed32 =>
      (match SignedAt(data, pos, 4)
       case Failed(e) => Failed(e)
       case Parsed(n, p) => Parsed(Value.Signed32(n), p))
    case Signed64 =>
      (match SignedAt(data, pos, 8)
       case Failed(e) => Failed(e)
       case Parsed(n, p) => Parsed(Value.Signed64(n), p))
    case Signed128 =>
      (match SignedAt(data, pos, 16)
       case Failed(e) => Failed(e)
       case Parsed(n, p) => Parsed(Value.Signed128(n), p))
    case Float32 =>
      (match UnsignedAt(data, pos, 4)
       case Failed(e) => Failed(e)
       case Parsed(n, p) => Parsed(Value.Float32(n), p))
    case Float64 =>
      (match UnsignedAt(data, pos, 8)
       case Failed(e) => Failed(e)
       case Parsed(n, p) => Parsed(Value.Float64(n), p))
    case String =>
      (match StringAt(data, pos)
       case Failed(e) => Failed(e)
       case Parsed(s, p) => Parsed(Value.String(s), p))
    case Char =>
      (match TermStringAt(data, pos)
       case Failed(e) => Failed(e)
       case Parsed(s, p) => if |s| == 0 then Failed(BadCharLength(p)) else Parsed(Value.Char(s[0]), p))
    case Bytes =>
      (match VarLengthAt(data, pos)
       case Failed(e) => Failed(e)
       case Parsed(n, p) =>
         match ManyAt(data, p, n)
         case Failed(e) => Failed(e)
         case Parsed(b, q) => Parsed(Value.Bytes(b), q))
    case NIL => Failed(LogicalDecodeError(pos))
  }

  /** `decode_joint_prefix`: the element tag from the high nibble, the operand from
      the low one. */
  function PrefixAt(data: seq<byte>, pos: nat): (r: Step<(ElementIdent, byte)>)
    requires pos <= |data|
    ensures r.Parsed? ==> r.next == pos + 1 <= |data| && r.value.1 < 16
  {
    match OneAt(data, pos)
    case Failed(e) => Failed(e)
    case Parsed(b, p) =>
      var (hi, lo) := (b / 16, b % 16);
      match ParseElement(hi)
      case None => Failed(InvalidElementIdent(p - 1, hi))
      case Some(ident) => Parsed((ident, lo), p)
  }

  /** `decode_prefixed_element`. */
  function PrefixedAt(data: seq<byte>, pos: nat): (r: Step<Element>)
    requires pos <= |data|
    ensures r.Parsed? ==> pos < r.next <= |data|
    decreases |data| - pos, 0, 0
  {
    match PrefixAt(data, pos)
    case Failed(e) => Failed(e)
    case Parsed((ident, operand), p) => ElementAt(ident, operand, data, p)
  }

  /** `decode_element`: called just after a prefix byte, whose offset the errors report. */
  function ElementAt(ident: ElementIdent, operand: byte, data: seq<byte>, pos: nat): (r: Step<Element>)
    requires 0 < pos <= |data|
    ensures r.Parsed? ==> pos <= r.next <= |data|
    decreases |data| - pos, 1, 0
  {
    match ident
    case Unit => Parsed(Element.Unit, pos)
    case Value =>
      (match ParseValue(operand)
       case None => Failed(InvalidValueIdent(pos - 1, operand))
       case Some(vi) =>
         match ValueAt(vi, data, pos)
         case Failed(e) => Failed(e)
         case Parsed(v, p) => Parsed(Element.Value(v), p))
    case Option =>
      if operand == 0x00 then Parsed(Opt(None), pos)
      else if operand == 0x01 then
        match PrefixedAt(data, pos)
        case Failed(e) => Failed(e)
        case Parsed(e, p) => Parsed(Opt(Some(e)), p)
      else Failed(InvalidElementOperand(pos - 1, operand))
    case Array =>
      (match VarLengthAt(data, pos)
       case Failed(e) => Failed(e)
       case Parsed(n, p) =>
         match ArrayItemsAt(data, p, n, [])
         case Failed(e) => Failed(e)
         case Parsed(items, q) => Parsed(Element.Array(items), q))
    case Struct =>
      (match VarLengthAt(data, pos)
       case Failed(e) => Failed(e)
       case Parsed(n, p) =>
         match StructItemsAt(data, p, n, map[])
         case Failed(e) => Failed(e)
         case Parsed(fields, q) => Parsed(Element.Struct(fields), q))
    case Variant =>
      (match StringAt(data, pos)
       case Failed(e) => Failed(e)
       case Parsed(name, p) =>
         match PrefixedAt(data, p)
         case Failed(e) => Failed(e)
         case Parsed(inner, q) => Parsed(Element.Variant(name, inner), q))
    case Map =>
      if operand == ValueCode(NIL) then Parsed(Element.Map(map[]), pos)
      else
        (match ParseValue(operand)
         case None => Failed(InvalidValueIdent(pos - 1, operand))
         case Some(kt) =>
           match VarLengthAt(data, pos)
           case Failed(e) => Failed(e)
           case Parsed(n, p) =>
             match MapItemsAt(kt, data, p, n, map[])
             case Failed(e) => Failed(e)
             case Parsed(entries, q) => Parsed(Element.Map(entries), q))
    case List =>
      if operand == ValueCode(NIL) then Parsed(Element.List([]), pos)
      else
        match ParseValue(operand)
        case None => Failed(InvalidValueIdent(pos - 1, operand))
        case Some(vt) =>
          match VarLengthAt(data, pos)
          case Failed(e) => Failed(e)
          case Parsed(n, p) =>
            match ListItemsAt(vt, data, p, n, [])
            case Failed(e) => Failed(e)
            case Parsed(values, q) => Parsed(Element.List(values), q)
  }

  /** The Array loop: n prefixed elements appended to acc. */
  function ArrayItemsAt(data: seq<byte>, pos: nat, n: nat, acc: seq<Element>): (r: Step<seq<Element>>)
    requires pos <= |data|
    ensures r.Parsed? ==> pos <= r.next <= |data|
    decreases |data| - pos, 2, n
  {
    if n == 0 then Parsed(acc, pos)
    else
      match PrefixedAt(data, pos)
      case Failed(e) => Failed(e)
      case Parsed(e, p) => ArrayItemsAt(data, p, n - 1, acc + [e])
  }

  /** One Struct entry: a length-prefixed key, then a prefixed element. */
  function StructEntryAt(data: seq<byte>, pos: nat): (r: Step<(string, Element)>)
    requires pos <= |data|
    ensures r.Parsed? ==> pos < r.next <= |data|
    decreases |data| - pos, 2, 0
  {
    match StringAt(data, pos)
    case Failed(e) => Failed(e)
    case Parsed(key, p) =>
      match PrefixedAt(data, p)
      case Failed(e) => Failed(e)
      case Parsed(e, q) => Parsed((key, e), q)
  }

  /** The Struct loop: n entries inserted into acc; a repeated key overwrites. */
  function StructItemsAt(data: seq<byte>, pos: nat, n: nat, acc: map<string, Element>): (r: Step<map<string, Element>>)
    requires pos <= |data|
    ensures r.Parsed? ==> pos <= r.next <= |data|
    decreases |data| - pos, 2, n
  {
    if n == 0 then Parsed(acc, pos)
    else
      match StructEntryAt(data, pos)
      case Failed(e) => Failed(e)
      case Parsed((key, e), q) => StructItemsAt(data, q, n - 1, acc[key := e])
  }

  /** One Map entry: a bare key value of type kt, then a prefixed element. Inserting
      the entry hashes the key, which panics for a float key. */
  function MapEntryAt(kt: ValueIdent, data: seq<byte>, pos: nat): (r: Step<(NibbleValues.Value, Element)>)
    requires pos <= |data|
    ensures r.Parsed? ==> pos < r.next <= |data| && CanHash(r.value.0)
    decreases |data| - pos, 2, 0
  {
    match ValueAt(kt, data, pos)
    case Failed(e) => Failed(e)
    case Parsed(key, p) =>
      match PrefixedAt(data, p)
      case Failed(e) => Failed(e)
      case Parsed(e, q) => if !CanHash(key) then Failed(HashPanic(q)) else Parsed((key, e), q)
  }

  /** The Map loop: n entries inserted into acc. */
  function MapItemsAt(kt: ValueIdent, data: seq<byte>, pos: nat, n: nat, acc: map<NibbleValues.Value, Element>)
    : (r: Step<map<NibbleValues.Value, Element>>)
    requires pos <= |data|
    ensures r.Parsed? ==> pos <= r.next <= |data|
    decreases |data| - pos, 2, n
  {
    if n == 0 then Parsed(acc, pos)
    else
      match MapEntryAt(kt, data, pos)
      case Failed(e) => Failed(e)
      case Parsed((key, e), q) => MapItemsAt(kt, data, q, n - 1, acc[key := e])
  }

  /** One step of the Struct loop: the entry at pos is inserted and the loop goes on after it. */
  lemma StructItemsStep(data: seq<byte>, pos: nat, n: nat, acc: map<string, Element>, key: string, e: Element, q: nat)
    requires pos <= |data| && n > 0 && StructEntryAt(data, pos) == Parsed((key, e), q)
    ensures StructItemsAt(data, pos, n, acc) == StructItemsAt(data, q, n - 1, acc[key := e])
  {
  }

  /** The Struct loop stops at the first entry that fails. */
  lemma StructItemsStop(data: seq<byte>, pos: nat, n: nat, acc: map<string, Element>, err: DecodeError)
    requires pos <= |data| && n > 0 && StructEntryAt(data, pos) == Failed(err)
    ensures StructItemsAt(data, pos, n, acc) == Failed(err)
  {
  }

  /** One step of the Map loop. */
  lemma MapItemsStep(kt: ValueIdent, data: seq<byte>, pos: nat, n: nat, acc: map<NibbleValues.Value, Element>,
                     key: NibbleValues.Value, e: Element, q: nat)
    requires pos <= |data| && n > 0 && MapEntryAt(kt, data, pos) == Parsed((key, e), q)
    ensures MapItemsAt(kt, data, pos, n, acc) == MapItemsAt(kt, data, q, n - 1, acc[key := e])
  {
  }

  /** The Map loop stops at the first entry that fails. */
  lemma MapItemsStop(kt: ValueIdent, data: seq<byte>, pos: nat, n: nat, acc: map<NibbleValues.Value, Element>,
                     err: DecodeError)
    requires pos <= |data| && n > 0 && MapEntryAt(kt, data, pos) == Failed(err)
    ensures MapItemsAt(kt, data, pos, n, acc) == Failed(err)
  {
  }

  /** The List loop: n bare values of one tag. */
  function ListItemsAt(vt: ValueIdent, data: seq<byte>, pos: nat, n: nat, acc: seq<NibbleValues.Value>)
    : (r: Step<seq<NibbleValues.Value>>)
    requires pos <= |data|
    ensures r.Parsed? ==> pos <= r.next <= |data|
    decreases |data| - pos, 2, n
  {
    if n == 0 then Parsed(acc, pos)
    else
      match ValueAt(vt, data, pos)
      case Failed(e) => Failed(e)
      case Parsed(v, p) => ListItemsAt(vt, data, p, n - 1, acc + [v])
  }

  /** `decode`: one prefixed element from the start; trailing bytes are ignored. */
  function Decode(data: seq<byte>): Result<Element>
  {
    Returned(PrefixedAt(data, 0))
  }
}
