/** The items of the four container kinds (src/partial/types.rs), read through a partial
    reader from wherever it stands, and `PartialCompression`, a pointer to a stored
    body that is read with a jump there and a jump back. */
module PartialTypes {
  import opened Bytes
  import opened TychoErrors
  import I = TychoIdent
  import V = TychoValues
  import opened TychoInput
  import opened TychoReadSpec
  import opened PartialStream
  import opened PartialElements

  /** `ItemType` of each kind: a named element, an element, a keyed element, a value. */
  datatype Item =
    | Field(key: string, element: PartialElement)
    | ListItem(element: PartialElement)
    | Entry(entryKey: V.Value, element: PartialElement)
    | ArrayItem(value: V.Value)

  /** `read_item` of each kind. */
  function ItemAt(data: seq<byte>, pl: Place, id: u16, kind: ItemKind): (r: Read<Item>)
    requires Fits(pl) && |data| < U64Limit
    ensures r.Done? ==> Fits(r.at)
    ensures r.Done? ==> match kind
                        case StructItems => r.value.Field?
                        case ListItems => r.value.ListItem?
                        case MapItems(t) => r.value.Entry? && V.ValueIdentOf(r.value.entryKey) == t
                        case ArrayItems(t) => r.value.ArrayItem? && V.ValueIdentOf(r.value.value) == t
  {
    var p := ReadPos(data, pl);
    match kind
    case StructItems =>
      (match TStringAt(data, p)
       case Failed(e) => Fails(e)
       case Parsed(k, q) =>
         match PartialElementAt(data, Delivered(data, pl, q), id)
         case Fails(e) => Fails(e)
         case Done(x, pl2) => Done(Field(k, x), pl2))
    case ListItems =>
      (match PartialElementAt(data, pl, id)
       case Fails(e) => Fails(e)
       case Done(x, pl2) => Done(ListItem(x), pl2))
    case MapItems(t) =>
      (match ValueAt(t, data, p)
       case Failed(e) => Fails(e)
       case Parsed(k, q) =>
         match PartialElementAt(data, Delivered(data, pl, q), id)
         case Fails(e) => Fails(e)
         case Done(x, pl2) => Done(Entry(k, x), pl2))
    case ArrayItems(t) =>
      (match ValueAt(t, data, p)
       case Failed(e) => Fails(e)
       case Parsed(v, q) => Done(ArrayItem(v), Delivered(data, pl, q)))
  }

  method ReadItem(pr: PartialReader, kind: ItemKind) returns (r: Result<Item>)
    requires pr.Valid()
    modifies pr, pr.input
    ensures pr.Valid()
    ensures Ended(r, pr.Here()) == ItemAt(pr.input.data, old(pr.Here()), pr.ident, kind)
  {
    match kind
    case StructItems =>
      var key := pr.ReadTString();
      if key.Err? {
        return Err(key.error);
      }
      var value := ReadPartialElement(pr);
      if value.Err? {
        return Err(value.error);
      }
      return Ok(Field(key.value, value.value));
    case ListItems =>
      var value := ReadPartialElement(pr);
      if value.Err? {
        return Err(value.error);
      }
      return Ok(ListItem(value.value));
    case MapItems(t) =>
      var key := pr.ReadValue(t);
      if key.Err? {
        return Err(key.error);
      }
      var value := ReadPartialElement(pr);
      if value.Err? {
        return Err(value.error);
      }
      return Ok(Entry(key.value, value.value));
    case ArrayItems(t) =>
      var item := pr.ReadValue(t);
      if item.Err? {
        return Err(item.error);
      }
      return Ok(ArrayItem(item.value));
  }

  /** `PartialCompression`. */
  datatype PartialCompression = PartialCompression(pointer: PartialPointer)

  /** `PartialCompression::bytes`: a jump to the pointer's position, `size` bytes, and
      a jump back to where the reader's pointer was. */
  function CompressionBytesAt(data: seq<byte>, pl: Place, c: PartialCompression): (r: Read<seq<byte>>)
    requires Fits(pl) && |data| < U64Limit && c.pointer.pos < U64Limit
    ensures r.Done? ==> r.at.pointer == pl.pointer && |r.value| == c.pointer.size
  {
    match JumpFrom(pl, c.pointer.pos)
    case Err(e) => Fails(e)
    case Ok(pl1) =>
      match BytesAt(data, ReadPos(data, pl1), c.pointer.size)
      case Failed(e) => Fails(e)
      case Parsed(b, q) =>
        match JumpFrom(Delivered(data, pl1, q), pl.pointer)
        case Err(e) => Fails(e)
        case Ok(pl2) => Done(b, pl2)
  }

  /** `PartialCompression::element` (the `compression` feature): the same, with a
      partial element read at the pointer's position. */
  function CompressionElementAt(data: seq<byte>, pl: Place, id: u16, c: PartialCompression): (r: Read<PartialElement>)
    requires Fits(pl) && |data| < U64Limit && c.pointer.pos < U64Limit
    ensures r.Done? ==> r.at.pointer == pl.pointer
  {
    match JumpFrom(pl, c.pointer.pos)
    case Err(e) => Fails(e)
    case Ok(pl1) =>
      match PartialElementAt(data, pl1, id)
      case Fails(e) => Fails(e)
      case Done(x, pl2) =>
        match JumpFrom(pl2, pl.pointer)
        case Err(e) => Fails(e)
        case Ok(pl3) => Done(x, pl3)
  }

  /** `PartialCompression::bytes`. */
  method CompressionBytes(c: PartialCompression, pr: PartialReader) returns (r: Result<seq<byte>>)
    requires pr.Valid() && c.pointer.pos < U64Limit
    modifies pr, pr.input
    ensures pr.Valid()
    ensures Ended(r, pr.Here()) == CompressionBytesAt(pr.input.data, old(pr.Here()), c)
  {
    var top := pr.pointer;
    var jumped := pr.Jump(c.pointer.pos);
    if jumped.Err? {
      return Err(jumped.error);
    }
    var bytes := pr.ReadBytes(c.pointer.size);
    if bytes.Err? {
      return Err(bytes.error);
    }
    var back := pr.Jump(top);
    if back.Err? {
      return Err(back.error);
    }
    return Ok(bytes.value);
  }

  /** `PartialCompression::element`. */
  method CompressionElement(c: PartialCompression, pr: PartialReader) returns (r: Result<PartialElement>)
    requires pr.Valid() && c.pointer.pos < U64Limit
    modifies pr, pr.input
    ensures pr.Valid()
    ensures Ended(r, pr.Here()) == CompressionElementAt(pr.input.data, old(pr.Here()), pr.ident, c)
  {
    var top := pr.pointer;
    var jumped := pr.Jump(c.pointer.pos);
    if jumped.Err? {
      return Err(jumped.error);
    }
    var element := ReadPartialElement(pr);
    if element.Err? {
      return Err(element.error);
    }
    var back := pr.Jump(top);
    if back.Err? {
      return Err(back.error);
    }
    return Ok(element.value);
  }
}
