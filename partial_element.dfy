/** `read_partial_element` (src/partial/element.rs): an element read through a partial
    reader. Unit, values, None and variants are read in full, exactly as
    `read_element` reads them; a Some is the element inside it, without the Option
    around it. A struct, list, array or map is read only as far as its header and
    becomes a container: a pointer to its body and a head at 0, which the caller then
    walks item by item (PartialContainers). After a header the reader jumps to the
    body's length taken as an absolute offset, not to the end of the body. */
module PartialElements {
  import opened Bytes
  import opened Wrappers
  import opened TychoErrors
  import I = TychoIdent
  import V = TychoValues
  import opened TychoReadSpec
  import opened PartialStream
  import L = TychoLemmas

  /** What a container's items are, with its item parameter: the key type of a map
      and the item type of an array (`ItemParam` of src/partial/types.rs). */
  datatype ItemKind = StructItems | ListItems | MapItems(keyType: I.ValueIdent) | ArrayItems(itemType: I.ValueIdent)

  /** The state of a `PartialContainer`: where its body is, how far into the body the
      next item starts, and its kind. */
  datatype Container = Container(pointer: PartialPointer, head: nat, kind: ItemKind)

  /** `PartialElement`. */
  datatype PartialElement =
    | Unit
    | Value(value: V.Value)
    | Opt(option: Option<PartialElement>)
    | Variant(name: string, inner: PartialElement)
    | Struct(container: Container)
    | List(container: Container)
    | Map(container: Container)
    | Array(container: Container)

  /** A container whose header was read: its head at the start of the body, the
      reader's stamp, and the reader left at the body's length taken as an offset. */
  predicate Opened(c: Container, at: Place, id: u16)
  {
    c.head == 0 && c.pointer.ident == id && at.pointer == c.pointer.size
  }

  /** What a header read promises of each container; a Null-typed array or map gets
      the empty pointer, so it starts finished. */
  predicate HeaderRead(x: PartialElement, at: Place, id: u16)
  {
    match x
    case Struct(c) => c.kind == StructItems && Opened(c, at, id)
    case List(c) => c.kind == ListItems && Opened(c, at, id)
    case Array(c) =>
      c.kind.ArrayItems? &&
      if c.kind.itemType == I.Null then c == Container(PartialPointer(0, 0, id), 0, c.kind) else Opened(c, at, id)
    case Map(c) =>
      c.kind.MapItems? &&
      if c.kind.keyType == I.Null then c == Container(PartialPointer(0, 0, id), 0, c.kind) else Opened(c, at, id)
    case _ => true
  }

  /** What `read_partial_element` gives from place pl of the stream over data, for a
      reader stamped id. */
  function PartialElementAt(data: seq<byte>, pl: Place, id: u16): (r: Read<PartialElement>)
    requires Fits(pl) && |data| < U64Limit
    ensures r.Done? ==> Fits(r.at) && ReadPos(data, pl) < |data|
    ensures r.Done? ==> HeaderRead(r.value, r.at, id)
    decreases |data| - ReadPos(data, pl), 1
  {
    match ElementIdentAt(data, ReadPos(data, pl))
    case Failed(e) => Fails(e)
    case Parsed(t, q) => ElementArmAt(data, Delivered(data, pl, q), id, t)
  }

  /** The arm of ident t, from place pl just after the tag. */
  function ElementArmAt(data: seq<byte>, pl: Place, id: u16, t: I.ElementIdent): (r: Read<PartialElement>)
    requires Fits(pl) && |data| < U64Limit
    ensures r.Done? ==> Fits(r.at) && HeaderRead(r.value, r.at, id)
    decreases |data| - ReadPos(data, pl) + 1, 0
  {
    match t
    case Unit => Done(Unit, pl)
    case Value => ValueArmAt(data, pl)
    case None => Done(Opt(None), pl)
    case Some => PartialElementAt(data, pl, id)
    case Variant => VariantArmAt(data, pl, id)
    case Struct =>
      (match HeaderAt(data, pl, id, StructItems)
       case Fails(e) => Fails(e)
       case Done(c, pl2) => Done(Struct(c), pl2))
    case List =>
      (match HeaderAt(data, pl, id, ListItems)
       case Fails(e) => Fails(e)
       case Done(c, pl2) => Done(List(c), pl2))
    case Array =>
      (match TypedHeaderAt(data, pl, id, false)
       case Fails(e) => Fails(e)
       case Done(c, pl2) => Done(Array(c), pl2))
    case Map =>
      (match TypedHeaderAt(data, pl, id, true)
       case Fails(e) => Fails(e)
       case Done(c, pl2) => Done(Map(c), pl2))
    case Compression => Fails(CompressionTagPanic)
  }

  /** The Value arm, after the tag: the value's ident, then its body. */
  function ValueArmAt(data: seq<byte>, pl: Place): (r: Read<PartialElement>)
    requires Fits(pl) && |data| < U64Limit
    ensures r.Done? ==> Fits(r.at) && r.value.Value?
  {
    var p := ReadPos(data, pl);
    match ValueIdentAt(data, p)
    case Failed(e) => Fails(e)
    case Parsed(t, q) =>
      var pl1 := Delivered(data, pl, q);
      match ValueAt(t, data, q)
      case Failed(e) => Fails(e)
      case Parsed(v, q2) => Done(Value(v), Delivered(data, pl1, q2))
  }

  /** The Variant arm, after the tag: the terminated name, then the inner element. */
  function VariantArmAt(data: seq<byte>, pl: Place, id: u16): (r: Read<PartialElement>)
    requires Fits(pl) && |data| < U64Limit
    ensures r.Done? ==> Fits(r.at) && r.value.Variant?
    decreases |data| - ReadPos(data, pl), 2
  {
    var p := ReadPos(data, pl);
    match TStringAt(data, p)
    case Failed(e) => Fails(e)
    case Parsed(name, q) =>
      match PartialElementAt(data, Delivered(data, pl, q), id)
      case Fails(e) => Fails(e)
      case Done(x, pl2) => Done(Variant(name, x), pl2)
  }

  /** A container header after its tag (and ident): the body's byte length, the
      pointer's value then as the body's position, then a jump to the length itself. */
  function HeaderAt(data: seq<byte>, pl: Place, id: u16, kind: ItemKind): (r: Read<Container>)
    requires Fits(pl) && |data| < U64Limit
    ensures r.Done? ==> Fits(r.at) && r.value.kind == kind && r.value.head == 0
    ensures r.Done? ==> r.value.pointer.ident == id && r.at.pointer == r.value.pointer.size
  {
    var p := ReadPos(data, pl);
    L.LengthFits(data, p);
    match LengthAt(data, p, 0, 0)
    case Failed(e) => Fails(e)
    case Parsed(size, q) =>
      var pl1 := Delivered(data, pl, q);
      match JumpFrom(pl1, size)
      case Err(e) => Fails(e)
      case Ok(pl2) => Done(Container(PartialPointer(pl1.pointer, size, id), 0, kind), pl2)
  }

  /** The header of an array (keyed false) or a map (keyed true): the item or key
      ident, and for Null the empty pointer with no length read. */
  function TypedHeaderAt(data: seq<byte>, pl: Place, id: u16, keyed: bool): (r: Read<Container>)
    requires Fits(pl) && |data| < U64Limit
    ensures r.Done? ==> Fits(r.at) && r.value.head == 0 && r.value.pointer.ident == id
    ensures r.Done? ==> if keyed then r.value.kind.MapItems? else r.value.kind.ArrayItems?
    ensures r.Done? ==>
              var t := if keyed then r.value.kind.keyType else r.value.kind.itemType;
              if t == I.Null then r.value.pointer == PartialPointer(0, 0, id) else r.at.pointer == r.value.pointer.size
  {
    var p := ReadPos(data, pl);
    match ValueIdentAt(data, p)
    case Failed(e) => Fails(e)
    case Parsed(t, q) =>
      var pl1 := Delivered(data, pl, q);
      var kind := if keyed then MapItems(t) else ArrayItems(t);
      if t == I.Null then Done(Container(PartialPointer(0, 0, id), 0, kind), pl1)
      else HeaderAt(data, pl1, id, kind)
  }

  /** `read_partial_element`. */
  method ReadPartialElement(pr: PartialReader) returns (r: Result<PartialElement>)
    requires pr.Valid()
    modifies pr, pr.input
    ensures pr.Valid()
    ensures Ended(r, pr.Here()) == PartialElementAt(pr.input.data, old(pr.Here()), pr.ident)
    decreases |pr.input.data| - pr.input.pos, 1
  {
    var ident := pr.ReadElementIdent();
    if ident.Err? {
      return Err(ident.error);
    }
    match ident.value
    case Unit => return Ok(Unit);
    case Value => r := ReadValueArm(pr);
    case None => return Ok(Opt(None));
    case Some => r := ReadPartialElement(pr);
    case Variant => r := ReadVariantArm(pr);
    case Struct =>
      var c := ReadHeader(pr, StructItems);
      if c.Err? {
        return Err(c.error);
      }
      return Ok(Struct(c.value));
    case List =>
      var c := ReadHeader(pr, ListItems);
      if c.Err? {
        return Err(c.error);
      }
      return Ok(List(c.value));
    case Array =>
      var c := ReadTypedHeader(pr, false);
      if c.Err? {
        return Err(c.error);
      }
      return Ok(Array(c.value));
    case Map =>
      var c := ReadTypedHeader(pr, true);
      if c.Err? {
        return Err(c.error);
      }
      return Ok(Map(c.value));
    case Compression => return Err(CompressionTagPanic);
  }

  method ReadValueArm(pr: PartialReader) returns (r: Result<PartialElement>)
    requires pr.Valid()
    modifies pr, pr.input
    ensures pr.Valid()
    ensures Ended(r, pr.Here()) == ValueArmAt(pr.input.data, old(pr.Here()))
  {
    var prefix := pr.ReadValueIdent();
    if prefix.Err? {
      return Err(prefix.error);
    }
    var value := pr.ReadValue(prefix.value);
    if value.Err? {
      return Err(value.error);
    }
    return Ok(Value(value.value));
  }

  method ReadVariantArm(pr: PartialReader) returns (r: Result<PartialElement>)
    requires pr.Valid()
    modifies pr, pr.input
    ensures pr.Valid()
    ensures Ended(r, pr.Here()) == VariantArmAt(pr.input.data, old(pr.Here()), pr.ident)
    decreases |pr.input.data| - pr.input.pos, 2
  {
    var name := pr.ReadTString();
    if name.Err? {
      return Err(name.error);
    }
    var value := ReadPartialElement(pr);
    if value.Err? {
      return Err(value.error);
    }
    return Ok(Variant(name.value, value.value));
  }

  method ReadHeader(pr: PartialReader, kind: ItemKind) returns (r: Result<Container>)
    requires pr.Valid()
    modifies pr, pr.input
    ensures pr.Valid()
    ensures Ended(r, pr.Here()) == HeaderAt(pr.input.data, old(pr.Here()), pr.ident, kind)
  {
    var size := pr.ReadLength();
    if size.Err? {
      return Err(size.error);
    }
    var pos := pr.pointer;
    var jumped := pr.Jump(size.value);
    if jumped.Err? {
      return Err(jumped.error);
    }
    return Ok(Container(pr.Pointer(pos, size.value), 0, kind));
  }

  method ReadTypedHeader(pr: PartialReader, keyed: bool) returns (r: Result<Container>)
    requires pr.Valid()
    modifies pr, pr.input
    ensures pr.Valid()
    ensures Ended(r, pr.Here()) == TypedHeaderAt(pr.input.data, old(pr.Here()), pr.ident, keyed)
  {
    var t := pr.ReadValueIdent();
    if t.Err? {
      return Err(t.error);
    }
    var kind := if keyed then MapItems(t.value) else ArrayItems(t.value);
    if t.value == I.Null {
      return Ok(Container(pr.EmptyPointer(), 0, kind));
    }
    r := ReadHeader(pr, kind);
  }
}
