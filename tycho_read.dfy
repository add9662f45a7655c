/** The reader of the byte-prefixed format as the source writes it: procedures that
    consume an Input (src/read/length.rs, src/read/string.rs, src/read/number.rs,
    src/read/value.rs, src/read/element.rs). Each is proved to return what the
    matching function of TychoReadSpec returns and to leave the stream just after what
    it read. */
module TychoRead {
  import opened Bytes
  import opened Wrappers
  import opened TychoErrors
  import I = TychoIdent
  import opened TychoValues
  import opened TychoInput
  import opened TychoReadSpec
  import Utf8

  /** `read_length`: seven bits per byte, least significant group first, until a byte
      with its high bit clear. */
  method ReadLength(rd: Input) returns (r: Result<nat>)
    requires rd.Valid()
    modifies rd
    ensures rd.Valid()
    ensures old(rd.pos) <= rd.pos
    ensures Outcome(r, rd.pos) == LengthAt(rd.data, old(rd.pos), 0, 0)
  {
    var number: nat := 0;
    var count: nat := 0;
    while true
      invariant rd.Valid()
      invariant old(rd.pos) <= rd.pos
      invariant LengthAt(rd.data, old(rd.pos), 0, 0) == LengthAt(rd.data, rd.pos, count, number)
      decreases |rd.data| - rd.pos
    {
      var byte := ReadByte(rd);
      if byte.Err? {
        return Err(byte.error);
      }
      if count >= 10 {
        return Err(ShiftOverflowPanic);
      }
      number := number + Group(byte.value, count);
      if byte.value < 0x80 {
        return Ok(number);
      }
      count := count + 1;
    }
  }

  /** A length, then that many bytes. */
  method ReadFramed(rd: Input) returns (r: Result<seq<byte>>)
    requires rd.Valid()
    modifies rd
    ensures rd.Valid()
    ensures old(rd.pos) <= rd.pos
    ensures Outcome(r, rd.pos) == FramedAt(rd.data, old(rd.pos))
  {
    var length := ReadLength(rd);
    if length.Err? {
      return Err(length.error);
    }
    r := ReadBytes(rd, length.value);
  }

  /** `read_string`. */
  method ReadString(rd: Input) returns (r: Result<string>)
    requires rd.Valid()
    modifies rd
    ensures rd.Valid()
    ensures old(rd.pos) <= rd.pos
    ensures Outcome(r, rd.pos) == StringAt(rd.data, old(rd.pos))
  {
    var bytes := ReadFramed(rd);
    if bytes.Err? {
      return Err(bytes.error);
    }
    match Utf8.Decode(bytes.value)
    case None => return Err(StringError);
    case Some(s) => return Ok(s);
  }

  /** `read_tstring`: bytes are collected until a zero byte, which is consumed. */
  method ReadTString(rd: Input) returns (r: Result<string>)
    requires rd.Valid()
    modifies rd
    ensures rd.Valid()
    ensures old(rd.pos) <= rd.pos
    ensures Outcome(r, rd.pos) == TStringAt(rd.data, old(rd.pos))
  {
    var buffer: seq<byte> := [];
    while true
      invariant rd.Valid()
      invariant old(rd.pos) <= rd.pos
      invariant TBytesAt(rd.data, old(rd.pos), []) == TBytesAt(rd.data, rd.pos, buffer)
      decreases |rd.data| - rd.pos
    {
      var byte := ReadByte(rd);
      if byte.Err? {
        return Err(byte.error);
      }
      if byte.value == 0x00 {
        break;
      }
      buffer := buffer + [byte.value];
    }
    match Utf8.Decode(buffer)
    case None => return Err(StringError);
    case Some(s) => return Ok(s);
  }

  /** `read_char`. */
  method ReadChar(rd: Input) returns (r: Result<char>)
    requires rd.Valid()
    modifies rd
    ensures rd.Valid()
    ensures old(rd.pos) <= rd.pos
    ensures Outcome(r, rd.pos) == CharAt(rd.data, old(rd.pos))
  {
    var buffer: seq<byte> := [];
    var byte := ReadByte(rd);
    if byte.Err? {
      return Err(byte.error);
    }
    if byte.value < 0x80 {
      buffer := [byte.value];
    } else {
      var more := ReadBytes(rd, ExtraCount(byte.value));
      if more.Err? {
        return Err(more.error);
      }
      buffer := more.value;
    }
    assert CharAt(rd.data, old(rd.pos)) == FirstChar(buffer, rd.pos);
    match Utf8.Decode(buffer)
    case None => return Err(StringError);
    case Some(s) =>
      if s == [] {
        return Err(EmptyCharPanic);
      }
      return Ok(s[0]);
  }

  /** `read_number_ident`. */
  method ReadNumberIdent(rd: Input) returns (r: Result<I.NumberIdent>)
    requires rd.Valid()
    modifies rd
    ensures rd.Valid()
    ensures old(rd.pos) <= rd.pos
    ensures Outcome(r, rd.pos) == NumberIdentAt(rd.data, old(rd.pos))
  {
    var byte := ReadByte(rd);
    if byte.Err? {
      return Err(byte.error);
    }
    match I.ParseNumber(byte.value)
    case None => return Err(InvalidIdent(byte.value, "number ident"));
    case Some(n) => return Ok(n);
  }

  /** The big-endian reads of the byteorder crate. */
  method ReadUnsigned(rd: Input, w: nat) returns (r: Result<nat>)
    requires rd.Valid()
    modifies rd
    ensures rd.Valid()
    ensures old(rd.pos) <= rd.pos
    ensures Outcome(r, rd.pos) == UnsignedAt(rd.data, old(rd.pos), w)
  {
    var bytes := ReadBytes(rd, w);
    if bytes.Err? {
      return Err(bytes.error);
    }
    return Ok(BeValue(bytes.value));
  }

  method ReadSigned(rd: Input, w: nat) returns (r: Result<int>)
    requires rd.Valid() && w > 0
    modifies rd
    ensures rd.Valid()
    ensures old(rd.pos) <= rd.pos
    ensures Outcome(r, rd.pos) == SignedAt(rd.data, old(rd.pos), w)
  {
    var bytes := ReadBytes(rd, w);
    if bytes.Err? {
      return Err(bytes.error);
    }
    return Ok(FromTwos(BeValue(bytes.value), w));
  }

  /** `read_number`. */
  method ReadNumber(rd: Input, n: I.NumberIdent) returns (r: Result<Number>)
    requires rd.Valid()
    modifies rd
    ensures rd.Valid()
    ensures old(rd.pos) <= rd.pos
    ensures Outcome(r, rd.pos) == NumberAt(n, rd.data, old(rd.pos))
  {
    Pow256Widths();
    match n
    case Bit =>
      var byte := ReadByte(rd);
      if byte.Err? { return Err(byte.error); }
      return Ok(Bit(byte.value == 0x00));
    case Unsigned8 =>
      var x := ReadUnsigned(rd, 1);
      if x.Err? { return Err(x.error); }
      return Ok(Unsigned8(x.value));
    case Signed8 =>
      var x := ReadSigned(rd, 1);
      if x.Err? { return Err(x.error); }
      return Ok(Signed8(x.value));
    case Unsigned16 =>
      var x := ReadUnsigned(rd, 2);
      if x.Err? { return Err(x.error); }
      return Ok(Unsigned16(x.value));
    case Signed16 =>
      var x := ReadSigned(rd, 2);
      if x.Err? { return Err(x.error); }
      return Ok(Signed16(x.value));
    case Unsigned32 =>
      var x := ReadUnsigned(rd, 4);
      if x.Err? { return Err(x.error); }
      return Ok(Unsigned32(x.value));
    case Signed32 =>
      var x := ReadSigned(rd, 4);
      if x.Err? { return Err(x.error); }
      return Ok(Signed32(x.value));
    case Unsigned64 =>
      var x := ReadUnsigned(rd, 8);
      if x.Err? { return Err(x.error); }
      return Ok(Unsigned64(x.value));
    case Signed64 =>
      var x := ReadSigned(rd, 8);
      if x.Err? { return Err(x.error); }
      return Ok(Signed64(x.value));
    case Unsigned128 =>
      var x := ReadUnsigned(rd, 16);
      if x.Err? { return Err(x.error); }
      return Ok(Unsigned128(x.value));
    case Signed128 =>
      var x := ReadSigned(rd, 16);
      if x.Err? { return Err(x.error); }
      return Ok(Signed128(x.value));
    case Float32 =>
      var x := ReadUnsigned(rd, 4);
      if x.Err? { return Err(x.error); }
      return Ok(Float32(x.value));
    case Float64 =>
      var x := ReadUnsigned(rd, 8);
      if x.Err? { return Err(x.error); }
      return Ok(Float64(x.value));
  }

  /** `read_value_ident`. */
  method ReadValueIdent(rd: Input) returns (r: Result<I.ValueIdent>)
    requires rd.Valid()
    modifies rd
    ensures rd.Valid()
    ensures old(rd.pos) <= rd.pos
    ensures Outcome(r, rd.pos) == ValueIdentAt(rd.data, old(rd.pos))
  {
    var byte := ReadByte(rd);
    if byte.Err? {
      return Err(byte.error);
    }
    if byte.value == 0x04 {
      var n := ReadNumberIdent(rd);
      if n.Err? { return Err(n.error); }
      return Ok(I.Number(n.value));
    }
    match I.ParseValueTag(byte.value)
    case None => return Err(InvalidIdent(byte.value, "value ident"));
    case Some(t) => return Ok(t);
  }

  /** `read_value`. */
  method ReadValue(rd: Input, t: I.ValueIdent) returns (r: Result<Value>)
    requires rd.Valid()
    modifies rd
    ensures rd.Valid()
    ensures old(rd.pos) <= rd.pos
    ensures Outcome(r, rd.pos) == ValueAt(t, rd.data, old(rd.pos))
  {
    Pow256Widths();
    match t
    case Null =>
      return Ok(Null);
    case Boolean =>
      var byte := ReadByte(rd);
      if byte.Err? { return Err(byte.error); }
      return Ok(Boolean(byte.value == 0x01));
    case String =>
      var s := ReadString(rd);
      if s.Err? { return Err(s.error); }
      return Ok(String(s.value));
    case Char =>
      var c := ReadChar(rd);
      if c.Err? { return Err(c.error); }
      return Ok(Char(c.value));
    case Number(n) =>
      var x := ReadNumber(rd, n);
      if x.Err? { return Err(x.error); }
      return Ok(Number(x.value));
    case Bytes =>
      var b := ReadFramed(rd);
      if b.Err? { return Err(b.error); }
      return Ok(Bytes(b.value));
    case UUID =>
      var u := ReadUnsigned(rd, 16);
      if u.Err? { return Err(u.error); }
      return Ok(UUID(u.value));
  }

  /** `read_element_ident`. */
  method ReadElementIdent(rd: Input) returns (r: Result<I.ElementIdent>)
    requires rd.Valid()
    modifies rd
    ensures rd.Valid()
    ensures old(rd.pos) <= rd.pos
    ensures Outcome(r, rd.pos) == ElementIdentAt(rd.data, old(rd.pos))
  {
    var byte := ReadByte(rd);
    if byte.Err? {
      return Err(byte.error);
    }
    match I.ParseElementTag(byte.value)
    case None => return Err(InvalidIdent(byte.value, "element ident"));
    case Some(id) => return Ok(id);
  }

  /** `read_element`. */
  method ReadElement(rd: Input) returns (r: Result<Element>)
    requires rd.Valid()
    modifies rd
    ensures rd.Valid()
    ensures Outcome(r, rd.pos) == ElementAt(rd.data, old(rd.pos))
    decreases |rd.data| - rd.pos, 3
  {
    var id := ReadElementIdent(rd);
    if id.Err? {
      return Err(id.error);
    }
    match id.value
    case Unit =>
      return Ok(Unit);
    case Value =>
      var t := ReadValueIdent(rd);
      if t.Err? { return Err(t.error); }
      var v := ReadValue(rd, t.value);
      if v.Err? { return Err(v.error); }
      return Ok(Element.Value(v.value));
    case Some =>
      var x := ReadElement(rd);
      if x.Err? { return Err(x.error); }
      return Ok(Opt(Some(x.value)));
    case None =>
      return Ok(Opt(None));
    case Variant =>
      var name := ReadTString(rd);
      if name.Err? { return Err(name.error); }
      var x := ReadElement(rd);
      if x.Err? { return Err(x.error); }
      return Ok(Element.Variant(name.value, x.value));
    case Struct =>
      r := ReadStruct(rd);
    case List =>
      r := ReadList(rd);
    case Array =>
      r := ReadArray(rd);
    case Map =>
      r := ReadMap(rd);
    case Compression =>
      r := ReadCompression(rd);
  }

  /** The Struct arm: the body is read whole and its entries parsed from a cursor
      over it. */
  method ReadStruct(rd: Input) returns (r: Result<Element>)
    requires rd.Valid()
    modifies rd
    ensures rd.Valid()
    ensures Outcome(r, rd.pos) == StructAt(rd.data, old(rd.pos))
    decreases |rd.data| - rd.pos, 2
  {
    var bytes := ReadFramed(rd);
    if bytes.Err? {
      return Err(bytes.error);
    }
    var buffer := new Input(bytes.value);
    var items := ReadStructItems(buffer);
    if items.Err? {
      return Err(items.error);
    }
    return Ok(Element.Struct(items.value));
  }

  /** The Struct loop: until the cursor is at the end of the body, a terminated key and
      an element, inserted into the map. */
  method ReadStructItems(buffer: Input) returns (r: Result<map<string, Element>>)
    requires buffer.Valid()
    modifies buffer
    ensures Returned(StructItemsAt(buffer.data, old(buffer.pos), map[])) == r
    decreases |buffer.data| - buffer.pos, 4
  {
    var items: map<string, Element> := map[];
    ghost var goal := StructItemsAt(buffer.data, buffer.pos, map[]);
    while buffer.pos != |buffer.data|
      invariant buffer.Valid() && old(buffer.pos) <= buffer.pos
      invariant goal == StructItemsAt(buffer.data, buffer.pos, items)
      decreases |buffer.data| - buffer.pos
    {
      var key := ReadTString(buffer);
      if key.Err? {
        return Err(key.error);
      }
      var value := ReadElement(buffer);
      if value.Err? {
        return Err(value.error);
      }
      items := items[key.value := value.value];
    }
    return Ok(items);
  }

  /** The List arm. */
  method ReadList(rd: Input) returns (r: Result<Element>)
    requires rd.Valid()
    modifies rd
    ensures rd.Valid()
    ensures Outcome(r, rd.pos) == ListAt(rd.data, old(rd.pos))
    decreases |rd.data| - rd.pos, 2
  {
    var bytes := ReadFramed(rd);
    if bytes.Err? {
      return Err(bytes.error);
    }
    var buffer := new Input(bytes.value);
    var items := ReadListItems(buffer);
    if items.Err? {
      return Err(items.error);
    }
    return Ok(Element.List(items.value));
  }

  /** The List loop: elements pushed in order until the end of the body. */
  method ReadListItems(buffer: Input) returns (r: Result<seq<Element>>)
    requires buffer.Valid()
    modifies buffer
    ensures Returned(ListItemsAt(buffer.data, old(buffer.pos), [])) == r
    decreases |buffer.data| - buffer.pos, 4
  {
    var items: seq<Element> := [];
    ghost var goal := ListItemsAt(buffer.data, buffer.pos, []);
    while buffer.pos != |buffer.data|
      invariant buffer.Valid() && old(buffer.pos) <= buffer.pos
      invariant goal == ListItemsAt(buffer.data, buffer.pos, items)
      decreases |buffer.data| - buffer.pos
    {
      var item := ReadElement(buffer);
      if item.Err? {
        return Err(item.error);
      }
      items := items + [item.value];
    }
    return Ok(items);
  }

  /** The Array arm. */
  method ReadArray(rd: Input) returns (r: Result<Element>)
    requires rd.Valid()
    modifies rd
    ensures rd.Valid()
    ensures Outcome(r, rd.pos) == ArrayAt(rd.data, old(rd.pos))
    decreases |rd.data| - rd.pos, 2
  {
    var t := ReadValueIdent(rd);
    if t.Err? {
      return Err(t.error);
    }
    if t.value == I.Null {
      return Ok(Element.Array(I.Null, []));
    }
    var bytes := ReadFramed(rd);
    if bytes.Err? {
      return Err(bytes.error);
    }
    var buffer := new Input(bytes.value);
    var items := ReadArrayItems(buffer, t.value);
    if items.Err? {
      return Err(items.error);
    }
    return Ok(Element.Array(t.value, items.value));
  }

  /** The Array loop: bare values of the array's type until the end of the body. */
  method ReadArrayItems(buffer: Input, t: I.ValueIdent) returns (r: Result<seq<Value>>)
    requires buffer.Valid() && t != I.Null
    modifies buffer
    ensures Returned(ArrayItemsAt(t, buffer.data, old(buffer.pos), [])) == r
  {
    var items: seq<Value> := [];
    ghost var goal := ArrayItemsAt(t, buffer.data, buffer.pos, []);
    while buffer.pos != |buffer.data|
      invariant buffer.Valid()
      invariant goal == ArrayItemsAt(t, buffer.data, buffer.pos, items)
      decreases |buffer.data| - buffer.pos
    {
      var item := ReadValue(buffer, t);
      if item.Err? {
        return Err(item.error);
      }
      items := items + [item.value];
    }
    return Ok(items);
  }

  /** The Map arm. */
  method ReadMap(rd: Input) returns (r: Result<Element>)
    requires rd.Valid()
    modifies rd
    ensures rd.Valid()
    ensures Outcome(r, rd.pos) == MapAt(rd.data, old(rd.pos))
    decreases |rd.data| - rd.pos, 2
  {
    var t := ReadValueIdent(rd);
    if t.Err? {
      return Err(t.error);
    }
    if t.value == I.Null {
      return Ok(Element.Map(I.Null, map[]));
    }
    var bytes := ReadFramed(rd);
    if bytes.Err? {
      return Err(bytes.error);
    }
    var buffer := new Input(bytes.value);
    var items := ReadMapItems(buffer, t.value);
    if items.Err? {
      return Err(items.error);
    }
    return Ok(Element.Map(t.value, items.value));
  }

  /** The Map loop: a bare key of the map's type and an element, inserted, until the
      end of the body. */
  method ReadMapItems(buffer: Input, t: I.ValueIdent) returns (r: Result<map<Value, Element>>)
    requires buffer.Valid() && t != I.Null
    modifies buffer
    ensures Returned(MapItemsAt(t, buffer.data, old(buffer.pos), map[])) == r
    decreases |buffer.data| - buffer.pos, 4
  {
    var items: map<Value, Element> := map[];
    ghost var goal := MapItemsAt(t, buffer.data, buffer.pos, map[]);
    while buffer.pos != |buffer.data|
      invariant buffer.Valid() && old(buffer.pos) <= buffer.pos
      invariant goal == MapItemsAt(t, buffer.data, buffer.pos, items)
      decreases |buffer.data| - buffer.pos
    {
      var key := ReadValue(buffer, t);
      if key.Err? {
        return Err(key.error);
      }
      var value := ReadElement(buffer);
      if value.Err? {
        return Err(value.error);
      }
      items := items[key.value := value.value];
    }
    return Ok(items);
  }

  /** The Compression arm: one element read from a cursor over the framed body. */
  method ReadCompression(rd: Input) returns (r: Result<Element>)
    requires rd.Valid()
    modifies rd
    ensures rd.Valid()
    ensures Outcome(r, rd.pos) == CompressionAt(rd.data, old(rd.pos))
    decreases |rd.data| - rd.pos, 2
  {
    var bytes := ReadFramed(rd);
    if bytes.Err? {
      return Err(bytes.error);
    }
    var buffer := new Input(bytes.value);
    var x := ReadElement(buffer);
    if x.Err? {
      return Err(x.error);
    }
    return Ok(Compression(x.value));
  }
}
