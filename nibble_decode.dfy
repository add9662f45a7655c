/** The nibble-prefixed decoder as the source writes it: procedures that advance a
    Reader (src/decode/length.rs, src/decode/string.rs, src/decode/value.rs,
    src/decode/element.rs, src/decode/mod.rs). Each is proved to return what the
    matching function of NibbleDecodeSpec returns and to leave the cursor after
    what it read. */
module NibbleDecode {
  import opened Bytes
  import opened Wrappers
  import opened NibbleIdent
  import opened NibbleValues
  import opened NibbleReader
  import opened NibbleDecodeSpec
  import Utf8

  /** `read_var_length`. */
  method ReadVarLength(rd: Reader) returns (r: Result<nat>)
    requires rd.Valid()
    modifies rd
    ensures rd.Valid()
    ensures Outcome(r, rd.pos) == VarLengthAt(rd.data, old(rd.pos))
  {
    var a := rd.ReadOne();
    if a.Err? {
      return Err(a.error);
    }
    var size := a.value / 64;
    var length := (a.value % 64) * Pow256(size);
    var bytes := rd.ReadMany(size);
    if bytes.Err? {
      return Err(bytes.error);
    }
    var xs := bytes.value;
    for i := 0 to |xs|
      invariant length == (a.value % 64) * Pow256(size) + Shifted(xs[..i], size)
    {
      assert xs[..i + 1][..i] == xs[..i];
      length := length + xs[i] * Pow256(size - i);
    }
    assert xs[..|xs|] == xs;
    return Ok(length);
  }

  /** `read_string`. */
  method ReadString(rd: Reader) returns (r: Result<string>)
    requires rd.Valid()
    modifies rd
    ensures rd.Valid()
    ensures Outcome(r, rd.pos) == StringAt(rd.data, old(rd.pos))
  {
    var length := ReadVarLength(rd);
    if length.Err? {
      return Err(length.error);
    }
    var bytes := rd.ReadMany(length.value);
    if bytes.Err? {
      return Err(bytes.error);
    }
    match Utf8.Decode(bytes.value)
    case None => return Err(StringDecodeError(rd.pos - |bytes.value|));
    case Some(s) => return Ok(s);
  }

  /** `read_term_string`: bytes are collected until a zero byte, which is consumed. */
  method ReadTermString(rd: Reader) returns (r: Result<string>)
    requires rd.Valid()
    modifies rd
    ensures rd.Valid()
    ensures Outcome(r, rd.pos) == TermStringAt(rd.data, old(rd.pos))
  {
    var bytes: seq<byte> := [];
    while true
      invariant rd.Valid() && old(rd.pos) <= rd.pos
      invariant TermBytesAt(rd.data, old(rd.pos), []) == TermBytesAt(rd.data, rd.pos, bytes)
      decreases |rd.data| - rd.pos
    {
      var b := rd.ReadOne();
      if b.Err? {
        return Err(b.error);
      }
      if b.value == 0 {
        break;
      }
      bytes := bytes + [b.value];
    }
    match Utf8.Decode(bytes)
    case None => return Err(StringDecodeError(rd.pos - |bytes|));
    case Some(s) => return Ok(s);
  }

  /** `decode_value`. */
  method DecodeValue(i: ValueIdent, rd: Reader) returns (r: Result<NibbleValues.Value>)
    requires rd.Valid()
    modifies rd
    ensures rd.Valid()
    ensures Outcome(r, rd.pos) == ValueAt(i, rd.data, old(rd.pos))
  {
    Pow256Widths();
    match i
    case Boolean =>
      var b := rd.ReadOne();
      if b.Err? { return Err(b.error); }
      return Ok(Value.Boolean(b.value == 0x01));
    case Unsigned8 =>
      var b := rd.ReadOne();
      if b.Err? { return Err(b.error); }
      return Ok(Value.Unsigned8(b.value));
    case Unsigned16 =>
      var n := rd.ReadUnsigned(2);
      if n.Err? { return Err(n.error); }
      return Ok(Value.Unsigned16(n.value));
    case Unsigned32 =>
      var n := rd.ReadUnsigned(4);
      if n.Err? { return Err(n.error); }
      return Ok(Value.Unsigned32(n.value));
    case Unsigned64 =>
      var n := rd.ReadUnsigned(8);
      if n.Err? { return Err(n.error); }
      return Ok(Value.Unsigned64(n.value));
    case Unsigned128 =>
      var n := rd.ReadUnsigned(16);
      if n.Err? { return Err(n.error); }
      return Ok(Value.Unsigned128(n.value));
    case Signed8 =>
      var n := rd.ReadI8();
      if n.Err? { return Err(n.error); }
      return Ok(Value.Signed8(n.value));
    case Signed16 =>
      var n := rd.ReadSigned(2);
      if n.Err? { return Err(n.error); }
      return Ok(Value.Signed16(n.value));
    case Signed32 =>
      var n := rd.ReadSigned(4);
      if n.Err? { return Err(n.error); }
      return Ok(Value.Signed32(n.value));
    case Signed64 =>
      var n := rd.ReadSigned(8);
      if n.Err? { return Err(n.error); }
      return Ok(Value.Signed64(n.value));
    case Signed128 =>
      var n := rd.ReadSigned(16);
      if n.Err? { return Err(n.error); }
      return Ok(Value.Signed128(n.value));
    case Float32 =>
      var n := rd.ReadUnsigned(4);
      if n.Err? { return Err(n.error); }
      return Ok(Value.Float32(n.value));
    case Float64 =>
      var n := rd.ReadUnsigned(8);
      if n.Err? { return Err(n.error); }
      return Ok(Value.Float64(n.value));
    case String =>
      var s := ReadString(rd);
      if s.Err? { return Err(s.error); }
      return Ok(Value.String(s.value));
    case Char =>
      var s := ReadTermString(rd);
      if s.Err? { return Err(s.error); }
      if |s.value| == 0 { return Err(BadCharLength(rd.pos)); }
      return Ok(Value.Char(s.value[0]));
    case Bytes =>
      var n := ReadVarLength(rd);
      if n.Err? { return Err(n.error); }
      var b := rd.ReadMany(n.value);
      if b.Err? { return Err(b.error); }
      return Ok(Value.Bytes(b.value));
    case NIL =>
      return Err(LogicalDecodeError(rd.pos));
  }

  /** `decode_joint_prefix`. */
  method DecodeJointPrefix(rd: Reader) returns (r: Result<(ElementIdent, byte)>)
    requires rd.Valid()
    modifies rd
    ensures rd.Valid()
    ensures Outcome(r, rd.pos) == PrefixAt(rd.data, old(rd.pos))
  {
    var b := rd.ReadOne();
    if b.Err? {
      return Err(b.error);
    }
    var (hi, lo) := (b.value / 16, b.value % 16);
    match ParseElement(hi)
    case None => return Err(InvalidElementIdent(rd.pos - 1, hi));
    case Some(ident) => return Ok((ident, lo));
  }

  /** `decode_prefixed_element`. */
  method DecodePrefixedElement(rd: Reader) returns (r: Result<Element>)
    requires rd.Valid()
    modifies rd
    ensures rd.Valid()
    ensures Outcome(r, rd.pos) == PrefixedAt(rd.data, old(rd.pos))
    decreases |rd.data| - rd.pos, 0
  {
    var prefix := DecodeJointPrefix(rd);
    if prefix.Err? {
      return Err(prefix.error);
    }
    var (ident, operand) := prefix.value;
    r := DecodeElement(ident, operand, rd);
  }

  /** `decode_element`, called with the cursor just after the prefix byte. */
  method DecodeElement(ident: ElementIdent, operand: byte, rd: Reader) returns (r: Result<Element>)
    requires rd.Valid() && rd.pos > 0
    modifies rd
    ensures rd.Valid()
    ensures Outcome(r, rd.pos) == ElementAt(ident, operand, rd.data, old(rd.pos))
    decreases |rd.data| - rd.pos, 1
  {
    match ident
    case Unit =>
      return Ok(Element.Unit);
    case Value =>
      match ParseValue(operand) {
        case None =>
          return Err(InvalidValueIdent(rd.pos - 1, operand));
        case Some(vi) =>
          var v := DecodeValue(vi, rd);
          if v.Err? { return Err(v.error); }
          return Ok(Element.Value(v.value));
      }
    case Option =>
      if operand == 0x00 {
        return Ok(Opt(None));
      } else if operand == 0x01 {
        var e := DecodePrefixedElement(rd);
        if e.Err? { return Err(e.error); }
        return Ok(Opt(Some(e.value)));
      } else {
        return Err(InvalidElementOperand(rd.pos - 1, operand));
      }
    case Array =>
      var length := ReadVarLength(rd);
      if length.Err? { return Err(length.error); }
      var items := DecodeArrayItems(rd, length.value);
      if items.Err? { return Err(items.error); }
      return Ok(Element.Array(items.value));
    case Struct =>
      var length := ReadVarLength(rd);
      if length.Err? { return Err(length.error); }
      var fields := DecodeStructItems(rd, length.value);
      if fields.Err? { return Err(fields.error); }
      return Ok(Element.Struct(fields.value));
    case Variant =>
      var name := ReadString(rd);
      if name.Err? { return Err(name.error); }
      var inner := DecodePrefixedElement(rd);
      if inner.Err? { return Err(inner.error); }
      return Ok(Element.Variant(name.value, inner.value));
    case Map =>
      if operand == ValueCode(NIL) {
        return Ok(Element.Map(map[]));
      }
      match ParseValue(operand) {
        case None =>
          return Err(InvalidValueIdent(rd.pos - 1, operand));
        case Some(kt) =>
          var length := ReadVarLength(rd);
          if length.Err? { return Err(length.error); }
          var entries := DecodeMapItems(kt, rd, length.value);
          if entries.Err? { return Err(entries.error); }
          return Ok(Element.Map(entries.value));
      }
    case List =>
      if operand == ValueCode(NIL) {
        return Ok(Element.List([]));
      }
      match ParseValue(operand) {
        case None =>
          return Err(InvalidValueIdent(rd.pos - 1, operand));
        case Some(vt) =>
          var length := ReadVarLength(rd);
          if length.Err? { return Err(length.error); }
          var values := DecodeListItems(vt, rd, length.value);
          if values.Err? { return Err(values.error); }
          return Ok(Element.List(values.value));
      }
  }

  /** The Array loop of `decode_element`: n prefixed elements, pushed in order. */
  method DecodeArrayItems(rd: Reader, n: nat) returns (r: Result<seq<Element>>)
    requires rd.Valid()
    modifies rd
    ensures rd.Valid()
    ensures Outcome(r, rd.pos) == ArrayItemsAt(rd.data, old(rd.pos), n, [])
    decreases |rd.data| - rd.pos, 2
  {
    var items: seq<Element> := [];
    var left := n;
    ghost var goal := ArrayItemsAt(rd.data, rd.pos, n, []);
    while left > 0
      invariant rd.Valid() && old(rd.pos) <= rd.pos
      invariant goal == ArrayItemsAt(rd.data, rd.pos, left, items)
    {
      ghost var p0 := rd.pos;
      var e := DecodePrefixedElement(rd);
      if e.Err? {
        assert ArrayItemsAt(rd.data, p0, left, items) == Failed(e.error);
        return Err(e.error);
      }
      var more := items + [e.value];
      var rest := left - 1;
      assert ArrayItemsAt(rd.data, p0, left, items) == ArrayItemsAt(rd.data, rd.pos, rest, more);
      items, left := more, rest;
    }
    return Ok(items);
  }

  /** One Struct entry. */
  method DecodeStructEntry(rd: Reader) returns (r: Result<(string, Element)>)
    requires rd.Valid()
    modifies rd
    ensures rd.Valid()
    ensures Outcome(r, rd.pos) == StructEntryAt(rd.data, old(rd.pos))
    decreases |rd.data| - rd.pos, 2
  {
    var key := ReadString(rd);
    if key.Err? {
      return Err(key.error);
    }
    var e := DecodePrefixedElement(rd);
    if e.Err? {
      return Err(e.error);
    }
    return Ok((key.value, e.value));
  }

  /** The Struct loop of `decode_element`: a later entry for a key replaces an earlier one. */
  method DecodeStructItems(rd: Reader, n: nat) returns (r: Result<map<string, Element>>)
    requires rd.Valid()
    modifies rd
    ensures rd.Valid()
    ensures Outcome(r, rd.pos) == StructItemsAt(rd.data, old(rd.pos), n, map[])
    decreases |rd.data| - rd.pos, 3
  {
    var fields: map<string, Element> := map[];
    var left := n;
    ghost var goal := StructItemsAt(rd.data, rd.pos, n, map[]);
    while left > 0
      invariant rd.Valid() && old(rd.pos) <= rd.pos
      invariant goal == StructItemsAt(rd.data, rd.pos, left, fields)
    {
      ghost var p0 := rd.pos;
      var entry := DecodeStructEntry(rd);
      if entry.Err? {
        StructItemsStop(rd.data, p0, left, fields, entry.error);
        return Err(entry.error);
      }
      var key, e := entry.value.0, entry.value.1;
      StructItemsStep(rd.data, p0, left, fields, key, e, rd.pos);
      fields, left := fields[key := e], left - 1;
    }
    return Ok(fields);
  }

  /** One Map entry, failing where inserting it would panic. */
  method DecodeMapEntry(kt: ValueIdent, rd: Reader) returns (r: Result<(NibbleValues.Value, Element)>)
    requires rd.Valid()
    modifies rd
    ensures rd.Valid()
    ensures Outcome(r, rd.pos) == MapEntryAt(kt, rd.data, old(rd.pos))
    decreases |rd.data| - rd.pos, 2
  {
    var key := DecodeValue(kt, rd);
    if key.Err? {
      return Err(key.error);
    }
    var e := DecodePrefixedElement(rd);
    if e.Err? {
      return Err(e.error);
    }
    if !CanHash(key.value) {
      return Err(HashPanic(rd.pos));
    }
    return Ok((key.value, e.value));
  }

  /** The Map loop of `decode_element`: each key is a bare value of type kt. */
  method DecodeMapItems(kt: ValueIdent, rd: Reader, n: nat) returns (r: Result<map<NibbleValues.Value, Element>>)
    requires rd.Valid()
    modifies rd
    ensures rd.Valid()
    ensures Outcome(r, rd.pos) == MapItemsAt(kt, rd.data, old(rd.pos), n, map[])
    decreases |rd.data| - rd.pos, 3
  {
    var entries: map<NibbleValues.Value, Element> := map[];
    var left := n;
    ghost var goal := MapItemsAt(kt, rd.data, rd.pos, n, map[]);
    while left > 0
      invariant rd.Valid() && old(rd.pos) <= rd.pos
      invariant goal == MapItemsAt(kt, rd.data, rd.pos, left, entries)
    {
      ghost var p0 := rd.pos;
      var entry := DecodeMapEntry(kt, rd);
      if entry.Err? {
        MapItemsStop(kt, rd.data, p0, left, entries, entry.error);
        return Err(entry.error);
      }
      var key, e := entry.value.0, entry.value.1;
      MapItemsStep(kt, rd.data, p0, left, entries, key, e, rd.pos);
      entries, left := entries[key := e], left - 1;
    }
    return Ok(entries);
  }

  /** The List loop of `decode_element`: n bare values of type vt. */
  method DecodeListItems(vt: ValueIdent, rd: Reader, n: nat) returns (r: Result<seq<NibbleValues.Value>>)
    requires rd.Valid()
    modifies rd
    ensures rd.Valid()
    ensures Outcome(r, rd.pos) == ListItemsAt(vt, rd.data, old(rd.pos), n, [])
  {
    var values: seq<NibbleValues.Value> := [];
    var left := n;
    ghost var goal := ListItemsAt(vt, rd.data, rd.pos, n, []);
    while left > 0
      invariant rd.Valid()
      invariant goal == ListItemsAt(vt, rd.data, rd.pos, left, values)
    {
      ghost var p0 := rd.pos;
      var v := DecodeValue(vt, rd);
      if v.Err? {
        assert ListItemsAt(vt, rd.data, p0, left, values) == Failed(v.error);
        return Err(v.error);
      }
      var more := values + [v.value];
      var rest := left - 1;
      assert ListItemsAt(vt, rd.data, p0, left, values) == ListItemsAt(vt, rd.data, rd.pos, rest, more);
      values, left := more, rest;
    }
    return Ok(values);
  }

  /** `decode`: a fresh reader over the input, one prefixed element. */
  method DecodeBytes(data: seq<byte>) returns (r: Result<Element>)
    ensures r == Decode(data)
  {
    var rd := new Reader.Create(data);
    r := DecodePrefixedElement(rd);
  }
}
