/** The writer of the byte-prefixed format: src/write/func.rs, src/write/length.rs,
    src/write/string.rs, src/write/number.rs, src/write/value.rs and
    src/write/element.rs. Each method appends to the writer's buffer exactly the bytes
    TychoFormat gives for its argument. */
module TychoWrite {
  import opened Bytes
  import opened Wrappers
  import opened TychoValues
  import opened TychoFormat
  import I = TychoIdent
  import Utf8

  /** A growable byte buffer: the `Vec<u8>` the public entry points write to, or the
      `BufWriter` over one that a container arm fills before framing it. Writing to it
      cannot fail. */
  class Writer {
    var buf: seq<byte>

    constructor ()
      ensures buf == []
    {
      buf := [];
    }
  }

  /** `write_byte`. */
  method WriteByte(w: Writer, b: byte)
    modifies w
    ensures w.buf == old(w.buf) + [b]
  {
    w.buf := w.buf + [b];
  }

  /** `write_bytes`: the slice, unchanged. */
  method WriteBytes(w: Writer, bytes: seq<byte>)
    modifies w
    ensures w.buf == old(w.buf) + bytes
  {
    w.buf := w.buf + bytes;
  }

  /** `write_length`: seven bits at a time, least significant first; the high bit marks
      that more bytes follow. */
  method WriteLength(w: Writer, n: nat)
    modifies w
    ensures w.buf == old(w.buf) + Leb128(n)
  {
    var length := n;
    while true
      invariant old(w.buf) + Leb128(n) == w.buf + Leb128(length)
      decreases length
    {
      var write := length % 0x80;
      length := length / 0x80;
      if length == 0 {
        WriteByte(w, write);
        return;
      } else {
        WriteByte(w, write + 0x80);
      }
    }
  }

  /** `write_buffer`: the length of the buffered bytes, then the bytes. */
  method WriteBuffer(w: Writer, bytes: seq<byte>)
    modifies w
    ensures w.buf == old(w.buf) + Framed(bytes)
  {
    WriteLength(w, |bytes|);
    WriteBytes(w, bytes);
  }

  /** `write_string`. */
  method WriteString(w: Writer, s: string)
    modifies w
    ensures w.buf == old(w.buf) + StringBytes(s)
  {
    var bytes := Utf8.Encode(s);
    WriteLength(w, |bytes|);
    WriteBytes(w, bytes);
  }

  /** `write_tstring`. */
  method WriteTString(w: Writer, s: string)
    modifies w
    ensures w.buf == old(w.buf) + TStringBytes(s)
  {
    WriteBytes(w, Utf8.Encode(s));
    WriteByte(w, 0x00);
  }

  /** `write_char`. */
  method WriteChar(w: Writer, c: char)
    modifies w
    ensures w.buf == old(w.buf) + CharBytes(c)
  {
    WriteBytes(w, Utf8.EncodeChar(c));
  }

  /** `write_number_ident`. */
  method WriteNumberIdent(w: Writer, n: I.NumberIdent)
    modifies w
    ensures w.buf == old(w.buf) + [I.NumberCode(n)]
  {
    WriteByte(w, I.NumberCode(n));
  }

  /** `write_number`. */
  method WriteNumber(w: Writer, n: Number)
    modifies w
    ensures w.buf == old(w.buf) + NumberBytes(n)
  {
    Pow256Widths();
    match n
    case Bit(b) =>
      if b { WriteByte(w, 0x01); } else { WriteByte(w, 0x00); }
    case Unsigned8(x) => WriteBytes(w, BeBytes(x, 1));
    case Signed8(x) => WriteBytes(w, BeBytes(ToTwos(x, 1), 1));
    case Unsigned16(x) => WriteBytes(w, BeBytes(x, 2));
    case Signed16(x) => WriteBytes(w, BeBytes(ToTwos(x, 2), 2));
    case Unsigned32(x) => WriteBytes(w, BeBytes(x, 4));
    case Signed32(x) => WriteBytes(w, BeBytes(ToTwos(x, 4), 4));
    case Unsigned64(x) => WriteBytes(w, BeBytes(x, 8));
    case Signed64(x) => WriteBytes(w, BeBytes(ToTwos(x, 8), 8));
    case Unsigned128(x) => WriteBytes(w, BeBytes(x, 16));
    case Signed128(x) => WriteBytes(w, BeBytes(ToTwos(x, 16), 16));
    case Float32(bits) => WriteBytes(w, BeBytes(bits, 4));
    case Float64(bits) => WriteBytes(w, BeBytes(bits, 8));
  }

  /** `write_value_ident`. */
  method WriteValueIdent(w: Writer, v: I.ValueIdent)
    modifies w
    ensures w.buf == old(w.buf) + I.ValueIdentBytes(v)
  {
    match v
    case Null => WriteByte(w, 0x00);
    case Boolean => WriteByte(w, 0x01);
    case String => WriteByte(w, 0x02);
    case Char => WriteByte(w, 0x03);
    case Number(n) =>
      WriteByte(w, 0x04);
      WriteNumberIdent(w, n);
    case Bytes => WriteByte(w, 0x05);
    case UUID => WriteByte(w, 0x06);
  }

  /** `write_value`. */
  method WriteValue(w: Writer, v: Value)
    modifies w
    ensures w.buf == old(w.buf) + ValueBytes(v)
  {
    Pow256Widths();
    match v
    case Null =>
    case Boolean(b) =>
      if b { WriteByte(w, 0x01); } else { WriteByte(w, 0x00); }
    case String(s) => WriteString(w, s);
    case Char(c) => WriteChar(w, c);
    case Number(n) => WriteNumber(w, n);
    case Bytes(b) =>
      WriteLength(w, |b|);
      WriteBytes(w, b);
    case UUID(u) => WriteBytes(w, BeBytes(u, 16));
  }

  lemma Associate(a: seq<byte>, b: seq<byte>, c: seq<byte>)
    ensures a + b + c == a + (b + c)
  {
  }

  /** `write_element`. The hash maps of Struct and Map are visited in the order `ord`
      gives for their key sets; the container arms are the methods below. */
  method WriteElement(w: Writer, e: Element, ord: Orders)
    modifies w
    ensures w.buf == old(w.buf) + ElementBytes(e, ord)
    decreases e, 1
  {
    match e
    case Unit => WriteByte(w, 0x00);
    case Value(v) => WriteValueElement(w, e, ord);
    case Opt(x) => WriteOpt(w, e, ord);
    case Variant(name, x) => WriteVariant(w, e, ord);
    case Struct(_) => WriteStruct(w, e, ord);
    case List(_) => WriteList(w, e, ord);
    case Array(_, _) => WriteArray(w, e, ord);
    case Map(_, _) => WriteMap(w, e, ord);
    case Compression(x) => WriteCompression(w, e, ord);
  }

  /** The Option arm: None is its tag alone; Some is its tag, then the element. */
  method WriteOpt(w: Writer, e: Element, ord: Orders)
    requires e.Opt?
    modifies w
    ensures w.buf == old(w.buf) + ElementBytes(e, ord)
    decreases e, 0, 1
  {
    if e.option.None? {
      WriteByte(w, 0x02);
    } else {
      WriteByte(w, 0x03);
      WriteElement(w, e.option.value, ord);
      Associate(old(w.buf), [0x03], ElementBytes(e.option.value, ord));
    }
  }

  /** The Compression arm: the inner element, written on its own and framed. */
  method WriteCompression(w: Writer, e: Element, ord: Orders)
    requires e.Compression?
    modifies w
    ensures w.buf == old(w.buf) + ElementBytes(e, ord)
    decreases e, 0, 1
  {
    WriteByte(w, 0xF0);
    var body := CompressionBuffer(e.inner, ord);
    WriteBuffer(w, body);
    Associate(old(w.buf), [0xF0], Framed(body));
  }

  /** The Value arm: the value's ident, then its body. */
  method WriteValueElement(w: Writer, e: Element, ord: Orders)
    requires e.Value?
    modifies w
    ensures w.buf == old(w.buf) + ElementBytes(e, ord)
  {
    WriteByte(w, 0x01);
    WriteValueIdent(w, ValueIdentOf(e.value));
    WriteValue(w, e.value);
  }

  /** The Variant arm: the terminated name, then the inner element. */
  method WriteVariant(w: Writer, e: Element, ord: Orders)
    requires e.Variant?
    modifies w
    ensures w.buf == old(w.buf) + ElementBytes(e, ord)
    decreases e, 0, 1
  {
    WriteByte(w, 0x04);
    WriteTString(w, e.name);
    WriteElement(w, e.inner, ord);
    Associate(old(w.buf) + [0x04], TStringBytes(e.name), ElementBytes(e.inner, ord));
    Associate(old(w.buf), [0x04], TStringBytes(e.name) + ElementBytes(e.inner, ord));
  }

  /** The Compression arm's buffer: the inner element, written on its own. */
  method CompressionBuffer(x: Element, ord: Orders) returns (body: seq<byte>)
    ensures body == ElementBytes(x, ord)
    decreases x, 2
  {
    var buffer := new Writer();
    WriteElement(buffer, x, ord);
    body := buffer.buf;
  }

  /** The Struct arm: each key terminated, then its element, into a buffer that is then
      framed. */
  method WriteStruct(w: Writer, e: Element, ord: Orders)
    requires e.Struct?
    modifies w
    ensures w.buf == old(w.buf) + ElementBytes(e, ord)
    decreases e, 0, 2
  {
    WriteByte(w, 0x05);
    var body := StructBuffer(e, ord);
    WriteBuffer(w, body);
    Associate(old(w.buf), [0x05], Framed(body));
  }

  /** The Struct arm's buffer. */
  method StructBuffer(e: Element, ord: Orders) returns (body: seq<byte>)
    requires e.Struct?
    ensures body == StructBody(e, ord.fields(e.fields.Keys), ord)
    decreases e, 0, 1
  {
    var buffer := new Writer();
    var keys := ord.fields(e.fields.Keys);
    for i := 0 to |keys|
      invariant buffer.buf + StructBody(e, keys[i..], ord) == StructBody(e, keys, ord)
    {
      ghost var before := buffer.buf;
      WriteField(buffer, e, keys[i], ord);
      StructBodyStep(e, keys, i, ord);
      Associate(before, FieldBytes(e, keys[i], ord), StructBody(e, keys[i + 1..], ord));
    }
    body := buffer.buf;
  }

  /** One struct entry: the terminated name, then the element. */
  method WriteField(w: Writer, e: Element, k: string, ord: Orders)
    requires e.Struct?
    modifies w
    ensures w.buf == old(w.buf) + FieldBytes(e, k, ord)
    decreases e, 0, 0
  {
    if k in e.fields {
      WriteTString(w, k);
      WriteElement(w, e.fields[k], ord);
      Associate(old(w.buf), TStringBytes(k), ElementBytes(e.fields[k], ord));
    }
  }

  /** The List arm: the items in order, framed. */
  method WriteList(w: Writer, e: Element, ord: Orders)
    requires e.List?
    modifies w
    ensures w.buf == old(w.buf) + ElementBytes(e, ord)
    decreases e, 0, 1
  {
    WriteByte(w, 0x06);
    var body := ListBuffer(e, ord);
    WriteBuffer(w, body);
    Associate(old(w.buf), [0x06], Framed(body));
  }

  /** The List arm's buffer. */
  method ListBuffer(e: Element, ord: Orders) returns (body: seq<byte>)
    requires e.List?
    ensures body == ListBody(e, 0, ord)
    decreases e, 0, 0
  {
    var buffer := new Writer();
    for i := 0 to |e.items|
      invariant buffer.buf + ListBody(e, i, ord) == ListBody(e, 0, ord)
    {
      ghost var before := buffer.buf;
      WriteElement(buffer, e.items[i], ord);
      assert ListBody(e, i, ord) == ElementBytes(e.items[i], ord) + ListBody(e, i + 1, ord);
      Associate(before, ElementBytes(e.items[i], ord), ListBody(e, i + 1, ord));
    }
    body := buffer.buf;
  }

  /** The Array arm: the Null ident alone for a Null-typed or empty array; otherwise the
      value bodies are buffered, then the array's ident and the framed buffer written. */
  method WriteArray(w: Writer, e: Element, ord: Orders)
    requires e.Array?
    modifies w
    ensures w.buf == old(w.buf) + ElementBytes(e, ord)
  {
    WriteByte(w, 0x07);
    ghost var tagged := w.buf;
    if e.itemType == I.Null || |e.values| == 0 {
      WriteValueIdent(w, I.Null);
    } else {
      var body := ValuesBuffer(e.values);
      WriteValueIdent(w, e.itemType);
      WriteBuffer(w, body);
      Associate(tagged, I.ValueIdentBytes(e.itemType), Framed(ValuesBody(e.values)));
    }
    Associate(old(w.buf), [0x07], ArrayTail(e));
  }

  /** The Array arm's buffer: each value's body, in order. */
  method ValuesBuffer(xs: seq<Value>) returns (body: seq<byte>)
    ensures body == ValuesBody(xs)
  {
    var buffer := new Writer();
    for i := 0 to |xs|
      invariant buffer.buf + ValuesBody(xs[i..]) == ValuesBody(xs)
    {
      ghost var before := buffer.buf;
      WriteValue(buffer, xs[i]);
      ValuesBodyStep(xs, i);
      Associate(before, ValueBytes(xs[i]), ValuesBody(xs[i + 1..]));
    }
    body := buffer.buf;
  }

  /** The Map arm: as the Array arm, with each entry a bare key body and then an element. */
  method WriteMap(w: Writer, e: Element, ord: Orders)
    requires e.Map?
    modifies w
    ensures w.buf == old(w.buf) + ElementBytes(e, ord)
    decreases e, 0, 2
  {
    WriteByte(w, 0x08);
    ghost var tagged := w.buf;
    if e.keyType == I.Null || |e.entries| == 0 {
      WriteValueIdent(w, I.Null);
    } else {
      var body := MapBuffer(e, ord);
      WriteValueIdent(w, e.keyType);
      WriteBuffer(w, body);
      Associate(tagged, I.ValueIdentBytes(e.keyType), Framed(body));
    }
    Associate(old(w.buf), [0x08], MapTail(e, ord));
  }

  /** The Map arm's buffer. */
  method MapBuffer(e: Element, ord: Orders) returns (body: seq<byte>)
    requires e.Map?
    ensures body == MapBody(e, ord.keys(e.entries.Keys), ord)
    decreases e, 0, 1
  {
    var buffer := new Writer();
    var keys := ord.keys(e.entries.Keys);
    for i := 0 to |keys|
      invariant buffer.buf + MapBody(e, keys[i..], ord) == MapBody(e, keys, ord)
    {
      ghost var before := buffer.buf;
      WriteEntry(buffer, e, keys[i], ord);
      MapBodyStep(e, keys, i, ord);
      Associate(before, EntryBytes(e, keys[i], ord), MapBody(e, keys[i + 1..], ord));
    }
    body := buffer.buf;
  }

  /** One map entry: the bare key body, then the element. */
  method WriteEntry(w: Writer, e: Element, k: Value, ord: Orders)
    requires e.Map?
    modifies w
    ensures w.buf == old(w.buf) + EntryBytes(e, k, ord)
    decreases e, 0, 0
  {
    if k in e.entries {
      WriteValue(w, k);
      WriteElement(w, e.entries[k], ord);
      Associate(old(w.buf), ValueBytes(k), ElementBytes(e.entries[k], ord));
    }
  }
}
