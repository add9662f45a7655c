/** `read_element(write_element(e) + rest) == e` for the byte-prefixed format. A struct
    or a map comes back as the same map whatever order its entries were written in. */
module TychoElementLemmas {
  import opened Bytes
  import opened Wrappers
  import opened TychoErrors
  import I = TychoIdent
  import opened TychoValues
  import opened TychoInput
  import opened TychoReadSpec
  import opened TychoFormat
  import opened TychoLemmas
  import Utf8

  /** The elements the reader gives back as they were written: readable values; names
      and keys without NUL characters, which would cut them short; and arrays and maps
      that have a type exactly when they have items, since the writer drops the items
      of a Null-typed one and the type of an empty one. The items of an array and the
      keys of a map have its type. */
  predicate Writable(e: Element)
    decreases e
  {
    match e
    case Unit => true
    case Value(v) => ValueReadable(v)
    case Opt(x) => x.Some? ==> Writable(x.value)
    case Variant(name, x) => '\0' !in name && Writable(x)
    case Struct(m) => forall k :: k in m ==> '\0' !in k && Writable(m[k])
    case List(xs) => forall i :: 0 <= i < |xs| ==> Writable(xs[i])
    case Array(t, xs) =>
      (t == I.Null <==> xs == []) &&
      forall i :: 0 <= i < |xs| ==> ValueIdentOf(xs[i]) == t && ValueReadable(xs[i])
    case Map(t, m) =>
      (t == I.Null <==> m == map[]) &&
      forall k :: k in m ==> ValueIdentOf(k) == t && ValueReadable(k) && Writable(m[k])
    case Compression(x) => Writable(x)
  }

  /** The fields of e the listed keys name. */
  function FieldsOf(e: Element, keys: seq<string>): (r: map<string, Element>)
    requires e.Struct?
    ensures forall k :: k in r <==> k in keys && k in e.fields
    ensures forall k :: k in r ==> r[k] == e.fields[k]
  {
    map k | k in keys && k in e.fields :: e.fields[k]
  }

  /** The entries of e the listed keys name. */
  function EntriesOf(e: Element, keys: seq<Value>): (r: map<Value, Element>)
    requires e.Map?
    ensures forall k :: k in r <==> k in keys && k in e.entries
    ensures forall k :: k in r ==> r[k] == e.entries[k]
  {
    map k | k in keys && k in e.entries :: e.entries[k]
  }

  lemma AtWhole(b: seq<byte>)
    ensures At(b, 0, b)
  {
    assert b[0..|b|] == b;
  }

  /** A value of any type but Null writes at least one byte. */
  lemma ValueBytesNonEmpty(v: Value)
    requires !v.Null?
    ensures |ValueBytes(v)| >= 1
  {
    Pow256Widths();
    match v
    case String(s) => Leb128Shape(|Utf8.Encode(s)|);
    case Bytes(b) => Leb128Shape(|b|);
    case Char(c) =>
    case Number(n) => NumberBytesWidth(n);
    case _ =>
  }

  /** Each tag leads the reader to its arm. */
  lemma ElementAtArm(data: seq<byte>, pos: nat)
    requires pos < |data|
    ensures data[pos] == 0x01 ==> ElementAt(data, pos) == ValueElementAt(data, pos + 1)
    ensures data[pos] == 0x03 ==> ElementAt(data, pos) == SomeAt(data, pos + 1)
    ensures data[pos] == 0x04 ==> ElementAt(data, pos) == VariantAt(data, pos + 1)
    ensures data[pos] == 0x05 ==> ElementAt(data, pos) == StructAt(data, pos + 1)
    ensures data[pos] == 0x06 ==> ElementAt(data, pos) == ListAt(data, pos + 1)
    ensures data[pos] == 0x07 ==> ElementAt(data, pos) == ArrayAt(data, pos + 1)
    ensures data[pos] == 0x08 ==> ElementAt(data, pos) == MapAt(data, pos + 1)
    ensures data[pos] == 0xF0 ==> ElementAt(data, pos) == CompressionAt(data, pos + 1)
  {
  }

  /** A valid order lists exactly the keys of the map, so the fields it names are all
      the fields. */
  lemma FieldsComplete(e: Element, ord: Orders)
    requires e.Struct? && ValidOrders(ord)
    ensures FieldsOf(e, ord.fields(e.fields.Keys)) == e.fields
  {
    assert ListsFields(ord, e.fields.Keys);
  }

  lemma EntriesComplete(e: Element, ord: Orders)
    requires e.Map? && ValidOrders(ord)
    ensures EntriesOf(e, ord.keys(e.entries.Keys)) == e.entries
  {
    assert ListsKeys(ord, e.entries.Keys);
  }

  /** The containers' loops stop at the end of the body with what they have read. */
  lemma ItemsStop(t: I.ValueIdent, body: seq<byte>, sacc: map<string, Element>, lacc: seq<Element>,
                  aacc: seq<Value>, macc: map<Value, Element>)
    requires t != I.Null
    ensures StructItemsAt(body, |body|, sacc) == Parsed(sacc, |body|)
    ensures ListItemsAt(body, |body|, lacc) == Parsed(lacc, |body|)
    ensures ArrayItemsAt(t, body, |body|, aacc) == Parsed(aacc, |body|)
    ensures MapItemsAt(t, body, |body|, macc) == Parsed(macc, |body|)
  {
  }

  /** One entry of the Struct loop: it reads a key and an element and goes on after
      them with the entry inserted. */
  lemma StructItemsStep(body: seq<byte>, pos: nat, acc: map<string, Element>, k: string, q: nat, x: Element, q2: nat)
    requires pos < |body| && TStringAt(body, pos) == Parsed(k, q) && ElementAt(body, q) == Parsed(x, q2)
    ensures q2 <= |body| && StructItemsAt(body, pos, acc) == StructItemsAt(body, q2, acc[k := x])
  {
  }

  lemma ListItemsStep(body: seq<byte>, pos: nat, acc: seq<Element>, x: Element, q: nat)
    requires pos < |body| && ElementAt(body, pos) == Parsed(x, q)
    ensures q <= |body| && ListItemsAt(body, pos, acc) == ListItemsAt(body, q, acc + [x])
  {
  }

  lemma ArrayItemsStep(t: I.ValueIdent, body: seq<byte>, pos: nat, acc: seq<Value>, x: Value, q: nat)
    requires t != I.Null && pos < |body| && ValueAt(t, body, pos) == Parsed(x, q)
    ensures q <= |body| && ArrayItemsAt(t, body, pos, acc) == ArrayItemsAt(t, body, q, acc + [x])
  {
  }

  lemma MapItemsStep(t: I.ValueIdent, body: seq<byte>, pos: nat, acc: map<Value, Element>, k: Value, q: nat, x: Element, q2: nat)
    requires t != I.Null && pos < |body| && ValueAt(t, body, pos) == Parsed(k, q) && ElementAt(body, q) == Parsed(x, q2)
    ensures q2 <= |body| && MapItemsAt(t, body, pos, acc) == MapItemsAt(t, body, q2, acc[k := x])
  {
  }

  /** What the writer puts after the tag of each container and wrapper. */
  lemma ElementBytesAfterTag(e: Element, ord: Orders)
    ensures e.Value? ==> ElementBytes(e, ord)[1..] == I.ValueIdentBytes(ValueIdentOf(e.value)) + ValueBytes(e.value)
    ensures e.Opt? && e.option.Some? ==> ElementBytes(e, ord)[1..] == ElementBytes(e.option.value, ord)
    ensures e.Variant? ==> ElementBytes(e, ord)[1..] == TStringBytes(e.name) + ElementBytes(e.inner, ord)
    ensures e.Struct? ==> ElementBytes(e, ord)[1..] == Framed(StructBody(e, ord.fields(e.fields.Keys), ord))
    ensures e.List? ==> ElementBytes(e, ord)[1..] == Framed(ListBody(e, 0, ord))
    ensures e.Array? ==> ElementBytes(e, ord)[1..] == ArrayTail(e)
    ensures e.Map? ==> ElementBytes(e, ord)[1..] == MapTail(e, ord)
    ensures e.Compression? ==> ElementBytes(e, ord)[1..] == Framed(ElementBytes(e.inner, ord))
  {
  }

  /** The first byte of a written element is its tag, and the reader takes it for
      the element's ident. */
  lemma ElementTagRead(data: seq<byte>, pos: nat, e: Element, ord: Orders)
    requires At(data, pos, ElementBytes(e, ord))
    ensures pos < |data| && data[pos] == I.ElementTag(ElementIdentOf(e))
    ensures ElementIdentAt(data, pos) == Parsed(ElementIdentOf(e), pos + 1)
    ensures At(data, pos + 1, ElementBytes(e, ord)[1..])
  {
    var bytes := ElementBytes(e, ord);
    ElementBytesTag(e, ord);
    assert bytes == [bytes[0]] + bytes[1..];
    AtSplit(data, pos, [bytes[0]], bytes[1..]);
    ByteAtByte(data, pos, bytes[0]);
    I.ParseElementTagOfTag(ElementIdentOf(e));
  }

  /** The round trip of every writable element, at any position of any input that a
      u64 can index. */
  lemma {:induction false} ElementRoundTrip(data: seq<byte>, pos: nat, e: Element, ord: Orders)
    requires |data| < U64Limit && ValidOrders(ord) && Writable(e)
    requires At(data, pos, ElementBytes(e, ord))
    ensures ElementAt(data, pos) == Parsed(e, pos + |ElementBytes(e, ord)|)
    decreases e, 5
  {
    match e
    case Unit => ElementTagRead(data, pos, e, ord);
    case Value(v) => ValueElementRoundTrip(data, pos, v, ord);
    case Opt(x) => OptRoundTrip(data, pos, e, ord);
    case Variant(name, x) => VariantRoundTrip(data, pos, e, ord);
    case Struct(m) => StructRoundTrip(data, pos, e, ord);
    case List(xs) => ListRoundTrip(data, pos, e, ord);
    case Array(t, xs) => ArrayRoundTrip(data, pos, e, ord);
    case Map(t, m) => MapRoundTrip(data, pos, e, ord);
    case Compression(x) => CompressionRoundTrip(data, pos, e, ord);
  }

  lemma OptRoundTrip(data: seq<byte>, pos: nat, e: Element, ord: Orders)
    requires e.Opt? && |data| < U64Limit && ValidOrders(ord) && Writable(e)
    requires At(data, pos, ElementBytes(e, ord))
    ensures ElementAt(data, pos) == Parsed(e, pos + |ElementBytes(e, ord)|)
    decreases e, 4
  {
    ElementTagRead(data, pos, e, ord);
    if e.option.Some? {
      ElementAtArm(data, pos);
      ElementBytesAfterTag(e, ord);
      ElementRoundTrip(data, pos + 1, e.option.value, ord);
    }
  }

  lemma VariantRoundTrip(data: seq<byte>, pos: nat, e: Element, ord: Orders)
    requires e.Variant? && |data| < U64Limit && ValidOrders(ord) && Writable(e)
    requires At(data, pos, ElementBytes(e, ord))
    ensures ElementAt(data, pos) == Parsed(e, pos + |ElementBytes(e, ord)|)
    decreases e, 4
  {
    ElementTagRead(data, pos, e, ord);
    ElementAtArm(data, pos);
    ElementBytesAfterTag(e, ord);
    VariantTailRoundTrip(data, pos + 1, e.name, e.inner, ord);
  }

  /** After the tag of a variant: its terminated name, then its element. */
  lemma VariantTailRoundTrip(data: seq<byte>, pos: nat, name: string, x: Element, ord: Orders)
    requires |data| < U64Limit && ValidOrders(ord) && '\0' !in name && Writable(x)
    requires At(data, pos, TStringBytes(name) + ElementBytes(x, ord))
    ensures VariantAt(data, pos) == Parsed(Element.Variant(name, x), pos + |TStringBytes(name)| + |ElementBytes(x, ord)|)
    decreases x, 6
  {
    var p := pos + |TStringBytes(name)|;
    AtSplit(data, pos, TStringBytes(name), ElementBytes(x, ord));
    TStringRoundTrip(data, pos, name);
    ElementRoundTrip(data, p, x, ord);
    assert TStringAt(data, pos) == Parsed(name, p);
    assert ElementAt(data, p) == Parsed(x, p + |ElementBytes(x, ord)|);
  }

  lemma CompressionRoundTrip(data: seq<byte>, pos: nat, e: Element, ord: Orders)
    requires e.Compression? && |data| < U64Limit && ValidOrders(ord) && Writable(e)
    requires At(data, pos, ElementBytes(e, ord))
    ensures ElementAt(data, pos) == Parsed(e, pos + |ElementBytes(e, ord)|)
    decreases e, 4
  {
    ElementTagRead(data, pos, e, ord);
    ElementAtArm(data, pos);
    var body := ElementBytes(e.inner, ord);
    ElementBytesAfterTag(e, ord);
    FramedRoundTrip(data, pos + 1, body);
    AtWhole(body);
    ElementRoundTrip(body, 0, e.inner, ord);
  }

  lemma ValueElementRoundTrip(data: seq<byte>, pos: nat, v: Value, ord: Orders)
    requires ValueReadable(v) && At(data, pos, ElementBytes(Element.Value(v), ord))
    ensures ElementAt(data, pos) == Parsed(Element.Value(v), pos + |ElementBytes(Element.Value(v), ord)|)
  {
    ElementTagRead(data, pos, Element.Value(v), ord);
    ElementAtArm(data, pos);
    ElementBytesAfterTag(Element.Value(v), ord);
    ValueElementTailRoundTrip(data, pos + 1, v);
  }

  /** After the tag of a Value element: the value's ident, then its body. */
  lemma ValueElementTailRoundTrip(data: seq<byte>, pos: nat, v: Value)
    requires ValueReadable(v) && At(data, pos, I.ValueIdentBytes(ValueIdentOf(v)) + ValueBytes(v))
    ensures ValueElementAt(data, pos)
         == Parsed(Element.Value(v), pos + |I.ValueIdentBytes(ValueIdentOf(v))| + |ValueBytes(v)|)
  {
    var t := ValueIdentOf(v);
    AtSplit(data, pos, I.ValueIdentBytes(t), ValueBytes(v));
    ValueIdentRoundTrip(data, pos, t);
    ValueRoundTrip(data, pos + |I.ValueIdentBytes(t)|, v);
  }

  /** The Struct arm. */
  lemma StructRoundTrip(data: seq<byte>, pos: nat, e: Element, ord: Orders)
    requires e.Struct? && |data| < U64Limit && ValidOrders(ord) && Writable(e)
    requires At(data, pos, ElementBytes(e, ord))
    ensures ElementAt(data, pos) == Parsed(e, pos + |ElementBytes(e, ord)|)
    decreases e, 4
  {
    ElementTagRead(data, pos, e, ord);
    ElementAtArm(data, pos);
    var body := StructBody(e, ord.fields(e.fields.Keys), ord);
    ElementBytesAfterTag(e, ord);
    FramedRoundTrip(data, pos + 1, body);
    StructBodyRoundTrip(e, ord);
  }

  /** The whole body of a struct reads back as its fields. */
  lemma StructBodyRoundTrip(e: Element, ord: Orders)
    requires e.Struct? && ValidOrders(ord) && Writable(e)
    requires |StructBody(e, ord.fields(e.fields.Keys), ord)| < U64Limit
    ensures var body := StructBody(e, ord.fields(e.fields.Keys), ord);
            StructItemsAt(body, 0, map[]) == Parsed(e.fields, |body|)
    decreases e, 2
  {
    var keys := ord.fields(e.fields.Keys);
    var body := StructBody(e, keys, ord);
    AtWhole(body);
    StructItemsRoundTrip(body, 0, e, keys, map[], ord);
    FieldsComplete(e, ord);
    assert map[] + FieldsOf(e, keys) == FieldsOf(e, keys);
  }

  /** The Struct loop over the body the writer wrote for the listed keys: the fields
      they name are added to what was read before. */
  lemma {:induction false} StructItemsRoundTrip(body: seq<byte>, pos: nat, e: Element, keys: seq<string>,
                                                acc: map<string, Element>, ord: Orders)
    requires e.Struct? && |body| < U64Limit && ValidOrders(ord) && Writable(e)
    requires At(body, pos, StructBody(e, keys, ord)) && pos + |StructBody(e, keys, ord)| == |body|
    ensures StructItemsAt(body, pos, acc) == Parsed(acc + FieldsOf(e, keys), |body|)
    decreases e, 1, |keys|
  {
    if keys == [] {
      assert acc + FieldsOf(e, keys) == acc;
      ItemsStop(I.Boolean, body, acc, [], [], map[]);
    } else if keys[0] in e.fields {
      var q := StructItemsCons(body, pos, e, keys, acc, ord);
      StructItemsRoundTrip(body, q, e, keys[1..], acc[keys[0] := e.fields[keys[0]]], ord);
      FieldsCons(e, keys, acc);
    } else {
      StructItemsRoundTrip(body, pos, e, keys[1..], acc, ord);
      FieldsSkip(e, keys);
    }
  }

  /** The Struct loop reads the first listed field and goes on with the rest. */
  lemma StructItemsCons(body: seq<byte>, pos: nat, e: Element, keys: seq<string>,
                        acc: map<string, Element>, ord: Orders) returns (q: nat)
    requires e.Struct? && |body| < U64Limit && ValidOrders(ord) && Writable(e)
    requires keys != [] && keys[0] in e.fields
    requires At(body, pos, StructBody(e, keys, ord)) && pos + |StructBody(e, keys, ord)| == |body|
    ensures At(body, q, StructBody(e, keys[1..], ord)) && q + |StructBody(e, keys[1..], ord)| == |body|
    ensures StructItemsAt(body, pos, acc) == StructItemsAt(body, q, acc[keys[0] := e.fields[keys[0]]])
    decreases e, 0, |keys| + 2
  {
    q := pos + |FieldBytes(e, keys[0], ord)|;
    StructBodySplit(body, pos, e, keys, ord, q);
    StructFieldStep(body, pos, e, keys[0], acc, ord, q);
  }

  /** The Struct loop reads one field as the writer wrote it, ending at q. */
  lemma StructFieldStep(body: seq<byte>, pos: nat, e: Element, k: string, acc: map<string, Element>, ord: Orders, q: nat)
    requires e.Struct? && |body| < U64Limit && ValidOrders(ord) && Writable(e) && k in e.fields
    requires At(body, pos, FieldBytes(e, k, ord)) && q == pos + |FieldBytes(e, k, ord)|
    ensures q <= |body| && StructItemsAt(body, pos, acc) == StructItemsAt(body, q, acc[k := e.fields[k]])
    decreases e, 0, 1
  {
    var p, q2 := StructFieldRead(body, pos, e, k, ord);
    StructItemsStep(body, pos, acc, k, p, e.fields[k], q);
  }

  /** A struct body written for listed keys is the first field, then the body of the rest
      from q on. */
  lemma StructBodySplit(body: seq<byte>, pos: nat, e: Element, keys: seq<string>, ord: Orders, q: nat)
    requires e.Struct? && keys != [] && q == pos + |FieldBytes(e, keys[0], ord)|
    requires At(body, pos, StructBody(e, keys, ord)) && pos + |StructBody(e, keys, ord)| == |body|
    ensures At(body, pos, FieldBytes(e, keys[0], ord))
    ensures At(body, q, StructBody(e, keys[1..], ord)) && q + |StructBody(e, keys[1..], ord)| == |body|
  {
    AtFront(body, pos, FieldBytes(e, keys[0], ord), StructBody(e, keys[1..], ord), q);
  }

  /** One field as the writer wrote it: the terminated name reads back as the name, and
      the element after it as its element. */
  lemma StructFieldRead(body: seq<byte>, pos: nat, e: Element, k: string, ord: Orders) returns (p: nat, q: nat)
    requires e.Struct? && |body| < U64Limit && ValidOrders(ord) && Writable(e) && k in e.fields
    requires At(body, pos, FieldBytes(e, k, ord))
    ensures pos < p <= q == pos + |FieldBytes(e, k, ord)| <= |body|
    ensures TStringAt(body, pos) == Parsed(k, p)
    ensures ElementAt(body, p) == Parsed(e.fields[k], q)
    decreases e, 0, 0
  {
    var x := e.fields[k];
    AtSplit(body, pos, TStringBytes(k), ElementBytes(x, ord));
    TStringRoundTrip(body, pos, k);
    p := pos + |TStringBytes(k)|;
    ElementRoundTrip(body, p, x, ord);
    q := p + |ElementBytes(x, ord)|;
  }

  lemma FieldsCons(e: Element, keys: seq<string>, acc: map<string, Element>)
    requires e.Struct? && keys != [] && keys[0] in e.fields
    ensures acc[keys[0] := e.fields[keys[0]]] + FieldsOf(e, keys[1..]) == acc + FieldsOf(e, keys)
  {
    assert keys == [keys[0]] + keys[1..];
  }

  lemma FieldsSkip(e: Element, keys: seq<string>)
    requires e.Struct? && keys != [] && keys[0] !in e.fields
    ensures FieldsOf(e, keys[1..]) == FieldsOf(e, keys)
  {
    assert keys == [keys[0]] + keys[1..];
  }

  /** The List arm. */
  lemma ListRoundTrip(data: seq<byte>, pos: nat, e: Element, ord: Orders)
    requires e.List? && |data| < U64Limit && ValidOrders(ord) && Writable(e)
    requires At(data, pos, ElementBytes(e, ord))
    ensures ElementAt(data, pos) == Parsed(e, pos + |ElementBytes(e, ord)|)
    decreases e, 4
  {
    ElementTagRead(data, pos, e, ord);
    ElementAtArm(data, pos);
    var body := ListBody(e, 0, ord);
    ElementBytesAfterTag(e, ord);
    FramedRoundTrip(data, pos + 1, body);
    AtWhole(body);
    ListItemsRoundTrip(body, 0, e, 0, [], ord);
    assert [] + e.items[0..] == e.items;
  }

  /** The List loop: the items from index i on are appended in order. */
  lemma {:induction false} ListItemsRoundTrip(body: seq<byte>, pos: nat, e: Element, i: nat,
                                              acc: seq<Element>, ord: Orders)
    requires e.List? && i <= |e.items| && |body| < U64Limit && ValidOrders(ord) && Writable(e)
    requires At(body, pos, ListBody(e, i, ord)) && pos + |ListBody(e, i, ord)| == |body|
    ensures ListItemsAt(body, pos, acc) == Parsed(acc + e.items[i..], |body|)
    decreases e, 1, |e.items| - i
  {
    if i == |e.items| {
      assert acc + e.items[i..] == acc;
      ItemsStop(I.Boolean, body, map[], acc, [], map[]);
    } else {
      var q := ListItemsCons(body, pos, e, i, acc, ord);
      ListItemsRoundTrip(body, q, e, i + 1, acc + [e.items[i]], ord);
      ItemsJoin(acc, e.items[i..]);
      assert e.items[i..][1..] == e.items[i + 1..];
    }
  }

  /** The List loop reads item i and goes on with the rest. */
  lemma ListItemsCons(body: seq<byte>, pos: nat, e: Element, i: nat, acc: seq<Element>, ord: Orders)
    returns (q: nat)
    requires e.List? && i < |e.items| && |body| < U64Limit && ValidOrders(ord) && Writable(e)
    requires At(body, pos, ListBody(e, i, ord)) && pos + |ListBody(e, i, ord)| == |body|
    ensures At(body, q, ListBody(e, i + 1, ord)) && q + |ListBody(e, i + 1, ord)| == |body|
    ensures ListItemsAt(body, pos, acc) == ListItemsAt(body, q, acc + [e.items[i]])
    decreases e, 0, |e.items| - i + 1
  {
    q := pos + |ElementBytes(e.items[i], ord)|;
    ListBodySplit(body, pos, e, i, ord, q);
    ListElementStep(body, pos, e, i, acc, ord, q);
  }

  /** The List loop reads item i as the writer wrote it, ending at q. */
  lemma ListElementStep(body: seq<byte>, pos: nat, e: Element, i: nat, acc: seq<Element>, ord: Orders, q: nat)
    requires e.List? && i < |e.items| && |body| < U64Limit && ValidOrders(ord) && Writable(e)
    requires At(body, pos, ElementBytes(e.items[i], ord)) && q == pos + |ElementBytes(e.items[i], ord)|
    ensures q <= |body| && ListItemsAt(body, pos, acc) == ListItemsAt(body, q, acc + [e.items[i]])
    decreases e, 0, 0
  {
    var x := e.items[i];
    ElementBytesTag(x, ord);
    ElementRoundTrip(body, pos, x, ord);
    ListItemsStep(body, pos, acc, x, q);
  }

  /** A list body from item i is that item, then the body from i + 1 on, from q. */
  lemma ListBodySplit(body: seq<byte>, pos: nat, e: Element, i: nat, ord: Orders, q: nat)
    requires e.List? && i < |e.items| && q == pos + |ElementBytes(e.items[i], ord)|
    requires At(body, pos, ListBody(e, i, ord)) && pos + |ListBody(e, i, ord)| == |body|
    ensures At(body, pos, ElementBytes(e.items[i], ord))
    ensures At(body, q, ListBody(e, i + 1, ord)) && q + |ListBody(e, i + 1, ord)| == |body|
  {
    AtFront(body, pos, ElementBytes(e.items[i], ord), ListBody(e, i + 1, ord), q);
  }

  /** Appending the head and then the tail appends the whole sequence. */
  lemma ItemsJoin<T>(acc: seq<T>, xs: seq<T>)
    requires xs != []
    ensures acc + [xs[0]] + xs[1..] == acc + xs
  {
    assert xs == [xs[0]] + xs[1..];
  }

  /** The Array arm. */
  lemma ArrayRoundTrip(data: seq<byte>, pos: nat, e: Element, ord: Orders)
    requires e.Array? && |data| < U64Limit && Writable(e)
    requires At(data, pos, ElementBytes(e, ord))
    ensures ElementAt(data, pos) == Parsed(e, pos + |ElementBytes(e, ord)|)
  {
    ElementTagRead(data, pos, e, ord);
    ElementAtArm(data, pos);
    ElementBytesAfterTag(e, ord);
    ArrayTailRoundTrip(data, pos + 1, e);
  }

  lemma ArrayTailRoundTrip(data: seq<byte>, pos: nat, e: Element)
    requires e.Array? && |data| < U64Limit && Writable(e)
    requires At(data, pos, ArrayTail(e))
    ensures ArrayAt(data, pos) == Parsed(e, pos + |ArrayTail(e)|)
  {
    if e.itemType == I.Null {
      ValueIdentRoundTrip(data, pos, I.Null);
    } else {
      ArrayFramedRoundTrip(data, pos, e.itemType, e.values);
    }
  }

  /** An array with a type: its ident, then its framed value bodies, read back. */
  lemma ArrayFramedRoundTrip(data: seq<byte>, pos: nat, t: I.ValueIdent, xs: seq<Value>)
    requires t != I.Null && |data| < U64Limit
    requires forall i :: 0 <= i < |xs| ==> ValueIdentOf(xs[i]) == t && ValueReadable(xs[i])
    requires At(data, pos, I.ValueIdentBytes(t) + Framed(ValuesBody(xs)))
    ensures ArrayAt(data, pos) == Parsed(Element.Array(t, xs), pos + |I.ValueIdentBytes(t) + Framed(ValuesBody(xs))|)
  {
    var body := ValuesBody(xs);
    AtSplit(data, pos, I.ValueIdentBytes(t), Framed(body));
    ValueIdentRoundTrip(data, pos, t);
    FramedRoundTrip(data, pos + |I.ValueIdentBytes(t)|, body);
    AtWhole(body);
    ArrayItemsRoundTrip(t, body, 0, xs, []);
    assert [] + xs == xs;
  }

  /** The Array loop: value bodies of type t are appended in order. */
  lemma {:induction false} ArrayItemsRoundTrip(t: I.ValueIdent, body: seq<byte>, pos: nat, xs: seq<Value>,
                                               acc: seq<Value>)
    requires t != I.Null && |body| < U64Limit
    requires forall i :: 0 <= i < |xs| ==> ValueIdentOf(xs[i]) == t && ValueReadable(xs[i])
    requires At(body, pos, ValuesBody(xs)) && pos + |ValuesBody(xs)| == |body|
    ensures ArrayItemsAt(t, body, pos, acc) == Parsed(acc + xs, |body|)
    decreases |xs|
  {
    if xs == [] {
      ArrayItemsNil(t, body, pos, acc);
    } else {
      var q := ArrayItemsCons(t, body, pos, xs, acc);
      ArrayItemsRoundTrip(t, body, q, xs[1..], acc + [xs[0]]);
      ItemsJoin(acc, xs);
    }
  }

  lemma ArrayItemsNil(t: I.ValueIdent, body: seq<byte>, pos: nat, acc: seq<Value>)
    requires t != I.Null && At(body, pos, ValuesBody([])) && pos + |ValuesBody([])| == |body|
    ensures ArrayItemsAt(t, body, pos, acc) == Parsed(acc + [], |body|)
  {
    assert acc + [] == acc;
  }

  lemma ArrayItemsCons(t: I.ValueIdent, body: seq<byte>, pos: nat, xs: seq<Value>, acc: seq<Value>) returns (q: nat)
    requires t != I.Null && |body| < U64Limit && xs != []
    requires ValueIdentOf(xs[0]) == t && ValueReadable(xs[0])
    requires At(body, pos, ValuesBody(xs)) && pos + |ValuesBody(xs)| == |body|
    ensures At(body, q, ValuesBody(xs[1..])) && q + |ValuesBody(xs[1..])| == |body|
    ensures ArrayItemsAt(t, body, pos, acc) == ArrayItemsAt(t, body, q, acc + [xs[0]])
  {
    q := pos + |ValueBytes(xs[0])|;
    ValuesBodySplit(body, pos, xs, q);
    ArrayValueStep(t, body, pos, xs[0], acc, q);
  }

  /** The Array loop reads one item as the writer wrote it, ending at q. */
  lemma ArrayValueStep(t: I.ValueIdent, body: seq<byte>, pos: nat, x: Value, acc: seq<Value>, q: nat)
    requires t != I.Null && ValueIdentOf(x) == t && ValueReadable(x)
    requires At(body, pos, ValueBytes(x)) && q == pos + |ValueBytes(x)|
    ensures q <= |body| && ArrayItemsAt(t, body, pos, acc) == ArrayItemsAt(t, body, q, acc + [x])
  {
    ValueBytesNonEmpty(x);
    ValueRoundTrip(body, pos, x);
    ArrayItemsStep(t, body, pos, acc, x, q);
  }

  /** The bodies of values are the first value's, then the rest's from q on. */
  lemma ValuesBodySplit(body: seq<byte>, pos: nat, xs: seq<Value>, q: nat)
    requires xs != [] && q == pos + |ValueBytes(xs[0])|
    requires At(body, pos, ValuesBody(xs)) && pos + |ValuesBody(xs)| == |body|
    ensures At(body, pos, ValueBytes(xs[0]))
    ensures At(body, q, ValuesBody(xs[1..])) && q + |ValuesBody(xs[1..])| == |body|
  {
    AtFront(body, pos, ValueBytes(xs[0]), ValuesBody(xs[1..]), q);
  }

  /** The Map arm. */
  lemma MapRoundTrip(data: seq<byte>, pos: nat, e: Element, ord: Orders)
    requires e.Map? && |data| < U64Limit && ValidOrders(ord) && Writable(e)
    requires At(data, pos, ElementBytes(e, ord))
    ensures ElementAt(data, pos) == Parsed(e, pos + |ElementBytes(e, ord)|)
    decreases e, 4
  {
    ElementTagRead(data, pos, e, ord);
    ElementAtArm(data, pos);
    ElementBytesAfterTag(e, ord);
    MapTailRoundTrip(data, pos + 1, e, ord);
  }

  lemma MapTailRoundTrip(data: seq<byte>, pos: nat, e: Element, ord: Orders)
    requires e.Map? && |data| < U64Limit && ValidOrders(ord) && Writable(e)
    requires At(data, pos, MapTail(e, ord))
    ensures MapAt(data, pos) == Parsed(e, pos + |MapTail(e, ord)|)
    decreases e, 3
  {
    var t := e.keyType;
    if t == I.Null {
      ValueIdentRoundTrip(data, pos, I.Null);
    } else {
      var body := MapBody(e, ord.keys(e.entries.Keys), ord);
      AtSplit(data, pos, I.ValueIdentBytes(t), Framed(body));
      ValueIdentRoundTrip(data, pos, t);
      FramedRoundTrip(data, pos + |I.ValueIdentBytes(t)|, body);
      MapBodyRoundTrip(e, ord);
    }
  }

  /** The whole body of a map reads back as its entries. */
  lemma MapBodyRoundTrip(e: Element, ord: Orders)
    requires e.Map? && e.keyType != I.Null && ValidOrders(ord) && Writable(e)
    requires |MapBody(e, ord.keys(e.entries.Keys), ord)| < U64Limit
    ensures var body := MapBody(e, ord.keys(e.entries.Keys), ord);
            MapItemsAt(e.keyType, body, 0, map[]) == Parsed(e.entries, |body|)
    decreases e, 2
  {
    var keys := ord.keys(e.entries.Keys);
    var body := MapBody(e, keys, ord);
    AtWhole(body);
    MapItemsRoundTrip(body, 0, e, keys, map[], ord);
    EntriesComplete(e, ord);
    assert map[] + EntriesOf(e, keys) == EntriesOf(e, keys);
  }

  /** The Map loop over the body the writer wrote for the listed keys. */
  lemma {:induction false} MapItemsRoundTrip(body: seq<byte>, pos: nat, e: Element, keys: seq<Value>,
                                             acc: map<Value, Element>, ord: Orders)
    requires e.Map? && e.keyType != I.Null && |body| < U64Limit && ValidOrders(ord) && Writable(e)
    requires At(body, pos, MapBody(e, keys, ord)) && pos + |MapBody(e, keys, ord)| == |body|
    ensures MapItemsAt(e.keyType, body, pos, acc) == Parsed(acc + EntriesOf(e, keys), |body|)
    decreases e, 1, |keys|
  {
    if keys == [] {
      assert acc + EntriesOf(e, keys) == acc;
      ItemsStop(e.keyType, body, map[], [], [], acc);
    } else if keys[0] in e.entries {
      var q := MapItemsCons(body, pos, e, keys, acc, ord);
      MapItemsRoundTrip(body, q, e, keys[1..], acc[keys[0] := e.entries[keys[0]]], ord);
      EntriesCons(e, keys, acc);
    } else {
      MapItemsRoundTrip(body, pos, e, keys[1..], acc, ord);
      EntriesSkip(e, keys);
    }
  }

  /** The Map loop reads the first listed entry and goes on with the rest. */
  lemma MapItemsCons(body: seq<byte>, pos: nat, e: Element, keys: seq<Value>,
                     acc: map<Value, Element>, ord: Orders) returns (q: nat)
    requires e.Map? && e.keyType != I.Null && |body| < U64Limit && ValidOrders(ord) && Writable(e)
    requires keys != [] && keys[0] in e.entries
    requires At(body, pos, MapBody(e, keys, ord)) && pos + |MapBody(e, keys, ord)| == |body|
    ensures At(body, q, MapBody(e, keys[1..], ord)) && q + |MapBody(e, keys[1..], ord)| == |body|
    ensures MapItemsAt(e.keyType, body, pos, acc) == MapItemsAt(e.keyType, body, q, acc[keys[0] := e.entries[keys[0]]])
    decreases e, 0, |keys| + 2
  {
    q := pos + |EntryBytes(e, keys[0], ord)|;
    MapBodySplit(body, pos, e, keys, ord, q);
    MapEntryStep(body, pos, e, keys[0], acc, ord, q);
  }

  /** The Map loop reads one entry as the writer wrote it, ending at q. */
  lemma MapEntryStep(body: seq<byte>, pos: nat, e: Element, k: Value, acc: map<Value, Element>, ord: Orders, q: nat)
    requires e.Map? && e.keyType != I.Null && |body| < U64Limit && ValidOrders(ord) && Writable(e) && k in e.entries
    requires At(body, pos, EntryBytes(e, k, ord)) && q == pos + |EntryBytes(e, k, ord)|
    ensures q <= |body| && MapItemsAt(e.keyType, body, pos, acc) == MapItemsAt(e.keyType, body, q, acc[k := e.entries[k]])
    decreases e, 0, 1
  {
    var p, q2 := MapEntryRead(body, pos, e, k, ord);
    MapItemsStep(e.keyType, body, pos, acc, k, p, e.entries[k], q);
  }

  /** A map body written for listed keys is the first entry, then the body of the rest
      from q on. */
  lemma MapBodySplit(body: seq<byte>, pos: nat, e: Element, keys: seq<Value>, ord: Orders, q: nat)
    requires e.Map? && keys != [] && q == pos + |EntryBytes(e, keys[0], ord)|
    requires At(body, pos, MapBody(e, keys, ord)) && pos + |MapBody(e, keys, ord)| == |body|
    ensures At(body, pos, EntryBytes(e, keys[0], ord))
    ensures At(body, q, MapBody(e, keys[1..], ord)) && q + |MapBody(e, keys[1..], ord)| == |body|
  {
    AtFront(body, pos, EntryBytes(e, keys[0], ord), MapBody(e, keys[1..], ord), q);
  }

  /** One entry as the writer wrote it: the key's body reads back as the key, and the
      element after it as its element. */
  lemma MapEntryRead(body: seq<byte>, pos: nat, e: Element, k: Value, ord: Orders) returns (p: nat, q: nat)
    requires e.Map? && |body| < U64Limit && ValidOrders(ord) && Writable(e) && k in e.entries
    requires At(body, pos, EntryBytes(e, k, ord))
    ensures pos < p <= q == pos + |EntryBytes(e, k, ord)| <= |body|
    ensures ValueAt(e.keyType, body, pos) == Parsed(k, p)
    ensures ElementAt(body, p) == Parsed(e.entries[k], q)
    decreases e, 0, 0
  {
    var x := e.entries[k];
    AtSplit(body, pos, ValueBytes(k), ElementBytes(x, ord));
    ValueBytesNonEmpty(k);
    ValueRoundTrip(body, pos, k);
    p := pos + |ValueBytes(k)|;
    ElementRoundTrip(body, p, x, ord);
    q := p + |ElementBytes(x, ord)|;
  }

  lemma EntriesCons(e: Element, keys: seq<Value>, acc: map<Value, Element>)
    requires e.Map? && keys != [] && keys[0] in e.entries
    ensures acc[keys[0] := e.entries[keys[0]]] + EntriesOf(e, keys[1..]) == acc + EntriesOf(e, keys)
  {
    assert keys == [keys[0]] + keys[1..];
  }

  lemma EntriesSkip(e: Element, keys: seq<Value>)
    requires e.Map? && keys != [] && keys[0] !in e.entries
    ensures EntriesOf(e, keys[1..]) == EntriesOf(e, keys)
  {
    assert keys == [keys[0]] + keys[1..];
  }
}
