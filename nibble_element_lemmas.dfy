/** The element level of the nibble-prefixed decoder: prefix bytes, the Option
    operand, the container counts, and the documentation vectors of src/lib.rs. */
module NibbleElementLemmas {
  import opened Bytes
  import opened Wrappers
  import opened NibbleIdent
  import opened NibbleValues
  import opened NibbleReader
  import opened NibbleEncode
  import opened NibbleDecodeSpec
  import opened NibbleDecodeLemmas
  import Utf8

  /** The prefix byte is one byte: the element tag from its high nibble, the operand
      from its low one; a high nibble of 8 or more is reported at the prefix. */
  lemma PrefixNibbles(data: seq<byte>, pos: nat)
    requires pos < |data|
    ensures var b := data[pos];
      if b / 16 < 8 then PrefixAt(data, pos) == Parsed((ParseElement(b / 16).value, b % 16), pos + 1)
      else PrefixedAt(data, pos) == Failed(InvalidElementIdent(pos, b / 16))
  {
  }

  /** The Value arm never fails with InvalidValueIdent: every nibble names a tag. */
  lemma ValueArmTagAlwaysValid(op: byte, data: seq<byte>, pos: nat)
    requires op < 16 && 0 < pos <= |data|
    ensures ElementAt(ElementIdent.Value, op, data, pos).Failed? ==>
      !ElementAt(ElementIdent.Value, op, data, pos).error.InvalidValueIdent?
  {
    if ValueAt(ParseValue(op).value, data, pos).Failed? {
      ValueErrors(ParseValue(op).value, data, pos);
    }
  }

  /** An Option operand of 0 is None, 1 is Some of the next element, and anything
      else is rejected at the prefix. */
  lemma OptionOperand(op: byte, data: seq<byte>, pos: nat)
    requires 0 < pos <= |data|
    ensures op == 0 ==> ElementAt(ElementIdent.Option, op, data, pos) == Parsed(Opt(None), pos)
    ensures op == 1 && PrefixedAt(data, pos).Parsed? ==>
      ElementAt(ElementIdent.Option, op, data, pos)
        == Parsed(Opt(Some(PrefixedAt(data, pos).value)), PrefixedAt(data, pos).next)
    ensures op > 1 ==> ElementAt(ElementIdent.Option, op, data, pos) == Failed(InvalidElementOperand(pos - 1, op))
  {
  }

  /** The NIL test of Map and List compares the operand nibble with 0xFD, so it never
      fires for an operand a prefix can carry: every Map and List reads a count, and
      one with no count byte after it fails. Only the full byte 0xFD would stop it. */
  lemma ContainerNilCheckDead(ident: ElementIdent, op: byte, data: seq<byte>, pos: nat)
    requires ident == ElementIdent.Map || ident == ElementIdent.List
    requires op < 16 && 0 < pos <= |data|
    ensures ElementAt(ident, op, data, pos).Parsed? ==>
      VarLengthAt(data, pos).Parsed? && VarLengthAt(data, pos).next <= ElementAt(ident, op, data, pos).next
    ensures pos == |data| ==> ElementAt(ident, op, data, pos) == Failed(UnexpectedEnd(1, 0))
    ensures ElementAt(ident, ValueCode(NIL), data, pos).Parsed?
  {
    assert op != ValueCode(NIL);
  }

  /** A Value element as an encoder lays it out, prefix `join_idents(Value, ident)`
      and then the body, decodes to that value. */
  lemma ValueElementRoundTrip(data: seq<byte>, pos: nat, v: NibbleValues.Value)
    requires Survives(v) && At(data, pos, [JoinIdents(ElementIdent.Value, IdentOf(v))] + Body(v))
    ensures PrefixedAt(data, pos) == Parsed(Element.Value(v), pos + 1 + |Body(v)|)
  {
    AtSplit(data, pos, [JoinIdents(ElementIdent.Value, IdentOf(v))], Body(v));
    ValuePrefixAt(data, pos, IdentOf(v));
    ValueRoundTrip(data, pos + 1, v);
    ValueArm(data, pos + 1, IdentOf(v), v, pos + 1 + |Body(v)|);
  }

  /** The Value arm, given a readable value ident, is the value read after the prefix. */
  lemma ValueArm(data: seq<byte>, pos: nat, id: ValueIdent, v: NibbleValues.Value, next: nat)
    requires 0 < pos <= |data| && id != NIL && ValueAt(id, data, pos) == Parsed(v, next)
    ensures ElementAt(ElementIdent.Value, ValueCode(id), data, pos) == Parsed(Element.Value(v), next)
  {
    ParseValueCode(id);
  }

  /** The prefix byte `join_idents(Value, ident)` reads back as the Value element and
      the value's code. */
  lemma ValuePrefixAt(data: seq<byte>, pos: nat, id: ValueIdent)
    requires id != NIL && At(data, pos, [JoinIdents(ElementIdent.Value, id)])
    ensures PrefixAt(data, pos) == Parsed((ElementIdent.Value, ValueCode(id)), pos + 1)
  {
    OneAtByte(data, pos, JoinIdents(ElementIdent.Value, id));
    ParseElementCode(ElementIdent.Value);
    ParseValueCode(id);
    assert ValueCode(id) % 16 == ValueCode(id);
  }

  /** A string of fewer than 63 bytes is read from its one-byte length and its bytes. */
  lemma ShortStringAt(data: seq<byte>, pos: nat, s: string)
    requires |Utf8.Encode(s)| < 0x3F && At(data, pos, [|Utf8.Encode(s)|] + Utf8.Encode(s))
    ensures StringAt(data, pos) == Parsed(s, pos + 1 + |Utf8.Encode(s)|)
  {
    ShortString(s);
    assert EncodeString(s) == Body(Value.String(s));
    StringRoundTrip(data, pos, s);
  }

  /** b sits in a + b + c just after a. */
  lemma AtMiddle(a: seq<byte>, b: seq<byte>, c: seq<byte>)
    ensures At(a + b + c, |a|, b)
  {
    assert (a + b + c)[|a|..|a| + |b|] == b;
  }

  /** A Struct entry is its key string followed by its prefixed element. */
  lemma EntryOf(data: seq<byte>, pos: nat, key: string, p: nat, e: Element, q: nat)
    requires pos <= |data| && StringAt(data, pos) == Parsed(key, p)
    requires PrefixedAt(data, p) == Parsed(e, q)
    ensures StructEntryAt(data, pos) == Parsed((key, e), q)
  {
  }

  /** The body of "Hello World" (see NibbleEncode.HelloWorldEncoding). */
  const HelloWorldBody: seq<byte> := [11, 72, 101, 108, 108, 111, 32, 87, 111, 114, 108, 100]

  /** The element of the documentation example of src/lib.rs:185. */
  const HelloWorldElement: seq<byte> := [29] + HelloWorldBody

  lemma HelloWorldElementBytes()
    ensures HelloWorldElement == [29, 11, 72, 101, 108, 108, 111, 32, 87, 111, 114, 108, 100]
  {
  }

  lemma HelloWorldLayout()
    ensures var v := Value.String("Hello World");
      Survives(v) && HelloWorldElement == [JoinIdents(ElementIdent.Value, IdentOf(v))] + Body(v)
  {
    HelloWorldPrefix();
    HelloWorldEncoding();
    HelloWorldBytes();
    assert SizeClass(11) == 0;
  }

  /** [29, 11, "Hello World"] decodes to the string value; bytes after it are ignored. */
  lemma HelloWorldDecodes(data: seq<byte>)
    requires At(data, 0, HelloWorldElement)
    ensures Decode(data) == Ok(Element.Value(Value.String("Hello World")))
  {
    HelloWorldLayout();
    ValueElementRoundTrip(data, 0, Value.String("Hello World"));
  }

  /** Keys of the struct example: the one-byte length, then the ASCII bytes. */
  const BarKey: seq<byte> := [3, 98, 97, 114]
  const FooKey: seq<byte> := [3, 102, 111, 111]
  const BazKey: seq<byte> := [3, 98, 97, 122]

  lemma KeyLayout()
    ensures BarKey == [|Utf8.Encode("bar")|] + Utf8.Encode("bar") && |Utf8.Encode("bar")| == 3
    ensures FooKey == [|Utf8.Encode("foo")|] + Utf8.Encode("foo") && |Utf8.Encode("foo")| == 3
    ensures BazKey == [|Utf8.Encode("baz")|] + Utf8.Encode("baz") && |Utf8.Encode("baz")| == 3
  {
    Utf8.AsciiBytes("bar", [98, 97, 114]);
    Utf8.AsciiBytes("foo", [102, 111, 111]);
    Utf8.AsciiBytes("baz", [98, 97, 122]);
  }

  /** The documentation example of src/lib.rs:208, piece by piece. */
  const StructExample: seq<byte> :=
    [64, 3] + BarKey + [17, 42] + FooKey + HelloWorldElement + BazKey + [16, 1]

  lemma StructExampleBytes()
    ensures StructExample == [64, 3, 3, 98, 97, 114, 17, 42, 3, 102, 111, 111, 29, 11, 72, 101, 108,
      108, 111, 32, 87, 111, 114, 108, 100, 3, 98, 97, 122, 16, 1]
  {
  }

  /** A Struct entry laid out as key bytes then element bytes. */
  lemma EntryAt(data: seq<byte>, pos: nat, keyBytes: seq<byte>, key: string, elem: seq<byte>, e: Element)
    requires keyBytes == [|Utf8.Encode(key)|] + Utf8.Encode(key) && |Utf8.Encode(key)| < 0x3F
    requires At(data, pos, keyBytes + elem)
    requires forall d: seq<byte>, p: nat :: At(d, p, elem) ==> PrefixedAt(d, p) == Parsed(e, p + |elem|)
    ensures StructEntryAt(data, pos) == Parsed((key, e), pos + |keyBytes| + |elem|)
  {
    AtSplit(data, pos, keyBytes, elem);
    ShortStringAt(data, pos, key);
    var p := pos + |keyBytes|;
    assert PrefixedAt(data, p) == Parsed(e, p + |elem|);
    EntryOf(data, pos, key, p, e, p + |elem|);
  }

  lemma HelloWorldAt(data: seq<byte>, pos: nat)
    requires At(data, pos, HelloWorldElement)
    ensures PrefixedAt(data, pos) == Parsed(Element.Value(Value.String("Hello World")), pos + |HelloWorldElement|)
  {
    HelloWorldLayout();
    ValueElementRoundTrip(data, pos, Value.String("Hello World"));
  }

  lemma U8At(data: seq<byte>, pos: nat)
    requires At(data, pos, [17, 42])
    ensures PrefixedAt(data, pos) == Parsed(Element.Value(Value.Unsigned8(42)), pos + 2)
  {
    var v := Value.Unsigned8(42);
    OneByteBody(42);
    assert [17, 42] == [JoinIdents(ElementIdent.Value, IdentOf(v))] + Body(v);
    ValueElementRoundTrip(data, pos, v);
  }

  lemma TrueAt(data: seq<byte>, pos: nat)
    requires At(data, pos, [16, 1])
    ensures PrefixedAt(data, pos) == Parsed(Element.Value(Value.Boolean(true)), pos + 2)
  {
    var v := Value.Boolean(true);
    assert [16, 1] == [JoinIdents(ElementIdent.Value, IdentOf(v))] + Body(v);
    ValueElementRoundTrip(data, pos, v);
  }

  lemma UnitAt(data: seq<byte>, pos: nat)
    requires At(data, pos, [0])
    ensures PrefixedAt(data, pos) == Parsed(Element.Unit, pos + 1)
  {
    OneAtByte(data, pos, 0);
  }

  /** The three entries of the struct example, at offsets 2, 8 and 25. */
  lemma StructExampleEntries()
    ensures StructEntryAt(StructExample, 2) == Parsed(("bar", Element.Value(Value.Unsigned8(42))), 8)
    ensures StructEntryAt(StructExample, 8) == Parsed(("foo", Element.Value(Value.String("Hello World"))), 25)
    ensures StructEntryAt(StructExample, 25) == Parsed(("baz", Element.Value(Value.Boolean(true))), 31)
  {
    var d := StructExample;
    KeyLayout();
    var bar, foo, baz := BarKey + [17, 42], FooKey + HelloWorldElement, BazKey + [16, 1];
    assert d == [64, 3] + bar + (foo + baz);
    assert d == ([64, 3] + bar) + foo + baz;
    assert d == ([64, 3] + bar + foo) + baz + [];
    AtMiddle([64, 3], bar, foo + baz);
    AtMiddle([64, 3] + bar, foo, baz);
    AtMiddle([64, 3] + bar + foo, baz, []);
    forall dd: seq<byte>, p: nat | At(dd, p, [17, 42]) ensures PrefixedAt(dd, p) == Parsed(Element.Value(Value.Unsigned8(42)), p + 2) {
      U8At(dd, p);
    }
    forall dd: seq<byte>, p: nat | At(dd, p, HelloWorldElement)
      ensures PrefixedAt(dd, p) == Parsed(Element.Value(Value.String("Hello World")), p + |HelloWorldElement|) {
      HelloWorldAt(dd, p);
    }
    forall dd: seq<byte>, p: nat | At(dd, p, [16, 1]) ensures PrefixedAt(dd, p) == Parsed(Element.Value(Value.Boolean(true)), p + 2) {
      TrueAt(dd, p);
    }
    EntryAt(d, 2, BarKey, "bar", [17, 42], Element.Value(Value.Unsigned8(42)));
    EntryAt(d, 8, FooKey, "foo", HelloWorldElement, Element.Value(Value.String("Hello World")));
    EntryAt(d, 25, BazKey, "baz", [16, 1], Element.Value(Value.Boolean(true)));
  }

  /** A Struct whose count byte n < 63 sits at 1 and whose entries end at q. */
  lemma StructWithCount(data: seq<byte>, n: nat, fields: map<string, Element>, q: nat)
    requires |data| >= 2 && data[0] / 16 == 4 && data[1] == n < 0x3F
    requires StructItemsAt(data, 2, n, map[]) == Parsed(fields, q)
    ensures Decode(data) == Ok(Element.Struct(fields))
  {
    assert data == [data[0]] + [n] + data[2..];
    AtMiddle([data[0]], [n], data[2..]);
    VarLengthSmall(n);
    VarLengthSmallRoundTrip(data, 1, n);
    assert ElementAt(ElementIdent.Struct, data[0] % 16, data, 1) == Parsed(Element.Struct(fields), q);
    assert ParseElement(data[0] / 16) == Some(ElementIdent.Struct);
    assert PrefixAt(data, 0) == Parsed((ElementIdent.Struct, data[0] % 16), 1);
  }

  /** The example decodes to the struct {bar: 42u8, foo: "Hello World", baz: true}. */
  lemma StructExampleDecodes()
    ensures Decode(StructExample) == Ok(Element.Struct(map[
      "bar" := Element.Value(Value.Unsigned8(42)),
      "foo" := Element.Value(Value.String("Hello World")),
      "baz" := Element.Value(Value.Boolean(true))]))
  {
    var d := StructExample;
    assert |d| == 31 && d[0] == 64 && d[1] == 3;
    StructExampleEntries();
    var m0: map<string, Element> := map[];
    var m1 := m0["bar" := Element.Value(Value.Unsigned8(42))];
    var m2 := m1["foo" := Element.Value(Value.String("Hello World"))];
    var m3 := m2["baz" := Element.Value(Value.Boolean(true))];
    assert StructItemsAt(d, 31, 0, m3) == Parsed(m3, 31);
    StructItemsStep(d, 25, 1, m2, "baz", Element.Value(Value.Boolean(true)), 31);
    StructItemsStep(d, 8, 2, m1, "foo", Element.Value(Value.String("Hello World")), 25);
    StructItemsStep(d, 2, 3, m0, "bar", Element.Value(Value.Unsigned8(42)), 8);
    StructWithCount(d, 3, m3, 31);
  }

  /** The two entries of {a: unit, a: true}. */
  const DuplicateKeys: seq<byte> := [64, 2] + ([1, 97] + [0]) + ([1, 97] + [16, 1])

  lemma DuplicateKeysEntries()
    ensures StructEntryAt(DuplicateKeys, 2) == Parsed(("a", Element.Unit), 5)
    ensures StructEntryAt(DuplicateKeys, 5) == Parsed(("a", Element.Value(Value.Boolean(true))), 9)
  {
    var key: seq<byte> := [1, 97];
    var d := DuplicateKeys;
    Utf8.AsciiBytes("a", [97]);
    assert key == [|Utf8.Encode("a")|] + Utf8.Encode("a");
    assert d == [64, 2] + (key + [0]) + ((key + [16, 1]) + []);
    AtMiddle([64, 2], key + [0], key + [16, 1]);
    AtMiddle([64, 2] + (key + [0]), key + [16, 1], []);
    forall dd: seq<byte>, p: nat | At(dd, p, [0]) ensures PrefixedAt(dd, p) == Parsed(Element.Unit, p + 1) {
      UnitAt(dd, p);
    }
    forall dd: seq<byte>, p: nat | At(dd, p, [16, 1]) ensures PrefixedAt(dd, p) == Parsed(Element.Value(Value.Boolean(true)), p + 2) {
      TrueAt(dd, p);
    }
    EntryAt(d, 2, key, "a", [0], Element.Unit);
    EntryAt(d, 5, key, "a", [16, 1], Element.Value(Value.Boolean(true)));
  }

  /** Struct entries are inserted in order, so a repeated key keeps its last element:
      {a: unit, a: true} decodes to {a: true}. */
  lemma StructDuplicateKeyOverwrites()
    ensures DuplicateKeys == [64, 2, 1, 97, 0, 1, 97, 16, 1]
    ensures Decode(DuplicateKeys) == Ok(Element.Struct(map["a" := Element.Value(Value.Boolean(true))]))
  {
    var d := DuplicateKeys;
    DuplicateKeysEntries();
    var m0: map<string, Element> := map[];
    var m1 := m0["a" := Element.Unit];
    var m2 := m1["a" := Element.Value(Value.Boolean(true))];
    assert m2 == map["a" := Element.Value(Value.Boolean(true))];
    assert StructItemsAt(d, 9, 0, m2) == Parsed(m2, 9);
    StructItemsStep(d, 5, 1, m1, "a", Element.Value(Value.Boolean(true)), 9);
    StructItemsStep(d, 2, 2, m0, "a", Element.Unit, 5);
    StructWithCount(d, 2, m2, 9);
  }

  /** A List of value tag op whose count byte n < 63 sits at 1 and whose items end at q. */
  lemma ListWithCount(data: seq<byte>, op: byte, n: nat, values: seq<NibbleValues.Value>, q: nat)
    requires |data| >= 2 && data[0] / 16 == 7 && data[0] % 16 == op && data[1] == n < 0x3F
    requires ListItemsAt(ParseValue(op).value, data, 2, n, []) == Parsed(values, q)
    ensures Decode(data) == Ok(Element.List(values))
  {
    assert data == [data[0]] + [n] + data[2..];
    AtMiddle([data[0]], [n], data[2..]);
    VarLengthSmall(n);
    VarLengthSmallRoundTrip(data, 1, n);
    assert ElementAt(ElementIdent.List, op, data, 1) == Parsed(Element.List(values), q);
    assert ParseElement(data[0] / 16) == Some(ElementIdent.List);
    assert PrefixAt(data, 0) == Parsed((ElementIdent.List, op), 1);
  }

  /** One bare byte of a List of Unsigned8. */
  lemma ListByteStep(data: seq<byte>, pos: nat, n: nat, acc: seq<NibbleValues.Value>)
    requires pos < |data| && n > 0
    ensures ListItemsAt(ValueIdent.Unsigned8, data, pos, n, acc)
      == ListItemsAt(ValueIdent.Unsigned8, data, pos + 1, n - 1, acc + [Value.Unsigned8(data[pos])])
  {
  }

  /** List items are bare bodies of the tag in the operand, with no prefix each:
      [0x71, 2, 5, 7] is the list of the bytes 5 and 7. */
  lemma ListItemsAreBare()
    ensures Decode([0x71, 2, 5, 7]) == Ok(Element.List([Value.Unsigned8(5), Value.Unsigned8(7)]))
  {
    var d: seq<byte> := [0x71, 2, 5, 7];
    var u5, u7 := Value.Unsigned8(5), Value.Unsigned8(7);
    ListByteStep(d, 2, 2, []);
    assert [] + [Value.Unsigned8(d[2])] == [u5];
    ListByteStep(d, 3, 1, [u5]);
    assert [u5] + [Value.Unsigned8(d[3])] == [u5, u7];
    assert ListItemsAt(ValueIdent.Unsigned8, d, 4, 0, [u5, u7]) == Parsed([u5, u7], 4);
    assert ListItemsAt(ValueIdent.Unsigned8, d, 2, 2, []) == Parsed([u5, u7], 4);
    ListWithCount(d, 1, 2, [u5, u7], 4);
  }

  /** A Variant name is read length-prefixed like a Struct key: [0x50, 1, 'x', 0x00]
      is the unit variant "x". */
  lemma VariantNameLengthPrefixed()
    ensures Decode([0x50] + [1, 120] + [0x00]) == Ok(Element.Variant("x", Element.Unit))
  {
    var name: seq<byte> := [1, 120];
    var d: seq<byte> := [0x50] + name + [0x00];
    Utf8.AsciiBytes("x", [120]);
    assert name == [|Utf8.Encode("x")|] + Utf8.Encode("x");
    AtMiddle([0x50], name, [0x00]);
    ShortStringAt(d, 1, "x");
    AtMiddle([0x50] + name, [0x00], []);
    assert d == [0x50] + name + [0x00] + [];
    UnitAt(d, 3);
    assert ElementAt(ElementIdent.Variant, 0, d, 1) == Parsed(Element.Variant("x", Element.Unit), 4);
    assert PrefixAt(d, 0) == Parsed((ElementIdent.Variant, 0), 1);
  }
}
