/** Properties of the partial reader: it reads an element without containers exactly
    as the byte-prefixed writer wrote it; after a container header it stands at the
    body's length taken as an offset from where the reader was made; `next_item`
    reads the item at the head, moves the head by the item's bytes and leaves the
    reader where it was; and the two byte vectors below. */
module PartialLemmas {
  import opened Bytes
  import opened Wrappers
  import opened TychoErrors
  import I = TychoIdent
  import V = TychoValues
  import F = TychoFormat
  import opened TychoReadSpec
  import In = TychoInput
  import L = TychoLemmas
  import E = TychoElementLemmas
  import opened PartialStream
  import opened PartialElements
  import opened PartialTypes
  import opened PartialContainers

  /** The partial element a container-free element reads as: the same shape, with no
      Option around a Some; None for an element holding a container or a compression. */
  function Eager(e: V.Element): (r: Option<PartialElement>)
    ensures r.Some? ==> !r.value.Struct? && !r.value.List? && !r.value.Map? && !r.value.Array?
    decreases e
  {
    match e
    case Unit => Some(Unit)
    case Value(v) => Some(Value(v))
    case Opt(x) => if x.None? then Some(Opt(None)) else Eager(x.value)
    case Variant(name, x) =>
      (match Eager(x)
       case None => None
       case Some(y) => Some(Variant(name, y)))
    case _ => None
  }

  /** Two deliveries in a row are one: the stream and the u64 pointer add up. */
  lemma DeliveredTwice(data: seq<byte>, pl: Place, q1: nat, q2: nat)
    requires pl.pointer < U64Limit && ReadPos(data, pl) <= q1 <= q2 <= |data| < U64Limit
    ensures Delivered(data, Delivered(data, pl, q1), q2) == Delivered(data, pl, q2)
  {
    assert ReadPos(data, Delivered(data, pl, q1)) == q1;
  }

  /** What `read_element` read of a container-free element, arm by arm: the tag
      gives the element's ident, and the rest was read by that ident's arm. */
  lemma ElementAtFlat(data: seq<byte>, p: nat)
    requires p <= |data| && ElementAt(data, p).Parsed? && Eager(ElementAt(data, p).value).Some?
    ensures ElementIdentAt(data, p) == Parsed(V.ElementIdentOf(ElementAt(data, p).value), p + 1)
    ensures var r := ElementAt(data, p);
            match r.value
            case Value(_) => ValueElementAt(data, p + 1) == r
            case Opt(x) => if x.None? then r.next == p + 1 else ElementAt(data, p + 1) == Parsed(x.value, r.next)
            case Variant(_, _) => VariantAt(data, p + 1) == r
            case _ => r.next == p + 1
  {
  }

  /** The partial reader reads what `read_element` reads of an element without
      containers, with each Some dropped, and stops where it stops. */
  lemma {:induction false} PartialAgrees(data: seq<byte>, pl: Place, id: u16, e: V.Element, q: nat)
    requires Fits(pl) && |data| < U64Limit
    requires ElementAt(data, ReadPos(data, pl)) == Parsed(e, q) && Eager(e).Some?
    ensures PartialElementAt(data, pl, id) == Done(Eager(e).value, Delivered(data, pl, q))
    decreases e, 1
  {
    match e
    case Value(v) => ValueAgrees(data, pl, id, e, q);
    case Opt(x) => if x.Some? { SomeAgrees(data, pl, id, e, q); } else { NoArgAgrees(data, pl, id, e, q); }
    case Variant(name, x) => VariantAgrees(data, pl, id, e, q);
    case Unit => NoArgAgrees(data, pl, id, e, q);
  }

  /** Unit and None: the tag alone. */
  lemma NoArgAgrees(data: seq<byte>, pl: Place, id: u16, e: V.Element, q: nat)
    requires Fits(pl) && |data| < U64Limit
    requires ElementAt(data, ReadPos(data, pl)) == Parsed(e, q) && Eager(e).Some?
    ensures PartialElementAt(data, pl, id) == Done(Eager(e).value, Delivered(data, pl, q))
    requires e.Unit? || e == V.Element.Opt(None)
  {
    ElementAtFlat(data, ReadPos(data, pl));
  }

  lemma ValueAgrees(data: seq<byte>, pl: Place, id: u16, e: V.Element, q: nat)
    requires Fits(pl) && |data| < U64Limit
    requires ElementAt(data, ReadPos(data, pl)) == Parsed(e, q) && Eager(e).Some?
    ensures PartialElementAt(data, pl, id) == Done(Eager(e).value, Delivered(data, pl, q))
    requires e.Value?
  {
    var p := ReadPos(data, pl);
    ElementAtFlat(data, p);
    var pl1 := Delivered(data, pl, p + 1);
    assert ReadPos(data, pl1) == p + 1;
    ValueArmAgrees(data, pl1, e.value, q);
    DeliveredTwice(data, pl, p + 1, q);
  }

  lemma SomeAgrees(data: seq<byte>, pl: Place, id: u16, e: V.Element, q: nat)
    requires Fits(pl) && |data| < U64Limit
    requires ElementAt(data, ReadPos(data, pl)) == Parsed(e, q) && Eager(e).Some?
    ensures PartialElementAt(data, pl, id) == Done(Eager(e).value, Delivered(data, pl, q))
    requires e.Opt? && e.option.Some?
    decreases e, 0
  {
    var p := ReadPos(data, pl);
    ElementAtFlat(data, p);
    var pl1 := Delivered(data, pl, p + 1);
    assert ReadPos(data, pl1) == p + 1;
    PartialAgrees(data, pl1, id, e.option.value, q);
    DeliveredTwice(data, pl, p + 1, q);
  }

  lemma VariantAgrees(data: seq<byte>, pl: Place, id: u16, e: V.Element, q: nat)
    requires Fits(pl) && |data| < U64Limit
    requires ElementAt(data, ReadPos(data, pl)) == Parsed(e, q) && Eager(e).Some?
    ensures PartialElementAt(data, pl, id) == Done(Eager(e).value, Delivered(data, pl, q))
    requires e.Variant?
    decreases e, 0
  {
    var p := ReadPos(data, pl);
    ElementAtFlat(data, p);
    var pl1 := Delivered(data, pl, p + 1);
    assert ReadPos(data, pl1) == p + 1;
    var q1 := TStringAt(data, p + 1).next;
    var pl2 := Delivered(data, pl1, q1);
    assert ReadPos(data, pl2) == q1;
    PartialAgrees(data, pl2, id, e.inner, q);
    DeliveredTwice(data, pl1, q1, q);
    DeliveredTwice(data, pl, p + 1, q);
    VariantArmJoin(data, pl1, id, e.name, q1, Eager(e.inner).value, Delivered(data, pl, q));
  }

  /** The partial reader reads a written element without containers as the element
      itself, Some dropped, and leaves the stream just after its bytes. */
  lemma PartialReadsFlat(data: seq<byte>, pl: Place, id: u16, e: V.Element, ord: F.Orders)
    requires Fits(pl) && |data| < U64Limit && F.ValidOrders(ord) && E.Writable(e) && Eager(e).Some?
    requires At(data, ReadPos(data, pl), F.ElementBytes(e, ord))
    ensures PartialElementAt(data, pl, id)
         == Done(Eager(e).value, Delivered(data, pl, ReadPos(data, pl) + |F.ElementBytes(e, ord)|))
  {
    WrittenReads(data, pl, e, ord);
    WrittenAgrees(data, pl, id, e, ord);
  }

  /** `read_element` reads the written element back (TychoElementLemmas), from the
      partial reader's read position. */
  lemma WrittenReads(data: seq<byte>, pl: Place, e: V.Element, ord: F.Orders)
    requires Fits(pl) && |data| < U64Limit && F.ValidOrders(ord) && E.Writable(e) && Eager(e).Some?
    requires At(data, ReadPos(data, pl), F.ElementBytes(e, ord))
    ensures ElementAt(data, ReadPos(data, pl)) == Parsed(e, ReadPos(data, pl) + |F.ElementBytes(e, ord)|)
  {
    E.ElementRoundTrip(data, ReadPos(data, pl), e, ord);
  }

  lemma WrittenAgrees(data: seq<byte>, pl: Place, id: u16, e: V.Element, ord: F.Orders)
    requires Fits(pl) && |data| < U64Limit && F.ValidOrders(ord) && E.Writable(e) && Eager(e).Some?
    requires At(data, ReadPos(data, pl), F.ElementBytes(e, ord))
    requires ElementAt(data, ReadPos(data, pl)) == Parsed(e, ReadPos(data, pl) + |F.ElementBytes(e, ord)|)
    ensures PartialElementAt(data, pl, id)
         == Done(Eager(e).value, Delivered(data, pl, ReadPos(data, pl) + |F.ElementBytes(e, ord)|))
  {
    PartialAgrees(data, pl, id, e, ReadPos(data, pl) + |F.ElementBytes(e, ord)|);
  }

  /** The Value arm of the partial reader reads what the Value arm of `read_element`
      reads. */
  lemma ValueArmAgrees(data: seq<byte>, pl: Place, v: V.Value, q: nat)
    requires Fits(pl) && |data| < U64Limit
    requires ValueElementAt(data, ReadPos(data, pl)) == Parsed(V.Element.Value(v), q)
    ensures ValueArmAt(data, pl) == Done(Value(v), Delivered(data, pl, q))
  {
    var p := ReadPos(data, pl);
    var t := ValueIdentAt(data, p).value;
    var q1 := ValueIdentAt(data, p).next;
    DeliveredTwice(data, pl, q1, q);
  }

  lemma VariantArmJoin(data: seq<byte>, pl: Place, id: u16, name: string, q1: nat, y: PartialElement, at: Place)
    requires Fits(pl) && |data| < U64Limit && TStringAt(data, ReadPos(data, pl)) == Parsed(name, q1)
    requires PartialElementAt(data, Delivered(data, pl, q1), id) == Done(y, at)
    ensures VariantArmAt(data, pl, id) == Done(Variant(name, y), at)
  {
  }

  /** A container header whose length frames `body`, read where the stream is `start`
      plus the pointer: the container starts at the pointer after the length, and the
      jump to the length taken as an offset leaves the stream at `start + |body|`, not
      at the end of the body. */
  lemma HeaderJumps(data: seq<byte>, pl: Place, id: u16, kind: ItemKind, body: seq<byte>, start: nat)
    requires pl.pointer < I64Limit && |data| < I64Limit && pl.seek == start + pl.pointer
    requires At(data, pl.seek, F.Framed(body))
    ensures Fits(pl) && ReadPos(data, pl) == pl.seek
    ensures HeaderAt(data, pl, id, kind)
         == Done(Container(PartialPointer(pl.pointer + |F.Leb128(|body|)|, |body|, id), 0, kind), Place(start + |body|, |body|))
  {
    var p := pl.seek;
    AtSplit(data, p, F.Leb128(|body|), body);
    L.LengthRoundTrip(data, p, |body|);
    var q := p + |F.Leb128(|body|)|;
    assert Delivered(data, pl, q) == Place(q, pl.pointer + |F.Leb128(|body|)|);
  }

  /** An element tag followed by `rest` leads the partial reader to that tag's arm. */
  lemma TagThen(data: seq<byte>, pl: Place, id: u16, t: I.ElementIdent, rest: seq<byte>)
    requires Fits(pl) && |data| < U64Limit && At(data, ReadPos(data, pl), [I.ElementTag(t)] + rest)
    ensures ReadPos(data, pl) < |data| && ReadPos(data, Delivered(data, pl, ReadPos(data, pl) + 1)) == ReadPos(data, pl) + 1
    ensures At(data, ReadPos(data, pl) + 1, rest)
    ensures PartialElementAt(data, pl, id) == ElementArmAt(data, Delivered(data, pl, ReadPos(data, pl) + 1), id, t)
  {
    var p := ReadPos(data, pl);
    AtSplit(data, p, [I.ElementTag(t)], rest);
    In.ByteAtByte(data, p, I.ElementTag(t));
    I.ParseElementTagOfTag(t);
  }

  /** The same where the stream is `pl.seek` and the pointer does not wrap: the arm
      starts one byte and one pointer step further on, and what it reads is the
      element. */
  lemma TagArm(data: seq<byte>, pl: Place, id: u16, t: I.ElementIdent, rest: seq<byte>, x: PartialElement, at: Place)
    requires pl.pointer < I64Limit && |data| < I64Limit && At(data, pl.seek, [I.ElementTag(t)] + rest)
    requires ElementArmAt(data, Place(pl.seek + 1, pl.pointer + 1), id, t) == Done(x, at)
    ensures Fits(pl) && PartialElementAt(data, pl, id) == Done(x, at)
  {
    assert ReadPos(data, pl) == pl.seek;
    TagThen(data, pl, id, t, rest);
    assert Delivered(data, pl, pl.seek + 1) == Place(pl.seek + 1, pl.pointer + 1);
  }

  /** The bytes after a tag at `pl.seek`. */
  lemma TagRest(data: seq<byte>, p: nat, t: I.ElementIdent, rest: seq<byte>)
    requires At(data, p, [I.ElementTag(t)] + rest)
    ensures At(data, p + 1, rest)
  {
    AtSplit(data, p, [I.ElementTag(t)], rest);
  }

  /** The header of a typed array or map after its tag: the non-Null ident, then a
      length framing `body`, read as HeaderJumps says; `pos` is where the body starts. */
  lemma TypedHeaderJumps(data: seq<byte>, pl: Place, id: u16, keyed: bool, t: I.ValueIdent, kind: ItemKind,
                         body: seq<byte>, start: nat, pos: nat)
    requires t != I.Null && pl.pointer < I64Limit && |data| < I64Limit && pl.seek == start + pl.pointer
    requires At(data, pl.seek, I.ValueIdentBytes(t) + F.Framed(body))
    requires kind == (if keyed then MapItems(t) else ArrayItems(t))
    requires pos == pl.pointer + |I.ValueIdentBytes(t)| + |F.Leb128(|body|)|
    ensures Fits(pl)
    ensures TypedHeaderAt(data, pl, id, keyed) == Done(Container(PartialPointer(pos, |body|, id), 0, kind), Place(start + |body|, |body|))
  {
    var p := pl.seek;
    var n := |I.ValueIdentBytes(t)|;
    AtSplit(data, p, I.ValueIdentBytes(t), F.Framed(body));
    L.ValueIdentRoundTrip(data, p, t);
    var pl1 := Delivered(data, pl, p + n);
    assert pl1 == Place(p + n, pl.pointer + n);
    HeaderJumps(data, pl1, id, kind, body, start);
  }

  /** A struct tag and a length framing `body`, read where the stream is `start` plus the
      pointer: an opened container whose body starts after the length. */
  lemma StructFramedRead(data: seq<byte>, pl: Place, id: u16, body: seq<byte>, start: nat)
    requires pl.pointer < I64Limit && |data| < I64Limit && pl.seek == start + pl.pointer
    requires At(data, pl.seek, [I.ElementTag(I.Struct)] + F.Framed(body))
    ensures PartialElementAt(data, pl, id) ==
              Done(Struct(Container(PartialPointer(pl.pointer + 1 + |F.Leb128(|body|)|, |body|, id), 0, StructItems)),
                   Place(start + |body|, |body|))
  {
    var pl1 := Place(pl.seek + 1, pl.pointer + 1);
    TagRest(data, pl.seek, I.Struct, F.Framed(body));
    HeaderJumps(data, pl1, id, StructItems, body, start);
    TagArm(data, pl, id, I.Struct, F.Framed(body),
           Struct(Container(PartialPointer(pl.pointer + 1 + |F.Leb128(|body|)|, |body|, id), 0, StructItems)), Place(start + |body|, |body|));
  }

  /** A list tag and a length framing `body`, read where the stream is `start` plus the
      pointer: an opened container whose body starts after the length. */
  lemma ListFramedRead(data: seq<byte>, pl: Place, id: u16, body: seq<byte>, start: nat)
    requires pl.pointer < I64Limit && |data| < I64Limit && pl.seek == start + pl.pointer
    requires At(data, pl.seek, [I.ElementTag(I.List)] + F.Framed(body))
    ensures PartialElementAt(data, pl, id) ==
              Done(List(Container(PartialPointer(pl.pointer + 1 + |F.Leb128(|body|)|, |body|, id), 0, ListItems)),
                   Place(start + |body|, |body|))
  {
    var pl1 := Place(pl.seek + 1, pl.pointer + 1);
    TagRest(data, pl.seek, I.List, F.Framed(body));
    HeaderJumps(data, pl1, id, ListItems, body, start);
    TagArm(data, pl, id, I.List, F.Framed(body),
           List(Container(PartialPointer(pl.pointer + 1 + |F.Leb128(|body|)|, |body|, id), 0, ListItems)), Place(start + |body|, |body|));
  }

  /** An array tag, a non-Null ident t and a length framing `body`: an opened
      container of t-typed values. */
  lemma ArrayTypedHeaderRead(data: seq<byte>, pl: Place, id: u16, t: I.ValueIdent, body: seq<byte>, start: nat, pos: nat)
    requires t != I.Null && pl.pointer < I64Limit && |data| < I64Limit && pl.seek == start + pl.pointer
    requires At(data, pl.seek, [I.ElementTag(I.Array)] + (I.ValueIdentBytes(t) + F.Framed(body)))
    requires pos == pl.pointer + 1 + |I.ValueIdentBytes(t)| + |F.Leb128(|body|)|
    ensures PartialElementAt(data, pl, id) == Done(Array(Container(PartialPointer(pos, |body|, id), 0, ArrayItems(t))), Place(start + |body|, |body|))
  {
    TagRest(data, pl.seek, I.Array, I.ValueIdentBytes(t) + F.Framed(body));
    ArrayArmJumps(data, Place(pl.seek + 1, pl.pointer + 1), id, t, body, start, pos);
    TagArm(data, pl, id, I.Array, I.ValueIdentBytes(t) + F.Framed(body),
           Array(Container(PartialPointer(pos, |body|, id), 0, ArrayItems(t))), Place(start + |body|, |body|));
  }

  /** The Array arm over a non-Null ident and a length framing `body`; `pos` is where
      the body starts. */
  lemma ArrayArmJumps(data: seq<byte>, pl: Place, id: u16, t: I.ValueIdent, body: seq<byte>, start: nat, pos: nat)
    requires t != I.Null && pl.pointer < I64Limit && |data| < I64Limit && pl.seek == start + pl.pointer
    requires At(data, pl.seek, I.ValueIdentBytes(t) + F.Framed(body))
    requires pos == pl.pointer + |I.ValueIdentBytes(t)| + |F.Leb128(|body|)|
    ensures Fits(pl)
    ensures ElementArmAt(data, pl, id, I.Array) == Done(Array(Container(PartialPointer(pos, |body|, id), 0, ArrayItems(t))), Place(start + |body|, |body|))
  {
    TypedHeaderJumps(data, pl, id, false, t, ArrayItems(t), body, start, pos);
  }

  /** A map tag, a non-Null key ident t and a length framing `body`: an opened
      container of entries with t-typed keys. */
  lemma MapTypedHeaderRead(data: seq<byte>, pl: Place, id: u16, t: I.ValueIdent, body: seq<byte>, start: nat, pos: nat)
    requires t != I.Null && pl.pointer < I64Limit && |data| < I64Limit && pl.seek == start + pl.pointer
    requires At(data, pl.seek, [I.ElementTag(I.Map)] + (I.ValueIdentBytes(t) + F.Framed(body)))
    requires pos == pl.pointer + 1 + |I.ValueIdentBytes(t)| + |F.Leb128(|body|)|
    ensures PartialElementAt(data, pl, id) == Done(Map(Container(PartialPointer(pos, |body|, id), 0, MapItems(t))), Place(start + |body|, |body|))
  {
    TagRest(data, pl.seek, I.Map, I.ValueIdentBytes(t) + F.Framed(body));
    MapArmJumps(data, Place(pl.seek + 1, pl.pointer + 1), id, t, body, start, pos);
    TagArm(data, pl, id, I.Map, I.ValueIdentBytes(t) + F.Framed(body),
           Map(Container(PartialPointer(pos, |body|, id), 0, MapItems(t))), Place(start + |body|, |body|));
  }

  /** The Map arm over a non-Null ident and a length framing `body`; `pos` is where
      the body starts. */
  lemma MapArmJumps(data: seq<byte>, pl: Place, id: u16, t: I.ValueIdent, body: seq<byte>, start: nat, pos: nat)
    requires t != I.Null && pl.pointer < I64Limit && |data| < I64Limit && pl.seek == start + pl.pointer
    requires At(data, pl.seek, I.ValueIdentBytes(t) + F.Framed(body))
    requires pos == pl.pointer + |I.ValueIdentBytes(t)| + |F.Leb128(|body|)|
    ensures Fits(pl)
    ensures ElementArmAt(data, pl, id, I.Map) == Done(Map(Container(PartialPointer(pos, |body|, id), 0, MapItems(t))), Place(start + |body|, |body|))
  {
    TypedHeaderJumps(data, pl, id, true, t, MapItems(t), body, start, pos);
  }

  /** An array or map tag and the Null ident: a container with the empty pointer, which
      `next_item` finds finished at once. */
  lemma NullHeaderRead(data: seq<byte>, pl: Place, id: u16, keyed: bool)
    requires Fits(pl) && |data| < U64Limit
    requires At(data, ReadPos(data, pl), [I.ElementTag(if keyed then I.Map else I.Array)] + I.ValueIdentBytes(I.Null))
    ensures var c := Container(PartialPointer(0, 0, id), 0, if keyed then MapItems(I.Null) else ArrayItems(I.Null));
            var p := ReadPos(data, pl);
            p + 2 <= |data| &&
            PartialElementAt(data, pl, id) == Done(if keyed then Map(c) else Array(c), Delivered(data, pl, p + 2)) &&
            NextItemAt(data, Delivered(data, pl, p + 2), id, c).result == Ok(None)
  {
    var p := ReadPos(data, pl);
    TagThen(data, pl, id, if keyed then I.Map else I.Array, I.ValueIdentBytes(I.Null));
    L.ValueIdentRoundTrip(data, p + 1, I.Null);
    var pl1 := Delivered(data, pl, p + 1);
    DeliveredTwice(data, pl, p + 1, p + 2);
    var c := Container(PartialPointer(0, 0, id), 0, if keyed then MapItems(I.Null) else ArrayItems(I.Null));
    assert TypedHeaderAt(data, pl1, id, keyed) == Done(c, Delivered(data, pl, p + 2));
  }

  /** A written struct reads as an opened container over its framed fields. */
  lemma StructHeaderRead(data: seq<byte>, pl: Place, id: u16, m: map<string, V.Element>, ord: F.Orders, start: nat)
    requires pl.pointer < I64Limit && |data| < I64Limit && pl.seek == start + pl.pointer
    requires At(data, pl.seek, F.ElementBytes(V.Element.Struct(m), ord))
    ensures var body := F.StructBody(V.Element.Struct(m), ord.fields(m.Keys), ord);
            PartialElementAt(data, pl, id) ==
              Done(Struct(Container(PartialPointer(pl.pointer + 1 + |F.Leb128(|body|)|, |body|, id), 0, StructItems)),
                   Place(start + |body|, |body|))
  {
    StructFramedRead(data, pl, id, F.StructBody(V.Element.Struct(m), ord.fields(m.Keys), ord), start);
  }

  /** A written list reads as an opened container over its framed items. */
  lemma ListHeaderRead(data: seq<byte>, pl: Place, id: u16, xs: seq<V.Element>, ord: F.Orders, start: nat)
    requires pl.pointer < I64Limit && |data| < I64Limit && pl.seek == start + pl.pointer
    requires At(data, pl.seek, F.ElementBytes(V.Element.List(xs), ord))
    ensures var body := F.ListBody(V.Element.List(xs), 0, ord);
            PartialElementAt(data, pl, id) ==
              Done(List(Container(PartialPointer(pl.pointer + 1 + |F.Leb128(|body|)|, |body|, id), 0, ListItems)),
                   Place(start + |body|, |body|))
  {
    ListFramedRead(data, pl, id, F.ListBody(V.Element.List(xs), 0, ord), start);
  }

  /** A written non-empty typed array reads as an opened container over its values,
      which the writer framed as `body`. */
  lemma ArrayHeaderRead(data: seq<byte>, pl: Place, id: u16, t: I.ValueIdent, xs: seq<V.Value>, ord: F.Orders,
                        start: nat, body: seq<byte>, pos: nat)
    requires t != I.Null && |xs| > 0 && pl.pointer < I64Limit && |data| < I64Limit && pl.seek == start + pl.pointer
    requires At(data, pl.seek, F.ElementBytes(V.Element.Array(t, xs), ord)) && body == F.ValuesBody(xs)
    requires pos == pl.pointer + 1 + |I.ValueIdentBytes(t)| + |F.Leb128(|body|)|
    ensures PartialElementAt(data, pl, id) == Done(Array(Container(PartialPointer(pos, |body|, id), 0, ArrayItems(t))), Place(start + |body|, |body|))
  {
    assert F.ElementBytes(V.Element.Array(t, xs), ord) == [I.ElementTag(I.Array)] + (I.ValueIdentBytes(t) + F.Framed(body));
    ArrayTypedHeaderRead(data, pl, id, t, body, start, pos);
  }

  /** A written non-empty typed map reads as an opened container over its entries,
      which the writer framed as `body`. */
  lemma MapHeaderRead(data: seq<byte>, pl: Place, id: u16, t: I.ValueIdent, m: map<V.Value, V.Element>, ord: F.Orders,
                      start: nat, body: seq<byte>, pos: nat)
    requires t != I.Null && |m| > 0 && pl.pointer < I64Limit && |data| < I64Limit && pl.seek == start + pl.pointer
    requires At(data, pl.seek, F.ElementBytes(V.Element.Map(t, m), ord))
    requires body == F.MapBody(V.Element.Map(t, m), ord.keys(m.Keys), ord)
    requires pos == pl.pointer + 1 + |I.ValueIdentBytes(t)| + |F.Leb128(|body|)|
    ensures PartialElementAt(data, pl, id) == Done(Map(Container(PartialPointer(pos, |body|, id), 0, MapItems(t))), Place(start + |body|, |body|))
  {
    assert F.ElementBytes(V.Element.Map(t, m), ord) == [I.ElementTag(I.Map)] + (I.ValueIdentBytes(t) + F.Framed(body));
    MapTypedHeaderRead(data, pl, id, t, body, start, pos);
  }

  /** A written Null-typed or empty array is its tag and the Null ident: it reads as a
      container with the empty pointer, finished from the start. */
  lemma EmptyArrayRead(data: seq<byte>, pl: Place, id: u16, t: I.ValueIdent, xs: seq<V.Value>, ord: F.Orders)
    requires (t == I.Null || |xs| == 0) && Fits(pl) && |data| < U64Limit
    requires At(data, ReadPos(data, pl), F.ElementBytes(V.Element.Array(t, xs), ord))
    ensures var c := Container(PartialPointer(0, 0, id), 0, ArrayItems(I.Null));
            var p := ReadPos(data, pl);
            p + 2 <= |data| &&
            PartialElementAt(data, pl, id) == Done(Array(c), Delivered(data, pl, p + 2)) &&
            NextItemAt(data, Delivered(data, pl, p + 2), id, c).result == Ok(None)
  {
    assert F.ElementBytes(V.Element.Array(t, xs), ord) == [I.ElementTag(I.Array)] + I.ValueIdentBytes(I.Null);
    NullHeaderRead(data, pl, id, false);
  }

  /** The same for a Null-typed or empty map. */
  lemma EmptyMapRead(data: seq<byte>, pl: Place, id: u16, t: I.ValueIdent, m: map<V.Value, V.Element>, ord: F.Orders)
    requires (t == I.Null || |m| == 0) && Fits(pl) && |data| < U64Limit
    requires At(data, ReadPos(data, pl), F.ElementBytes(V.Element.Map(t, m), ord))
    ensures var c := Container(PartialPointer(0, 0, id), 0, MapItems(I.Null));
            var p := ReadPos(data, pl);
            p + 2 <= |data| &&
            PartialElementAt(data, pl, id) == Done(Map(c), Delivered(data, pl, p + 2)) &&
            NextItemAt(data, Delivered(data, pl, p + 2), id, c).result == Ok(None)
  {
    assert F.ElementBytes(V.Element.Map(t, m), ord) == [I.ElementTag(I.Map)] + I.ValueIdentBytes(I.Null);
    NullHeaderRead(data, pl, id, true);
  }
}
