/** The shape inference of the serializer (src/ser/seq.rs, src/ser/map.rs): a sequence
    becomes a List when every item is a value with one prefix and an Array otherwise,
    and a map accepts keys of one value tag only.

    Serializing an item (`value.serialize(TychoSerializer)`) is not modelled: the
    methods take the element it produced. The prefix byte of an element
    (`Element::prefix`) is a parameter of the sequence serializer. */
module NibbleSer {
  import opened Bytes
  import opened Wrappers
  import I = NibbleIdent
  import opened NibbleValues

  /** Why a key was refused as a value: it is not a value, or it cannot be hashed. */
  datatype KeyReason = NotAValue | Unhashable

  /** The errors of `TychoSerializerError` that the two serializers raise. HashPanic
      is not an error of the source: it stands for the panic of hashing a float key
      when it is inserted into the map. */
  datatype SerError =
    | InvalidValueType(found: I.ElementIdent, reason: KeyReason)
    | ValueTypeMismatch(expected: I.ValueIdent, foundIdent: I.ValueIdent)
    | NoKeyGiven
    | HashPanic

  datatype Status = Ok | Err(error: SerError)

  // ---------------------------------------------------------------------------
  // Sequences

  /** The running state of `optimise_value`: the prefix of the first item and the
      flags "all items share that prefix" and "all items are values". */
  datatype Flags = Flags(typeIdent: Option<byte>, isSame: bool, isValues: bool)

  const Fresh := Flags(None, true, true)

  /** `optimise_value` for an item with prefix p. Once isSame is false nothing changes. */
  function Optimise(f: Flags, p: byte, isValue: bool): (r: Flags)
    ensures !f.isSame ==> r == f
    ensures f.isSame && f.typeIdent.Some? ==> r.typeIdent == f.typeIdent && (r.isSame <==> f.typeIdent.value == p)
    ensures f.isSame && f.typeIdent.None? ==> r.typeIdent == Some(p) && r.isSame
    ensures f.isSame ==> (r.isValues <==> f.isValues && isValue)
  {
    if !f.isSame then f
    else
      var g := match f.typeIdent
        case None => f.(typeIdent := Some(p))
        case Some(ident) => if ident != p then f.(isSame := false) else f;
      if g.isValues && !isValue then g.(isValues := false) else g
  }

  /** The flags after the items, inserted in order. */
  function FlagsOf(prefix: Element -> byte, items: seq<Element>): Flags
  {
    if items == [] then Fresh
    else
      var last := items[|items| - 1];
      Optimise(FlagsOf(prefix, items[..|items| - 1]), prefix(last), last.Value?)
  }

  predicate SamePrefix(prefix: Element -> byte, items: seq<Element>)
  {
    forall i :: 0 <= i < |items| ==> prefix(items[i]) == prefix(items[0])
  }

  predicate AllValues(items: seq<Element>)
  {
    forall i :: 0 <= i < |items| ==> items[i].Value?
  }

  /** What the flags mean: the first prefix, whether all prefixes agree, and, while
      they agree, whether all items are values. */
  lemma {:induction false} FlagsMeaning(prefix: Element -> byte, items: seq<Element>)
    ensures items == [] ==> FlagsOf(prefix, items) == Fresh
    ensures items != [] ==> FlagsOf(prefix, items).typeIdent == Some(prefix(items[0]))
    ensures FlagsOf(prefix, items).isSame <==> SamePrefix(prefix, items)
    ensures FlagsOf(prefix, items).isSame ==> (FlagsOf(prefix, items).isValues <==> AllValues(items))
  {
    if items != [] {
      var init, last := items[..|items| - 1], items[|items| - 1];
      FlagsMeaning(prefix, init);
      if init != [] {
        assert init[0] == items[0];
        if !SamePrefix(prefix, init) {
          var i :| 0 <= i < |init| && prefix(init[i]) != prefix(init[0]);
          assert items[i] == init[i];
        }
        if SamePrefix(prefix, init) && !AllValues(init) {
          var i :| 0 <= i < |init| && !init[i].Value?;
          assert items[i] == init[i];
        }
      }
      assert items == init + [last];
    }
  }

  /** Once the prefixes have disagreed, further items change no flag. */
  lemma {:induction false} FlagsFrozen(prefix: Element -> byte, items: seq<Element>, more: seq<Element>)
    requires !FlagsOf(prefix, items).isSame
    ensures FlagsOf(prefix, items + more) == FlagsOf(prefix, items)
  {
    if more != [] {
      var init := more[..|more| - 1];
      FlagsFrozen(prefix, items, init);
      assert (items + more)[..|items + more| - 1] == items + init;
    } else {
      assert items + more == items;
    }
  }

  /** The payloads of the Value items, in order (`filter_map`). */
  function Payloads(items: seq<Element>): (r: seq<Value>)
    ensures |r| <= |items|
  {
    if items == [] then []
    else (if items[0].Value? then [items[0].value] else []) + Payloads(items[1..])
  }

  /** When every item is a value, the payloads are the items unwrapped one by one. */
  lemma {:induction false} PayloadsOfValues(items: seq<Element>)
    requires AllValues(items)
    ensures |Payloads(items)| == |items|
    ensures forall i :: 0 <= i < |items| ==> items[i] == Element.Value(Payloads(items)[i])
  {
    if items != [] {
      assert AllValues(items[1..]) by {
        forall i | 0 <= i < |items[1..]| ensures items[1..][i].Value? {
          assert items[1..][i] == items[i + 1];
        }
      }
      PayloadsOfValues(items[1..]);
      var r := Payloads(items);
      assert r == [items[0].value] + Payloads(items[1..]);
      forall i | 0 <= i < |items| ensures items[i] == Element.Value(r[i]) {
        if i > 0 {
          assert items[i] == items[1..][i - 1];
        }
      }
    }
  }

  /** What `finish` builds from the items: a List of the payloads when there is at
      least one item and all are values sharing one prefix, an Array otherwise. */
  function Shape(prefix: Element -> byte, items: seq<Element>): Element
  {
    if items == [] || !(AllValues(items) && SamePrefix(prefix, items)) then Element.Array(items)
    else Element.List(Payloads(items))
  }

  /** A List shape carries every item, in order, as a bare value. */
  lemma ShapeList(prefix: Element -> byte, items: seq<Element>)
    requires Shape(prefix, items).List?
    ensures items != [] && AllValues(items) && SamePrefix(prefix, items)
    ensures |Shape(prefix, items).values| == |items|
    ensures forall i :: 0 <= i < |items| ==> items[i] == Element.Value(Shape(prefix, items).values[i])
  {
    PayloadsOfValues(items);
  }

  /** `TychoSeqSerializer`. */
  class SeqSerializer {
    const prefix: Element -> byte
    var data: seq<Element>
    var typeIdent: Option<byte>
    var isSame: bool
    var isValues: bool

    /** The flags are those of the items inserted so far. */
    ghost predicate Valid()
      reads this
    {
      Flags(typeIdent, isSame, isValues) == FlagsOf(prefix, data)
    }

    /** `new`. */
    constructor (prefix: Element -> byte)
      ensures Valid() && this.prefix == prefix
      ensures data == [] && typeIdent == None && isSame && isValues
    {
      this.prefix := prefix;
      data := [];
      typeIdent := None;
      isSame := true;
      isValues := true;
    }

    /** `optimise_value`. */
    method OptimiseValue(v: Element)
      modifies this
      ensures data == old(data)
      ensures Flags(typeIdent, isSame, isValues) == Optimise(old(Flags(typeIdent, isSame, isValues)), prefix(v), v.Value?)
    {
      if isSame {
        match typeIdent {
          case None => typeIdent := Some(prefix(v));
          case Some(ident) =>
            if ident != prefix(v) {
              isSame := false;
            }
        }
        if isValues {
          if !v.Value? {
            isValues := false;
          }
        }
      }
    }

    /** `insert`: the item goes at the end and the flags take it into account. */
    method Insert(v: Element)
      requires Valid()
      modifies this
      ensures Valid() && data == old(data) + [v]
    {
      OptimiseValue(v);
      data := data + [v];
      assert data[..|data| - 1] == old(data);
    }

    /** `finish`. */
    method Finish() returns (e: Element)
      requires Valid()
      ensures e == Shape(prefix, data)
    {
      FlagsMeaning(prefix, data);
      if |data| == 0 || !(isValues && isSame) {
        e := Element.Array(data);
      } else {
        e := Element.List(Payloads(data));
      }
    }
  }

  /** `TychoVariantSeqSerializer`: a sequence serializer under a variant name. */
  class VariantSeqSerializer {
    const name: string
    const inner: SeqSerializer

    ghost predicate Valid()
      reads this, inner
    {
      inner.Valid()
    }

    /** `new`. */
    constructor (name: string, prefix: Element -> byte)
      ensures Valid() && fresh(inner) && this.name == name
      ensures inner.prefix == prefix && inner.data == []
    {
      this.name := name;
      inner := new SeqSerializer(prefix);
    }

    /** `insert`. */
    method Insert(v: Element)
      requires Valid()
      modifies inner
      ensures Valid() && inner.data == old(inner.data) + [v]
    {
      inner.Insert(v);
    }

    /** `finish`: the inner shape under the name. */
    method Finish() returns (e: Element)
      requires Valid()
      ensures e == Element.Variant(name, Shape(inner.prefix, inner.data))
    {
      var body := inner.Finish();
      e := Element.Variant(name, body);
    }
  }

  // ---------------------------------------------------------------------------
  // Maps

  /** `TychoMapSerializer`. */
  class MapSerializer {
    var keyType: Option<I.ValueIdent>
    var lastKey: Option<Value>
    var data: map<Value, Element>

    /** Every stored key and the pending key have the key type, and every stored key
        can be hashed. The pending key may be a float that was accepted after a
        refused float first key. */
    ghost predicate Valid()
      reads this
    {
      && (lastKey.Some? ==> keyType == Some(IdentOf(lastKey.value)))
      && (forall k :: k in data ==> keyType == Some(IdentOf(k)) && CanHash(k))
    }

    /** `new`. */
    constructor ()
      ensures Valid() && keyType == None && lastKey == None && data == map[]
    {
      keyType := None;
      lastKey := None;
      data := map[];
    }

    /** `insert_key`. Only the first key is checked for hashing; a refused first key
        still fixes the key type. */
    method InsertKey(ser: Element) returns (r: Status)
      requires Valid()
      modifies this
      ensures Valid() && data == old(data)
      ensures !ser.Value? ==> r == Err(InvalidValueType(ElementIdentOf(ser), NotAValue)) && unchanged(this)
      ensures ser.Value? && old(keyType).None? ==>
        keyType == Some(IdentOf(ser.value)) &&
        if CanHash(ser.value) then r == Ok && lastKey == Some(ser.value)
        else r == Err(InvalidValueType(I.ElementIdent.Value, Unhashable)) && lastKey == old(lastKey)
      ensures ser.Value? && old(keyType).Some? && old(keyType).value != IdentOf(ser.value) ==>
        r == Err(ValueTypeMismatch(old(keyType).value, IdentOf(ser.value))) && unchanged(this)
      ensures ser.Value? && old(keyType) == Some(IdentOf(ser.value)) ==>
        r == Ok && keyType == old(keyType) && lastKey == Some(ser.value)
    {
      if ser.Value? {
        var v := ser.value;
        match keyType {
          case None =>
            keyType := Some(IdentOf(v));
            if !CanHash(v) {
              return Err(InvalidValueType(ElementIdentOf(ser), Unhashable));
            }
          case Some(ident) =>
            if ident != IdentOf(v) {
              return Err(ValueTypeMismatch(ident, IdentOf(v)));
            }
        }
        lastKey := Some(v);
        return Ok;
      } else {
        return Err(InvalidValueType(ElementIdentOf(ser), NotAValue));
      }
    }

    /** `insert_value`: the element goes under the pending key, which stays pending. */
    method InsertValue(value: Element) returns (r: Status)
      requires Valid()
      modifies this
      ensures Valid() && keyType == old(keyType) && lastKey == old(lastKey)
      ensures old(lastKey).None? ==> r == Err(NoKeyGiven) && data == old(data)
      ensures old(lastKey).Some? && !CanHash(old(lastKey).value) ==> r == Err(HashPanic) && data == old(data)
      ensures old(lastKey).Some? && CanHash(old(lastKey).value) ==>
        r == Ok && data == old(data)[old(lastKey).value := value]
    {
      match lastKey {
        case None =>
          return Err(NoKeyGiven);
        case Some(key) =>
          if !CanHash(key) {
            return Err(HashPanic);
          }
          data := data[key := value];
          return Ok;
      }
    }

    /** `finish`: the map, all of whose keys share the key type and can be hashed. */
    method Finish() returns (e: Element)
      requires Valid()
      ensures e == Element.Map(data)
      ensures forall k :: k in e.entries ==> keyType == Some(IdentOf(k)) && CanHash(k)
    {
      e := Element.Map(data);
    }
  }

  /** A refused float first key leaves the key type set, so a second float key is
      accepted without the hashing test, and inserting a value under it panics. */
  method FloatKeyAfterRefusal() returns (first: Status, second: Status, insert: Status)
    ensures first == Err(InvalidValueType(I.ElementIdent.Value, Unhashable))
    ensures second == Ok
    ensures insert == Err(HashPanic)
  {
    var m := new MapSerializer();
    first := m.InsertKey(Element.Value(Float32(0)));
    second := m.InsertKey(Element.Value(Float32(1)));
    insert := m.InsertValue(Element.Unit);
  }
}
