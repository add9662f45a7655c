/** The bytes the byte-prefixed format writes, as functions of what is written: the
    LEB128 length of src/write/length.rs, the strings of src/write/string.rs, the
    numbers of src/write/number.rs, the values of src/write/value.rs and the elements
    of src/write/element.rs. The writer methods of TychoWrite append exactly these. */
module TychoFormat {
  import opened Bytes
  import opened Wrappers
  import I = TychoIdent
  import opened TychoValues
  import Utf8

  function Pow128(k: nat): (p: nat)
    ensures p > 0
  {
    if k == 0 then 1 else 128 * Pow128(k - 1)
  }

  /** `write_length`: unsigned LEB128 as in DWARF Version 4, section 7.6. Each byte holds
      seven bits of the number, least significant group first; every byte but the last
      has its high bit set. */
  function Leb128(n: nat): seq<byte>
    decreases n
  {
    if n < 0x80 then [n] else [n % 0x80 + 0x80] + Leb128(n / 0x80)
  }

  /** The last byte has its high bit clear and every byte before it has it set, so the
      encoding ends where its first byte below 0x80 is. */
  lemma {:induction false} Leb128Shape(n: nat)
    ensures |Leb128(n)| >= 1 && Leb128(n)[|Leb128(n)| - 1] < 0x80
    ensures forall i :: 0 <= i < |Leb128(n)| - 1 ==> Leb128(n)[i] >= 0x80
    decreases n
  {
    if n >= 0x80 {
      Leb128Shape(n / 0x80);
    }
  }

  /** Byte i carries the i-th seven-bit group of the number. */
  lemma {:induction false} Leb128Groups(n: nat)
    ensures forall i :: 0 <= i < |Leb128(n)| ==> Leb128(n)[i] % 0x80 == (n / Pow128(i)) % 0x80
  {
    if n >= 0x80 {
      Leb128Groups(n / 0x80);
      var r, t := Leb128(n), Leb128(n / 0x80);
      forall i | 0 <= i < |r|
        ensures r[i] % 0x80 == (n / Pow128(i)) % 0x80
      {
        if i > 0 {
          assert r[i] == t[i - 1];
          DivDiv(n, i - 1);
        }
      }
    }
  }

  lemma DivDiv(n: nat, k: nat)
    ensures n / 0x80 / Pow128(k) == n / Pow128(k + 1)
  {
    var p := Pow128(k);
    var q, r := n / 0x80, n % 0x80;
    var q2, r2 := q / p, q % p;
    assert n == 0x80 * (p * q2 + r2) + r;
    assert n == (0x80 * p) * q2 + (0x80 * r2 + r);
    assert 0x80 * r2 + r < 0x80 * p by {
      MulMono(0x80, r2, p - 1);
    }
    DivUnique(n, 0x80 * p, q2, 0x80 * r2 + r);
  }

  /** The encoding is as short as the number allows: one byte for every started group
      of seven bits, and a single byte for 0. */
  lemma {:induction false} Leb128Length(n: nat)
    ensures n < Pow128(|Leb128(n)|)
    ensures |Leb128(n)| > 1 ==> Pow128(|Leb128(n)| - 1) <= n
  {
    if n >= 0x80 {
      Leb128Length(n / 0x80);
      var k := |Leb128(n / 0x80)|;
      assert |Leb128(n)| == k + 1;
      MulMono(0x80, n / 0x80 + 1, Pow128(k));
      if k > 1 {
        MulMono(0x80, Pow128(k - 1), n / 0x80);
      }
    }
  }

  /** `write_buffer`: a byte string preceded by its LEB128 length. */
  function Framed(b: seq<byte>): seq<byte>
  {
    Leb128(|b|) + b
  }

  /** `write_string`: the UTF-8 bytes preceded by their length. */
  function StringBytes(s: string): seq<byte>
  {
    Framed(Utf8.Encode(s))
  }

  /** `write_tstring`: the UTF-8 bytes followed by a zero. */
  function TStringBytes(s: string): seq<byte>
  {
    Utf8.Encode(s) + [0]
  }

  /** `write_char`: the one to four UTF-8 bytes of the character, with no length and no
      terminator. */
  function CharBytes(c: char): seq<byte>
  {
    Utf8.EncodeChar(c)
  }

  /** The number of body bytes of each number ident. */
  function NumberWidth(n: I.NumberIdent): (w: nat)
    ensures w in {1, 2, 4, 8, 16}
  {
    match n
    case Bit => 1
    case Unsigned8 | Signed8 => 1
    case Unsigned16 | Signed16 => 2
    case Unsigned32 | Signed32 | Float32 => 4
    case Unsigned64 | Signed64 | Float64 => 8
    case Unsigned128 | Signed128 => 16
  }

  /** `write_number`: a bit as 0x01 or 0x00, integers big-endian (two's complement when
      signed) at the width of their type, floats as their bit patterns. */
  function NumberBytes(n: Number): seq<byte>
  {
    Pow256Widths();
    match n
    case Bit(b) => [if b then 0x01 else 0x00]
    case Unsigned8(x) => BeBytes(x, 1)
    case Signed8(x) => BeBytes(ToTwos(x, 1), 1)
    case Unsigned16(x) => BeBytes(x, 2)
    case Signed16(x) => BeBytes(ToTwos(x, 2), 2)
    case Unsigned32(x) => BeBytes(x, 4)
    case Signed32(x) => BeBytes(ToTwos(x, 4), 4)
    case Unsigned64(x) => BeBytes(x, 8)
    case Signed64(x) => BeBytes(ToTwos(x, 8), 8)
    case Unsigned128(x) => BeBytes(x, 16)
    case Signed128(x) => BeBytes(ToTwos(x, 16), 16)
    case Float32(bits) => BeBytes(bits, 4)
    case Float64(bits) => BeBytes(bits, 8)
  }

  /** `write_value`: the body of a value, without its ident. */
  function ValueBytes(v: Value): seq<byte>
  {
    Pow256Widths();
    match v
    case Null => []
    case Boolean(b) => [if b then 0x01 else 0x00]
    case String(s) => StringBytes(s)
    case Char(c) => CharBytes(c)
    case Number(n) => NumberBytes(n)
    case Bytes(b) => Framed(b)
    case UUID(u) => BeBytes(u, 16)
  }

  /** The order in which a `for` over the source's hash maps visits their keys, as a
      function of the key set. The format does not fix it; the model leaves it open. */
  datatype Orders = Orders(fields: set<string> -> seq<string>, keys: set<Value> -> seq<Value>)

  /** xs lists every member of s exactly once. */
  ghost predicate Enumerates<K(!new)>(xs: seq<K>, s: set<K>)
  {
    (forall x :: x in xs <==> x in s) && forall i, j :: 0 <= i < j < |xs| ==> xs[i] != xs[j]
  }

  /** The order ord gives the names of a struct with field names s. */
  ghost predicate ListsFields(ord: Orders, s: set<string>)
  {
    Enumerates(ord.fields(s), s)
  }

  /** The order ord gives the keys of a map with key set s. */
  ghost predicate ListsKeys(ord: Orders, s: set<Value>)
  {
    Enumerates(ord.keys(s), s)
  }

  /** ord lists every set of names and every set of keys, each member exactly once. */
  ghost predicate ValidOrders(ord: Orders)
  {
    (forall s :: ListsFields(ord, s)) && (forall s :: ListsKeys(ord, s))
  }

  /** Some listing of the members of s, each once: a member picked, then the rest. */
  ghost function Listing<K(!new)>(s: set<K>): (xs: seq<K>)
    ensures Enumerates(xs, s)
    decreases |s|
  {
    if s == {} then []
    else
      var x :| x in s;
      var rest := Listing(s - {x});
      assert forall i :: 0 <= i < |rest| ==> rest[i] != x;
      [x] + rest
  }

  /** Every HashMap and struct can be written: an order that lists every set exists. */
  lemma SomeOrders()
    ensures exists ord :: ValidOrders(ord)
  {
    var ord := Orders(s => Listing(s), s => Listing(s));
    assert forall s :: ListsFields(ord, s) by {
      forall s ensures ListsFields(ord, s) {
        assert ord.fields(s) == Listing(s);
      }
    }
    assert forall s :: ListsKeys(ord, s) by {
      forall s ensures ListsKeys(ord, s) {
        assert ord.keys(s) == Listing(s);
      }
    }
    assert ValidOrders(ord);
  }

  /** `write_element`. Struct, List and Compression bodies, and the bodies of non-empty
      typed Arrays and Maps, are written to a buffer first and then framed by their byte
      length. An Array or Map whose type is Null or that has no items is written as its
      tag and the Null value ident, and nothing else. Struct fields and Map entries
      follow `ord`. */
  function ElementBytes(e: Element, ord: Orders): seq<byte>
    decreases e, 2, 0
  {
    match e
    case Unit => [0x00]
    case Value(v) => [0x01] + I.ValueIdentBytes(ValueIdentOf(v)) + ValueBytes(v)
    case Opt(x) => if x.None? then [0x02] else [0x03] + ElementBytes(x.value, ord)
    case Variant(name, x) => [0x04] + TStringBytes(name) + ElementBytes(x, ord)
    case Struct(m) => [0x05] + Framed(StructBody(e, ord.fields(m.Keys), ord))
    case List(_) => [0x06] + Framed(ListBody(e, 0, ord))
    case Array(_, _) => [0x07] + ArrayTail(e)
    case Map(_, _) => [0x08] + MapTail(e, ord)
    case Compression(x) => [0xF0] + Framed(ElementBytes(x, ord))
  }

  /** What follows the Array tag: the type and the framed value bodies, or the Null
      ident alone for a Null-typed or empty array. */
  function ArrayTail(e: Element): seq<byte>
    requires e.Array?
  {
    if e.itemType == I.Null || |e.values| == 0 then I.ValueIdentBytes(I.Null)
    else I.ValueIdentBytes(e.itemType) + Framed(ValuesBody(e.values))
  }

  /** What follows the Map tag: as for an Array, with the entries as the body. */
  function MapTail(e: Element, ord: Orders): seq<byte>
    requires e.Map?
    decreases e, 1, 0
  {
    if e.keyType == I.Null || |e.entries| == 0 then I.ValueIdentBytes(I.Null)
    else I.ValueIdentBytes(e.keyType) + Framed(MapBody(e, ord.keys(e.entries.Keys), ord))
  }

  /** The entries of a struct, in the order given: the terminated key, then the element.
      A listed name the struct lacks contributes nothing; a valid order lists none. */
  function StructBody(e: Element, keys: seq<string>, ord: Orders): seq<byte>
    requires e.Struct?
    decreases e, 0, |keys|
  {
    if keys == [] then []
    else FieldBytes(e, keys[0], ord) + StructBody(e, keys[1..], ord)
  }

  /** One struct entry. */
  function FieldBytes(e: Element, k: string, ord: Orders): seq<byte>
    requires e.Struct?
    decreases e, 0, 0
  {
    if k in e.fields then TStringBytes(k) + ElementBytes(e.fields[k], ord) else []
  }

  /** The items of a list from index i on. */
  function ListBody(e: Element, i: nat, ord: Orders): seq<byte>
    requires e.List? && i <= |e.items|
    decreases e, 0, |e.items| - i
  {
    if i == |e.items| then []
    else ElementBytes(e.items[i], ord) + ListBody(e, i + 1, ord)
  }

  /** The items of an array: bare value bodies, not checked against the array's type. */
  function ValuesBody(xs: seq<Value>): seq<byte>
  {
    if xs == [] then [] else ValueBytes(xs[0]) + ValuesBody(xs[1..])
  }

  /** The entries of a map, in the order given: the bare key body, then the element. A
      listed key the map lacks contributes nothing; a valid order lists none. */
  function MapBody(e: Element, keys: seq<Value>, ord: Orders): seq<byte>
    requires e.Map?
    decreases e, 0, |keys|
  {
    if keys == [] then []
    else EntryBytes(e, keys[0], ord) + MapBody(e, keys[1..], ord)
  }

  /** One map entry. */
  function EntryBytes(e: Element, k: Value, ord: Orders): seq<byte>
    requires e.Map?
    decreases e, 0, 0
  {
    if k in e.entries then ValueBytes(k) + ElementBytes(e.entries[k], ord) else []
  }

  /** Every element starts with the tag of its ident. */
  lemma ElementBytesTag(e: Element, ord: Orders)
    ensures |ElementBytes(e, ord)| >= 1 && ElementBytes(e, ord)[0] == I.ElementTag(ElementIdentOf(e))
  {
  }

  /** A number takes exactly the width of its type. */
  lemma NumberBytesWidth(n: Number)
    ensures |NumberBytes(n)| == NumberWidth(NumberIdentOf(n))
  {
    Pow256Widths();
  }

  /** One step of a struct or map body: its first listed entry, then the rest. */
  lemma StructBodyStep(e: Element, keys: seq<string>, i: nat, ord: Orders)
    requires e.Struct? && i < |keys|
    ensures StructBody(e, keys[i..], ord) == FieldBytes(e, keys[i], ord) + StructBody(e, keys[i + 1..], ord)
  {
    assert keys[i..][1..] == keys[i + 1..];
  }

  lemma ValuesBodyStep(xs: seq<Value>, i: nat)
    requires i < |xs|
    ensures ValuesBody(xs[i..]) == ValueBytes(xs[i]) + ValuesBody(xs[i + 1..])
  {
    assert xs[i..][1..] == xs[i + 1..];
  }

  lemma MapBodyStep(e: Element, keys: seq<Value>, i: nat, ord: Orders)
    requires e.Map? && i < |keys|
    ensures MapBody(e, keys[i..], ord) == EntryBytes(e, keys[i], ord) + MapBody(e, keys[i + 1..], ord)
  {
    assert keys[i..][1..] == keys[i + 1..];
  }
}
