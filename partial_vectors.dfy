/** Worked byte examples of the partial reader (src/partial/): a struct with one
    unit field `a`, read through its header, its one item and `collect`; and a struct
    whose field is itself a container. The nested header leaves the pointer at the
    inner body's size, taken as an absolute offset: when that is below the item's start
    `next_item` panics on the subtraction, and otherwise it moves the head by the wrong
    amount and misreads the struct, here without ever reaching its end. */
module PartialVectors {
  import opened Bytes
  import I = TychoIdent
  import F = TychoFormat
  import opened Wrappers
  import opened TychoErrors
  import opened PartialStream
  import opened PartialElements
  import opened PartialTypes
  import opened PartialContainers
  import opened PartialLemmas
  import opened PartialContainerLemmas

  /** A struct of one field `a` holding Unit: tag 5, body length 3, `a`, NUL, tag 0. */
  const OneField: seq<byte> := [5, 3, 97, 0, 0]

  /** The same struct with a list of one unit as the field: the list header's length
      is a small absolute offset, before the item's start. */
  const Nested: seq<byte> := [5, 5, 97, 0, 6, 1, 0]

  /** The struct {a: [(), (), ()]} as the writer emits it: the list's body length 3 is
      past the item's start 2, so the subtraction does not underflow. */
  const Looping: seq<byte> := [5, 7, 97, 0, 6, 3, 0, 0, 0]

  /** The header of the struct: its body is at 2 with 3 bytes, and the reader is left
      at 3, the body's length taken as an offset. */
  lemma OneFieldHeader(data: seq<byte>, id: u16)
    requires |data| == |OneField| && At(data, 0, OneField)
    ensures PartialElementAt(data, Place(0, 0), id)
         == Done(Struct(Container(PartialPointer(2, 3, id), 0, StructItems)), Place(3, 3))
  {
    assert F.Framed([97, 0, 0]) == [3, 97, 0, 0];
    assert [I.ElementTag(I.Struct)] + F.Framed([97, 0, 0]) == OneField;
    StructFramedRead(data, Place(0, 0), id, [97, 0, 0], 0);
  }

  /** The struct's one item: the field `a` with Unit, three bytes of body, so the head
      moves to 3 and the reader is put back at 3. */
  lemma OneFieldItem(data: seq<byte>, id: u16)
    requires |data| == |OneField| && At(data, 0, OneField)
    ensures NextItemAt(data, Place(3, 3), id, Container(PartialPointer(2, 3, id), 0, StructItems))
         == NextStep(Ok(Some(Field("a", Unit))), 3, Some(Place(3, 3)))
  {
    assert F.TStringBytes("a") == [97, 0];
    assert At(data, 2, F.TStringBytes("a") + [0]);
    assert PartialElementAt(data, Place(4, 4), id) == Done(Unit, Place(5, 5));
    KeyThenItem(data, Place(2, 2), id, "a", [0], Unit, Place(5, 5));
    NextItemHead(data, Place(3, 3), id, Container(PartialPointer(2, 3, id), 0, StructItems), Field("a", Unit), 3, 0);
  }

  /** `collect` over the struct: one field, then None with the head at the size. */
  lemma OneFieldCollect(data: seq<byte>, id: u16)
    requires |data| == |OneField| && At(data, 0, OneField)
    ensures CollectAt(data, Place(3, 3), id, Container(PartialPointer(2, 3, id), 0, StructItems), 2)
         == Walk(Collected([Field("a", Unit)]), 3, Some(Place(3, 3)))
  {
    var c := Container(PartialPointer(2, 3, id), 0, StructItems);
    var rest := CollectAt(data, Place(3, 3), id, c.(head := 3), 1);
    assert rest == Walk(Collected([]), 3, Some(Place(3, 3))) by {
      FinishedStays(data, Place(3, 3), id, c.(head := 3));
      CollectStep(data, Place(3, 3), id, c.(head := 3), 1, 0, NextItemAt(data, Place(3, 3), id, c.(head := 3)));
    }
    assert CollectAt(data, Place(3, 3), id, c, 2) == Glue([Field("a", Unit)], rest) by {
      OneFieldItem(data, id);
      CollectStep(data, Place(3, 3), id, c, 2, 1, NextItemAt(data, Place(3, 3), id, c));
    }
    assert [Field("a", Unit)] + [] == [Field("a", Unit)];
  }

  /** The nested list's header leaves the pointer at 1, before the item's start at 2,
      so the head cannot be moved: `next_item` gives SubtractOverflowPanic. */
  lemma NestedFails(data: seq<byte>, id: u16)
    requires |data| == |Nested| && At(data, 0, Nested)
    ensures NextItemAt(data, Place(5, 5), id, Container(PartialPointer(2, 5, id), 0, StructItems))
         == NextStep(Err(SubtractOverflowPanic), 0, Some(Place(1, 1)))
  {
    assert F.TStringBytes("a") == [97, 0];
    assert At(data, 2, F.TStringBytes("a") + [6, 1, 0]);
    assert F.Framed([0]) == [1, 0];
    assert [I.ElementTag(I.List)] + F.Framed([0]) == data[4..];
    ListFramedRead(data, Place(4, 4), id, [0], 0);
    KeyThenItem(data, Place(2, 2), id, "a", [6, 1, 0],
                List(Container(PartialPointer(6, 1, id), 0, ListItems)), Place(1, 1));
    JumpLands(0, Place(5, 5), 2);
    JumpToItem(data, Place(5, 5), id, Container(PartialPointer(2, 5, id), 0, StructItems), Place(2, 2));
  }

  /** The nested list's header leaves the pointer at 3 for the list at 4 with 3 bytes. */
  lemma LoopingList(data: seq<byte>, id: u16)
    requires |data| == |Looping| && At(data, 0, Looping)
    ensures PartialElementAt(data, Place(4, 4), id)
         == Done(List(Container(PartialPointer(6, 3, id), 0, ListItems)), Place(3, 3))
  {
    assert F.Framed([0, 0, 0]) == [3, 0, 0, 0];
    assert [I.ElementTag(I.List)] + F.Framed([0, 0, 0]) == data[4..];
    ListFramedRead(data, Place(4, 4), id, [0, 0, 0], 0);
  }

  /** The first `next_item` over {a: [(), (), ()]}: the field is read, but the head
      moves by 3 - 2 = 1 rather than by the field's 5 bytes. */
  lemma LoopingFirst(data: seq<byte>, id: u16)
    requires |data| == |Looping| && At(data, 0, Looping)
    ensures NextItemAt(data, Place(7, 7), id, Container(PartialPointer(2, 7, id), 0, StructItems))
         == NextStep(Ok(Some(Field("a", List(Container(PartialPointer(6, 3, id), 0, ListItems))))), 1, Some(Place(7, 7)))
  {
    var c := Container(PartialPointer(2, 7, id), 0, StructItems);
    var x := List(Container(PartialPointer(6, 3, id), 0, ListItems));
    assert F.TStringBytes("a") == [97, 0];
    assert At(data, 2, F.TStringBytes("a") + [6, 3, 0, 0, 0]);
    LoopingList(data, id);
    KeyThenItem(data, Place(2, 2), id, "a", [6, 3, 0, 0, 0], x, Place(3, 3));
    JumpLands(0, Place(7, 7), 2);
    JumpToItem(data, Place(7, 7), id, c, Place(2, 2));
    JumpLands(0, Place(3, 3), 7);
    ReadOnHead(data, Place(2, 2), 7, id, c, Field("a", x), Place(3, 3), Place(7, 7), 1);
  }

  /** Every later `next_item`: at head 1 the key is the empty string before the list's
      tag, the same list is read again, and the head stays at 1. */
  lemma LoopingAgain(data: seq<byte>, id: u16)
    requires |data| == |Looping| && At(data, 0, Looping)
    ensures NextItemAt(data, Place(7, 7), id, Container(PartialPointer(2, 7, id), 1, StructItems))
         == NextStep(Ok(Some(Field("", List(Container(PartialPointer(6, 3, id), 0, ListItems))))), 1, Some(Place(7, 7)))
  {
    var c := Container(PartialPointer(2, 7, id), 1, StructItems);
    var x := List(Container(PartialPointer(6, 3, id), 0, ListItems));
    assert F.TStringBytes("") == [0];
    assert At(data, 3, F.TStringBytes("") + [6, 3, 0, 0, 0]);
    LoopingList(data, id);
    KeyThenItem(data, Place(3, 3), id, "", [6, 3, 0, 0, 0], x, Place(3, 3));
    JumpLands(0, Place(7, 7), 3);
    JumpToItem(data, Place(7, 7), id, c, Place(3, 3));
    JumpLands(0, Place(3, 3), 7);
    ReadOnHead(data, Place(3, 3), 7, id, c, Field("", x), Place(3, 3), Place(7, 7), 1);
  }

  /** From head 1 on, no number of `next_item` calls reaches an error or the end. */
  lemma {:induction false} LoopingStays(data: seq<byte>, id: u16, bound: nat)
    requires |data| == |Looping| && At(data, 0, Looping)
    ensures CollectAt(data, Place(7, 7), id, Container(PartialPointer(2, 7, id), 1, StructItems), bound).result.Unfinished?
    decreases bound
  {
    if bound > 0 {
      var c := Container(PartialPointer(2, 7, id), 1, StructItems);
      LoopingAgain(data, id);
      CollectStep(data, Place(7, 7), id, c, bound, bound - 1, NextItemAt(data, Place(7, 7), id, c));
      assert c.(head := 1) == c;
      LoopingStays(data, id, bound - 1);
    }
  }

  /** `collect` over {a: [(), (), ()]} never ends: whatever the bound, the walk is
      unfinished, so the source's `while let` loop does not terminate. */
  lemma LoopingNeverEnds(data: seq<byte>, id: u16, bound: nat)
    requires |data| == |Looping| && At(data, 0, Looping)
    ensures CollectAt(data, Place(7, 7), id, Container(PartialPointer(2, 7, id), 0, StructItems), bound).result.Unfinished?
  {
    if bound > 0 {
      var c := Container(PartialPointer(2, 7, id), 0, StructItems);
      LoopingFirst(data, id);
      CollectStep(data, Place(7, 7), id, c, bound, bound - 1, NextItemAt(data, Place(7, 7), id, c));
      LoopingStays(data, id, bound - 1);
    }
  }
}
