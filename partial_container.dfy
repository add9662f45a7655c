/** `PartialContainer` (src/partial/container.rs): a container's pointer and a head, the
    offset in its body of the next item. `next_item` remembers the reader's pointer,
    jumps to the body's position plus the head, reads one item, adds to the head what
    the reader's pointer moved by, and jumps back. The container is done when the head
    is exactly the body's size. */
module PartialContainers {
  import opened Bytes
  import opened Wrappers
  import opened TychoErrors
  import opened PartialStream
  import opened PartialElements
  import opened PartialTypes

  /** What `next_item` returns, the head it leaves, and the reader's place after it
      when the model knows it (after a failed item read it does not). */
  datatype NextStep = NextStep(result: Result<Option<Item>>, head: nat, at: Option<Place>)

  /** `next_item` of container c from place pl, with the `partial_state` check. */
  function NextItemAt(data: seq<byte>, pl: Place, id: u16, c: Container): (s: NextStep)
    requires Fits(pl) && |data| < U64Limit && c.head < U64Limit && c.pointer.pos < U64Limit
    ensures s.head < U64Limit
    ensures s.at.Some? ==> Fits(s.at.value)
    ensures s.result.Ok? ==> s.at.Some?
    ensures s.result.Ok? && s.result.value.Some? ==> s.at.value.pointer == pl.pointer
  {
    if c.pointer.ident != id then NextStep(Err(OutdatedPointer), c.head, Some(pl))
    else if c.head == c.pointer.size then NextStep(Ok(None), c.head, Some(pl))
    else if c.pointer.pos + c.head >= U64Limit then NextStep(Err(AddOverflowPanic), c.head, Some(pl))
    else
      match JumpFrom(pl, c.pointer.pos + c.head)
      case Err(e) => NextStep(Err(e), c.head, Some(pl))
      case Ok(pl1) => ReadOnAt(data, pl1, pl.pointer, id, c)
  }

  /** The rest of `next_item`, from the place pl1 the jump to the item led to: the item,
      the head moved by what the reader's pointer moved, and the jump back to top. */
  function ReadOnAt(data: seq<byte>, pl1: Place, top: nat, id: u16, c: Container): (s: NextStep)
    requires Fits(pl1) && |data| < U64Limit && c.head < U64Limit && top < U64Limit
    ensures s.head < U64Limit
    ensures s.at.Some? ==> Fits(s.at.value)
    ensures s.result.Ok? ==> s.result.value.Some? && s.at.Some? && s.at.value.pointer == top
  {
    match ItemAt(data, pl1, id, c.kind)
    case Fails(e) => NextStep(Err(e), c.head, None)
    case Done(x, pl2) =>
      if pl2.pointer < pl1.pointer then NextStep(Err(SubtractOverflowPanic), c.head, Some(pl2))
      else if c.head + (pl2.pointer - pl1.pointer) >= U64Limit then NextStep(Err(AddOverflowPanic), c.head, Some(pl2))
      else
        var head := c.head + (pl2.pointer - pl1.pointer);
        match JumpFrom(pl2, top)
        case Err(e) => NextStep(Err(e), head, Some(pl2))
        case Ok(pl3) => NextStep(Ok(Some(x)), head, Some(pl3))
  }

  /** What `collect` gives: the items, or the error of the `next_item` that failed;
      Unfinished when the bound on `next_item` calls ran out first. */
  datatype Collection = Collected(items: seq<Item>) | Stopped(error: TychoError) | Unfinished(items: seq<Item>)

  /** A collection, the head it leaves and the reader's place (when known). */
  datatype Walk = Walk(result: Collection, head: nat, at: Option<Place>)

  /** The items xs, read before those of w. */
  function Glue(xs: seq<Item>, w: Walk): (r: Walk)
    ensures r.head == w.head && r.at == w.at
  {
    match w.result
    case Collected(ys) => Walk(Collected(xs + ys), w.head, w.at)
    case Stopped(e) => w
    case Unfinished(ys) => Walk(Unfinished(xs + ys), w.head, w.at)
  }

  lemma GlueTwice(xs: seq<Item>, ys: seq<Item>, w: Walk)
    ensures Glue(xs, Glue(ys, w)) == Glue(xs + ys, w)
  {
    match w.result
    case Collected(zs) => assert xs + (ys + zs) == xs + ys + zs;
    case Stopped(e) =>
    case Unfinished(zs) => assert xs + (ys + zs) == xs + ys + zs;
  }

  lemma GlueNone(w: Walk)
    ensures Glue([], w) == w
  {
    match w.result
    case Collected(ys) => assert [] + ys == ys;
    case Stopped(e) =>
    case Unfinished(ys) => assert [] + ys == ys;
  }

  /** `collect` with at most `bound` calls of `next_item`: items are pushed in the
      order they are read until `next_item` gives None; an error ends it. */
  function CollectAt(data: seq<byte>, pl: Place, id: u16, c: Container, bound: nat): (w: Walk)
    requires Fits(pl) && |data| < U64Limit && c.head < U64Limit && c.pointer.pos < U64Limit
    ensures w.head < U64Limit && (w.at.Some? ==> Fits(w.at.value))
    decreases bound
  {
    if bound == 0 then Walk(Unfinished([]), c.head, Some(pl))
    else
      var s := NextItemAt(data, pl, id, c);
      match s.result
      case Err(e) => Walk(Stopped(e), s.head, s.at)
      case Ok(None) => Walk(Collected([]), s.head, s.at)
      case Ok(Some(x)) => Glue([x], CollectAt(data, s.at.value, id, c.(head := s.head), bound - 1))
  }

  /** One call of `next_item` inside `collect`. */
  lemma CollectStep(data: seq<byte>, pl: Place, id: u16, c: Container, left: nat, rest: nat, s: NextStep)
    requires Fits(pl) && |data| < U64Limit && c.head < U64Limit && c.pointer.pos < U64Limit
    requires rest + 1 == left && s == NextItemAt(data, pl, id, c)
    ensures s.result.Err? ==> CollectAt(data, pl, id, c, left) == Walk(Stopped(s.result.error), s.head, s.at)
    ensures s.result == Ok(None) ==> CollectAt(data, pl, id, c, left) == Walk(Collected([]), s.head, s.at)
    ensures s.result.Ok? && s.result.value.Some? ==>
      CollectAt(data, pl, id, c, left) == Glue([s.result.value.value], CollectAt(data, s.at.value, id, c.(head := s.head), rest))
  {
  }

  /** A `next_item` that ends `collect`: its error, or the items so far when it gives
      None. */
  lemma CollectEnds(data: seq<byte>, pl: Place, id: u16, c: Container, left: nat, items: seq<Item>, goal: Walk)
    requires Fits(pl) && |data| < U64Limit && c.head < U64Limit && c.pointer.pos < U64Limit && left > 0
    requires goal == Glue(items, CollectAt(data, pl, id, c, left))
    ensures var s := NextItemAt(data, pl, id, c);
            s.result.Err? ==> goal == Walk(Stopped(s.result.error), s.head, s.at)
    ensures var s := NextItemAt(data, pl, id, c);
            s.result == Ok(None) ==> goal == Walk(Collected(items), s.head, s.at)
  {
    var s := NextItemAt(data, pl, id, c);
    CollectStep(data, pl, id, c, left, left - 1, s);
    if s.result == Ok(None) {
      assert items + [] == items;
    }
  }

  /** A `next_item` that gives an item: it joins the items, and `collect` goes on from
      the place and head it leaves. */
  lemma CollectMore(data: seq<byte>, pl: Place, id: u16, c: Container, left: nat, rest: nat, items: seq<Item>, goal: Walk,
                    x: Item, pl2: Place, c2: Container)
    requires Fits(pl) && |data| < U64Limit && c.head < U64Limit && c.pointer.pos < U64Limit && rest + 1 == left
    requires goal == Glue(items, CollectAt(data, pl, id, c, left))
    requires c2.pointer == c.pointer && c2.kind == c.kind
    requires NextItemAt(data, pl, id, c) == NextStep(Ok(Some(x)), c2.head, Some(pl2))
    ensures goal == Glue(items + [x], CollectAt(data, pl2, id, c2, rest))
  {
    var s := NextItemAt(data, pl, id, c);
    assert c2 == c.(head := s.head);
    CollectStep(data, pl, id, c, left, rest, s);
    GlueTwice(items, [x], CollectAt(data, pl2, id, c2, rest));
  }

  /** Collecting from place pl with left calls to go, after items were already
      collected, gives goal. */
  ghost predicate Remains(goal: Walk, items: seq<Item>, data: seq<byte>, pl: Place, id: u16, c: Container, left: nat)
    requires Fits(pl) && |data| < U64Limit && c.head < U64Limit && c.pointer.pos < U64Limit
  {
    goal == Glue(items, CollectAt(data, pl, id, c, left))
  }

  /** A partial container the caller walks: `PartialStruct`, `PartialList`,
      `PartialMap` or `PartialArray`, by kind. */
  class PartialContainer {
    var pointer: PartialPointer
    var head: nat
    const kind: ItemKind

    function State(): Container
      reads this
    {
      Container(pointer, head, kind)
    }

    /** The pointer's position and the head are u64s. */
    predicate Valid()
      reads this
    {
      pointer.pos < U64Limit && head < U64Limit
    }

    /** `new`. */
    constructor (p: PartialPointer, h: nat, k: ItemKind)
      ensures State() == Container(p, h, k)
    {
      pointer := p;
      head := h;
      kind := k;
    }

    /** `empty`. */
    constructor Empty(p: PartialPointer, k: ItemKind)
      ensures State() == Container(p, 0, k)
    {
      pointer := p;
      head := 0;
      kind := k;
    }

    /** `finished()`. */
    predicate Finished()
      reads this
    {
      head == pointer.size
    }

    /** `top()`: back to the first item. */
    method Top()
      modifies this
      ensures head == 0 && pointer == old(pointer)
    {
      head := 0;
    }

    /** `next_item` (and `next`, which is the same call). */
    method NextItem(pr: PartialReader) returns (r: Result<Option<Item>>)
      requires Valid() && pr.Valid()
      modifies this, pr, pr.input
      ensures Valid() && pr.Valid() && pointer == old(pointer)
      ensures var s := NextItemAt(pr.input.data, old(pr.Here()), pr.ident, old(State()));
              r == s.result && head == s.head && (s.at.Some? ==> pr.Here() == s.at.value)
    {
      ghost var data, pl, c := pr.input.data, pr.Here(), State();
      if pointer.ident != pr.ident {
        return Err(OutdatedPointer);
      }
      if head == pointer.size {
        return Ok(None);
      }
      var top := pr.pointer;
      if pointer.pos + head >= U64Limit {
        return Err(AddOverflowPanic);
      }
      var jumped := pr.Jump(pointer.pos + head);
      if jumped.Err? {
        return Err(jumped.error);
      }
      ghost var pl1 := pr.Here();
      assert c.pointer.ident == pr.ident && c.head != c.pointer.size && c.pointer.pos + c.head < U64Limit;
      assert JumpFrom(pl, c.pointer.pos + c.head) == Ok(pl1);
      assert NextItemAt(data, pl, pr.ident, c) == ReadOnAt(data, pl1, top, pr.ident, c);
      var headStart := pr.pointer;
      var item := ReadItem(pr, kind);
      if item.Err? {
        return Err(item.error);
      }
      ghost var pl2 := pr.Here();
      assert ItemAt(data, pl1, pr.ident, c.kind) == Done(item.value, pl2);
      if pr.pointer < headStart {
        return Err(SubtractOverflowPanic);
      }
      if head + (pr.pointer - headStart) >= U64Limit {
        return Err(AddOverflowPanic);
      }
      head := head + (pr.pointer - headStart);
      var back := pr.Jump(top);
      if back.Err? {
        return Err(back.error);
      }
      return Ok(Some(item.value));
    }

    /** One round of `collect`'s loop: a `next_item`, and where it leaves the walk. */
    method CollectNext(pr: PartialReader, left: nat, rest: nat, items: seq<Item>, ghost goal: Walk) returns (next: Result<Option<Item>>)
      requires Valid() && pr.Valid() && rest + 1 == left
      requires Remains(goal, items, pr.input.data, pr.Here(), pr.ident, State(), left)
      modifies this, pr, pr.input
      ensures Valid() && pr.Valid() && pointer == old(pointer)
      ensures next.Err? ==> goal == Walk(Stopped(next.error), head, goal.at) && (goal.at.Some? ==> pr.Here() == goal.at.value)
      ensures next == Ok(None) ==> goal == Walk(Collected(items), head, goal.at) && (goal.at.Some? ==> pr.Here() == goal.at.value)
      ensures next.Ok? && next.value.Some? ==>
                Remains(goal, items + [next.value.value], pr.input.data, pr.Here(), pr.ident, State(), rest)
    {
      ghost var data, pl, c := pr.input.data, pr.Here(), State();
      CollectEnds(data, pl, pr.ident, c, left, items, goal);
      next := NextItem(pr);
      if next.Ok? && next.value.Some? {
        CollectMore(data, pl, pr.ident, c, left, rest, items, goal, next.value.value, pr.Here(), State());
      }
    }

    /** `collect`, bounded by `bound` calls of `next_item`. */
    method Collect(pr: PartialReader, bound: nat) returns (r: Collection)
      requires Valid() && pr.Valid()
      modifies this, pr, pr.input
      ensures Valid() && pr.Valid() && pointer == old(pointer)
      ensures var w := CollectAt(pr.input.data, old(pr.Here()), pr.ident, old(State()), bound);
              r == w.result && head == w.head && (w.at.Some? ==> pr.Here() == w.at.value)
    {
      ghost var goal := CollectAt(pr.input.data, pr.Here(), pr.ident, State(), bound);
      var items: seq<Item> := [];
      var left := bound;
      GlueNone(goal);
      while left > 0
        invariant Valid() && pr.Valid() && pointer == old(pointer)
        invariant Remains(goal, items, pr.input.data, pr.Here(), pr.ident, State(), left)
        decreases left
      {
        var rest := left - 1;
        var next := CollectNext(pr, left, rest, items, goal);
        if next.Err? {
          return Stopped(next.error);
        }
        if next.value.None? {
          return Collected(items);
        }
        items := items + [next.value.value];
        left := rest;
      }
      return Unfinished(items);
    }

    /** The iterator's `next`: `next_item` with an error taken as the end. */
    method IterNext(pr: PartialReader) returns (r: Option<Item>)
      requires Valid() && pr.Valid()
      modifies this, pr, pr.input
      ensures Valid() && pr.Valid() && pointer == old(pointer)
      ensures var s := NextItemAt(pr.input.data, old(pr.Here()), pr.ident, old(State()));
              r == (if s.result.Ok? then s.result.value else None) && head == s.head &&
              (s.at.Some? ==> pr.Here() == s.at.value)
    {
      var next := NextItem(pr);
      r := if next.Ok? then next.value else None;
    }
  }
}
