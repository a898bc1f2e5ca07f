/** Asking a container whether an item may go in (src/container.cpp), and the item limit that a
    depot adds on top (src/depot.cpp). */
module Depot {
  import opened Common
  import opened Container
  import opened ContainerIterator

  /** Only containers and outer cylinders have anything inside. */
  lemma {:induction false} AboveHolds(t: Thing, a: Thing, S: set<Thing>)
    requires Forest(S) && t in S && a in t.above
    ensures a in S && (a.container || a.outer)
    decreases t.above
  {
    assert t.Placed(S);
    if a != t.parent {
      assert t.parent.Placed(S);
      AboveHolds(t.parent, a, S);
    }
  }

  /** `top` is what getTopParent finds for `t`: of what lies deeper, the last one above it that has a
      parent; of a plain item directly on an outermost cylinder, that. */
  ghost predicate IsTop(t: Thing, top: Thing?)
    reads t, t.parent, top, if top == null then null else top.parent
  {
    if t.parent == null then top == if t.container || t.outer then t else null
    else if t.parent.parent == null then top == if t.container || t.outer then t else t.parent
    else top != null && top in t.above && top.parent != null && top.parent.parent == null
  }

  /** Thing::getTopParent: the cylinder below the outermost one, `t` itself when there is none
      between, and nothing for a plain item that lies nowhere. */
  method GetTopParent(t: Thing, ghost S: set<Thing>) returns (top: Thing?)
    requires Forest(S) && t in S
    ensures IsTop(t, top)
    ensures top != null ==> top in S && (top == t || top in t.above) && (top.container || top.outer)
  {
    if t.parent == null {
      return if t.container || t.outer then t else null;
    }
    var prev: Thing, aux: Thing := t, t.parent;
    AboveParent(t, S);
    while aux.parent != null
      invariant aux == prev.parent && (prev == t || prev in t.above)
      invariant prev != t ==> t.parent.parent != null
      invariant aux in t.above && prev in S && aux in S
      decreases aux.above
    {
      AboveParent(aux, S);
      AboveTransitiveStep(t, aux, S);
      prev := aux;
      aux := aux.parent;
    }
    if prev != t { AboveHolds(t, prev, S); }
    AboveHolds(t, aux, S);
    return if prev.container || prev.outer then prev else aux;
  }

  lemma AboveTransitiveStep(t: Thing, a: Thing, S: set<Thing>)
    requires Forest(S) && t in S && a in t.above && a.parent != null
    ensures a.parent in t.above && a.parent in S
  {
    AboveHolds(t, a, S);
    AboveParent(a, S);
    AboveTransitive(a.parent, a, t, S);
  }

  /** Walks the chain of parents of `c` looking for `item`. */
  method HasAncestor(c: Thing, item: Thing, ghost S: set<Thing>) returns (found: bool)
    requires Forest(S) && c in S
    ensures found == (item in c.above)
  {
    var cylinder := c.parent;
    assert c.Placed(S);
    while cylinder != null
      invariant cylinder != null ==> cylinder in S && (item in c.above <==> item == cylinder || item in cylinder.above)
      invariant cylinder == null ==> item !in c.above
      decreases cylinder != null, if cylinder == null then {} else cylinder.above
    {
      if cylinder == item {
        return true;
      }
      assert cylinder.Placed(S);
      AboveParent(cylinder, S);
      cylinder := cylinder.parent;
    }
    return false;
  }

  /** With the item, and all it holds, the depot has at most as many items as its limit; an item that
      has the depot as its top parent is there already, but for a part of a stack. */
  ghost predicate Holds(d: Thing, item: Thing, count: nat, S: set<Thing>)
    requires d.depotLimit.Some?
    reads S, item, item.parent, d, d.parent
  {
    |Inside(d, S)| +
      (if !IsTop(item, d) then 1 + |Inside(item, S)| else if item.stackable && count != item.count then 1 else 0)
      <= d.depotLimit.value
  }

  /** What that means where an item lies: a plain one that lies nowhere needs one free place, a container
      one for itself and one for each thing inside; what lies directly in the depot needs none, but one
      more if the stack is parted. */
  lemma HoldsExact(d: Thing, item: Thing, count: nat, S: set<Thing>)
    requires Forest(S) && d in S && item in S && d.container && d.depotLimit.Some? && !item.outer && item != d
    ensures item.parent == null && !item.container ==>
      (Holds(d, item, count, S) <==> |Inside(d, S)| < d.depotLimit.value)
    ensures item.parent == null && item.container ==>
      (Holds(d, item, count, S) <==> |Inside(d, S)| + |Inside(item, S)| < d.depotLimit.value)
    ensures item.parent == d && d.parent != null && d.parent.parent == null && item.stackable && count < item.count ==>
      (Holds(d, item, count, S) <==> |Inside(d, S)| < d.depotLimit.value)
    ensures item.parent == d && d.parent != null && d.parent.parent == null && count == item.count ==>
      (Holds(d, item, count, S) <==> |Inside(d, S)| <= d.depotLimit.value)
  {
    if item.parent == null && !item.container { NothingInside(item, S); }
    AboveParent(item, S);
  }

  /** What a container answers that does not ask for a child: the first objection there is, the answer of
      the outermost cylinder, if that is another, or that nothing is wrong. */
  ghost predicate Answers(c: Thing, index: int, item: Thing, count: nat, noLimit: bool, ownerAnswer: ReturnValue,
                          S: set<Thing>, r: ReturnValue, top: Thing?)
    reads S, c, c.parent, item, item.parent, top, if top == null then null else top.parent
  {
    if item.outer then r == NotPossible
    else if !item.pickupable then r == CannotPickup
    else if item == c || item in c.above then r == ThisIsImpossible
    else if index == -1 && !noLimit && (c.maxSize == 0 || c.maxSize <= |c.itemlist|) then r == ContainerNotEnoughRoom
    else
      && top != null && IsTop(c, top)
      && r == if top == c then NoError
              else if !top.container then ownerAnswer
              else if top.depotLimit.Some? && !noLimit && !Holds(top, item, count, S) then DepotIsFull
              else NoError
  }

  /** The virtual __queryAdd: a depot counts its items first. */
  method QueryAdd(c: Thing, index: int, item: Thing, count: nat, flags: Flags, ownerAnswer: ReturnValue,
                  ghost S: set<Thing>)
    returns (r: ReturnValue, ghost top: Thing?)
    requires Forest(S) && c in S && item in S && c.container
    ensures top != null ==> top in S
    ensures c.depotLimit.Some? && !item.outer && !flags.noLimit && !Holds(c, item, count, S) ==> r == DepotIsFull
    ensures c.depotLimit.None? || item.outer || flags.noLimit || Holds(c, item, count, S) ==>
      if flags.childIsOwner then r == if item.outer && c.depotLimit.Some? then NotPossible else NoError
      else Answers(c, index, item, count, flags.noLimit, ownerAnswer, S, r, top)
    ensures !flags.childIsOwner && r == NoError ==> !item.outer && item.pickupable && item != c && item !in c.above
    ensures !flags.noLimit && r == NoError && c.depotLimit.Some? ==> RoomFor(c, item, S)
    ensures !flags.childIsOwner && r == NoError ==>
      top != null && IsTop(c, top)
    ensures !flags.childIsOwner && !flags.noLimit && r == NoError && top != null ==>
      top.container && top.depotLimit.Some? ==> RoomFor(top, item, S)
    decreases !flags.childIsOwner, 2
  {
    if c.depotLimit.Some? {
      r, top := DepotQueryAdd(c, index, item, count, flags, ownerAnswer, S);
    } else {
      r, top := ContainerQueryAdd(c, index, item, count, flags, ownerAnswer, S);
    }
  }

  /** Container::__queryAdd. `top` is the outermost cylinder asked; if it is no container its answer
      is `ownerAnswer`. An accepted item is never the container itself or one of its ancestors. */
  method ContainerQueryAdd(c: Thing, index: int, item: Thing, count: nat, flags: Flags, ownerAnswer: ReturnValue,
                           ghost S: set<Thing>)
    returns (r: ReturnValue, ghost top: Thing?)
    requires Forest(S) && c in S && item in S && c.container
    ensures top != null ==> top in S
    ensures flags.childIsOwner ==> r == NoError
    ensures !flags.childIsOwner && r == NoError ==> !item.outer && item.pickupable && item != c && item !in c.above
    ensures !flags.childIsOwner ==> Answers(c, index, item, count, flags.noLimit, ownerAnswer, S, r, top)
    ensures var free := index != INDEX_WHEREEVER || flags.noLimit || |c.itemlist| < c.maxSize;
      var fits := !item.outer && item.pickupable && item != c && item !in c.above;
      !flags.childIsOwner && c.parent == null && free && fits ==> r == NoError
    ensures !flags.childIsOwner && r == NoError ==>
      top != null && IsTop(c, top)
    ensures !flags.childIsOwner && !flags.noLimit && r == NoError && top != c ==>
      top.container && top.depotLimit.Some? ==> RoomFor(top, item, S)
    decreases !flags.childIsOwner, 0
  {
    top := null;
    if flags.childIsOwner {
      return NoError, top;
    }
    if item.outer {
      return NotPossible, top;
    }
    if !item.pickupable {
      return CannotPickup, top;
    }
    if item == c {
      return ThisIsImpossible, top;
    }
    var found := HasAncestor(c, item, S);
    if found { AboveHolds(c, item, S); }
    if item.container && found {
      return ThisIsImpossible, top;
    }
    if index == INDEX_WHEREEVER && !flags.noLimit && c.Full() {
      return ContainerNotEnoughRoom, top;
    }
    r := NoError;
    var outermost := GetTopParent(c, S);
    top := outermost;
    if outermost != c {
      AboveHolds(c, outermost, S);
      if outermost.container {
        ghost var above;
        r, above := QueryAdd(outermost, INDEX_WHEREEVER, item, count, flags.(childIsOwner := true), ownerAnswer, S);
      } else {
        r := ownerAnswer;
      }
    }
  }

  /** Depot::__queryAdd: the item and all it holds are counted when they come from outside. */
  method DepotQueryAdd(d: Thing, index: int, item: Thing, count: nat, flags: Flags, ownerAnswer: ReturnValue,
                       ghost S: set<Thing>)
    returns (r: ReturnValue, ghost top: Thing?)
    requires Forest(S) && d in S && item in S && d.container && d.depotLimit.Some?
    ensures top != null ==> top in S
    ensures !item.outer && !flags.noLimit && !Holds(d, item, count, S) ==> r == DepotIsFull
    ensures item.outer || flags.noLimit || Holds(d, item, count, S) ==>
      if flags.childIsOwner then r == if item.outer then NotPossible else NoError
      else Answers(d, index, item, count, flags.noLimit, ownerAnswer, S, r, top)
    ensures !flags.childIsOwner && r == NoError ==> !item.outer && item.pickupable && item != d && item !in d.above
    ensures !flags.noLimit && r == NoError ==> RoomFor(d, item, S)
    ensures !flags.childIsOwner && r == NoError ==>
      top != null && IsTop(d, top)
    ensures !flags.childIsOwner && !flags.noLimit && r == NoError && top != null ==>
      top.container && top.depotLimit.Some? ==> RoomFor(top, item, S)
    decreases !flags.childIsOwner, 1
  {
    top := null;
    if item.outer {
      return NotPossible, top;
    }
    if !flags.noLimit {
      var room := HasRoom(d, item, count, S);
      if !room {
        return DepotIsFull, top;
      }
    }
    r, top := ContainerQueryAdd(d, index, item, count, flags, ownerAnswer, S);
  }

  lemma {:induction false} TopIsOne(t: Thing, top: Thing?, other: Thing, S: set<Thing>)
    requires Forest(S) && t in S && IsTop(t, top) && IsTop(t, other)
    ensures top == other
    decreases t.above
  {
    if t.parent != null && t.parent.parent != null {
      AboveParent(t, S);
      AboveParent(t.parent, S);
      assert t.Placed(S) && t.parent.Placed(S) && t.parent.parent.Placed(S);
      if top != t.parent && other != t.parent {
        TopIsOne(t.parent, top, other, S);
      }
    }
  }

  /** The count that a depot takes: the item and all it holds are new to it, unless it is their top
      parent; a part of a stack makes one more stack. */
  method HasRoom(d: Thing, item: Thing, count: nat, ghost S: set<Thing>) returns (room: bool)
    requires Forest(S) && d in S && item in S && d.container && d.depotLimit.Some? && !item.outer
    ensures room == Holds(d, item, count, S)
    ensures room ==> RoomFor(d, item, S)
  {
    var addCount := if item.stackable && item.count != count then 1 else 0;
    var itemTop := GetTopParent(item, S);
    if IsTop(item, d) { TopIsOne(item, itemTop, d, S); }
    var held := 0;
    if itemTop != d {
      if item.container {
        held := GetItemHoldingCount(item, S);
      } else {
        NothingInside(item, S);
      }
      addCount := held + 1;
    }
    var holding := GetItemHoldingCount(d, S);
    room := holding + addCount <= d.depotLimit.value;
    if room && itemTop != d {
      RoomCounted(d, item, held, S);
    } else if room && item != d {
      InsideAlready(d, item, S);
    }
  }

  lemma NothingInside(item: Thing, S: set<Thing>)
    requires Forest(S) && item in S && !item.container && !item.outer
    ensures Inside(item, S) == {}
  {
    forall t | t in S ensures item !in t.above {
      if item in t.above { AboveHolds(t, item, S); }
    }
  }

  /** Depot `d` with the item and all it holds stays within its limit, wherever the item lies now. */
  ghost predicate RoomFor(d: Thing, item: Thing, S: set<Thing>)
    requires d.depotLimit.Some?
    reads S`above
  {
    item != d ==> |Inside(d, S) + {item} + Inside(item, S)| <= d.depotLimit.value
  }

  /** An item that lies inside already brings nothing new. */
  lemma InsideAlready(d: Thing, item: Thing, S: set<Thing>)
    requires Forest(S) && item in S && d in item.above
    ensures Inside(d, S) + {item} + Inside(item, S) == Inside(d, S)
  {
    forall t | t in Inside(item, S) ensures d in t.above {
      AboveTransitive(d, item, t, S);
    }
  }

  lemma RoomCounted(d: Thing, item: Thing, held: nat, S: set<Thing>)
    requires d.depotLimit.Some? && |Inside(item, S)| == held && |Inside(d, S)| + held + 1 <= d.depotLimit.value
    ensures RoomFor(d, item, S)
  {
    UnionSize(Inside(d, S), item, Inside(item, S), Inside(d, S) + {item} + Inside(item, S));
  }

  lemma UnionSize(a: set<Thing>, x: Thing, b: set<Thing>, c: set<Thing>)
    requires c <= a + {x} + b
    ensures |c| <= |a| + 1 + |b|
  {
    SubsetSize(c, a + {x} + b);
    assert |a + {x} + b| <= |a + {x}| + |b|;
    assert |a + {x}| <= |a| + 1;
  }

  /** Takes the item out of whatever it lies in. */
  method TakeOut(item: Thing, ghost S: set<Thing>)
    requires Forest(S) && Weights(S) && item in S && !item.outer
    modifies S
    ensures Forest(S) && Weights(S) && item.parent == null
    ensures forall t | t in S ::
      t.above == old(t.above) - if t == item || item in old(t.above) then old(item.above) else {}
    ensures forall t | t in S && t != item && t != old(item.parent) :: t.itemlist == old(t.itemlist)
    ensures forall t | t in S && t == old(item.parent) && t.container :: Without(old(t.itemlist), item, t.itemlist)
  {
    assert item.Placed(S);
    var from := item.parent;
    if from != null {
      AboveParent(item, S);
      if from.container {
        from.RemoveThing(item, item.count, S);
      } else {
        from.Leave(item, S);
      }
    } else {
      assert item.above == {};
    }
  }

  /** After something left, the item can be added wherever that was neither the item nor inside it. */
  lemma StillAddable(c: Thing, item: Thing, above: set<Thing>, S: set<Thing>)
    requires Forest(S) && c in S && item in S && c.container && !item.outer && item.parent == null
    requires item != c && item !in above && c.above <= above
    ensures c.Addable(item, S)
  {
  }

  /** The removal and the addition bring in the item and what it holds, and no more. */
  lemma NoMoreThan(item: Thing, before: map<Thing, set<Thing>>, S: set<Thing>)
    requires before.Keys == S && item in S && forall t | t in S && t != item && item !in before[t] ::
      t.above <= before[t]
    ensures forall d | d in S ::
      Inside(d, S) <= (set t | t in S && d in before[t]) + {item} + set t | t in S && item in before[t]
  {
  }

  /** Removal and addition. The item ends up in front in `c`, or nowhere when the index asked for is
      beyond what `c` then can hold. */
  method Transfer(c: Thing, index: int, item: Thing, ghost S: set<Thing>)
    requires Forest(S) && Weights(S) && c in S && item in S && c.container && !item.outer
    requires item != c && item !in c.above
    modifies S
    ensures Forest(S) && Weights(S)
    ensures forall d | d in S :: Inside(d, S) <= old(Inside(d, S) + {item} + Inside(item, S))
    ensures var size := |old(c.itemlist)| - if old(item.parent) == c then 1 else 0;
      item.parent == if index < c.CapacityFor(size) then c else null
    ensures item.parent == c && old(item.parent) != c ==> c.itemlist == [item] + old(c.itemlist)
    ensures item.parent == c == old(item.parent) ==>
      |c.itemlist| > 0 && c.itemlist[0] == item && Without(old(c.itemlist), item, c.itemlist[1..])
  {
    assert item.Placed(S) && c.Placed(S);
    ghost var before := map t | t in S :: t.above;
    TakeOut(item, S);
    StillAddable(c, item, before[c], S);
    c.AddThing(index, item, S);
    NoMoreThan(item, before, S);
  }

  lemma WithinLimit(d: Thing, room: set<Thing>, S: set<Thing>)
    requires Inside(d, S) <= room
    ensures d.depotLimit.Some? && |room| <= d.depotLimit.value ==> |Inside(d, S)| <= d.depotLimit.value
  {
    SubsetSize(Inside(d, S), room);
  }

  /** The query, with the item still in its old place; then its removal from there; then the addition.
      No cycle can arise, all weights stay right, and the container asked and the outermost one above it
      are within their limits, if they are depots. */
  method MoveIfAllowed(c: Thing, index: int, item: Thing, flags: Flags, ownerAnswer: ReturnValue, ghost S: set<Thing>)
    returns (r: ReturnValue, ghost top: Thing?)
    requires Forest(S) && Weights(S) && c in S && item in S && c.container && !flags.childIsOwner
    modifies S
    ensures Forest(S) && Weights(S)
    ensures top != null ==> top in S
    ensures c.depotLimit.Some? && !item.outer && !flags.noLimit && !old(Holds(c, item, item.count, S)) ==>
      r == DepotIsFull
    ensures c.depotLimit.None? || item.outer || flags.noLimit || old(Holds(c, item, item.count, S)) ==>
      old(Answers(c, index, item, item.count, flags.noLimit, ownerAnswer, S, r, top))
    ensures var free := index != INDEX_WHEREEVER || flags.noLimit || |old(c.itemlist)| < c.maxSize;
      var fits := !item.outer && item.pickupable && item != c && item !in old(c.above);
      c.depotLimit.None? && old(c.parent) == null && free && fits ==> r == NoError
    ensures r != NoError ==> unchanged(S)
    ensures r == NoError && index < c.maxSize ==> item.parent == c && |c.itemlist| > 0 && c.itemlist[0] == item
    ensures r == NoError && c.maxSize != 0 && index >= c.maxSize ==> item.parent == null
    ensures r == NoError ==>
      var size := |old(c.itemlist)| - if old(item.parent) == c then 1 else 0;
      item.parent == if index < c.CapacityFor(size) then c else null
    ensures r == NoError && item.parent == c != old(item.parent) ==> c.itemlist == [item] + old(c.itemlist)
    ensures r == NoError && !flags.noLimit && c.depotLimit.Some? ==> |Inside(c, S)| <= c.depotLimit.value
    ensures r == NoError && !flags.noLimit && top != null && top.container && top.depotLimit.Some? ==>
      |Inside(top, S)| <= top.depotLimit.value
  {
    r, top := QueryAdd(c, index, item, item.count, flags, ownerAnswer, S);
    if r == NoError {
      Transfer(c, index, item, S);
      WithinLimit(c, old(Inside(c, S) + {item} + Inside(item, S)), S);
      WithinLimit(top, old(Inside(top, S) + {item} + Inside(item, S)), S);
    }
  }

  // ---------------------------------------------------------------- whole runs

  /** What is done to containers: an item is moved, wherever it lies; a new item is loaded or takes the
      place of another; an item changes or is removed, as a whole or in part. */
  datatype Operation =
    | Move(c: Thing, index: int, item: Thing, flags: Flags, ownerAnswer: ReturnValue)
    | Load(c: Thing, item: Thing)
    | Replace(c: Thing, place: nat, item: Thing)
    | Update(c: Thing, item: Thing, unit: real, stackable: bool, count: nat)
    | Remove(c: Thing, item: Thing, count: nat)

  ghost predicate Within(op: Operation, S: set<Thing>) {
    op.c in S && op.item in S && op.c.container && (op.Move? ==> !op.flags.childIsOwner)
  }

  /** A new item is no cylinder that is no item, lies nowhere, and does not hold the container. */
  method IsNew(c: Thing, item: Thing, ghost S: set<Thing>) returns (isNew: bool)
    requires Forest(S) && c in S && item in S && c.container
    ensures isNew ==> c.Addable(item, S)
  {
    var holds := HasAncestor(c, item, S);
    isNew := !item.outer && item.parent == null && item != c && !holds;
  }

  method Handle(op: Operation, ghost S: set<Thing>)
    requires Forest(S) && Weights(S) && Within(op, S)
    modifies S
    ensures Forest(S) && Weights(S)
  {
    match op {
      case Move(c, index, item, flags, ownerAnswer) =>
        var r;
        ghost var top;
        r, top := MoveIfAllowed(c, index, item, flags, ownerAnswer, S);
      case Load(c, item) =>
        var isNew := IsNew(c, item, S);
        if isNew { c.UnserializeItem(item, S); }
      case Replace(c, index, item) =>
        var isNew := IsNew(c, item, S);
        if isNew { ReplaceAt(c, index, item, S); }
      case Update(c, item, unit, stackable, count) => c.UpdateThing(item, unit, stackable, count, S);
      case Remove(c, item, count) => c.RemoveThing(item, count, S);
    }
  }

  method ReplaceAt(c: Thing, index: nat, item: Thing, ghost S: set<Thing>)
    requires c.Addable(item, S) && Weights(S)
    modifies S
    ensures Forest(S) && Weights(S)
  {
    assert c.Placed(S);
    c.ReplaceThing(index, item, S);
  }

  /** Whatever is done, in any order: nothing comes to lie inside itself, and the weight kept for each
      thing is the weight of everything nested inside it, computed afresh. */
  method Run(ops: seq<Operation>, ghost S: set<Thing>)
    requires Forest(S) && Weights(S) && forall op | op in ops :: Within(op, S)
    modifies S
    ensures Forest(S) && forall c | c in S :: c !in c.above && c.totalWeight == NestedWeight(c.itemlist, c, S)
  {
    for k := 0 to |ops|
      invariant Forest(S) && Weights(S)
    {
      Handle(ops[k], S);
    }
    forall c | c in S ensures c !in c.above && c.totalWeight == NestedWeight(c.itemlist, c, S) {
      AboveParent(c, S);
      TotalWeightIsNestedWeight(c, S);
    }
  }
}
