/** Moving items between containers of fixed size: Game::internalMoveItem (src/game.cpp) over the
    queries and changes of Container (src/container.cpp).

    `noLimit` is FLAG_NOLIMIT. What the outer cylinder of a destination answers (a carrier's capacity,
    say) is the parameter `answer`, by count. Weights are in module Container. */
module StackMove {
  import opened Common

  const INDEX_WHEREEVER := -1
  const MAX_STACK := 100

  datatype ReturnValue = NoError | NotPossible | NotMoveable | ContainerNotEnoughRoom | Refused

  datatype ItemType = ItemType(id: nat, stackable: bool)

  /** An item as far as counting goes. */
  datatype Stack = Stack(kind: ItemType, count: int)

  function Min(a: int, b: int): int { if a < b then a else b }

  // counting

  function Part(s: Stack, kind: ItemType): int {
    if s.kind == kind then s.count else 0
  }

  /** How many of one kind are in a list. */
  function Amount(list: seq<Stack>, kind: ItemType): int {
    if list == [] then 0 else Part(list[0], kind) + Amount(list[1..], kind)
  }

  lemma {:induction false} AmountUpdate(list: seq<Stack>, k: nat, s: Stack, kind: ItemType)
    requires k < |list|
    ensures Amount(list[k := s], kind) == Amount(list, kind) - Part(list[k], kind) + Part(s, kind)
  {
    if k == 0 {
      assert list[k := s][1..] == list[1..];
    } else {
      AmountUpdate(list[1..], k - 1, s, kind);
      assert list[k := s][1..] == list[1..][k - 1 := s];
    }
  }

  lemma {:induction false} AmountRemove(list: seq<Stack>, k: nat, kind: ItemType)
    requires k < |list|
    ensures Amount(list[..k] + list[k + 1..], kind) == Amount(list, kind) - Part(list[k], kind)
  {
    if k == 0 {
      assert list[..k] + list[k + 1..] == list[1..];
    } else {
      AmountRemove(list[1..], k - 1, kind);
      assert (list[..k] + list[k + 1..])[1..] == list[1..][..k - 1] + list[1..][k..];
    }
  }

  lemma AmountAdd(list: seq<Stack>, s: Stack, kind: ItemType)
    ensures Amount([s] + list, kind) == Part(s, kind) + Amount(list, kind)
  {
    assert ([s] + list)[1..] == list;
  }

  lemma {:induction false} AmountLast(list: seq<Stack>, s: Stack, kind: ItemType)
    ensures Amount(list + [s], kind) == Amount(list, kind) + Part(s, kind)
  {
    if list == [] {
      assert [s][1..] == [];
    } else {
      AmountLast(list[1..], s, kind);
      assert (list + [s])[1..] == list[1..] + [s];
    }
  }

  /** The list with every stack of the kind filled up to 100. */
  function Filled(list: seq<Stack>, kind: ItemType): (full: seq<Stack>)
    ensures |full| == |list| && forall k | 0 <= k < |list| ::
      full[k] == if list[k].kind == kind && list[k].count < 100 then Stack(kind, 100) else list[k]
  {
    seq(|list|, k requires 0 <= k < |list| =>
      if list[k].kind == kind && list[k].count < 100 then Stack(kind, 100) else list[k])
  }

  /** How many more of the kind there would be if every stack were full. */
  function Spare(list: seq<Stack>, kind: ItemType): int {
    Amount(Filled(list, kind), kind) - Amount(list, kind)
  }

  /** A list after `m` of its stack at `k`, or that item, were taken. */
  function TakenFrom(list: seq<Stack>, k: nat, m: int): seq<Stack>
    requires k < |list|
  {
    if list[k].kind.stackable && m != list[k].count then list[k := Stack(list[k].kind, list[k].count - m)]
    else list[..k] + list[k + 1..]
  }

  /** How many of `m` fit onto the stack at `at`. */
  function Fits(list: seq<Stack>, at: Option<nat>, kind: ItemType, m: int): int
    requires at.Some? ==> at.value < |list|
  {
    if at.Some? && kind.stackable && list[at.value].kind == kind then Min(MAX_STACK - list[at.value].count, m) else 0
  }

  /** A list after `m` of a kind arrived: what fits is on the stack at `at`, the rest is a new item in
      front, if the index asked for lets it `enter`. */
  function Arrived(list: seq<Stack>, at: Option<nat>, kind: ItemType, m: int, enter: bool): seq<Stack>
    requires at.Some? ==> at.value < |list|
  {
    var n := Fits(list, at, kind, m);
    var merged := if n == 0 then list else list[at.value := Stack(kind, list[at.value].count + n)];
    if m - n > 0 && enter then [Stack(kind, m - n)] + merged else merged
  }

  /** First what fits is merged, then what is left enters. */
  lemma ArrivedInTwo(list: seq<Stack>, at: Option<nat>, kind: ItemType, m: int, enter: bool)
    requires at.Some? ==> at.value < |list|
    ensures var n, merged := Fits(list, at, kind, m), Arrived(list, at, kind, m, false);
      Arrived(list, at, kind, m, enter) == if m - n > 0 && enter then [Stack(kind, m - n)] + merged else merged
    ensures at.None? || !kind.stackable || list[at.value].kind != kind ==>
      Fits(list, at, kind, m) == 0 && Arrived(list, at, kind, m, false) == list
  {
  }

  lemma AmountTaken(list: seq<Stack>, k: nat, m: int, kind: ItemType)
    requires k < |list| && (if list[k].kind.stackable then true else m == list[k].count)
    ensures Amount(TakenFrom(list, k, m), kind) == Amount(list, kind) - Part(Stack(list[k].kind, m), kind)
  {
    if list[k].kind.stackable && m != list[k].count {
      AmountUpdate(list, k, Stack(list[k].kind, list[k].count - m), kind);
    } else {
      AmountRemove(list, k, kind);
    }
  }

  /** What arrives is counted, but for what may not enter. */
  lemma AmountArrived(list: seq<Stack>, at: Option<nat>, arriving: ItemType, m: int, enter: bool, kind: ItemType)
    requires (at.Some? ==> at.value < |list|) && Fits(list, at, arriving, m) <= m
    ensures var lost := if enter then 0 else m - Fits(list, at, arriving, m);
      Amount(Arrived(list, at, arriving, m, enter), kind) + Part(Stack(arriving, lost), kind)
        == Amount(list, kind) + Part(Stack(arriving, m), kind)
  {
    var n := Fits(list, at, arriving, m);
    if n != 0 {
      AmountUpdate(list, at.value, Stack(arriving, list[at.value].count + n), kind);
    }
    var merged := if n == 0 then list else list[at.value := Stack(arriving, list[at.value].count + n)];
    AmountAdd(merged, Stack(arriving, m - n), kind);
  }

  class Item {
    const kind: ItemType
    const moveable: bool
    const inside: Container?  // what the item holds, when it is a container
    var count: int
    var parent: Container?

    constructor (kind: ItemType, count: int)
      ensures this.kind == kind && this.count == count && inside == null && parent == null && moveable
    {
      this.kind, this.count, moveable, inside, parent := kind, count, true, null, null;
    }

    /** A stack holds 1 to 100, any other item counts once. */
    ghost predicate Sized(all: set<Container>)
      reads this
    {
      && (inside != null ==> inside in all)
      && (if kind.stackable then inside == null && 1 <= count <= MAX_STACK else count == 1)
    }

    ghost predicate Fine(c: Container, all: set<Container>)
      reads this
    {
      parent == c && Sized(all)
    }
  }

  /** A stack of the item's kind, not the item itself, with room on it. */
  predicate Partial(x: Item, item: Item)
    reads x
  {
    x != item && x.kind == item.kind && x.count < MAX_STACK
  }

  /** Room on the partial stacks that the outer cylinder lets the item onto. */
  ghost function Room(items: seq<Item>, item: Item, answer: int -> ReturnValue): (r: int)
    ensures r >= 0
    reads items
  {
    if items == [] then 0
    else
      var x := items[|items| - 1];
      Room(items[..|items| - 1], item, answer)
      + if Partial(x, item) && answer(MAX_STACK - x.count) == NoError then MAX_STACK - x.count else 0
  }

  /** Where an item lies. */
  function IndexOf(items: seq<Item>, x: Item): (k: nat)
    requires x in items
    ensures k < |items| && items[k] == x
  {
    if items[0] == x then 0 else 1 + IndexOf(items[1..], x)
  }

  lemma OnlyIndex(items: seq<Item>, k: nat)
    requires NoDup(items) && k < |items|
    ensures IndexOf(items, items[k]) == k
  {
  }

  function PlaceOf(items: seq<Item>, x: Item?): (at: Option<nat>)
    ensures at.Some? ==> at.value < |items| && items[at.value] == x
    ensures at.None? <==> x == null || x !in items
  {
    if x == null || x !in items then None else Some(IndexOf(items, x))
  }

  /** A container, an index in it, and the item found there. */
  datatype Target = Target(dest: Container, slot: int, toItem: Item?)

  /** Where the first stack with room for the item is. */
  ghost function FirstRoom(items: seq<Item>, item: Item, things: set<Item>): nat
    requires (forall x | x in items :: x in things) && item in things
    reads things
  {
    if items == [] || Partial(items[0], item) then 0 else 1 + FirstRoom(items[1..], item, things)
  }

  lemma {:induction false} FirstRoomIs(items: seq<Item>, item: Item, things: set<Item>)
    requires (forall x | x in items :: x in things) && item in things
    ensures var k := FirstRoom(items, item, things);
      k <= |items| && (k < |items| ==> Partial(items[k], item)) && forall j | 0 <= j < k :: !Partial(items[j], item)
  {
    if items != [] && !Partial(items[0], item) {
      FirstRoomIs(items[1..], item, things);
    }
  }

  class Container {
    const capacity: nat
    const parent: Container?
    var itemlist: seq<Item>

    constructor (capacity: nat, parent: Container?)
      ensures this.capacity == capacity && this.parent == parent && itemlist == []
    {
      this.capacity, this.parent, itemlist := capacity, parent, [];
    }

    ghost predicate Fine(all: set<Container>, things: set<Item>)
      reads this, things
    {
      && NoDup(itemlist) && (parent != null ==> parent in all)
      && (forall x | x in itemlist :: x in things)
      && forall x {:trigger x.Fine(this, all)} | x in itemlist :: x.Fine(this, all)
    }

    ghost function Contents(): seq<Stack>
      reads this, itemlist
    {
      seq(|itemlist|, k requires 0 <= k < |itemlist| reads this, itemlist => Stack(itemlist[k].kind, itemlist[k].count))
    }

    ghost predicate FirstPartial(k: int, item: Item)
      reads this, itemlist
    {
      0 <= k < |itemlist| && Partial(itemlist[k], item) && forall j | 0 <= j < k :: !Partial(itemlist[j], item)
    }

    method GetIndexOfThing(item: Item) returns (index: int)
      ensures -1 <= index < |itemlist| && (index == -1 <==> item !in itemlist)
      ensures index != -1 ==> itemlist[index] == item
    {
      index := 0;
      while index < |itemlist|
        invariant 0 <= index <= |itemlist| && item !in itemlist[..index]
      {
        if itemlist[index] == item {
          return;
        }
        index := index + 1;
      }
      return -1;
    }

    /** Where an item is sent that is meant for this container at this index: back up, onto the first
        partial stack, to the place named, or into the container that lies there. */
    ghost function Answer(index: int, item: Item, all: set<Container>, things: set<Item>): Target
      requires World(all, things) && this in all && item in things && -1 <= index
      reads all, things
    {
      assert Fine(all, things);
      var at := if index == 254 || index == 255 || index >= capacity then INDEX_WHEREEVER else index;
      var k := FirstRoom(itemlist, item, things);
      if index == 254 then Target(if parent != null then parent else this, at, null)
      else if item.kind.stackable && item.parent != this && k < |itemlist| then Target(this, k, itemlist[k])
      else if at == INDEX_WHEREEVER || at >= |itemlist| then Target(this, at, null)
      else if itemlist[at].inside != null then Target(itemlist[at].inside, INDEX_WHEREEVER, null)
      else Target(this, at, itemlist[at])
    }

    /** Container::__queryDestination: where the item should go, at which index, onto which stack. */
    method QueryDestination(index: int, item: Item, ghost all: set<Container>, ghost things: set<Item>)
      returns (dest: Container, newIndex: int, destItem: Item?)
      requires World(all, things) && this in all && item in things && -1 <= index
      ensures Target(dest, newIndex, destItem) == Answer(index, item, all, things)
      ensures dest in all && -1 <= newIndex
      ensures item.kind.stackable && item.parent != this && index != 254 ==>
        forall k | FirstPartial(k, item) :: dest == this && newIndex == k && destItem == itemlist[k]
    {
      assert Fine(all, things);
      FirstRoomIs(itemlist, item, things);
      dest, newIndex, destItem := this, index, null;
      if index == 254 {
        newIndex := INDEX_WHEREEVER;
        if parent != null {
          dest := parent;
        }
        return;
      }
      if index == 255 || index >= capacity {
        newIndex := INDEX_WHEREEVER;
      }
      if item.kind.stackable && item.parent != this {
        var n := 0;
        while n < |itemlist|
          invariant 0 <= n <= |itemlist|
          invariant forall k | 0 <= k < n :: !Partial(itemlist[k], item)
        {
          if Partial(itemlist[n], item) {
            return this, n, itemlist[n];
          }
          n := n + 1;
        }
      }
      if newIndex != INDEX_WHEREEVER && newIndex < |itemlist| {
        destItem := itemlist[newIndex];
        assert destItem.Fine(this, all);
        if destItem.inside != null {
          return destItem.inside, INDEX_WHEREEVER, null;
        }
      }
    }

    /** Container::__queryAdd for an item that may lie here: being full matters only without an index. */
    function QueryAdd(index: int, count: int, noLimit: bool, answer: int -> ReturnValue): (r: ReturnValue)
      reads this
      ensures index == -1 && !noLimit && capacity <= |itemlist| ==> r == ContainerNotEnoughRoom
      ensures index != -1 || noLimit || |itemlist| < capacity ==> r == answer(count)
    {
      if index == INDEX_WHEREEVER && !noLimit && |itemlist| >= capacity then ContainerNotEnoughRoom else answer(count)
    }

    ghost function MaxCount(index: int, item: Item, count: int, noLimit: bool, answer: int -> ReturnValue): int
      reads this, itemlist
    {
      var free := if |itemlist| < capacity then capacity - |itemlist| else 0;
      if noLimit then (if count < 1 then 1 else count)
      else if !item.kind.stackable then free
      else free * MAX_STACK + if index == INDEX_WHEREEVER then 0 else Room(itemlist, item, answer)
    }

    /** Container::__queryMaxCount. With an index every partial stack counts, without one none does. */
    method QueryMaxCount(index: int, item: Item, count: int, noLimit: bool, answer: int -> ReturnValue)
      returns (r: ReturnValue, maxQueryCount: int)
      requires 0 <= count
      ensures maxQueryCount == MaxCount(index, item, count, noLimit, answer) && maxQueryCount >= 0
      ensures noLimit ==> maxQueryCount == if count == 0 then 1 else count
      ensures !noLimit && !item.kind.stackable ==>
        maxQueryCount == if |itemlist| < capacity then capacity - |itemlist| else 0
      ensures !noLimit && item.kind.stackable && index == -1 ==>
        maxQueryCount == if |itemlist| < capacity then 100 * (capacity - |itemlist|) else 0
      ensures r == if noLimit || (if item.kind.stackable then maxQueryCount >= count else maxQueryCount > 0)
        then NoError else ContainerNotEnoughRoom
    {
      if noLimit {
        return NoError, if count < 1 then 1 else count;
      }
      var freeSlots := if capacity - |itemlist| < 0 then 0 else capacity - |itemlist|;
      if !item.kind.stackable {
        return if freeSlots == 0 then ContainerNotEnoughRoom else NoError, freeSlots;
      }
      var n := 0;
      if index != INDEX_WHEREEVER {
        for k := 0 to |itemlist|
          invariant n == Room(itemlist[..k], item, answer) && n >= 0
        {
          assert itemlist[..k + 1][..k] == itemlist[..k];
          if Partial(itemlist[k], item) && QueryAdd(k, MAX_STACK - itemlist[k].count, noLimit, answer) == NoError {
            n := n + MAX_STACK - itemlist[k].count;
          }
        }
        assert itemlist[..|itemlist|] == itemlist;
      }
      maxQueryCount := freeSlots * MAX_STACK + n;
      r := if maxQueryCount < count then ContainerNotEnoughRoom else NoError;
    }

    method QueryRemove(item: Item, count: int) returns (r: ReturnValue)
      ensures r == if item !in itemlist || count == 0 || (item.kind.stackable && count > item.count) then NotPossible
                   else if item.moveable then NoError else NotMoveable
    {
      var index := GetIndexOfThing(item);
      if index == -1 || count == 0 || (item.kind.stackable && count > item.count) {
        return NotPossible;
      }
      return if item.moveable then NoError else NotMoveable;
    }

    /** Container::__addThing: nothing happens at an index beyond the capacity. */
    method AddThing(index: int, item: Item, ghost all: set<Container>, ghost things: set<Item>)
      requires World(all, things) && this in all && item.parent == null && item.Sized(all)
      modifies this`itemlist, item`parent
      ensures World(all, things + {item})
      ensures index >= capacity ==> itemlist == old(itemlist) && item.parent == null && Contents() == old(Contents())
      ensures index < capacity ==>
        itemlist == [item] + old(itemlist) && Contents() == [Stack(item.kind, item.count)] + old(Contents())
      ensures forall c | c in all && c != this :: c.Contents() == old(c.Contents())
    {
      assert forall c | c in all :: c.Fine(all, things);
      assert item !in itemlist by {
        assert item in itemlist ==> item.Fine(this, all);
      }
      if index < capacity {
        item.parent := this;
        itemlist := [item] + itemlist;
      }
      forall c | c in all ensures c.Fine(all, things + {item}) && (c != this ==> c.Contents() == old(c.Contents())) {
        assert old(c.Fine(all, things));
        forall x | x in c.itemlist ensures x.Fine(c, all) && (c != this ==> x != item) {
          assert x in old(c.itemlist) ==> old(x.Fine(c, all));
        }
      }
    }

    /** Container::__updateThing, for a change of count. */
    method UpdateThing(item: Item, count: int, ghost all: set<Container>, ghost things: set<Item>)
      requires World(all, things) && this in all && item in itemlist && item.kind.stackable && 1 <= count <= MAX_STACK
      modifies item`count
      ensures World(all, things) && item.count == count
      ensures Contents() == old(Contents())[IndexOf(itemlist, item) := Stack(item.kind, count)]
      ensures forall c | c in all && c != this :: c.Contents() == old(c.Contents())
    {
      assert forall c | c in all :: c.Fine(all, things);
      var index := GetIndexOfThing(item);
      OnlyIndex(itemlist, index);
      assert item.Fine(this, all);
      if index != -1 {
        item.count := count;
      }
      assert itemlist[index] == item && Contents() == old(Contents())[index := Stack(item.kind, count)];
      forall c | c in all ensures c.Fine(all, things) && (c != this ==> c.Contents() == old(c.Contents())) {
        assert old(c.Fine(all, things));
        forall x | x in c.itemlist ensures x.Fine(c, all) && (c != this ==> x != item) {
          assert old(x.Fine(c, all));
        }
        if c != this {
          forall k | 0 <= k < |c.itemlist| ensures c.Contents()[k] == old(c.Contents())[k] {
            assert c.itemlist[k] in c.itemlist && c.itemlist[k] != item;
          }
        }
      }
    }

    method TakePart(index: nat, count: int)
      requires NoDup(itemlist) && index < |itemlist| && count <= itemlist[index].count
      modifies {itemlist[index]}`count
      ensures itemlist[index].count == old(itemlist[index].count) - count
      ensures Contents() == old(Contents())[index := Stack(itemlist[index].kind, itemlist[index].count)]
    {
      var item := itemlist[index];
      item.count := if item.count - count < 0 then 0 else item.count - count;
    }

    method TakeOut(index: nat)
      requires index < |itemlist|
      modifies this`itemlist, {itemlist[index]}`parent
      ensures itemlist == old(itemlist[..index] + itemlist[index + 1..]) && old(itemlist)[index].parent == null
      ensures Contents() == old(Contents())[..index] + old(Contents())[index + 1..]
    {
      itemlist[index].parent := null;
      itemlist := itemlist[..index] + itemlist[index + 1..];
    }

    /** Container::__removeThing: part of a stack, or the item as a whole. */
    method RemoveThing(item: Item, count: int, ghost all: set<Container>, ghost things: set<Item>)
      requires World(all, things) && this in all && item in itemlist &&
        (item.kind.stackable ==> 1 <= count <= item.count)
      modifies this`itemlist, item`count, item`parent
      ensures World(all, things) && item in things && item.Sized(all)
      ensures item.kind.stackable && count != old(item.count) ==>
        itemlist == old(itemlist) && item.parent == this && item.count == old(item.count) - count
      ensures !(item.kind.stackable && count != old(item.count)) ==>
        && item.parent == null && item.count == old(item.count) && item !in itemlist
        && var k := old(IndexOf(itemlist, item)); itemlist == old(itemlist[..k]) + old(itemlist[k + 1..])
      ensures Contents() == old(TakenFrom(Contents(), IndexOf(itemlist, item), count))
      ensures forall c | c in all && c != this :: c.Contents() == old(c.Contents())
    {
      assert forall c | c in all :: c.Fine(all, things);
      var index := GetIndexOfThing(item);
      OnlyIndex(itemlist, index);
      assert item.Fine(this, all);
      if item.kind.stackable && count != item.count {
        TakePart(index, count);
      } else {
        TakeOut(index);
      }
      forall c | c in all ensures c.Fine(all, things) && (c != this ==> c.Contents() == old(c.Contents())) {
        assert old(c.Fine(all, things));
        forall x | x in c.itemlist ensures x.Fine(c, all) && (c != this ==> x != item) {
          assert x in old(c.itemlist) && old(x.Fine(c, all));
        }
        if c != this {
          forall k | 0 <= k < |c.itemlist| ensures c.Contents()[k] == old(c.Contents())[k] {
            assert c.itemlist[k] in c.itemlist && c.itemlist[k] != item;
          }
        }
      }
    }
  }

  ghost predicate World(all: set<Container>, things: set<Item>)
    reads all, things
  {
    forall c {:trigger c.Fine(all, things)} | c in all :: c.Fine(all, things)
  }

  /** The second half of internalMoveItem, after `m` were taken away. */
  method Deliver(dest: Container, index: int, toItem: Item?, item: Item, m: int, ghost all: set<Container>,
                 ghost things: set<Item>)
    returns (ghost now: set<Item>)
    requires World(all, things) && dest in all && item.Sized(all) && item in things
    requires toItem != null ==> toItem in dest.itemlist
    requires if item.kind.stackable then 1 <= m <= MAX_STACK else m == 1 && item.parent == null
    modifies dest`itemlist, item`parent, (if toItem == null then {} else {toItem})`count
    ensures World(all, now) && things <= now && fresh(now - things)
    ensures dest.Contents() ==
      old(Arrived(dest.Contents(), PlaceOf(dest.itemlist, toItem), item.kind, m, index < dest.capacity))
    ensures forall c | c in all && c != dest :: c.Contents() == old(c.Contents())
  {
    var moveItem: Item? := item;
    now := things;
    ghost var list, at := dest.Contents(), PlaceOf(dest.itemlist, toItem);
    ArrivedInTwo(list, at, item.kind, m, index < dest.capacity);
    if item.kind.stackable {
      var n := 0;
      if toItem != null && toItem.kind == item.kind {
        n := MergeInto(dest, toItem, m, all, things);
      }
      if m - n > 0 {
        moveItem := new Item(item.kind, m - n);
      } else {
        moveItem := null;
      }
    }
    if moveItem != null {
      dest.AddThing(index, moveItem, all, things);
      now := things + {moveItem};
    }
  }

  /** What fits goes onto the stack. */
  method MergeInto(dest: Container, toItem: Item, m: int, ghost all: set<Container>, ghost things: set<Item>)
    returns (n: int)
    requires World(all, things) && dest in all && toItem in dest.itemlist && toItem.kind.stackable && 1 <= m
    modifies toItem`count
    ensures World(all, things)
    ensures n == old(Fits(dest.Contents(), PlaceOf(dest.itemlist, toItem), toItem.kind, m)) && 0 <= n <= m
    ensures dest.Contents() == old(Arrived(dest.Contents(), PlaceOf(dest.itemlist, toItem), toItem.kind, m, false))
    ensures forall c | c in all && c != dest :: c.Contents() == old(c.Contents())
  {
    assert dest.Fine(all, things) && toItem.Fine(dest, all);
    n := Min(MAX_STACK - toItem.count, m);
    dest.UpdateThing(toItem, toItem.count + n, all, things);
  }

  const MAP_MAX_LAYERS := 16

  /** The container that answers itself, asked one after the other from `c` on; further containers are
      not asked with the caller's flags any more. */
  ghost function Resolved(c: Container, index: int, item: Item, floor: nat, all: set<Container>,
                          things: set<Item>): Target
    requires World(all, things) && c in all && item in things && -1 <= index && floor < MAP_MAX_LAYERS
    reads all, things
    decreases MAP_MAX_LAYERS - floor
  {
    AnswerInside(c, index, item, all, things);
    var a := c.Answer(index, item, all, things);
    if a.dest == c || floor + 1 == MAP_MAX_LAYERS then a else Resolved(a.dest, a.slot, item, floor + 1, all, things)
  }

  lemma AnswerInside(c: Container, index: int, item: Item, all: set<Container>, things: set<Item>)
    requires World(all, things) && c in all && item in things && -1 <= index
    ensures var a := c.Answer(index, item, all, things); a.dest in all && -1 <= a.slot && Found(a, item)
  {
    assert c.Fine(all, things);
    FirstRoomIs(c.itemlist, item, things);
    forall x | x in c.itemlist ensures x.inside != null ==> x.inside in all {
      assert x.Fine(c, all);
    }
  }

  lemma {:induction false} ResolvedFound(c: Container, index: int, item: Item, floor: nat, all: set<Container>,
                                         things: set<Item>)
    requires World(all, things) && c in all && item in things && -1 <= index && floor < MAP_MAX_LAYERS
    ensures var t := Resolved(c, index, item, floor, all, things); t.dest in all && t.slot >= -1 && Found(t, item)
    decreases MAP_MAX_LAYERS - floor
  {
    AnswerInside(c, index, item, all, things);
    var a := c.Answer(index, item, all, things);
    if a.dest != c && floor + 1 != MAP_MAX_LAYERS {
      ResolvedFound(a.dest, a.slot, item, floor + 1, all, things);
    }
  }

  /** No stack in the container can take some of the item, or the item lies there itself. */
  ghost predicate NoMerge(c: Container, item: Item)
    reads c, c.itemlist, item
  {
    !item.kind.stackable || item.parent == c ||
    forall x | x in c.itemlist :: x == item || x.kind != item.kind || x.count >= 100
  }

  /** What a container answers, by what is asked for and what lies there. */
  lemma AnswerExact(c: Container, index: int, item: Item, all: set<Container>, things: set<Item>)
    requires World(all, things) && c in all && item in things && -1 <= index
    ensures index == 254 ==>
      c.Answer(index, item, all, things) == Target(if c.parent == null then c else c.parent, -1, null)
    ensures index != 254 && item.kind.stackable && item.parent != c ==>
      forall k | 0 <= k < |c.itemlist| && NoRoomBefore(c.itemlist, k, item) && c.itemlist[k] != item &&
          c.itemlist[k].kind == item.kind && c.itemlist[k].count < 100 ::
        c.Answer(index, item, all, things) == Target(c, k, c.itemlist[k])
    ensures (index == -1 || index == 255 || index >= c.capacity) && index != 254 && NoMerge(c, item) ==>
      c.Answer(index, item, all, things) == Target(c, -1, null)
    ensures 0 <= index < c.capacity && index != 254 && index != 255 && NoMerge(c, item) ==>
      c.Answer(index, item, all, things) ==
        if index >= |c.itemlist| then Target(c, index, null)
        else if c.itemlist[index].inside == null then Target(c, index, c.itemlist[index])
        else Target(c.itemlist[index].inside, -1, null)
  {
    assert c.Fine(all, things);
    FirstRoomIs(c.itemlist, item, things);
  }

  ghost predicate NoRoomBefore(items: seq<Item>, k: nat, item: Item)
    requires k <= |items|
    reads items
  {
    forall j | 0 <= j < k :: items[j] == item || items[j].kind != item.kind || items[j].count >= 100
  }

  /** Where an item goes in the end: to the container asked if that answers itself; into the one that
      lies at the slot named, or up into the one around, if there is no stack there to merge with. */
  lemma ResolvedExact(c: Container, index: int, item: Item, all: set<Container>, things: set<Item>)
    requires World(all, things) && c in all && item in things && -1 <= index
    ensures var a, t := c.Answer(index, item, all, things), Resolved(c, index, item, 0, all, things);
      a.dest in all && -1 <= a.slot
      && (a.dest == c ==> t == a)
      && (a.dest != c && NoMerge(a.dest, item) ==> t == Target(a.dest, -1, null))
  {
    AnswerInside(c, index, item, all, things);
    var a := c.Answer(index, item, all, things);
    AnswerExact(c, index, item, all, things);
    AnswerExact(a.dest, a.slot, item, all, things);
    if a.dest != c {
      AskedWherever(c, index, item, all, things);
      assert Resolved(a.dest, a.slot, item, 1, all, things) == a.dest.Answer(a.slot, item, all, things);
    }
  }

  lemma AskedWherever(c: Container, index: int, item: Item, all: set<Container>, things: set<Item>)
    requires World(all, things) && c in all && item in things && -1 <= index
    ensures var a := c.Answer(index, item, all, things); a.dest != c ==> a.slot == -1 && a.toItem == null
  {
    assert c.Fine(all, things);
    FirstRoomIs(c.itemlist, item, things);
  }

  ghost predicate Names(t: Target)
    reads t.dest, t.dest.itemlist
  {
    t.toItem != null ==> 0 <= t.slot < |t.dest.itemlist| && t.dest.itemlist[t.slot] == t.toItem
  }

  /** The target names an item in the destination; an index beyond its capacity is that of a stack. */
  ghost predicate Found(t: Target, item: Item)
    reads item, t.dest, t.dest.itemlist
  {
    && Names(t)
    && (t.slot >= t.dest.capacity ==>
          item.kind.stackable && item.parent != t.dest && t.dest.FirstPartial(t.slot, item) && t.toItem != null)
  }

  /** The destination is asked where the item should go until it answers itself. */
  method FindDestination(to: Container, index: int, item: Item, noLimit: bool, ghost all: set<Container>,
                         ghost things: set<Item>)
    returns (dest: Container, slot: int, toItem: Item?, limitless: bool)
    requires World(all, things) && to in all && item in things && -1 <= index
    ensures Target(dest, slot, toItem) == old(Resolved(to, index, item, 0, all, things))
    ensures limitless == old(noLimit && to.Answer(index, item, all, things).dest == to)
  {
    ghost var goal, first := Resolved(to, index, item, 0, all, things), to.Answer(index, item, all, things).dest;
    dest, limitless := to, noLimit;
    var floor := 0;
    var subCylinder;
    subCylinder, slot, toItem := dest.QueryDestination(index, item, all, things);
    ghost var asked := index;
    while subCylinder != dest
      invariant dest in all && subCylinder in all && -1 <= slot && 0 <= floor < MAP_MAX_LAYERS && -1 <= asked
      invariant Target(subCylinder, slot, toItem) == dest.Answer(asked, item, all, things)
      invariant Resolved(dest, asked, item, floor, all, things) == goal
      invariant if floor == 0 then dest == to && asked == index && limitless == noLimit else !limitless && first != to
      decreases MAP_MAX_LAYERS - floor
    {
      dest, limitless := subCylinder, false;
      floor := floor + 1;
      if floor >= MAP_MAX_LAYERS {
        break;
      }
      asked := slot;
      subCylinder, slot, toItem := dest.QueryDestination(slot, item, all, things);
    }
  }

  /** The item goes as a whole. */
  predicate Whole(item: Item, m: int)
    reads item
  {
    !(item.kind.stackable && m != item.count)
  }

  /** Where the stack found at `slot` lies once `m` of the item were taken: one further to the front if
      the item lay there before it and went as a whole. */
  ghost function PlaceAfter(from: Container, dest: Container, item: Item, toItem: Item?, slot: int,
                            m: int): (at: Option<nat>)
    requires item in from.itemlist && (toItem != null ==> 0 <= slot)
    reads from, item
  {
    if toItem == null then None
    else if from == dest && Whole(item, m) && IndexOf(from.itemlist, item) < slot then Some(slot - 1)
    else Some(slot)
  }

  /** What the source holds after `m` of the item were taken. */
  ghost function LeftBehind(from: Container, item: Item, m: int): seq<Stack>
    requires item in from.itemlist
    reads from, from.itemlist
  {
    TakenFrom(from.Contents(), IndexOf(from.itemlist, item), m)
  }

  /** What the destination holds after `m` of the item moved. */
  ghost function Delivered(from: Container, dest: Container, item: Item, toItem: Item?, slot: int, m: int): seq<Stack>
    requires item in from.itemlist && item != toItem
    requires toItem != null ==> 0 <= slot < |dest.itemlist| && dest.itemlist[slot] == toItem
    reads from, from.itemlist, dest, dest.itemlist, item
  {
    var list := if from == dest then LeftBehind(from, item, m) else dest.Contents();
    Arrived(list, PlaceAfter(from, dest, item, toItem, slot, m), item.kind, m, slot < dest.capacity)
  }

  /** Taking away and delivering. */
  method Transfer(from: Container, dest: Container, slot: int, toItem: Item?, item: Item, m: int,
                  ghost all: set<Container>, ghost things: set<Item>)
    returns (ghost now: set<Item>)
    requires World(all, things) && from in all && dest in all && item in from.itemlist && item != toItem
    requires if item.kind.stackable then 1 <= m <= item.count else m == 1
    requires toItem != null ==> 0 <= slot < |dest.itemlist| && dest.itemlist[slot] == toItem
    modifies {from, dest}`itemlist, {item}`parent, {item}`count, (if toItem == null then {} else {toItem})`count
    ensures World(all, now) && things <= now && fresh(now - things)
    ensures from != dest ==> from.Contents() == old(LeftBehind(from, item, m))
    ensures dest.Contents() == old(Delivered(from, dest, item, toItem, slot, m))
    ensures forall c | c in all && c != from && c != dest :: c.Contents() == old(c.Contents())
  {
    assert from.Fine(all, things) && item.Fine(from, all) && dest.Fine(all, things);
    ghost var at := PlaceAfter(from, dest, item, toItem, slot, m);
    ghost var was := dest.itemlist;
    from.RemoveThing(item, m, all, things);
    if toItem != null {
      StillThere(was, dest.itemlist, slot, at.value, item);
    }
    now := Deliver(dest, slot, toItem, item, m, all, things);
  }

  lemma StillThere(was: seq<Item>, now: seq<Item>, slot: nat, at: nat, item: Item)
    requires NoDup(was) && slot < |was| && was[slot] != item
    requires now == was || (item in was && now == was[..IndexOf(was, item)] + was[IndexOf(was, item) + 1..])
    requires at == if now != was && IndexOf(was, item) < slot then slot - 1 else slot
    ensures at < |now| && now[at] == was[slot] && IndexOf(now, was[slot]) == at
  {
    assert NoDup(now);
    OnlyIndex(now, at);
  }

  /** How many of what moves are lost: those that do not fit onto the stack found, when they may not
      enter at its index. */
  ghost function Lost(dest: Container, item: Item, toItem: Item?, slot: int, m: int): int
    requires toItem != null ==> 0 <= slot < |dest.itemlist| && dest.itemlist[slot] == toItem
    reads dest, dest.itemlist
  {
    if slot < dest.capacity then 0
    else m - Fits(dest.Contents(), if toItem == null then None else Some(slot), item.kind, m)
  }

  /** Nothing is gained, and exactly so many are lost. */
  lemma HeldKept(from: Container, dest: Container, item: Item, toItem: Item?, slot: int, m: int, kind: ItemType)
    requires item in from.itemlist && item != toItem && 0 < m && (item.kind.stackable || m == item.count)
    requires toItem != null ==> 0 <= slot < |dest.itemlist| && dest.itemlist[slot] == toItem
    requires from == dest ==> slot < dest.capacity
    ensures (if from == dest then 0 else Amount(LeftBehind(from, item, m), kind))
            + Amount(Delivered(from, dest, item, toItem, slot, m), kind)
            + Part(Stack(item.kind, Lost(dest, item, toItem, slot, m)), kind) ==
              Total(from.Contents(), dest.Contents(), from == dest, kind)
  {
    var i := IndexOf(from.itemlist, item);
    var list := if from == dest then LeftBehind(from, item, m) else dest.Contents();
    AmountTaken(from.Contents(), i, m, kind);
    AmountArrived(list, PlaceAfter(from, dest, item, toItem, slot, m), item.kind, m, slot < dest.capacity, kind);
  }

  /** How many are taken away: as many as asked for and let in, or none if one of the queries fails. */
  ghost function Taken(t: Target, limitless: bool, item: Item, count: nat, answer: int -> ReturnValue): int
    reads item, t.dest, t.dest.itemlist
  {
    var max := t.dest.MaxCount(t.slot, item, count, limitless, answer);
    var m := if item.kind.stackable then Min(count, max) else max;
    if item == t.toItem || t.dest.QueryAdd(t.slot, count, limitless, answer) != NoError then 0
    else if m == 0 || (item.kind.stackable && m > item.count) || !item.moveable then 0
    else if item.kind.stackable then m
    else 1
  }

  /** What the partial stacks take in all, when nobody objects: what they lack of 100, without the item
      itself where it lies among them. */
  lemma {:induction false} RoomExact(items: seq<Item>, list: seq<Stack>, item: Item, answer: int -> ReturnValue)
    requires NoDup(items) && |items| == |list| && item.count <= 100 && forall n :: answer(n) == NoError
    requires forall k | 0 <= k < |items| :: items[k].kind == list[k].kind && items[k].count == list[k].count
    ensures Room(items, item, answer) == Spare(list, item.kind) - if item in items then 100 - item.count else 0
  {
    var full := Filled(list, item.kind);
    if items != [] {
      var n := |items| - 1;
      RoomExact(items[..n], list[..n], item, answer);
      assert items == items[..n] + [items[n]] && items[n] !in items[..n];
      assert list == list[..n] + [list[n]] && full == Filled(list[..n], item.kind) + [full[n]];
      AmountLast(list[..n], list[n], item.kind);
      AmountLast(Filled(list[..n], item.kind), full[n], item.kind);
    }
  }

  /** How many are moved, of an item that may be moved and where no query fails: of a stack as many as
      are asked for and as find room, 100 in each free slot and, when a slot is named, what the partial
      stacks lack; of anything else itself, if a slot is free. Without a limit nothing of this counts. */
  ghost predicate Counted(t: Target, limitless: bool, item: Item, count: nat, answer: int -> ReturnValue, moved: int)
    reads t.dest, t.dest.itemlist, item
  {
    var free := t.dest.capacity - |t.dest.itemlist|;
    var room := if free < 0 then 0 else 100 * free;
    var spare := Spare(t.dest.Contents(), item.kind) - if item in t.dest.itemlist then 100 - item.count else 0;
    var total := if t.slot == -1 then room else room + spare;
    && 0 <= moved <= item.count && (item.kind.stackable ==> moved <= count)
    && (item == t.toItem || !item.moveable || answer(count) != NoError ==> moved == 0)
    && (t.slot == -1 && !limitless && free <= 0 ==> moved == 0)
    && (item != t.toItem && item.moveable && !item.kind.stackable && answer(count) == NoError ==>
          moved == if limitless || free > 0 then 1 else 0)
    && (item != t.toItem && item.moveable && item.kind.stackable && answer(count) == NoError && count <= item.count ==>
          && (limitless ==> moved == count)
          && (!limitless && (t.slot == -1 || forall n :: answer(n) == NoError) ==>
                moved == if total < count then total else count))
  }

  lemma TakenExact(t: Target, limitless: bool, item: Item, count: nat, answer: int -> ReturnValue, all: set<Container>,
                   things: set<Item>)
    requires World(all, things) && t.dest in all && t.slot >= -1 && item.Sized(all)
    ensures Counted(t, limitless, item, count, answer, Taken(t, limitless, item, count, answer))
  {
    assert t.dest.Fine(all, things);
    StacksAt(t.dest);
    if forall n :: answer(n) == NoError {
      RoomExact(t.dest.itemlist, t.dest.Contents(), item, answer);
    }
  }

  /** How many are moved, how many of these are lost, and what source and destination hold then. */
  datatype Effect = Effect(moved: int, lost: int, source: seq<Stack>, destination: seq<Stack>)

  ghost function EffectOf(from: Container, t: Target, limitless: bool, item: Item, count: nat,
                          answer: int -> ReturnValue): Effect
    requires item in from.itemlist && Names(t)
    reads from, from.itemlist, t.dest, t.dest.itemlist, item
  {
    var m := Taken(t, limitless, item, count, answer);
    if m == 0 then Effect(0, 0, from.Contents(), t.dest.Contents())
    else
      var delivered := Delivered(from, t.dest, item, t.toItem, t.slot, m);
      var source := if from == t.dest then delivered else LeftBehind(from, item, m);
      Effect(m, Lost(t.dest, item, t.toItem, t.slot, m), source, delivered)
  }

  /** What two lists, or one, hold of a kind. */
  function Total(a: seq<Stack>, b: seq<Stack>, same: bool, kind: ItemType): int {
    Amount(a, kind) + if same then 0 else Amount(b, kind)
  }

  /** Nothing is gained. Exactly that is lost which does not fit onto a stack found at an index beyond
      the capacity, and so nothing into a container that is not overfull. */
  lemma EffectExact(from: Container, t: Target, limitless: bool, item: Item, count: nat, answer: int -> ReturnValue)
    requires item in from.itemlist && item.parent == from && Found(t, item)
    requires if item.kind.stackable then 1 <= item.count else item.count == 1
    ensures var e := EffectOf(from, t, limitless, item, count, answer);
      && 0 <= e.lost <= e.moved
      && e.lost ==
           (if t.slot >= t.dest.capacity then e.moved - Min(MAX_STACK - t.dest.itemlist[t.slot].count, e.moved) else 0)
      && (|t.dest.itemlist| <= t.dest.capacity ==> e.lost == 0)
      && forall kind :: Total(e.source, e.destination, from == t.dest, kind) + Part(Stack(item.kind, e.lost), kind)
           == Total(from.Contents(), t.dest.Contents(), from == t.dest, kind)
  {
    var e := EffectOf(from, t, limitless, item, count, answer);
    LostIs(t.dest, item, t.toItem, t.slot, e.moved);
    if e.moved > 0 {
      forall kind ensures Total(e.source, e.destination, from == t.dest, kind) + Part(Stack(item.kind, e.lost), kind)
           == Total(from.Contents(), t.dest.Contents(), from == t.dest, kind) {
        HeldKept(from, t.dest, item, t.toItem, t.slot, e.moved, kind);
      }
    }
  }

  /** The destination, and the effect of moving the item there. */
  method Aim(from: Container, to: Container, index: int, item: Item, count: nat, noLimit: bool,
             answer: int -> ReturnValue,
             ghost all: set<Container>, ghost things: set<Item>)
    returns (dest: Container, slot: int, toItem: Item?, limitless: bool, ghost effect: Effect)
    requires World(all, things) && from in all && to in all && item in from.itemlist && item in things && -1 <= index
    ensures Target(dest, slot, toItem) == old(Resolved(to, index, item, 0, all, things)) && dest in all
    ensures limitless == old(noLimit && to.Answer(index, item, all, things).dest == to)
    ensures old(Names(Target(dest, slot, toItem))) && Names(Target(dest, slot, toItem))
    ensures effect == EffectOf(from, Target(dest, slot, toItem), limitless, item, count, answer)
    ensures effect == old(EffectOf(from, Target(dest, slot, toItem), limitless, item, count, answer))
  {
    ResolvedFound(to, index, item, 0, all, things);
    dest, slot, toItem, limitless := FindDestination(to, index, item, noLimit, all, things);
    effect := EffectOf(from, Target(dest, slot, toItem), limitless, item, count, answer);
  }

  /** A list with so many less of its stack or item at `i`. */
  function Less(list: seq<Stack>, i: nat, m: int): seq<Stack>
    requires i < |list|
  {
    if list[i].kind.stackable && m < list[i].count
    then list[i := Stack(list[i].kind, list[i].count - m)] else list[..i] + list[i + 1..]
  }

  /** A list with `m` more of a kind: a new item in front, or first what fits onto the stack at `at`, and
      of the rest a new item if it may enter. */
  ghost predicate More(list: seq<Stack>, at: Option<nat>, kind: ItemType, m: int, enter: bool, after: seq<Stack>)
    requires at.Some? ==> at.value < |list|
  {
    if !kind.stackable || at.None? || list[at.value].kind != kind then
      after == if enter then [Stack(kind, m)] + list else list
    else
      var count := list[at.value].count;
      if count + m <= 100 then after == list[at.value := Stack(kind, count + m)]
      else if enter then after == [Stack(kind, count + m - 100)] + list[at.value := Stack(kind, 100)]
      else after == list[at.value := Stack(kind, 100)]
  }

  lemma ArrivedMore(list: seq<Stack>, at: Option<nat>, kind: ItemType, m: int, enter: bool)
    requires (at.Some? ==> at.value < |list| && (list[at.value].kind.stackable ==> list[at.value].count <= 100)) &&
      m > 0
    ensures More(list, at, kind, m, enter, Arrived(list, at, kind, m, enter))
  {
  }

  /** What source and destination hold after a move from one to the other, or to the front of the same:
      the source has so many less, and the destination so many more. A stack found in the source itself
      lies one further to the front when the item went as a whole from before it. */
  ghost predicate Settled(from: Container, t: Target, item: Item, e: Effect)
    requires item in from.itemlist && Names(t) && item != t.toItem
    reads from, from.itemlist, t.dest, t.dest.itemlist, item
  {
    var i := IndexOf(from.itemlist, item);
    var left := Less(from.Contents(), i, e.moved);
    var at := PlaceAfter(from, t.dest, item, t.toItem, t.slot, e.moved);
    var list := if from == t.dest then left else t.dest.Contents();
    && e.source == (if from == t.dest then e.destination else left)
    && (at.Some? ==> at.value < |list|)
    && More(list, at, item.kind, e.moved, t.slot < t.dest.capacity, e.destination)
  }

  lemma EffectSettled(from: Container, t: Target, limitless: bool, item: Item, count: nat, answer: int -> ReturnValue,
                      all: set<Container>, things: set<Item>)
    requires World(all, things) && from in all && t.dest in all && item in from.itemlist && Found(t, item) &&
      t.slot >= -1
    ensures var e := EffectOf(from, t, limitless, item, count, answer);
      e.moved > 0 ==> item != t.toItem && Settled(from, t, item, e)
  {
    assert from.Fine(all, things) && item.Fine(from, all) && t.dest.Fine(all, things);
    var e := EffectOf(from, t, limitless, item, count, answer);
    if e.moved > 0 {
      TakenExact(t, limitless, item, count, answer, all, things);
      DeliveredSettled(from, t, item, e, all, things);
    }
  }

  lemma DeliveredSettled(from: Container, t: Target, item: Item, e: Effect, all: set<Container>, things: set<Item>)
    requires World(all, things) && from in all && t.dest in all && item in from.itemlist && Names(t) && item != t.toItem
    requires 0 < e.moved <= item.count && (item.kind.stackable || e.moved == 1)
    requires e.destination == Delivered(from, t.dest, item, t.toItem, t.slot, e.moved)
    requires e.source == if from == t.dest then e.destination else LeftBehind(from, item, e.moved)
    ensures Settled(from, t, item, e)
  {
    LeftLess(from, item, e.moved, all, things);
    MergesAt(from, t, item, e.moved);
    assert t.dest.Fine(all, things) && (t.toItem != null ==> t.toItem.Fine(t.dest, all));
    var list := if from == t.dest then LeftBehind(from, item, e.moved) else t.dest.Contents();
    var at := PlaceAfter(from, t.dest, item, t.toItem, t.slot, e.moved);
    ArrivedMore(list, at, item.kind, e.moved, t.slot < t.dest.capacity);
  }

  lemma LeftLess(from: Container, item: Item, m: int, all: set<Container>, things: set<Item>)
    requires World(all, things) && from in all && item in from.itemlist
    requires 0 < m <= item.count && (item.kind.stackable || m == 1)
    ensures LeftBehind(from, item, m) == Less(from.Contents(), IndexOf(from.itemlist, item), m)
    ensures |LeftBehind(from, item, m)| == |from.itemlist| - if Whole(item, m) then 1 else 0
  {
    StacksAt(from);
  }

  /** The stack found is still there when the item was taken, where PlaceAfter says. */
  lemma MergesAt(from: Container, t: Target, item: Item, m: int)
    requires item in from.itemlist && Names(t) && item != t.toItem
    ensures var list := if from == t.dest then LeftBehind(from, item, m) else t.dest.Contents();
      var at := PlaceAfter(from, t.dest, item, t.toItem, t.slot, m);
      && (at.None? <==> t.toItem == null)
      && (at.Some? ==> at.value < |list| && list[at.value] == Stack(t.toItem.kind, t.toItem.count))
  {
    if from == t.dest && t.toItem != null {
      var i := IndexOf(from.itemlist, item);
      StaysAt(from.Contents(), i, t.slot, m);
    }
  }

  lemma StaysAt(list: seq<Stack>, i: nat, slot: nat, m: int)
    requires i < |list| && slot < |list| && i != slot
    ensures var whole := !(list[i].kind.stackable && m != list[i].count);
      var at := if whole && i < slot then slot - 1 else slot;
      at < |TakenFrom(list, i, m)| && TakenFrom(list, i, m)[at] == list[slot]
  {
  }

  /** Game::internalMoveItem for an item that lies in `from`: where it goes is what the containers
      asked answer, and how many move and what is held then is the effect of that. */
  method InternalMoveItem(from: Container, to: Container, index: int, item: Item, count: nat, noLimit: bool,
                          answer: int -> ReturnValue, ghost all: set<Container>, ghost things: set<Item>)
    returns (ret: ReturnValue, dest: Container, moved: int, ghost t: Target, ghost limitless: bool, ghost lost: int,
      ghost now: set<Item>)
    requires World(all, things) && from in all && to in all && item in from.itemlist && item in things && -1 <= index
    modifies all`itemlist, things`count, things`parent
    ensures t == old(Resolved(to, index, item, 0, all, things)) && t.dest == dest && old(Names(t))
    ensures World(all, now) && things <= now && fresh(now - things) && dest in all
    ensures limitless == old(noLimit && to.Answer(index, item, all, things).dest == to)
    ensures Effect(moved, lost, from.Contents(), dest.Contents()) ==
      old(EffectOf(from, t, limitless, item, count, answer))
    ensures moved > 0 ==>
      item != t.toItem && old(Settled(from, t, item, EffectOf(from, t, limitless, item, count, answer)))
    ensures forall c | c in all && c != from && c != dest :: c.Contents() == old(c.Contents())
    // how many are moved
    ensures old(Counted(t, limitless, item, count, answer, EffectOf(from, t, limitless, item, count, answer).moved))
    // what is answered
    ensures moved > 0 ==> ret == if item.kind.stackable && moved < count then ContainerNotEnoughRoom else NoError
    ensures item == t.toItem ==> ret == NoError
    ensures item != t.toItem && t.slot == -1 && !limitless && dest.capacity <= old(|dest.itemlist|) ==>
      ret == ContainerNotEnoughRoom
    ensures item != t.toItem && answer(count) != NoError ==>
      (t.slot != -1 || limitless || old(|dest.itemlist|) < dest.capacity ==> ret == answer(count))
    ensures item != t.toItem && answer(count) == NoError && !item.moveable && 0 < count <= old(item.count) ==>
      (limitless || old(|dest.itemlist|) < dest.capacity ==> ret == NotMoveable)
    ensures item != t.toItem && answer(count) == NoError && !item.kind.stackable && !limitless ==>
      (dest.capacity <= old(|dest.itemlist|) ==> ret == ContainerNotEnoughRoom)
  {
    ghost var goal := Resolved(to, index, item, 0, all, things);
    ghost var bound := noLimit && to.Answer(index, item, all, things).dest == to;
    Foreseen(from, to, index, item, count, bound, answer, all, things);
    var slot, toItem, noBound;
    ghost var effect;
    dest, slot, toItem, noBound, effect := Aim(from, to, index, item, count, noLimit, answer, all, things);
    t, limitless := Target(dest, slot, toItem), noBound;
    ret, moved, lost, now := MoveTo(from, dest, slot, toItem, noBound, item, count, answer, all, things);
  }

  lemma Foreseen(from: Container, to: Container, index: int, item: Item, count: nat, limitless: bool,
                 answer: int -> ReturnValue, all: set<Container>, things: set<Item>)
    requires World(all, things) && from in all && to in all && item in from.itemlist && item in things && -1 <= index
    ensures var t := Resolved(to, index, item, 0, all, things); t.dest in all && Names(t)
    ensures var t := Resolved(to, index, item, 0, all, things);
      var e := EffectOf(from, t, limitless, item, count, answer);
      Counted(t, limitless, item, count, answer, e.moved) &&
        (e.moved > 0 ==> item != t.toItem && Settled(from, t, item, e))
  {
    var t := Resolved(to, index, item, 0, all, things);
    ResolvedFound(to, index, item, 0, all, things);
    assert from.Fine(all, things) && item.Fine(from, all);
    TakenExact(t, limitless, item, count, answer, all, things);
    EffectSettled(from, t, limitless, item, count, answer, all, things);
  }

  lemma LostIs(dest: Container, item: Item, toItem: Item?, slot: int, m: int)
    requires toItem != null ==> 0 <= slot < |dest.itemlist| && dest.itemlist[slot] == toItem
    requires slot >= dest.capacity ==> toItem != null && item.kind.stackable && dest.FirstPartial(slot, item)
    requires m >= 0
    ensures var lost := Lost(dest, item, toItem, slot, m);
      0 <= lost <= m && lost == if slot >= dest.capacity then m - Min(MAX_STACK - dest.itemlist[slot].count, m) else 0
  {
  }

  /** The rest of internalMoveItem, once the destination is found. */
  method MoveTo(from: Container, dest: Container, slot: int, toItem: Item?, limitless: bool, item: Item, count: nat,
                answer: int -> ReturnValue, ghost all: set<Container>, ghost things: set<Item>)
    returns (ret: ReturnValue, moved: int, ghost lost: int, ghost now: set<Item>)
    requires World(all, things) && from in all && dest in all && item in from.itemlist &&
      Names(Target(dest, slot, toItem))
    modifies all`itemlist, things`count, things`parent
    ensures World(all, now) && things <= now && fresh(now - things)
    ensures Effect(moved, lost, from.Contents(), dest.Contents())
      == old(EffectOf(from, Target(dest, slot, toItem), limitless, item, count, answer))
    ensures moved > 0 ==> ret == if item.kind.stackable && moved < count then ContainerNotEnoughRoom else NoError
    ensures item == toItem ==> ret == NoError
    ensures item != toItem && slot == -1 && !limitless && dest.capacity <= old(|dest.itemlist|) ==>
      ret == ContainerNotEnoughRoom
    ensures item != toItem && answer(count) != NoError ==>
      (slot != -1 || limitless || old(|dest.itemlist|) < dest.capacity ==> ret == answer(count))
    ensures item != toItem && answer(count) == NoError && !item.moveable && 0 < count <= old(item.count) ==>
      (limitless || old(|dest.itemlist|) < dest.capacity ==> ret == NotMoveable)
    ensures item != toItem && answer(count) == NoError && !item.kind.stackable && !limitless ==>
      (dest.capacity <= old(|dest.itemlist|) ==> ret == ContainerNotEnoughRoom)
    ensures forall c | c in all && c != from && c != dest :: c.Contents() == old(c.Contents())
  {
    now := things;
    assert from.Fine(all, things) && item.Fine(from, all) && dest.Fine(all, things);
    ret, moved := Decide(from, dest, slot, toItem, limitless, item, count, answer);
    lost := EffectOf(from, Target(dest, slot, toItem), limitless, item, count, answer).lost;
    if moved > 0 {
      now := Transfer(from, dest, slot, toItem, item, moved, all, things);
    }
  }

  /** The queries of internalMoveItem: how many are to be moved, and what is answered. */
  method Decide(from: Container, dest: Container, slot: int, toItem: Item?, limitless: bool, item: Item, count: nat,
                answer: int -> ReturnValue)
    returns (ret: ReturnValue, moved: int)
    requires item in from.itemlist && (item.kind.stackable ==> item.count > 0)
    ensures moved == Taken(Target(dest, slot, toItem), limitless, item, count, answer) && moved >= 0
    ensures moved > 0 ==> ret == if item.kind.stackable && moved < count then ContainerNotEnoughRoom else NoError
    ensures item == toItem ==> ret == NoError
    ensures item != toItem && slot == -1 && !limitless && dest.capacity <= |dest.itemlist| ==>
      ret == ContainerNotEnoughRoom
    ensures item != toItem && answer(count) != NoError ==>
      (slot != -1 || limitless || |dest.itemlist| < dest.capacity ==> ret == answer(count))
    ensures item != toItem && answer(count) == NoError && !item.moveable && 0 < count <= item.count ==>
      (limitless || |dest.itemlist| < dest.capacity ==> ret == NotMoveable)
    ensures item != toItem && answer(count) == NoError && !item.kind.stackable && !limitless ==>
      (dest.capacity <= |dest.itemlist| ==> ret == ContainerNotEnoughRoom)
  {
    moved := 0;
    if item == toItem {
      ret := NoError;
      return;
    }
    ret := dest.QueryAdd(slot, count, limitless, answer);
    if ret != NoError {
      return;
    }
    var retMaxCount, maxQueryCount := dest.QueryMaxCount(slot, item, count, limitless, answer);
    if retMaxCount != NoError && maxQueryCount == 0 {
      ret := retMaxCount;
      return;
    }
    var m := if item.kind.stackable then Min(count, maxQueryCount) else maxQueryCount;
    ret := from.QueryRemove(item, m);
    if ret != NoError {
      return;
    }
    moved := if item.kind.stackable then m else 1;
    if item.kind.stackable && maxQueryCount < count {
      ret := retMaxCount;
    }
  }

  // a run that loses something

  /** The room on the stacks of a list, as Room sees it when nobody objects. */
  function RoomIn(list: seq<Stack>, kind: ItemType): int {
    if list == [] then 0 else RoomIn(list[..|list| - 1], kind) + RoomOn(list[|list| - 1], kind)
  }

  function RoomOn(s: Stack, kind: ItemType): int {
    if s.kind == kind && s.count < MAX_STACK then MAX_STACK - s.count else 0
  }

  lemma {:induction false} RoomIs(items: seq<Item>, list: seq<Stack>, item: Item, answer: int -> ReturnValue)
    requires |items| == |list| && item !in items && forall n :: answer(n) == NoError
    requires forall k | 0 <= k < |items| :: items[k].kind == list[k].kind && items[k].count == list[k].count
    ensures Room(items, item, answer) == RoomIn(list, item.kind)
  {
    if items != [] {
      RoomIs(items[..|items| - 1], list[..|list| - 1], item, answer);
    }
  }

  /** The first stack with room in `into` is at `k`, and there is room for `count` in all. */
  ghost predicate Takes(into: Container, kind: ItemType, count: nat, k: nat)
    reads into, into.itemlist
  {
    && into.capacity <= |into.itemlist| && RoomIn(into.Contents(), kind) >= count
    && k < |into.itemlist| && RoomOn(into.Contents()[k], kind) > 0
    && forall j | 0 <= j < k :: RoomOn(into.Contents()[j], kind) == 0
  }

  lemma PourAimed(into: Container, item: Item, count: nat, k: nat, all: set<Container>, things: set<Item>)
    requires World(all, things) && into in all && item in things && item !in into.itemlist && item.parent != into
    requires item.kind.stackable && Takes(into, item.kind, count, k)
    ensures into.Answer(INDEX_WHEREEVER, item, all, things) == Target(into, k, into.itemlist[k])
    ensures Resolved(into, INDEX_WHEREEVER, item, 0, all, things) == Target(into, k, into.itemlist[k])
    ensures Found(Target(into, k, into.itemlist[k]), item)
  {
    assert into.Fine(all, things);
    FirstRoomIs(into.itemlist, item, things);
    forall j | 0 <= j < k ensures !Partial(into.itemlist[j], item) {
      assert RoomOn(into.Contents()[j], item.kind) == 0;
    }
    ResolvedFound(into, INDEX_WHEREEVER, item, 0, all, things);
  }

  lemma PourTaken(into: Container, item: Item, count: nat, k: nat, answer: int -> ReturnValue)
    requires item !in into.itemlist && item.kind.stackable && item.count == count > 0 && item.moveable
    requires Takes(into, item.kind, count, k) && forall n :: answer(n) == NoError
    ensures Taken(Target(into, k, into.itemlist[k]), false, item, count, answer) == count
  {
    RoomIs(into.itemlist, into.Contents(), item, answer);
  }

  lemma PourEffect(source: Container, into: Container, item: Item, count: nat, k: nat, answer: int -> ReturnValue)
    requires source != into && source.itemlist == [item] && item !in into.itemlist
    requires item.kind.stackable && item.count == count > 0 && item.moveable
    requires Takes(into, item.kind, count, k) && forall n :: answer(n) == NoError
    ensures EffectOf(source, Target(into, k, into.itemlist[k]), false, item, count, answer) == Effect(count,
      if k < into.capacity then 0 else count - Fits(into.Contents(), Some(k), item.kind, count), [],
      Arrived(into.Contents(), Some(k), item.kind, count, k < into.capacity))
  {
    PourTaken(into, item, count, k, answer);
    assert LeftBehind(source, item, count) == [];
  }

  /** A new stack comes to lie in an empty container. */
  method Stage(source: Container, into: Container, kind: ItemType, count: nat, ghost all: set<Container>,
               ghost things: set<Item>)
    returns (item: Item)
    requires World(all, things) && source in all && into in all && source != into && source.itemlist == []
    requires kind.stackable && 1 <= count <= MAX_STACK && source.capacity > 0
    modifies source`itemlist
    ensures fresh(item) && World(all, things + {item}) && source.itemlist == [item] && item.parent == source
    ensures item.kind == kind && item.count == count && item.moveable && item !in into.itemlist
    ensures into.Contents() == old(into.Contents())
  {
    item := new Item(kind, count);
    source.AddThing(INDEX_WHEREEVER, item, all, things);
    assert source.Fine(all, things + {item}) && item.Fine(source, all) && into.Fine(all, things + {item});
  }

  method Tip(source: Container, into: Container, item: Item, count: nat, ghost k: nat, answer: int -> ReturnValue,
             ghost all: set<Container>, ghost things: set<Item>)
    returns (ghost effect: Effect, ghost now: set<Item>)
    requires World(all, things) && source in all && into in all && item in source.itemlist && item in things
    requires k < |into.itemlist|
    requires Resolved(into, INDEX_WHEREEVER, item, 0, all, things) == Target(into, k, into.itemlist[k])
    modifies all`itemlist, things`count, things`parent
    ensures World(all, now) && things <= now && fresh(now - things)
    ensures effect == old(EffectOf(source, Target(into, k, into.itemlist[k]), false, item, count, answer))
    ensures source.Contents() == effect.source && into.Contents() == effect.destination
  {
    var ret, dest, moved;
    ghost var t, limitless, lost;
    ret, dest, moved, t, limitless, lost, now :=
      InternalMoveItem(source, into, INDEX_WHEREEVER, item, count, false, answer, all, things);
    effect := Effect(moved, lost, source.Contents(), into.Contents());
  }

  /** Pours a new stack, by way of an empty container, into a full one that has room on its stacks. */
  method Pour(source: Container, into: Container, kind: ItemType, count: nat, k: nat, ghost all: set<Container>,
              ghost things: set<Item>)
    returns (ghost lost: int, ghost now: set<Item>)
    requires World(all, things) && source in all && into in all && source != into && source.itemlist == []
    requires kind.stackable && 1 <= count <= MAX_STACK && source.capacity > 0 && Takes(into, kind, count, k)
    modifies all`itemlist, things`count, things`parent
    ensures World(all, now) && things <= now && fresh(now - things) && source.itemlist == []
    ensures into.Contents() == old(Arrived(into.Contents(), Some(k), kind, count, k < into.capacity))
    ensures lost == if k < into.capacity then 0 else count - old(Fits(into.Contents(), Some(k), kind, count))
  {
    var item := Stage(source, into, kind, count, all, things);
    var answer := (n: int) => NoError;
    PourAimed(into, item, count, k, all, things + {item});
    PourEffect(source, into, item, count, k, answer);
    ghost var effect;
    effect, now := Tip(source, into, item, count, k, answer, all, things + {item});
    lost := effect.lost;
    assert |source.Contents()| == 0;
  }

  /** Stacks of a kind with these counts. */
  function Stacks(kind: ItemType, counts: seq<int>): (list: seq<Stack>)
    ensures |list| == |counts| && forall j | 0 <= j < |counts| :: list[j] == Stack(kind, counts[j])
  {
    seq(|counts|, j requires 0 <= j < |counts| => Stack(kind, counts[j]))
  }

  function SumRoom(counts: seq<int>): int {
    if counts == [] then 0 else SumRoom(counts[..|counts| - 1]) + MAX_STACK - counts[|counts| - 1]
  }

  lemma {:induction false} RoomOfStacks(kind: ItemType, counts: seq<int>)
    requires forall j | 0 <= j < |counts| :: counts[j] <= MAX_STACK
    ensures RoomIn(Stacks(kind, counts), kind) == SumRoom(counts)
  {
    if counts != [] {
      RoomOfStacks(kind, counts[..|counts| - 1]);
      assert Stacks(kind, counts)[..|counts| - 1] == Stacks(kind, counts[..|counts| - 1]);
    }
  }

  /** A full container with stacks of these counts takes so many, with the first of them onto stack `k`,
      and holds stacks of those counts then. */
  ghost predicate Goes(kind: ItemType, counts: seq<int>, capacity: nat, count: nat, k: nat, after: seq<int>) {
    && (forall j | 0 <= j < |counts| :: counts[j] <= MAX_STACK)
    && capacity <= |counts| && k < |counts| && counts[k] < MAX_STACK && SumRoom(counts) >= count
    && (forall j | 0 <= j < k :: counts[j] == MAX_STACK)
    && Stacks(kind, after) == Arrived(Stacks(kind, counts), Some(k), kind, count, k < capacity)
  }

  /** Pours onto stacks of one kind. */
  method PourOnto(source: Container, into: Container, kind: ItemType, ghost counts: seq<int>, count: nat, k: nat,
                  ghost after: seq<int>, ghost all: set<Container>, ghost things: set<Item>)
    returns (ghost lost: int, ghost now: set<Item>)
    requires World(all, things) && source in all && into in all && source != into && source.itemlist == []
    requires kind.stackable && 1 <= count <= MAX_STACK && source.capacity > 0
    requires into.Contents() == Stacks(kind, counts) && Goes(kind, counts, into.capacity, count, k, after)
    modifies all`itemlist, things`count, things`parent
    ensures World(all, now) && fresh(now - things) && source.itemlist == []
    ensures into.Contents() == Stacks(kind, after)
    ensures lost == if k < into.capacity then 0 else count - Min(MAX_STACK - counts[k], count)
  {
    assert |into.itemlist| == |into.Contents()|;
    RoomOfStacks(kind, counts);
    lost, now := Pour(source, into, kind, count, k, all, things);
  }

  lemma FirstGoes(kind: ItemType)
    requires kind.stackable
    ensures Goes(kind, [50, 50, 50], 3, 100, 0, [50, 100, 50, 50])
  {
    assert [50, 50, 50][..2] == [50, 50] && [50, 50][..1] == [50] && [50][..0] == [];
  }

  lemma SecondGoes(kind: ItemType)
    requires kind.stackable
    ensures Goes(kind, [50, 100, 50, 50], 3, 100, 0, [50, 100, 100, 50, 50])
  {
    assert [50, 100, 50, 50][..3] == [50, 100, 50] && [50, 100, 50][..2] == [50, 100] && [50, 100][..1] == [50] &&
      [50][..0] == [];
  }

  lemma ThirdGoes(kind: ItemType)
    requires kind.stackable
    ensures Goes(kind, [50, 100, 100, 50, 50], 3, 50, 0, [100, 100, 100, 50, 50])
  {
    assert [50, 100, 100, 50, 50][..4] == [50, 100, 100, 50] && [50, 100, 100, 50][..3] == [50, 100, 100];
    assert [50, 100, 100][..2] == [50, 100];
    assert [50, 100][..1] == [50] && [50][..0] == [];
  }

  lemma LastGoes(kind: ItemType)
    requires kind.stackable
    ensures Goes(kind, [100, 100, 100, 50, 50], 3, 100, 3, [100, 100, 100, 100, 50])
  {
    assert [100, 100, 100, 50, 50][..4] == [100, 100, 100, 50] && [100, 100, 100, 50][..3] == [100, 100, 100];
    assert [100, 100, 100][..2] == [100, 100] && [100, 100][..1] == [100] && [100][..0] == [];
  }

  method ThreeHalves(into: Container, kind: ItemType, ghost all: set<Container>) returns (ghost things: set<Item>)
    requires World(all, {}) && into in all && into.itemlist == [] && into.capacity > 0 && kind.stackable
    modifies into`itemlist
    ensures World(all, things) && fresh(things) && into.Contents() == Stacks(kind, [50, 50, 50])
    ensures forall c | c in all && c != into :: c.itemlist == old(c.itemlist)
  {
    var a := new Item(kind, 50);
    var b := new Item(kind, 50);
    var c := new Item(kind, 50);
    things := {};
    into.AddThing(INDEX_WHEREEVER, a, all, things);
    things := things + {a};
    into.AddThing(INDEX_WHEREEVER, b, all, things);
    things := things + {b};
    into.AddThing(INDEX_WHEREEVER, c, all, things);
    things := things + {c};
  }

  /** Two full stacks poured onto three half ones make two more items of them. */
  method Overfill(source: Container, into: Container, kind: ItemType, ghost all: set<Container>)
    returns (ghost things: set<Item>)
    requires World(all, {}) && all == {source, into} && source != into && source.itemlist == into.itemlist == []
    requires into.capacity == 3 && source.capacity > 0 && kind.stackable
    modifies source`itemlist, into`itemlist
    ensures World(all, things) && fresh(things) && source.itemlist == []
    ensures into.Contents() == Stacks(kind, [50, 100, 100, 50, 50])
  {
    things := ThreeHalves(into, kind, all);
    ghost var lost;
    FirstGoes(kind);
    lost, things := PourOnto(source, into, kind, [50, 50, 50], 100, 0, [50, 100, 50, 50], all, things);
    SecondGoes(kind);
    lost, things := PourOnto(source, into, kind, [50, 100, 50, 50], 100, 0, [50, 100, 100, 50, 50], all, things);
  }

  /** A container for three items, with three half stacks in it. Two full stacks and a half one make two
      more items of it, though it was full, and leave three full stacks and two half ones; and then, of
      100 that are let in for the room on these two, 50 are lost. */
  method LossExample() returns (ghost lost: int)
    ensures lost == 50
  {
    var kind := ItemType(1, true);
    var source := new Container(1, null);
    var into := new Container(3, null);
    ghost var all := {source, into};
    ghost var things := Overfill(source, into, kind, all);
    ThirdGoes(kind);
    lost, things := PourOnto(source, into, kind, [50, 100, 100, 50, 50], 50, 0, [100, 100, 100, 50, 50], all, things);
    LastGoes(kind);
    lost, things := PourOnto(source, into, kind, [100, 100, 100, 50, 50], 100, 3, [100, 100, 100, 100, 50], all,
      things);
  }

  /** With two half stacks and no free slot, 100 are let in: 50 fill the first stack, and 50 become a
      third. */
  lemma OverfullExample(to: Container, item: Item, answer: int -> ReturnValue)
    requires to.capacity == 2 && |to.itemlist| == 2 && item !in to.itemlist && item.kind.stackable
    requires to.Contents() == [Stack(item.kind, 50), Stack(item.kind, 50)]
    requires answer(50) == NoError
    ensures to.FirstPartial(0, item) && to.MaxCount(0, item, 100, false, answer) == 100
    ensures 100 - Min(MAX_STACK - to.itemlist[0].count, 100) == 50
  {
    StacksAt(to);
    var s := to.itemlist;
    assert s[..2] == s && s[..2][..1] == s[..1] && s[..1][..0] == [];
    assert Room(s[..1], item, answer) == 50;
  }

  lemma StacksAt(c: Container)
    ensures forall k | 0 <= k < |c.itemlist| ::
      c.itemlist[k].kind == c.Contents()[k].kind && c.itemlist[k].count == c.Contents()[k].count
  {
  }
}
