/** Counting, taking and giving money (getMoney, removeMoney and addMoney of src/game.cpp).

    A cylinder holds plain items, of which some have a worth (of the whole stack), and bags. Whether an
    item can be removed and whether a new stack fits into the cylinder are parameters; a new stack that
    does not fit goes onto the tile. Merging with stacks that are there already changes no worth. */
module Money {

  datatype Item = Plain(id: nat, worth: nat) | Bag(content: seq<Item>)

  /** A money item as removeMoney remembers it. */
  datatype Entry = Entry(worth: nat, id: nat)

  // what a list of items holds, nested contents included

  function Worth(items: seq<Item>): nat {
    if items == [] then 0 else WorthOf(items[0]) + Worth(items[1..])
  }

  function WorthOf(item: Item): nat {
    match item
    case Plain(_, worth) => worth
    case Bag(content) => Worth(content)
  }

  /** How often a money item occurs. */
  function Occurs(items: seq<Item>, e: Entry): nat {
    if items == [] then 0 else OccursIn(items[0], e) + Occurs(items[1..], e)
  }

  function OccursIn(item: Item, e: Entry): nat {
    match item
    case Plain(id, worth) => if worth != 0 && Entry(worth, id) == e then 1 else 0
    case Bag(content) => Occurs(content, e)
  }

  function Ids(items: seq<Item>, id: nat): nat {
    if items == [] then 0 else IdsIn(items[0], id) + Ids(items[1..], id)
  }

  function IdsIn(item: Item, id: nat): nat {
    match item
    case Plain(id0, _) => if id0 == id then 1 else 0
    case Bag(content) => Ids(content, id)
  }

  /** No two items share an id. */
  ghost predicate Unique(items: seq<Item>) {
    forall id :: Ids(items, id) <= 1
  }

  /** The items without the one with this id, wherever it is. */
  function Without(items: seq<Item>, id: nat): seq<Item> {
    if items == [] then []
    else if IdsIn(items[0], id) == 0 then [items[0]] + Without(items[1..], id)
    else
      match items[0]
      case Plain(_, _) => items[1..]
      case Bag(content) => [Bag(Without(content, id))] + items[1..]
  }

  lemma Cons(item: Item, rest: seq<Item>)
    ensures Worth([item] + rest) == WorthOf(item) + Worth(rest)
    ensures forall e :: Occurs([item] + rest, e) == OccursIn(item, e) + Occurs(rest, e)
    ensures forall id :: Ids([item] + rest, id) == IdsIn(item, id) + Ids(rest, id)
  {
    assert ([item] + rest)[1..] == rest;
  }

  /** One item less, of that worth. */
  ghost predicate Lost(before: seq<Item>, after: seq<Item>, e: Entry) {
    && Worth(after) + e.worth == Worth(before)
    && (forall x :: Occurs(after, x) + (if x == e then 1 else 0) == Occurs(before, x))
    && (forall id :: Ids(after, id) + (if id == e.id then 1 else 0) == Ids(before, id))
  }

  lemma LostInRest(items: seq<Item>, rest: seq<Item>, e: Entry)
    requires items != [] && Lost(items[1..], rest, e)
    ensures Lost(items, [items[0]] + rest, e)
  {
    Cons(items[0], rest);
  }

  lemma LostInBag(items: seq<Item>, content: seq<Item>, e: Entry)
    requires items != [] && items[0].Bag? && Lost(items[0].content, content, e)
    ensures Lost(items, [Bag(content)] + items[1..], e)
  {
    var after := [Bag(content)] + items[1..];
    Cons(Bag(content), items[1..]);
    forall x ensures Occurs(after, x) + (if x == e then 1 else 0) == Occurs(items, x) {
      assert OccursIn(items[0], x) == Occurs(items[0].content, x) && OccursIn(Bag(content), x) == Occurs(content, x);
    }
    forall id ensures Ids(after, id) + (if id == e.id then 1 else 0) == Ids(items, id) {
      assert IdsIn(items[0], id) == Ids(items[0].content, id) && IdsIn(Bag(content), id) == Ids(content, id);
    }
  }

  /** Taking out a money item takes out its worth, and nothing else. */
  lemma {:induction false} WithoutExact(items: seq<Item>, e: Entry)
    requires Unique(items) && Occurs(items, e) > 0
    ensures Lost(items, Without(items, e.id), e)
  {
    OccursHasId(items, e);
    PartsUnique(items);
    assert Ids(items, e.id) == IdsIn(items[0], e.id) + Ids(items[1..], e.id);
    if IdsIn(items[0], e.id) == 0 {
      if items[0].Bag? { OccursHasId(items[0].content, e); }
      WithoutExact(items[1..], e);
      LostInRest(items, Without(items[1..], e.id), e);
    } else {
      OccursHasId(items[1..], e);
      if items[0].Bag? {
        WithoutExact(items[0].content, e);
        LostInBag(items, Without(items[0].content, e.id), e);
      }
    }
  }

  lemma {:induction false} OccursHasId(items: seq<Item>, e: Entry)
    ensures Occurs(items, e) <= Ids(items, e.id)
  {
    if items != [] {
      OccursHasId(items[1..], e);
      if items[0].Bag? {
        OccursHasId(items[0].content, e);
      }
    }
  }

  lemma PartsUnique(items: seq<Item>)
    requires Unique(items) && items != []
    ensures Unique(items[1..]) && (items[0].Bag? ==> Unique(items[0].content))
  {
    forall id ensures Ids(items[1..], id) <= 1 && IdsIn(items[0], id) <= 1 {
      assert Ids(items, id) == IdsIn(items[0], id) + Ids(items[1..], id);
    }
    if items[0].Bag? {
      forall id ensures Ids(items[0].content, id) <= 1 {
        assert IdsIn(items[0], id) == Ids(items[0].content, id);
      }
    }
  }

  // collecting, level by level

  function BagsWorth(bags: seq<seq<Item>>): nat {
    if bags == [] then 0 else Worth(bags[0]) + BagsWorth(bags[1..])
  }

  function BagsOccur(bags: seq<seq<Item>>, e: Entry): nat {
    if bags == [] then 0 else Occurs(bags[0], e) + BagsOccur(bags[1..], e)
  }

  function Size(items: seq<Item>): nat {
    if items == [] then 0
    else 1 + (match items[0] case Plain(_, _) => 0 case Bag(content) => Size(content)) + Size(items[1..])
  }

  function BagsSize(bags: seq<seq<Item>>): nat {
    if bags == [] then 0 else 1 + Size(bags[0]) + BagsSize(bags[1..])
  }

  lemma {:induction false} BagsAppend(bags: seq<seq<Item>>, bag: seq<Item>)
    ensures BagsWorth(bags + [bag]) == BagsWorth(bags) + Worth(bag)
    ensures BagsSize(bags + [bag]) == BagsSize(bags) + 1 + Size(bag)
    ensures forall e :: BagsOccur(bags + [bag], e) == BagsOccur(bags, e) + Occurs(bag, e)
  {
    if bags == [] {
      assert bags + [bag] == [bag] && [bag][1..] == [];
    } else {
      BagsAppend(bags[1..], bag);
      assert (bags + [bag])[1..] == bags[1..] + [bag];
    }
  }

  function Sum(entries: seq<Entry>): nat {
    if entries == [] then 0 else entries[0].worth + Sum(entries[1..])
  }

  function Count(entries: seq<Entry>, e: Entry): nat {
    if entries == [] then 0 else (if entries[0] == e then 1 else 0) + Count(entries[1..], e)
  }

  ghost predicate Sorted(entries: seq<Entry>) {
    forall i, j | 0 <= i < j < |entries| :: entries[i].worth <= entries[j].worth
  }

  /** Into a multimap: behind all entries of no greater worth. */
  function Insert(entries: seq<Entry>, e: Entry): (r: seq<Entry>) {
    if entries == [] || e.worth < entries[0].worth then [e] + entries else [entries[0]] + Insert(entries[1..], e)
  }

  lemma {:induction false} InsertCounts(entries: seq<Entry>, e: Entry)
    ensures var r := Insert(entries, e);
      && Sum(r) == Sum(entries) + e.worth
      && (forall x :: Count(r, x) == Count(entries, x) + if x == e then 1 else 0)
  {
    if entries == [] || e.worth < entries[0].worth {
      assert ([e] + entries)[1..] == entries;
    } else {
      InsertCounts(entries[1..], e);
      assert ([entries[0]] + Insert(entries[1..], e))[1..] == Insert(entries[1..], e);
    }
  }

  lemma {:induction false} InsertSorted(entries: seq<Entry>, e: Entry)
    requires Sorted(entries)
    ensures var r := Insert(entries, e); Sorted(r) && forall k | 0 <= k < |r| :: r[k] == e || r[k] in entries
  {
    if entries != [] && e.worth >= entries[0].worth {
      InsertSorted(entries[1..], e);
    }
  }

  /** What a traversal has collected so far, together with what it still has to look at, is what is
      there. */
  ghost predicate Accounts(items: seq<Item>, moneyMap: seq<Entry>, current: seq<Item>, bags: seq<seq<Item>>) {
    && Sorted(moneyMap) && Sum(moneyMap) + Worth(current) + BagsWorth(bags) == Worth(items)
    && forall e :: Count(moneyMap, e) + Occurs(current, e) + BagsOccur(bags, e) == Occurs(items, e)
  }

  /** One item of a list: its bag goes on the list of bags, its worth into the map. */
  method Look(ghost items: seq<Item>, moneyMap: seq<Entry>, moneyCount: nat, current: seq<Item>, bags: seq<seq<Item>>)
    returns (moneyMap': seq<Entry>, moneyCount': nat, bags': seq<seq<Item>>)
    requires Accounts(items, moneyMap, current, bags) && current != [] && moneyCount == Sum(moneyMap)
    ensures Accounts(items, moneyMap', current[1..], bags') && moneyCount' == Sum(moneyMap')
    ensures Size(current[1..]) + BagsSize(bags') < Size(current) + BagsSize(bags) + 1
  {
    moneyMap', moneyCount', bags' := moneyMap, moneyCount, bags;
    match current[0]
    case Bag(content) =>
      BagsAppend(bags, content);
      bags' := bags + [content];
      assert WorthOf(current[0]) == Worth(content);
      forall e ensures OccursIn(current[0], e) == Occurs(content, e) {
      }
    case Plain(id, worth) =>
      if worth != 0 {
        InsertCounts(moneyMap, Entry(worth, id));
        InsertSorted(moneyMap, Entry(worth, id));
        moneyCount' := moneyCount + worth;
        moneyMap' := Insert(moneyMap, Entry(worth, id));
      }
      assert WorthOf(current[0]) == worth;
      forall e ensures OccursIn(current[0], e) == if worth != 0 && Entry(worth, id) == e then 1 else 0 {
      }
      forall e ensures Count(moneyMap', e) + Occurs(current[1..], e) + BagsOccur(bags', e) == Occurs(items, e) {
        assert Occurs(current, e) == OccursIn(current[0], e) + Occurs(current[1..], e);
        assert Count(moneyMap, e) + Occurs(current, e) + BagsOccur(bags, e) == Occurs(items, e);
      }
  }

  /** The traversal that getMoney and removeMoney share. */
  method Collect(items: seq<Item>) returns (moneyMap: seq<Entry>, moneyCount: nat)
    ensures Sorted(moneyMap) && moneyCount == Sum(moneyMap) == Worth(items)
    ensures forall e :: Count(moneyMap, e) == Occurs(items, e)
  {
    var listContainer: seq<seq<Item>> := [];
    moneyMap, moneyCount := [], 0;
    var i := 0;
    while i < |items|
      invariant 0 <= i <= |items| && moneyCount == Sum(moneyMap) && Accounts(items, moneyMap, items[i..], listContainer)
    {
      moneyMap, moneyCount, listContainer := Look(items, moneyMap, moneyCount, items[i..], listContainer);
      assert items[i..][1..] == items[i + 1..];
      i := i + 1;
    }
    while |listContainer| > 0
      invariant moneyCount == Sum(moneyMap) && Accounts(items, moneyMap, [], listContainer)
      decreases BagsSize(listContainer)
    {
      var container := listContainer[0];
      ghost var size := BagsSize(listContainer);
      listContainer := listContainer[1..];
      i := 0;
      while i < |container|
        invariant 0 <= i <= |container| && moneyCount == Sum(moneyMap) &&
          Accounts(items, moneyMap, container[i..], listContainer)
        invariant Size(container[i..]) + BagsSize(listContainer) < size
      {
        moneyMap, moneyCount, listContainer := Look(items, moneyMap, moneyCount, container[i..], listContainer);
        assert container[i..][1..] == container[i + 1..];
        i := i + 1;
      }
    }
  }

  method GetMoney(items: seq<Item>) returns (moneyCount: nat)
    ensures moneyCount == Worth(items)
  {
    var moneyMap;
    moneyMap, moneyCount := Collect(items);
  }

  // change

  /** Denominations by worth, smallest first. */
  ghost predicate Denominations(coins: seq<nat>) {
    (forall i | 0 <= i < |coins| :: coins[i] > 0) && forall i, j | 0 <= i < j < |coins| :: coins[i] < coins[j]
  }

  /** What cannot be paid, going from the largest coin to the smallest. */
  function Rest(coins: seq<nat>, money: nat): nat
    requires forall i | 0 <= i < |coins| :: coins[i] > 0
  {
    if coins == [] then money else Rest(coins[..|coins| - 1], money % coins[|coins| - 1])
  }

  /** How many stacks of at most 100 this many coins make. */
  function PileCount(amount: nat): nat {
    (amount + 99) / 100
  }

  /** How many stacks addMoney makes, with as many as possible of the largest coins. */
  function Piles(coins: seq<nat>, money: nat): nat
    requires forall i | 0 <= i < |coins| :: coins[i] > 0
  {
    if coins == [] then 0
    else
      var coin := coins[|coins| - 1];
      DivisionIsNat(money, coin);
      PileCount(money / coin) + Piles(coins[..|coins| - 1], money % coin)
  }

  lemma {:induction false} NothingToPay(coins: seq<nat>)
    requires forall i | 0 <= i < |coins| :: coins[i] > 0
    ensures Piles(coins, 0) == 0
  {
    if coins != [] {
      NothingToPay(coins[..|coins| - 1]);
    }
  }

  /** The largest coin comes first: so many of them are paid in as few stacks of a hundred as there can be. */
  lemma LargestFirst(coins: seq<nat>, amount: nat)
    requires coins != [] && forall i | 0 <= i < |coins| :: coins[i] > 0
    ensures var stacks := Piles(coins, amount * coins[|coins| - 1]);
      100 * stacks >= amount && (stacks > 0 ==> 100 * (stacks - 1) < amount)
  {
    var coin := coins[|coins| - 1];
    WholeCoins(amount, coin);
    NothingToPay(coins[..|coins| - 1]);
  }

  lemma WholeCoins(amount: nat, coin: nat)
    requires coin > 0
    ensures (amount * coin) / coin == amount && (amount * coin) % coin == 0
  {
    Quotient(amount * coin, coin);
    if (amount * coin) / coin < amount {
      Fewer((amount * coin) / coin, amount, coin);
    } else if amount < (amount * coin) / coin {
      Fewer(amount, (amount * coin) / coin, coin);
    }
  }

  lemma Fewer(a: nat, b: nat, c: nat)
    requires a < b
    ensures a * c + c <= b * c
  {
    assert a * c + c == (a + 1) * c;
    NoFewer(a + 1, b, c);
  }

  lemma NoFewer(a: nat, b: nat, c: nat)
    requires a <= b
    ensures a * c <= b * c
  {
  }

  lemma DivisionIsNat(a: nat, b: nat)
    requires b > 0
    ensures a / b >= 0
  {
  }

  lemma {:induction false} RestBound(coins: seq<nat>, money: nat)
    requires forall i | 0 <= i < |coins| :: coins[i] > 0
    ensures Rest(coins, money) <= money
  {
    if coins != [] {
      RestBound(coins[..|coins| - 1], money % coins[|coins| - 1]);
    }
  }

  lemma {:induction false} OneIsPaid(coins: seq<nat>, money: nat)
    requires Denominations(coins) && coins != [] && coins[0] == 1
    ensures Rest(coins, money) == 0
  {
    var last := |coins| - 1;
    if last == 0 {
      assert coins[..0] == [];
    } else {
      OneIsPaid(coins[..last], money % coins[last]);
    }
  }

  lemma {:induction false} OneIsNotPaid(coins: seq<nat>)
    requires Denominations(coins) && 1 !in coins
    ensures Rest(coins, 1) == 1
  {
    if coins != [] {
      var last := |coins| - 1;
      assert coins[last] in coins && 1 % coins[last] == 1;
      OneIsNotPaid(coins[..last]);
    }
  }

  /** Every sum can be paid exactly when there is a coin of worth 1. */
  lemma RestExact(coins: seq<nat>)
    requires Denominations(coins)
    ensures (forall money: nat :: Rest(coins, money) == 0) <==> 1 in coins
  {
    if 1 in coins {
      forall money: nat ensures Rest(coins, money) == 0 {
        OneIsPaid(coins, money);
      }
    } else {
      OneIsNotPaid(coins);
    }
  }

  /** The worth of those entries that cannot be removed. */
  function Refused(entries: seq<Entry>, canRemove: nat -> bool): nat {
    if entries == [] then 0
    else (if canRemove(entries[0].id) then 0 else entries[0].worth) + Refused(entries[1..], canRemove)
  }

  lemma {:induction false} Split(entries: seq<Entry>, k: nat, canRemove: nat -> bool)
    requires k < |entries|
    ensures Sum(entries[..k + 1]) == Sum(entries[..k]) + entries[k].worth
    ensures Refused(entries[..k + 1], canRemove) == Refused(entries[..k], canRemove) +
      if canRemove(entries[k].id) then 0 else entries[k].worth
  {
    if k == 0 {
      assert entries[..1][1..] == [] && entries[..0] == [];
    } else {
      Split(entries[1..], k - 1, canRemove);
      assert entries[..k + 1][1..] == entries[1..][..k] && entries[..k][1..] == entries[1..][..k - 1];
    }
  }

  lemma {:induction false} NoneRefused(entries: seq<Entry>, canRemove: nat -> bool)
    requires forall id :: canRemove(id)
    ensures Refused(entries, canRemove) == 0
  {
    if entries != [] {
      NoneRefused(entries[1..], canRemove);
    }
  }

  class Cylinder {
    var items: seq<Item>
    var tile: seq<Item>
    var nextId: nat

    constructor (items: seq<Item>, tile: seq<Item>, nextId: nat)
      requires Unique(items) && forall id | id >= nextId :: Ids(items, id) == 0
      ensures Valid() && this.items == items && this.tile == tile
    {
      this.items, this.tile, this.nextId := items, tile, nextId;
    }

    ghost predicate Valid()
      reads this
    {
      Unique(items) && forall id: nat | id >= nextId :: Ids(items, id) == 0
    }

    ghost function Total(): nat
      reads this
    {
      Worth(items) + Worth(tile)
    }

    method InternalRemoveItem(e: Entry, canRemove: nat -> bool)
      requires Valid() && Occurs(items, e) > 0
      modifies this`items
      ensures Valid() && Total() + (if canRemove(e.id) then e.worth else 0) == old(Total())
      ensures if canRemove(e.id) then Lost(old(items), items, e) else items == old(items)
    {
      if canRemove(e.id) {
        WithoutExact(items, e);
        items := Without(items, e.id);
      }
    }

    /** A stack of coins goes into the cylinder, or else onto the tile. */
    method AddStack(worth: nat, fits: nat -> bool)
      requires Valid()
      modifies this
      ensures Valid() && Total() == old(Total()) + worth && nextId == old(nextId) + 1
      ensures items == if fits(old(nextId)) then [Plain(old(nextId), worth)] + old(items) else old(items)
      ensures tile == if fits(old(nextId)) then old(tile) else [Plain(old(nextId), worth)] + old(tile)
    {
      var item := Plain(nextId, worth);
      Cons(item, items);
      Cons(item, tile);
      if fits(nextId) {
        items := [item] + items;
      } else {
        tile := [item] + tile;
      }
      nextId := nextId + 1;
    }

    /** addMoney: stacks of at most 100 coins each, largest coins first. */
    method AddMoney(coins: seq<nat>, money: nat, fits: nat -> bool)
      requires Valid() && Denominations(coins)
      modifies this
      ensures Valid() && Total() + Rest(coins, money) == old(Total()) + money
      ensures nextId == old(nextId) + Piles(coins, money)
    {
      var left := money;
      var it := |coins|;
      assert coins[..|coins|] == coins;
      while it > 0
        invariant 0 <= it <= |coins| && Valid() && Rest(coins[..it], left) == Rest(coins, money)
        invariant Total() + left == old(Total()) + money
        invariant nextId + Piles(coins[..it], left) == old(nextId) + Piles(coins, money)
      {
        it := it - 1;
        assert coins[..it + 1][..it] == coins[..it];
        left := PayWith(coins[it], left, fits);
      }
    }

    /** As much as one kind of coin can pay. */
    method PayWith(coin: nat, money: nat, fits: nat -> bool) returns (left: nat)
      requires Valid() && coin > 0
      modifies this
      ensures Valid() && left == money % coin && Total() + left == old(Total()) + money
      ensures nextId == old(nextId) + PileCount(money / coin)
    {
      var tmp := money / coin;
      Quotient(money, coin);
      left := money - tmp * coin;
      if tmp != 0 {
        AddCoins(coin, tmp, fits);
      }
    }

    method AddCoins(coin: nat, amount: nat, fits: nat -> bool)
      requires Valid() && amount > 0
      modifies this
      ensures Valid() && Total() == old(Total()) + amount * coin && nextId == old(nextId) + PileCount(amount)
    {
      var tmp := amount;
      while true
        invariant tmp > 0 && Valid() && Total() + tmp * coin == old(Total()) + amount * coin
        invariant nextId + PileCount(tmp) == old(nextId) + PileCount(amount)
        decreases tmp
      {
        var n := if tmp < 100 then tmp else 100;
        Distribute(tmp, n, coin);
        AddStack(n * coin, fits);
        tmp := tmp - n;
        if tmp <= 0 {
          break;
        }
      }
    }

    /** The money was raised by the first `k` entries: a proper part of the last was given back. */
    ghost predicate Raised(entries: seq<Entry>, k: nat, coins: seq<nat>, money: nat, canRemove: nat -> bool,
                           before: nat)
      reads this
      requires forall i | 0 <= i < |coins| :: coins[i] > 0
    {
      && 0 < k <= |entries| && Sum(entries[..k - 1]) < money <= Sum(entries[..k])
      && Total() + money + Rest(coins, Sum(entries[..k]) - money) == before + Refused(entries[..k], canRemove)
    }

    /** With a coin of worth 1 and every item removable, exactly the sum is gone. */
    lemma ExactlyThat(entries: seq<Entry>, k: nat, coins: seq<nat>, money: nat, canRemove: nat -> bool, before: nat)
      requires Denominations(coins) && Raised(entries, k, coins, money, canRemove, before)
      requires 1 in coins && forall id :: canRemove(id)
      ensures Total() + money == before
    {
      OneIsPaid(coins, Sum(entries[..k]) - money);
      NoneRefused(entries[..k], canRemove);
    }

    /** The last loop of removeMoney. */
    method Take(entries: seq<Entry>, coins: seq<nat>, money: nat, canRemove: nat -> bool, fits: nat -> bool)
      returns (ok: bool, ghost taken: nat)
      requires Valid() && Denominations(coins) && 0 < money <= Sum(entries)
      requires forall e :: Count(entries, e) == Occurs(items, e)
      modifies this
      ensures Valid() && ok && Raised(entries, taken, coins, money, canRemove, old(Total()))
    {
      var left := money;
      var k := 0;
      while k < |entries| && left > 0
        invariant 0 <= k <= |entries| && left >= 0 && Valid()
        invariant left > 0 ==>
          && Sum(entries[..k]) + left == money &&
            Total() + Sum(entries[..k]) == old(Total()) + Refused(entries[..k], canRemove)
          && forall e :: Occurs(items, e) >= Count(entries[k..], e)
        invariant left == 0 ==> Raised(entries, k, coins, money, canRemove, old(Total()))
      {
        left := TakeOne(entries, k, coins, money, left, canRemove, fits, old(Total()));
        k := k + 1;
      }
      assert entries[..|entries|] == entries;
      ok, taken := left == 0, k;
    }

    /** One round: the item is taken as a whole, or change is given for what is too much. */
    method TakeOne(entries: seq<Entry>, k: nat, coins: seq<nat>, ghost money: nat, left: nat, canRemove: nat -> bool,
                   fits: nat -> bool, ghost before: nat)
      returns (left': nat)
      requires Valid() && Denominations(coins) && k < |entries| && left > 0
      requires Sum(entries[..k]) + left == money &&
        Total() + Sum(entries[..k]) == before + Refused(entries[..k], canRemove)
      requires forall e :: Occurs(items, e) >= Count(entries[k..], e)
      modifies this
      ensures Valid()
      ensures left' > 0 ==>
        && Sum(entries[..k + 1]) + left' == money &&
          Total() + Sum(entries[..k + 1]) == before + Refused(entries[..k + 1], canRemove)
        && forall e :: Occurs(items, e) >= Count(entries[k + 1..], e)
      ensures left' == 0 ==> Raised(entries, k + 1, coins, money, canRemove, before)
    {
      var entry := entries[k];
      Split(entries, k, canRemove);
      assert entries[k..][1..] == entries[k + 1..];
      assert Count(entries[k..], entry) > 0;
      InternalRemoveItem(entry, canRemove);
      if entry.worth > left {
        AddMoney(coins, entry.worth - left, fits);
        left' := 0;
      } else {
        left' := left - entry.worth;
        RestBound(coins, 0);
      }
    }

    /** removeMoney. `moneyMap` is what the cylinder had, smallest worth first; of it, `taken` is how
        many were taken. */
    method RemoveMoney(coins: seq<nat>, money: int, canRemove: nat -> bool, fits: nat -> bool)
      returns (ok: bool, ghost moneyMap: seq<Entry>, ghost taken: nat)
      requires Valid() && Denominations(coins)
      modifies this
      ensures Valid() && ok == (money <= old(Worth(items)) || money <= 0)
      ensures !ok || money <= 0 ==> items == old(items) && tile == old(tile)
      ensures ok && money > 0 ==>
        && Sorted(moneyMap) && (forall e :: Count(moneyMap, e) == old(Occurs(items, e)))
        && Raised(moneyMap, taken, coins, money, canRemove, old(Total()))
    {
      moneyMap, taken := [], 0;
      if money <= 0 {
        return true, moneyMap, taken;
      }
      var entries, moneyCount := Collect(items);
      moneyMap := entries;
      if moneyCount < money {
        return false, moneyMap, taken;
      }
      ok, taken := Take(entries, coins, money, canRemove, fits);
    }
  }

  lemma Quotient(a: nat, b: nat)
    requires b > 0
    ensures a - a / b * b == a % b
  {
  }

  lemma Distribute(a: nat, b: nat, c: nat)
    requires b <= a
    ensures (a - b) * c == a * c - b * c
  {
  }
}
