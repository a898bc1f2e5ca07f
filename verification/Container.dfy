/** Containers of src/container.cpp: items nested in items, with weights kept up to date along
    the chain of parents. Weights are exact numbers.

    A Thing is an item, a container, or a cylinder that is no item (a tile or a creature, `outer`).
    `S` is every thing there is; `above` is the ghost set of a thing's strict ancestors. */
module Container {
  import opened Common

  datatype ReturnValue = NoError | NotPossible | CannotPickup | ThisIsImpossible | ContainerNotEnoughRoom | DepotIsFull

  datatype Flags = Flags(noLimit: bool, childIsOwner: bool)

  const INDEX_WHEREEVER := -1

  class Thing {
    const container: bool
    const outer: bool
    const pickupable: bool
    const maxSize: nat
    const depotLimit: Option<nat>  // a depot's limit on the items inside
    var unit: real        // weight of one piece, from the item type
    var stackable: bool
    var count: nat
    var parent: Thing?
    var itemlist: seq<Thing>
    var totalWeight: real
    ghost var above: set<Thing>

    constructor (container: bool, outer: bool, pickupable: bool, maxSize: nat, depotLimit: Option<nat>, unit: real,
                 stackable: bool, count: nat)
      ensures this.container == container && this.outer == outer && this.pickupable == pickupable &&
        this.maxSize == maxSize
      ensures this.depotLimit == depotLimit && this.unit == unit && this.stackable == stackable && this.count == count
      ensures parent == null && itemlist == [] && totalWeight == 0.0 && above == {}
    {
      this.container, this.outer, this.pickupable, this.maxSize := container, outer, pickupable, maxSize;
      this.depotLimit, this.unit, this.stackable, this.count := depotLimit, unit, stackable, count;
      parent, itemlist, totalWeight, above := null, [], 0.0, {};
    }

    function OwnWeight(): real
      reads this`unit, this`stackable, this`count
    {
      if stackable then unit * (if count > 1 then count else 1) as real else unit
    }

    /** Pieces taken off a stack, down to one, weigh the same each; a stack of none weighs as one piece. */
    lemma PartWeighs(have: nat, count: nat)
      requires stackable && count < have && this.count == have - count
      ensures OwnWeight() == unit * have as real - unit * count as real
    {
      assert have as real == (have - count) as real + count as real;
    }

    function GetWeight(): real
      reads this`unit, this`stackable, this`count, this`totalWeight
    {
      if container then OwnWeight() + totalWeight else OwnWeight()
    }

    function Capacity(): nat
      reads this`itemlist
    {
      CapacityFor(|itemlist|)
    }

    function CapacityFor(size: int): int {
      if maxSize != 0 then maxSize else if size + 1 < 255 then size + 1 else 255
    }

    /** True for an unlimited container too: the source returns the number 255 there. */
    predicate Full()
      reads this`itemlist
    {
      maxSize == 0 || |itemlist| >= maxSize
    }

    ghost predicate LinksIn(S: set<Thing>)
      reads this`parent, this`itemlist
    {
      (parent != null ==> parent in S) && forall i | i in itemlist :: i in S
    }

    /** Links and ancestors of this thing are consistent. */
    ghost predicate Placed(S: set<Thing>)
      reads this`parent, this`itemlist, this`above, (if parent == null then {} else {parent})`itemlist,
        (if parent == null then {} else {parent})`above, (set i | i in itemlist)`parent
    {
      && above <= S && this !in above
      && (if parent == null then above == {}
          else parent in S && above == parent.above + {parent}
               && (if parent.container then this in parent.itemlist else parent.outer))
      && NoDup(itemlist)
      && (forall i | i in itemlist :: i in S && i.parent == this)
      && (!container ==> itemlist == [])
      && (outer ==> !container && (parent != null ==> parent.outer))
    }

    /** The cached weight is the sum of the weights of the items inside. */
    ghost predicate Balanced()
      reads this`totalWeight, this`itemlist, itemlist`unit, itemlist`stackable, itemlist`count, itemlist`totalWeight
    {
      totalWeight == Sum(itemlist)
    }

    /** Nothing holds the item, and it is no ancestor of this container: what __queryAdd checks. */
    ghost predicate Addable(item: Thing, S: set<Thing>)
      reads this, item, S
    {
      && this in S && item in S && Forest(S)
      && container && !item.outer && item.parent == null && item != this && item !in above
    }

    predicate TakesPart(stackable: bool, have: nat, count: nat) {
      stackable && count != have
    }

    // -------------------------------------------------------------- weights

    /** This container and every container above it changed by `diff`, no other cached weight did. */
    twostate predicate Shifted(diff: real, S: set<Thing>)
      reads S`totalWeight, this`above
    {
      forall t | t in S ::
        t.totalWeight == old(t.totalWeight) + if t == this || (t in above && t.container) then diff else 0.0
    }

    method GetParentContainer() returns (p: Thing?)
      ensures p == if parent != null && parent.container then parent else null
    {
      p := if parent != null && parent.container then parent else null;
    }

    /** Adds `diff` to this container and to every container above it, which is what restores
        the balance when only this container is off by `diff`. */
    method UpdateItemWeight(diff: real, ghost S: set<Thing>)
      requires this in S && container && Forest(S)
      requires AllBut(this, diff, S)
      modifies S`totalWeight
      ensures Weights(S)
      ensures Shifted(diff, S)
      decreases above
    {
      ghost var w := WeightsOf(S);
      TotalsRead(this, diff, S, w);
      AddToTotal(diff, S, w);
      OneChanged(this, diff, S, w);
      var p := GetParentContainer();
      AboveParent(this, S);
      if p != null {
        p.UpdateItemWeight(diff, S);
      }
    }

    method AddToTotal(diff: real, ghost S: set<Thing>, ghost w: map<Thing, real>)
      requires this in S && container && Forest(S) && w == WeightsOf(S)
      modifies this`totalWeight
      ensures Forest(S) && totalWeight == old(totalWeight) + diff
      ensures forall t | t in S :: t.GetWeight() == w[t] + if t == this then diff else 0.0
    {
      totalWeight := totalWeight + diff;
    }

    // -------------------------------------------------------------- links

    /** The item came out of this thing: it and everything inside it lost the ancestors it had. */
    twostate predicate Freed(item: Thing, S: set<Thing>)
      reads S`above
    {
      forall t | t in S ::
        t.above == old(t.above) - if t == item || item in old(t.above) then old(above) + {this} else {}
    }

    /** Puts an unattached item at `index`; it and everything inside it get new ancestors. */
    method Link(item: Thing, index: nat, ghost S: set<Thing>)
      requires this in S && item in S && Forest(S)
      requires container && !item.outer && item.parent == null && item != this && item !in above
      requires index <= |itemlist|
      modifies this`itemlist, item`parent, S`above
      ensures Forest(S) && item.parent == this
      ensures itemlist == old(itemlist[..index] + [item] + itemlist[index..])
      ensures forall t | t in S ::
        t.above == old(t.above) + if t == item || item in old(t.above) then old(above) + {this} else {}
    {
      assert Placed(S) && item.Placed(S);
      forall t | t in S && item in t.above ensures t !in above {
        if t in above { AboveTransitive(item, t, this, S); }
      }
      item.parent := this;
      itemlist := itemlist[..index] + [item] + itemlist[index..];
      ghost var gained := above + {this};
      forall t | t in S && (t == item || item in t.above) {
        t.above := t.above + gained;
      }
      forall t | t in S ensures t.LinksIn(S) && t.Placed(S) {
        assert old(t.Placed(S)) && old(t.LinksIn(S));
      }
    }

    /** Takes the item at `index` out; it and everything inside it lose their outer ancestors. */
    method Unlink(index: nat, ghost S: set<Thing>)
      requires this in S && Forest(S) && index < |itemlist|
      modifies this`itemlist, {itemlist[index]}`parent, S`above
      ensures Forest(S) && old(itemlist)[index].parent == null
      ensures itemlist == old(itemlist[..index] + itemlist[index + 1..])
      ensures Freed(old(itemlist)[index], S)
    {
      assert Placed(S);
      var item := itemlist[index];
      assert item in itemlist;
      assert item.Placed(S);
      forall t | t in S && (t == item || item in t.above) ensures t !in item.above {
        if t in item.above { AboveTransitive(item, t, item, S); }
      }
      item.parent := null;
      itemlist := itemlist[..index] + itemlist[index + 1..];
      ghost var lost := above + {this};
      forall t | t in S && (t == item || item in t.above) {
        t.above := t.above - lost;
      }
      forall t | t in S ensures t.LinksIn(S) && t.Placed(S) {
        assert old(t.Placed(S)) && old(t.LinksIn(S));
      }
    }

    /** An item leaves a cylinder that is no item. */
    method Leave(item: Thing, ghost S: set<Thing>)
      requires this in S && outer && item in S && item.parent == this && Forest(S) && Weights(S)
      modifies item`parent, S`above
      ensures Forest(S) && Weights(S) && item.parent == null && Freed(item, S)
    {
      assert Placed(S) && item.Placed(S);
      forall t | t in S && (t == item || item in t.above) ensures t !in item.above {
        if t in item.above { AboveTransitive(item, t, item, S); }
      }
      item.parent := null;
      ghost var lost := above + {this};
      forall t | t in S && (t == item || item in t.above) {
        t.above := t.above - lost;
      }
      forall t | t in S ensures t.LinksIn(S) && t.Placed(S) {
        assert old(t.Placed(S)) && old(t.LinksIn(S));
      }
      forall t | t in S ensures t.Balanced() {
        assert old(t.Balanced()) && old(t.LinksIn(S));
      }
    }

    method Relink(index: nat, item: Thing, ghost S: set<Thing>)
      requires Addable(item, S) && index < |itemlist|
      modifies this`itemlist, item`parent, {itemlist[index]}`parent, S`above
      ensures Forest(S) && item.parent == this && old(itemlist)[index].parent == null
      ensures itemlist == old(itemlist)[index := item] && above == old(above)
    {
      ghost var before := itemlist;
      ghost var replaced := itemlist[index];
      ChildBelow(this, replaced, S);
      ItemNowhere(this, item, S);
      Unlink(index, S);
      Link(item, index, S);
      assert itemlist == before[index := item];
    }

    // -------------------------------------------------------------- cylinder operations

    /** __addThing: the item goes to the front, whatever slot was asked for. A slot beyond the
        capacity drops the request silently. */
    method AddThing(index: int, item: Thing, ghost S: set<Thing>)
      requires Addable(item, S) && Weights(S)
      modifies this`itemlist, item`parent, S`above, S`totalWeight
      ensures Forest(S) && Weights(S)
      ensures index >= old(Capacity()) ==> unchanged(this) && unchanged(item) && unchanged(S)
      ensures index < maxSize || (maxSize == 0 && index < 255 && index <= |old(itemlist)|) ==>
        itemlist == [item] + old(itemlist)
      ensures maxSize != 0 && index >= maxSize ==> itemlist == old(itemlist)
      ensures maxSize == 0 && (index >= 255 || index > |old(itemlist)|) ==> itemlist == old(itemlist)
      ensures index < old(Capacity()) ==>
        && itemlist == [item] + old(itemlist) && item.parent == this
        && Shifted(old(item.GetWeight()), S)
        && (forall t | t in S ::
          t.above == old(t.above) + if t == item || item in old(t.above) then old(above) + {this} else {})
    {
      if index >= Capacity() {
        return;
      }
      InternalAddThing(item, S);
    }

    /** __internalAddThing: the same without the slot check. */
    method InternalAddThing(item: Thing, ghost S: set<Thing>)
      requires Addable(item, S) && Weights(S)
      modifies this`itemlist, item`parent, S`above, S`totalWeight
      ensures Forest(S) && Weights(S)
      ensures itemlist == [item] + old(itemlist) && item.parent == this
      ensures Shifted(old(item.GetWeight()), S)
      ensures forall t | t in S ::
        t.above == old(t.above) + if t == item || item in old(t.above) then old(above) + {this} else {}
    {
      assert Balanced();
      ghost var before := itemlist;
      Link(item, 0, S);
      assert itemlist == [item] + before;
      AfterInsert(this, item, before, 0, S);
      UpdateItemWeight(item.GetWeight(), S);
    }

    /** One item of unserializeItemNode: it goes to the back and its weight upwards. */
    method UnserializeItem(item: Thing, ghost S: set<Thing>)
      requires Addable(item, S) && Weights(S)
      modifies this`itemlist, item`parent, S`above, S`totalWeight
      ensures Forest(S) && Weights(S)
      ensures itemlist == old(itemlist) + [item] && item.parent == this
      ensures Shifted(old(item.GetWeight()), S)
      ensures forall t | t in S ::
        t.above == old(t.above) + if t == item || item in old(t.above) then old(above) + {this} else {}
    {
      assert Balanced();
      ghost var before := itemlist;
      Link(item, |itemlist|, S);
      assert itemlist == before + [item];
      AfterInsert(this, item, before, |before|, S);
      UpdateItemWeight(item.GetWeight(), S);
    }

    method GetIndexOfThing(item: Thing) returns (index: int)
      ensures index == -1 <==> item !in itemlist
      ensures index != -1 ==> 0 <= index < |itemlist| && itemlist[index] == item
    {
      for i := 0 to |itemlist|
        invariant item !in itemlist[..i]
      {
        if itemlist[i] == item {
          return i;
        }
      }
      index := -1;
    }

    /** Changes an item inside; only this container's cached weight is off afterwards. */
    method ChangeInside(item: Thing, unit: real, stackable: bool, count: nat, ghost S: set<Thing>) returns (diff: real)
      requires this in S && item in S && Forest(S) && Weights(S) && item in itemlist
      modifies item`unit, item`stackable, item`count
      ensures Forest(S) && container && AllBut(this, diff, S) && item != this && item !in above
      ensures item.unit == unit && item.stackable == stackable && item.count == count
      ensures diff == item.GetWeight() - old(item.GetWeight())
    {
      ghost var w := WeightsOf(S);
      BalancedTotals(S, w);
      ChildBelow(this, item, S);
      diff := SetItem(item, unit, stackable, count, S, w);
      OneChanged(item, diff, S, w);
    }

    method SetItem(item: Thing, unit: real, stackable: bool, count: nat, ghost S: set<Thing>, ghost w: map<Thing, real>)
      returns (diff: real)
      requires item in S && Forest(S) && w == WeightsOf(S)
      modifies item`unit, item`stackable, item`count
      ensures Forest(S) && forall t | t in S :: t.GetWeight() == w[t] + if t == item then diff else 0.0
      ensures item.unit == unit && item.stackable == stackable && item.count == count
      ensures diff == item.GetWeight() - old(item.GetWeight())
    {
      var oldWeight := item.GetWeight();
      item.unit, item.stackable, item.count := unit, stackable, count;
      diff := item.GetWeight() - oldWeight;
    }

    /** __updateThing: an item inside takes another type and count. */
    method UpdateThing(item: Thing, unit: real, stackable: bool, count: nat, ghost S: set<Thing>)
      requires this in S && item in S && Forest(S) && Weights(S)
      modifies item`unit, item`stackable, item`count, S`totalWeight
      ensures Forest(S) && Weights(S)
      ensures item !in itemlist ==> unchanged(item) && unchanged(S)
      ensures item in itemlist ==>
        && item.unit == unit && item.stackable == stackable && item.count == count
        && Shifted(item.GetWeight() - old(item.GetWeight()), S)
    {
      var index := GetIndexOfThing(item);
      if index == -1 {
        return;
      }
      var diff := ChangeInside(item, unit, stackable, count, S);
      UpdateItemWeight(diff, S);
    }

    /** __replaceThing: the new item takes the place of the one at `index`. */
    method ReplaceThing(index: nat, item: Thing, ghost S: set<Thing>)
      requires Addable(item, S) && Weights(S)
      modifies this`itemlist, item`parent, itemlist`parent, S`above, S`totalWeight
      ensures Forest(S) && Weights(S)
      ensures index >= |old(itemlist)| ==> unchanged(this) && unchanged(item) && unchanged(S)
      ensures index < |old(itemlist)| ==>
        && itemlist == old(itemlist)[index := item] && item.parent == this && old(itemlist)[index].parent == null
        && Shifted(old(item.GetWeight()) - old(itemlist[index].GetWeight()), S)
    {
      if index >= |itemlist| {
        return;
      }
      assert Balanced();
      ghost var before := itemlist;
      var replaced := itemlist[index];
      ChildBelow(this, replaced, S);
      Relink(index, item, S);
      AfterReplace(this, item, before, index, S);
      UpdateItemWeight(item.GetWeight() - replaced.GetWeight(), S);
    }

    /** __removeThing: takes `count` pieces off a stack, or the whole item. */
    method RemoveThing(item: Thing, count: nat, ghost S: set<Thing>)
      requires this in S && item in S && Forest(S) && Weights(S)
      modifies this`itemlist, item`parent, item`unit, item`stackable, item`count, S`above, S`totalWeight
      ensures Forest(S) && Weights(S)
      ensures item !in old(itemlist) ==> unchanged(this) && unchanged(item) && unchanged(S)
      ensures item in old(itemlist) && item.TakesPart(old(item.stackable), old(item.count), count) ==>
        && itemlist == old(itemlist) && item.parent == old(item.parent)
        && item.unit == old(item.unit) && item.stackable
        && item.count == (if old(item.count) > count then old(item.count) - count else 0)
        && Shifted(item.GetWeight() - old(item.GetWeight()), S)
      ensures item in old(itemlist) && !item.TakesPart(old(item.stackable), old(item.count), count) ==>
        && Without(old(itemlist), item, itemlist) && item.parent == null && item.count == old(item.count)
        && Shifted(-old(item.GetWeight()), S)
        && Freed(item, S)
    {
      var index := GetIndexOfThing(item);
      if index == -1 {
        return;
      }
      if item.stackable && count != item.count {
        RemovePart(item, count, S);
      } else {
        RemoveAt(index, S);
      }
    }

    method RemovePart(item: Thing, count: nat, ghost S: set<Thing>)
      requires this in S && item in S && item in itemlist && Forest(S) && Weights(S)
      modifies item`unit, item`stackable, item`count, S`totalWeight
      ensures Forest(S) && Weights(S)
      ensures item.count == (if old(item.count) > count then old(item.count) - count else 0)
      ensures item.stackable == old(item.stackable) && item.unit == old(item.unit)
      ensures Shifted(item.GetWeight() - old(item.GetWeight()), S)
    {
      var left := if item.count > count then item.count - count else 0;
      var diff := ChangeInside(item, item.unit, item.stackable, left, S);
      UpdateItemWeight(diff, S);
    }

    method RemoveAt(index: nat, ghost S: set<Thing>)
      requires this in S && Forest(S) && Weights(S) && index < |itemlist|
      modifies this`itemlist, {itemlist[index]}`parent, S`above, S`totalWeight
      ensures Forest(S) && Weights(S)
      ensures old(itemlist)[index].parent == null && itemlist == old(itemlist[..index] + itemlist[index + 1..])
      ensures Shifted(-old(itemlist[index].GetWeight()), S) && Freed(old(itemlist)[index], S)
    {
      assert Placed(S) && Balanced();
      ghost var before := itemlist;
      var item := itemlist[index];
      Unlink(index, S);
      AfterDelete(this, before, index, S);
      UpdateItemWeight(-item.GetWeight(), S);
    }
  }

  /** `after` is `before` with one occurrence of `x` taken out. */
  ghost predicate Without<T>(before: seq<T>, x: T, after: seq<T>) {
    exists i | 0 <= i < |before| :: before[i] == x && after == before[..i] + before[i + 1..]
  }

  /** Ancestors of ancestors are ancestors. */
  lemma {:induction false} AboveTransitive(a: Thing, b: Thing, c: Thing, S: set<Thing>)
    requires Forest(S) && c in S && a in b.above && b in c.above
    ensures a in c.above
    decreases c.above
  {
    assert c.Placed(S);
    if b != c.parent {
      assert c.parent.Placed(S);
      AboveTransitive(a, b, c.parent, S);
    }
  }

  // ---------------------------------------------------------------- sums

  ghost function Sum(s: seq<Thing>): real
    reads s`unit, s`stackable, s`count, s`totalWeight
  {
    if s == [] then 0.0 else s[0].GetWeight() + Sum(s[1..])
  }

  ghost predicate Forest(S: set<Thing>)
    reads S`parent, S`itemlist, S`above
  {
    forall t {:trigger t.Placed(S)} | t in S :: t.LinksIn(S) && t.Placed(S)
  }

  ghost predicate Weights(S: set<Thing>)
    reads S
  {
    forall t {:trigger t.Balanced()} | t in S :: t.LinksIn(S) && t.Balanced()
  }

  /** `w` holds the weights before the cached weight of `x` alone was set right: now only the
      parent container of `x` is off. */
  lemma OneChanged(x: Thing, diff: real, S: set<Thing>, w: map<Thing, real>)
    requires x in S && Forest(S) && w.Keys == S
    requires forall t | t in S :: t.GetWeight() == w[t] + if t == x then diff else 0.0
    requires forall t | t in S :: t.LinksIn(S) && t.totalWeight == SumBy(t.itemlist, w)
    ensures x.LinksIn(S)
    ensures if x.parent != null && x.parent.container then AllBut(x.parent, diff, S) else Weights(S)
  {
    var w' := WeightsOf(S);
    SumsRead(S, w');
    forall t | t in S
      ensures t.LinksIn(S) && Sum(t.itemlist) == t.totalWeight + if t == x.parent && t.container then diff else 0.0
    {
      assert t.Placed(S) && x.Placed(S);
      assert x in t.itemlist <==> t == x.parent && t.container;
      SumChanged(t.itemlist, x, diff, w, w');
    }
    assert x.Placed(S);
  }

  lemma ChildBelow(x: Thing, item: Thing, S: set<Thing>)
    requires x in S && Forest(S) && item in x.itemlist
    ensures item in S && item.parent == x && x.container && item != x && item !in x.above
  {
    assert x.Placed(S);
    assert item.Placed(S);
  }

  lemma ItemNowhere(x: Thing, item: Thing, S: set<Thing>)
    requires x in S && item in S && Forest(S) && item.parent == null
    ensures item !in x.itemlist
  {
    assert x.Placed(S);
  }

  lemma AboveParent(t: Thing, S: set<Thing>)
    requires t in S && Forest(S)
    ensures t.LinksIn(S) && t !in t.above
    ensures t.parent != null ==> t.above == t.parent.above + {t.parent} && t.parent !in t.parent.above
    ensures t.parent == null || !t.parent.container ==> forall a | a in t.above :: !a.container
  {
    assert t.Placed(S);
    if t.parent != null {
      assert t.parent.Placed(S);
      if t.parent.outer { OuterChain(t.parent, S); }
    }
  }

  /** All cached weights are right but that of `x`, which lacks `diff`. */
  ghost predicate AllBut(x: Thing, diff: real, S: set<Thing>)
    reads S
  {
    forall t {:trigger t.Balanced()} | t in S ::
      t.LinksIn(S) && if t == x then t.totalWeight + diff == Sum(t.itemlist) else t.Balanced()
  }

  /** Above a cylinder that is no item there are no containers. */
  lemma {:induction false} OuterChain(t: Thing, S: set<Thing>)
    requires t in S && t.outer && Forest(S)
    ensures forall a | a in t.above :: a.outer && !a.container
    decreases t.above
  {
    assert t.Placed(S);
    if t.parent != null {
      assert t.parent.Placed(S);
      OuterChain(t.parent, S);
    }
  }

  /** The weights of all things at one moment. */
  ghost function WeightsOf(S: set<Thing>): map<Thing, real>
    reads S`unit, S`stackable, S`count, S`totalWeight
  {
    map t | t in S :: t.GetWeight()
  }

  ghost function SumBy(s: seq<Thing>, w: map<Thing, real>): real
    requires forall t | t in s :: t in w
  {
    if s == [] then 0.0 else w[s[0]] + SumBy(s[1..], w)
  }

  lemma {:induction false} SumReads(s: seq<Thing>, w: map<Thing, real>)
    requires forall t | t in s :: t in w && w[t] == t.GetWeight()
    ensures Sum(s) == SumBy(s, w)
  {
    if s != [] { SumReads(s[1..], w); }
  }

  lemma SumsRead(S: set<Thing>, w: map<Thing, real>)
    requires Forest(S) && w == WeightsOf(S)
    ensures forall t | t in S :: t.LinksIn(S) && Sum(t.itemlist) == SumBy(t.itemlist, w)
  {
    forall t | t in S ensures t.LinksIn(S) && Sum(t.itemlist) == SumBy(t.itemlist, w) {
      assert t.Placed(S);
      SumReads(t.itemlist, w);
    }
  }

  lemma {:induction false} SumInsert(s: seq<Thing>, index: nat, item: Thing)
    requires index <= |s|
    ensures Sum(s[..index] + [item] + s[index..]) == Sum(s) + item.GetWeight()
  {
    var l := s[..index] + [item] + s[index..];
    if index == 0 {
      assert l == [item] + s;
    } else {
      SumInsert(s[1..], index - 1, item);
      assert l[1..] == s[1..][..index - 1] + [item] + s[1..][index - 1..];
    }
  }

  lemma AfterInsert(x: Thing, item: Thing, before: seq<Thing>, index: nat, S: set<Thing>)
    requires x in S && Forest(S) && index <= |before|
    requires x.itemlist == before[..index] + [item] + before[index..] && x.totalWeight == Sum(before)
    requires forall t {:trigger t.Balanced()} | t in S && t != x :: t.Balanced()
    ensures AllBut(x, item.GetWeight(), S)
  {
    SumInsert(before, index, item);
    forall t | t in S ensures t.LinksIn(S) { assert t.Placed(S); }
  }

  lemma Reinserted<T>(before: seq<T>, index: nat)
    requires index < |before|
    ensures var rest := before[..index] + before[index + 1..]; before == rest[..index] + [before[index]] + rest[index..]
  {
  }

  lemma AfterDelete(x: Thing, before: seq<Thing>, index: nat, S: set<Thing>)
    requires x in S && Forest(S) && index < |before|
    requires x.itemlist == before[..index] + before[index + 1..] && x.totalWeight == Sum(before)
    requires forall t {:trigger t.Balanced()} | t in S && t != x :: t.Balanced()
    ensures AllBut(x, -before[index].GetWeight(), S)
  {
    Reinserted(before, index);
    SumInsert(x.itemlist, index, before[index]);
    forall t | t in S ensures t.LinksIn(S) { assert t.Placed(S); }
  }

  lemma AfterReplace(x: Thing, item: Thing, before: seq<Thing>, index: nat, S: set<Thing>)
    requires x in S && Forest(S) && index < |before|
    requires x.itemlist == before[index := item] && x.totalWeight == Sum(before)
    requires forall t {:trigger t.Balanced()} | t in S && t != x :: t.Balanced()
    ensures AllBut(x, item.GetWeight() - before[index].GetWeight(), S)
  {
    var rest := before[..index] + before[index + 1..];
    SumInsert(rest, index, before[index]);
    SumInsert(rest, index, item);
    assert before == rest[..index] + [before[index]] + rest[index..];
    assert x.itemlist == rest[..index] + [item] + rest[index..];
    forall t | t in S ensures t.LinksIn(S) { assert t.Placed(S); }
  }

  lemma BalancedTotals(S: set<Thing>, w: map<Thing, real>)
    requires Forest(S) && Weights(S) && w == WeightsOf(S)
    ensures forall t | t in S :: t.LinksIn(S) && t.totalWeight == SumBy(t.itemlist, w)
  {
    SumsRead(S, w);
    forall t | t in S ensures t.totalWeight == SumBy(t.itemlist, w) {
      assert t.Balanced();
    }
  }

  lemma TotalsRead(x: Thing, diff: real, S: set<Thing>, w: map<Thing, real>)
    requires Forest(S) && w == WeightsOf(S) && AllBut(x, diff, S)
    ensures forall t | t in S :: t.LinksIn(S) && t.totalWeight + (if t == x then diff else 0.0) == SumBy(t.itemlist, w)
  {
    SumsRead(S, w);
    forall t | t in S ensures t.totalWeight + (if t == x then diff else 0.0) == SumBy(t.itemlist, w) {
      assert t != x ==> t.Balanced();
      assert t == x ==> t.Balanced() || t.totalWeight + diff == Sum(t.itemlist);
    }
  }

  /** One weight changes by `diff`; the sum over a list changes by as much if it is listed. */
  lemma {:induction false} SumChanged(s: seq<Thing>, x: Thing, diff: real, w: map<Thing, real>, w': map<Thing, real>)
    requires NoDup(s) && forall t | t in s :: t in w && t in w'
    requires forall t | t in s && t != x :: w'[t] == w[t]
    requires x in s ==> w'[x] == w[x] + diff
    ensures SumBy(s, w') == SumBy(s, w) + if x in s then diff else 0.0
  {
    if s != [] {
      assert s == [s[0]] + s[1..];
      SumChanged(s[1..], x, diff, w, w');
      if s[0] == x {
        assert x !in s[1..];
      }
    }
  }

  // ---------------------------------------------------------------- what the cached weight means

  /** The weight of the listed items of `p` with everything nested inside them, computed afresh. */
  ghost function NestedWeight(s: seq<Thing>, p: Thing, S: set<Thing>): real
    requires Forest(S) && p in S && forall i | i in s :: i in p.itemlist
    reads S
    decreases S - p.above, |s|
  {
    if s == [] then 0.0
    else
      ChildBelow(p, s[0], S);
      AboveParent(s[0], S);
      assert p in S - p.above by { AboveParent(p, S); }
      s[0].unit * (if s[0].stackable && s[0].count > 1 then s[0].count else 1) as real +
      NestedWeight(s[0].itemlist, s[0], S) + NestedWeight(s[1..], p, S)
  }

  /** The incrementally kept weight of a container is the true weight of all its contents. */
  lemma TotalWeightIsNestedWeight(c: Thing, S: set<Thing>)
    requires Forest(S) && Weights(S) && c in S
    ensures c.totalWeight == NestedWeight(c.itemlist, c, S)
  {
    assert c.Balanced();
    SumIsNested(c.itemlist, c, S);
  }

  lemma {:induction false} SumIsNested(s: seq<Thing>, p: Thing, S: set<Thing>)
    requires Forest(S) && Weights(S) && p in S && forall i | i in s :: i in p.itemlist
    ensures Sum(s) == NestedWeight(s, p, S)
    decreases S - p.above, |s|
  {
    if s != [] {
      var i := s[0];
      ChildBelow(p, i, S);
      AboveParent(i, S);
      AboveParent(p, S);
      assert p in S - p.above;
      assert i.Balanced() && i.Placed(S);
      SumIsNested(i.itemlist, i, S);
      SumIsNested(s[1..], p, S);
    }
  }
}
