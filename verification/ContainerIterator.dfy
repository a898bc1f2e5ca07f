/** The breadth-first iterator of src/container.cpp, and what is computed with it. */
module ContainerIterator {
  import opened Common
  import opened Container

  /** The items directly inside each thing of `s`, in order. */
  ghost function ItemsOf(s: seq<Thing>): seq<Thing>
    reads s`itemlist
  {
    if s == [] then [] else s[0].itemlist + ItemsOf(s[1..])
  }

  /** The things of `s` that the iterator opens. */
  ghost function Openable(s: seq<Thing>): seq<Thing>
    reads s`itemlist
  {
    if s == [] then [] else Opens(s[0]) + Openable(s[1..])
  }

  ghost function Opens(t: Thing): seq<Thing>
    reads t`itemlist
  {
    if t.container && t.itemlist != [] then [t] else []
  }

  lemma {:induction false} ItemsOfAppend(a: seq<Thing>, b: seq<Thing>)
    ensures ItemsOf(a + b) == ItemsOf(a) + ItemsOf(b)
  {
    if a == [] {
      assert a + b == b;
    } else {
      ItemsOfAppend(a[1..], b);
      assert (a + b)[1..] == a[1..] + b;
    }
  }

  lemma {:induction false} OpenableAppend(a: seq<Thing>, b: seq<Thing>)
    ensures Openable(a + b) == Openable(a) + Openable(b)
  {
    if a == [] {
      assert a + b == b;
    } else {
      OpenableAppend(a[1..], b);
      assert (a + b)[1..] == a[1..] + b;
    }
  }

  /** The iterator's fields, with two ghosts: the items passed, the containers gone through. */
  datatype State = State(over: seq<Thing>, current: nat, seen: seq<Thing>, finished: seq<Thing>)

  /** The items passed of the container at the front. */
  ghost function Started(s: State): seq<Thing>
    reads s.over`itemlist
  {
    if s.over == [] || s.current > |s.over[0].itemlist| then [] else s.over[0].itemlist[..s.current]
  }

  /** Every item passed was opened if it can be, and came from an opened container. */
  ghost predicate Exact(base: Thing, s: State)
    reads base`itemlist, s.seen`itemlist, s.finished`itemlist, s.over`itemlist
  {
    && (s.over != [] ==> s.current <= |s.over[0].itemlist|)
    && s.finished + s.over == Opens(base) + Openable(s.seen)
    && s.seen == ItemsOf(s.finished) + Started(s)
  }

  /** Nothing is visited twice and nothing outside the base is visited. */
  ghost predicate Within(base: Thing, s: State, S: set<Thing>)
    reads S`above, S`parent, s.over`itemlist, s.finished`itemlist
  {
    && base in S && base.container
    && NoDup(s.finished + s.over) && NoDup(s.seen)
    && (forall c | c in s.finished + s.over :: c in S && c.container && c.itemlist != [] && (c == base || c in s.seen))
    && (forall x | x in s.seen :: x in S && base in x.above)
    && (forall x | x in s.seen :: x.parent in s.finished || x in Started(s))
  }

  ghost predicate Iterating(base: Thing, s: State, S: set<Thing>)
    reads base`itemlist, s.seen`itemlist, s.finished`itemlist, s.over`itemlist, S`above, S`parent, S`itemlist
  {
    Forest(S) && Exact(base, s) && Within(base, s, S) && (s.over != [] ==> s.current < |s.over[0].itemlist|)
  }

  /** The item the iterator points at is inside the base and was not visited before. */
  lemma ItemIsNew(base: Thing, s: State, S: set<Thing>)
    requires Iterating(base, s, S) && s.over != []
    ensures var x := s.over[0].itemlist[s.current];
      x in S && base in x.above && x != base && x !in s.seen && x !in s.finished + s.over && x.parent == s.over[0]
  {
    var c := s.over[0];
    var x := c.itemlist[s.current];
    assert c in s.finished + s.over;
    ChildBelow(c, x, S);
    assert x.Placed(S) && c.Placed(S);
    forall j | 0 <= j < |s.finished| ensures s.finished[j] != c {
      assert (s.finished + s.over)[j] != (s.finished + s.over)[|s.finished|];
    }
    assert x !in Started(s);
  }

  /** The state after passing item `x`. */
  ghost function Passed(s: State, x: Thing): State
    reads x`itemlist
  {
    State(s.over + Opens(x), s.current + 1, s.seen + [x], s.finished)
  }

  lemma PassedExact(base: Thing, s: State)
    requires Exact(base, s) && s.over != [] && s.current < |s.over[0].itemlist|
    ensures Exact(base, Passed(s, s.over[0].itemlist[s.current]))
  {
    var x := s.over[0].itemlist[s.current];
    var t := Passed(s, x);
    OpenableAppend(s.seen, [x]);
    assert Openable([x]) == Opens(x);
    assert Started(t) == Started(s) + [x];
    assert t.finished + t.over == (s.finished + s.over) + Opens(x);
    assert Opens(base) + Openable(t.seen) == (Opens(base) + Openable(s.seen)) + Opens(x);
    assert ItemsOf(t.finished) + Started(t) == (ItemsOf(s.finished) + Started(s)) + [x];
  }

  lemma NoDupOneMore(s: seq<Thing>, x: Thing, more: seq<Thing>)
    requires NoDup(s) && x !in s && (more == [] || more == [x])
    ensures NoDup(s + more)
  {
  }

  lemma PassedOver(base: Thing, s: State, x: Thing, S: set<Thing>)
    requires Within(base, s, S) && x in S && x !in s.finished + s.over
    ensures var t := Passed(s, x);
      NoDup(t.finished + t.over) &&
      forall c | c in t.finished + t.over :: c in S && c.container && c.itemlist != [] && (c == base || c in t.seen)
  {
    var t := Passed(s, x);
    assert t.finished + t.over == (s.finished + s.over) + Opens(x);
    NoDupOneMore(s.finished + s.over, x, Opens(x));
    assert x in t.seen;
  }

  lemma PassedWithin(base: Thing, s: State, S: set<Thing>)
    requires Iterating(base, s, S) && s.over != []
    ensures Within(base, Passed(s, s.over[0].itemlist[s.current]), S)
  {
    var x := s.over[0].itemlist[s.current];
    var t := Passed(s, x);
    ItemIsNew(base, s, S);
    PassedOver(base, s, x, S);
    NoDupOneMore(s.seen, x, [x]);
    assert Started(t) == Started(s) + [x];
    forall y | y in t.seen ensures y in S && base in y.above && (y.parent in t.finished || y in Started(t)) {
      assert y in s.seen || y == x;
    }
  }

  /** The state after leaving the container at the front. */
  ghost function Popped(s: State): State
    requires s.over != []
  {
    State(s.over[1..], 0, s.seen, s.finished + [s.over[0]])
  }

  lemma PoppedExact(base: Thing, s: State)
    requires Exact(base, s) && s.over != [] && s.current == |s.over[0].itemlist|
    ensures Exact(base, Popped(s)) && Started(Popped(s)) == []
  {
    var t, front := Popped(s), s.over[0];
    ItemsOfAppend(s.finished, [front]);
    assert ItemsOf([front]) == front.itemlist == Started(s);
    assert t.finished + t.over == s.finished + s.over;
  }

  lemma PoppedWithin(base: Thing, s: State, S: set<Thing>)
    requires Forest(S) && Within(base, s, S) && s.over != [] && s.current == |s.over[0].itemlist|
    ensures Within(base, Popped(s), S)
  {
    var t, front := Popped(s), s.over[0];
    assert t.finished + t.over == s.finished + s.over;
    assert front in s.finished + s.over;
    assert Started(s) == front.itemlist;
    forall x | x in s.seen ensures x.parent in t.finished {
      if x in Started(s) { ChildBelow(front, x, S); }
      assert t.finished[|s.finished|] == front;
    }
  }

  lemma PoppedIterating(base: Thing, s: State, S: set<Thing>)
    requires Forest(S) && Exact(base, s) && Within(base, s, S) && s.over != [] && s.current == |s.over[0].itemlist|
    ensures Iterating(base, Popped(s), S)
  {
    var t := Popped(s);
    PoppedExact(base, s);
    PoppedWithin(base, s, S);
    assert t.over != [] ==> t.over[0] in t.finished + t.over;
  }

  /** The iterator itself, a value that loops copy and advance. */
  datatype ContainerIterator = ContainerIterator(over: seq<Thing>, current: nat)
  {
    predicate AtEnd() {
      over == []
    }

    ghost predicate OnItem()
      reads over`itemlist
    {
      over != [] && current < |over[0].itemlist|
    }

    /** operator* */
    function Item(): Thing
      requires OnItem()
      reads over`itemlist
    {
      over[0].itemlist[current]
    }

    /** operator++ */
    function Next(): ContainerIterator
      requires OnItem()
      reads over`itemlist, (if OnItem() then {Item()} else {})`itemlist
    {
      var pushed := if Item().container && Item().itemlist != [] then over + [Item()] else over;
      if current + 1 == |over[0].itemlist| then ContainerIterator(pushed[1..], 0)
      else ContainerIterator(pushed, current + 1)
    }
  }

  /** Container::begin */
  function Begin(c: Thing): ContainerIterator
    reads c`itemlist
  {
    ContainerIterator(if c.itemlist != [] then [c] else [], 0)
  }

  // ---------------------------------------------------------------- traversal

  /** Everything strictly inside `c`. */
  ghost function Inside(c: Thing, S: set<Thing>): set<Thing>
    reads S`above
  {
    set t | t in S && c in t.above
  }

  ghost function Range(s: seq<Thing>): set<Thing> {
    set x | x in s
  }

  lemma {:induction false} DistinctSize(s: seq<Thing>)
    requires NoDup(s)
    ensures |Range(s)| == |s|
  {
    if s != [] {
      var rest := s[..|s| - 1];
      DistinctSize(rest);
      assert s == rest + [s[|s| - 1]];
      assert Range(s) == Range(rest) + {s[|s| - 1]};
      assert s[|s| - 1] !in rest;
    }
  }

  lemma SubsetSize(a: set<Thing>, b: set<Thing>)
    requires a <= b
    ensures |a| <= |b|
  {
    assert b == a + (b - a);
  }

  /** The traversal cannot go on for ever: what it has passed is distinct and inside the base. */
  lemma SeenBounded(base: Thing, s: State, S: set<Thing>)
    requires Within(base, s, S)
    ensures |s.seen| <= |S|
  {
    DistinctSize(s.seen);
    SubsetSize(Range(s.seen), S);
  }

  /** operator++ keeps the state consistent and passes an item that is new. */
  lemma Advance(base: Thing, s: State, it: ContainerIterator, S: set<Thing>) returns (t: State)
    requires Iterating(base, s, S) && it == ContainerIterator(s.over, s.current) && !it.AtEnd()
    ensures it.OnItem() && it.Next() == ContainerIterator(t.over, t.current)
    ensures Iterating(base, t, S)
    ensures t.seen == s.seen + [it.Item()] && it.Item() in S && it.Item() !in s.seen
    ensures |t.seen| <= |S|
  {
    ItemIsNew(base, s, S);
    PassedExact(base, s);
    PassedWithin(base, s, S);
    t := Passed(s, s.over[0].itemlist[s.current]);
    if t.current == |t.over[0].itemlist| {
      PoppedIterating(base, t, S);
      t := Popped(t);
    }
    NextPassed(s, it);
    SeenBounded(base, t, S);
  }

  lemma NextPassed(s: State, it: ContainerIterator)
    requires it == ContainerIterator(s.over, s.current) && it.OnItem()
    ensures var t := Passed(s, it.Item());
      it.Next() == if t.current == |t.over[0].itemlist| then ContainerIterator(t.over[1..], 0)
        else ContainerIterator(t.over, t.current)
  {
    var x := it.Item();
    assert s.over + Opens(x) == if x.container && x.itemlist != [] then s.over + [x] else s.over;
  }

  /** When the traversal ends, it has passed everything inside. */
  lemma {:induction false} AllSeen(base: Thing, s: State, x: Thing, S: set<Thing>)
    requires Iterating(base, s, S) && s.over == [] && x in S && base in x.above
    ensures x in s.seen
    decreases x.above
  {
    assert x.Placed(S);
    var p := x.parent;
    if p != base {
      assert p.Placed(S);
      AllSeen(base, s, p, S);
    }
    assert p.container by { if !p.container { OuterChain(p, S); } }
    if p != base { OpenableHas(s.seen, p); }
    assert s.finished == s.finished + s.over;
    ItemsOfHas(s.finished, p, x);
  }

  lemma {:induction false} OpenableHas(s: seq<Thing>, p: Thing)
    requires p in s && p.container && p.itemlist != []
    ensures p in Openable(s)
  {
    if s[0] != p {
      assert p in s[1..];
      OpenableHas(s[1..], p);
    }
  }

  lemma {:induction false} ItemsOfHas(s: seq<Thing>, p: Thing, x: Thing)
    requires p in s && x in p.itemlist
    ensures x in ItemsOf(s)
  {
    if s[0] != p {
      assert p in s[1..];
      ItemsOfHas(s[1..], p, x);
    }
  }

  /** Level order, stated once and for all: first the items of the base, then the items of the
      items, in the order in which those were visited. */
  ghost predicate LevelOrder(base: Thing, visited: seq<Thing>)
    reads base`itemlist, visited`itemlist
  {
    visited == base.itemlist + ItemsOf(visited)
  }

  lemma {:induction false} ItemsOfOpenable(s: seq<Thing>, S: set<Thing>)
    requires Forest(S) && forall t | t in s :: t in S
    ensures ItemsOf(Openable(s)) == ItemsOf(s)
  {
    if s != [] {
      ItemsOfOpenable(s[1..], S);
      ItemsOfAppend(Opens(s[0]), Openable(s[1..]));
      assert s[0].Placed(S);
      assert ItemsOf([s[0]]) == s[0].itemlist;
    }
  }

  lemma EndsInLevelOrder(base: Thing, s: State, S: set<Thing>)
    requires Iterating(base, s, S) && s.over == []
    ensures LevelOrder(base, s.seen) && NoDup(s.seen) && Range(s.seen) == Inside(base, S)
  {
    ItemsOfAppend(Opens(base), Openable(s.seen));
    ItemsOfOpenable(s.seen, S);
    assert s.finished == s.finished + s.over;
    assert ItemsOf([base]) == base.itemlist;
    forall x | x in Inside(base, S) ensures x in s.seen { AllSeen(base, s, x, S); }
  }

  /** The things `n` levels below the items of `c`. */
  ghost function Level(c: Thing, n: nat): seq<Thing>
    reads *
  {
    if n == 0 then c.itemlist else ItemsOf(Level(c, n - 1))
  }

  ghost function LevelsUpTo(c: Thing, n: nat): seq<Thing>
    reads *
  {
    if n == 0 then Level(c, 0) else LevelsUpTo(c, n - 1) + Level(c, n)
  }

  lemma {:induction false} LevelsShift(c: Thing, n: nat)
    ensures LevelsUpTo(c, n + 1) == c.itemlist + ItemsOf(LevelsUpTo(c, n))
  {
    if n == 0 {
      assert LevelsUpTo(c, 1) == Level(c, 0) + Level(c, 1);
    } else {
      LevelsShift(c, n - 1);
      ItemsOfAppend(LevelsUpTo(c, n - 1), Level(c, n));
      AssociateThree(c.itemlist, ItemsOf(LevelsUpTo(c, n - 1)), Level(c, n + 1));
      assert LevelsUpTo(c, n + 1) == LevelsUpTo(c, n) + Level(c, n + 1);
    }
  }

  lemma ItemsOfPrefix(a: seq<Thing>, b: seq<Thing>)
    requires a <= b
    ensures ItemsOf(a) <= ItemsOf(b)
  {
    assert b == a + b[|a|..];
    ItemsOfAppend(a, b[|a|..]);
  }

  /** In level order, all levels up to any depth come first, level after level. */
  lemma {:induction false} LevelsComeFirst(c: Thing, visited: seq<Thing>, n: nat)
    requires LevelOrder(c, visited)
    ensures LevelsUpTo(c, n) <= visited
  {
    if n != 0 {
      LevelsComeFirst(c, visited, n - 1);
      LevelsShift(c, n - 1);
      ItemsOfPrefix(LevelsUpTo(c, n - 1), visited);
    }
  }

  /** A walk over the iterator from begin to end: everything inside, each thing once, in level order. */
  method Traverse(c: Thing, ghost S: set<Thing>) returns (visited: seq<Thing>)
    requires Forest(S) && c in S && c.container
    ensures LevelOrder(c, visited) && NoDup(visited) && Range(visited) == Inside(c, S)
  {
    var it := Begin(c);
    visited := [];
    ghost var s := State(it.over, it.current, [], []);
    while !it.AtEnd()
      invariant Iterating(c, s, S)
      invariant it == ContainerIterator(s.over, s.current) && visited == s.seen
      decreases |S| - |s.seen|
    {
      s := Advance(c, s, it, S);
      visited := visited + [it.Item()];
      it := it.Next();
    }
    EndsInLevelOrder(c, s, S);
  }

  method GetItemHoldingCount(c: Thing, ghost S: set<Thing>) returns (counter: nat)
    requires Forest(S) && c in S && c.container
    ensures counter == |Inside(c, S)|
  {
    var it := Begin(c);
    counter := 0;
    ghost var s := State(it.over, it.current, [], []);
    while !it.AtEnd()
      invariant Iterating(c, s, S)
      invariant it == ContainerIterator(s.over, s.current) && counter == |s.seen|
      decreases |S| - |s.seen|
    {
      s := Advance(c, s, it, S);
      counter := counter + 1;
      it := it.Next();
    }
    EndsInLevelOrder(c, s, S);
    DistinctSize(s.seen);
  }

  lemma HeldIsInside(c: Thing, s: State, item: Thing, S: set<Thing>)
    requires Within(c, s, S) && item in s.seen
    ensures c in item.above
  {
  }

  method IsHoldingItem(c: Thing, item: Thing, ghost S: set<Thing>) returns (holds: bool)
    requires Forest(S) && c in S && c.container && item in S
    ensures holds == (c in item.above)
  {
    var it := Begin(c);
    ghost var s := State(it.over, it.current, [], []);
    while !it.AtEnd()
      invariant Iterating(c, s, S)
      invariant it == ContainerIterator(s.over, s.current) && item !in s.seen
      decreases |S| - |s.seen|
    {
      s := Advance(c, s, it, S);
      if it.Item() == item {
        HeldIsInside(c, s, item, S);
        return true;
      }
      it := it.Next();
    }
    EndsInLevelOrder(c, s, S);
    assert item !in Range(s.seen);
    holds := false;
  }
}
