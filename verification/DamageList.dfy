/** Splitting a damage amount into decreasing rounds: ConditionDamage::generateDamageList and init of
    src/condition.cpp. The source compares two relative errors as floats; here they are exact
    quotients, and a zero target, where both floats are infinite, ends the inner loop. */
module DamageList {
  import opened Conditions

  function Abs(x: int): nat {
    if x < 0 then -x else x
  }

  function AbsReal(x: real): real {
    if x < 0.0 then -x else x
  }

  /** 1 + 2 + ... + n */
  function Triangle(n: nat): nat {
    if n == 0 then 0 else n + Triangle(n - 1)
  }

  lemma {:induction false} TriangleClosed(n: nat)
    ensures 2 * Triangle(n) == n * (n + 1)
  {
    if n > 0 { TriangleClosed(n - 1); }
  }

  function Sum(s: seq<int>): int {
    if s == [] then 0 else s[0] + Sum(s[1..])
  }

  lemma {:induction false} SumAppend(a: seq<int>, b: seq<int>)
    ensures Sum(a + b) == Sum(a) + Sum(b)
  {
    if a == [] {
      assert a + b == b;
    } else {
      SumAppend(a[1..], b);
      assert (a + b)[1..] == a[1..] + b;
    }
  }

  // ---------------------------------------------------------------- when another round is added

  /** The loop condition of the source: one more round of `i` comes closer to `med`. */
  predicate Closer(sum: int, i: int, med: int) {
    med != 0 &&
    AbsReal(1.0 - (sum + i) as real / med as real) < AbsReal(1.0 - sum as real / med as real)
  }

  function Times(x: real, m: real): real {
    x * m
  }

  lemma RelativeError(x: int, med: int)
    requires med > 0
    ensures Times(AbsReal(1.0 - x as real / med as real), med as real) == Abs(med - x) as real
  {
    var m, q := med as real, x as real / med as real;
    assert q * m == x as real;
    assert (1.0 - q) * m == (med - x) as real;
    if 1.0 - q < 0.0 { assert -(1.0 - q) * m == (x - med) as real; }
  }

  lemma SmallerProduct(x: real, y: real, m: real)
    requires m > 0.0
    ensures x < y <==> Times(x, m) < Times(y, m)
  {
  }

  lemma CloserToZero(far: int, i: int)
    requires i > 0
    ensures Abs(far - i) < Abs(far) <==> i < 2 * far
  {
  }

  lemma CompareAsReals(x: int, y: int)
    ensures x as real < y as real <==> x < y
  {
  }

  lemma ErrorsCompare(x: int, y: int, med: int)
    requires med > 0
    ensures AbsReal(1.0 - x as real / med as real) < AbsReal(1.0 - y as real / med as real) <==>
      Abs(med - x) < Abs(med - y)
  {
    var p, q, m := AbsReal(1.0 - x as real / med as real), AbsReal(1.0 - y as real / med as real), med as real;
    RelativeError(x, med);
    RelativeError(y, med);
    SmallerProduct(p, q, m);
    CompareAsReals(Abs(med - x), Abs(med - y));
  }

  /** In integers: another round is added while half a round more stays below the target. */
  lemma CloserExact(sum: int, i: int, med: int)
    requires i > 0 && med >= 0 && sum >= 0
    ensures Closer(sum, i, med) <==> 2 * sum + i < 2 * med
  {
    if med > 0 {
      ErrorsCompare(sum + i, sum, med);
      CloserToZero(med - sum, i);
    }
  }

  // ---------------------------------------------------------------- targets

  /** What the rounds should add up to once the values down to `i` are used up. */
  function Target(amount: nat, start: nat, i: nat): int
    requires 0 < start
  {
    (start + 1 - i) * amount / start
  }

  lemma DivideBounds(x: int, n: int)
    requires n > 0 && x >= 0
    ensures 0 <= x / n && n * (x / n) <= x < n * (x / n) + n
  {
  }

  lemma TargetBound(amount: nat, start: nat, i: nat)
    requires 1 <= i <= start
    ensures 0 <= Target(amount, start, i) && start * Target(amount, start, i) <= (start + 1 - i) * amount
    ensures (start + 1 - i) * amount < start * Target(amount, start, i) + start
  {
    DivideBounds((start + 1 - i) * amount, start);
  }

  lemma CancelFactor(n: int, x: int, y: int)
    requires n > 0 && n * x <= n * y
    ensures x <= y
  {
  }

  lemma Multiply(k: int, x: int, y: int)
    requires k >= 0 && x <= y
    ensures k * x <= k * y
  {
  }

  /** Targets of a large amount leave room for one round of each smaller value. */
  lemma TargetLeavesRoom(amount: nat, start: nat, i: nat)
    requires 1 <= i <= start && Triangle(start) <= amount
    ensures 2 * Target(amount, start, i) + i - 1 <= 2 * amount - 2 * Triangle(i - 1)
  {
    TargetBound(amount, start, i);
    TriangleClosed(start);
    TriangleClosed(i - 1);
    RoomArithmetic(Target(amount, start, i), start, i - 1, amount);
  }

  lemma Distribute(n: int, x: int, y: int)
    ensures n * (x + y) == n * x + n * y && n * (x - y) == n * x - n * y
  {
  }

  lemma Swap(x: int, y: int, z: int)
    ensures x * (y * z) == y * (x * z)
  {
    assert x * (y * z) == (x * y) * z == (y * x) * z == y * (x * z);
  }

  lemma RoomArithmetic(t: int, n: int, j: int, a: int)
    requires 0 <= j < n && n * t <= (n - j) * a && n * (n + 1) <= 2 * a
    ensures 2 * t + j <= 2 * a - j * (j + 1)
  {
    var y := 2 * a - j * (n + 1);
    assert n * (2 * t) <= n * y by { RoomProduct(t, n, j, a); }
    CancelFactor(n, 2 * t, y);
    assert j * (n + 1) >= j * (j + 1) + j by {
      Multiply(j, j + 2, n + 1);
      Distribute(j, j + 1, 1);
    }
  }

  lemma RoomProduct(t: int, n: int, j: int, a: int)
    requires 0 <= j < n && n * t <= (n - j) * a && n * (n + 1) <= 2 * a
    ensures n * (2 * t) <= n * (2 * a - j * (n + 1))
  {
    Multiply(j, n * (n + 1), 2 * a);
    Swap(j, n, n + 1);
    Distribute(n, 2 * a, j * (n + 1));
    Distribute(a, n, j);
    Distribute(n, t, t);
    Distribute(n, a, a);
    Distribute(j, a, a);
  }

  /** Targets of a small amount are met by a single round of each value. */
  lemma TargetMetAtOnce(amount: nat, start: nat, i: nat)
    requires 1 <= i <= start && amount < Triangle(start)
    ensures 2 * (Triangle(start) - Triangle(i - 1)) + i >= 2 * Target(amount, start, i)
  {
    TargetBound(amount, start, i);
    TriangleClosed(start);
    TriangleClosed(i - 1);
    MetArithmetic(Target(amount, start, i), start, i, amount);
  }

  lemma MetArithmetic(t: int, n: int, i: int, a: int)
    requires 1 <= i <= n && n * t <= (n + 1 - i) * a && 2 * a <= n * (n + 1)
    ensures 2 * t <= n * (n + 1) - (i - 1) * i
  {
    var k := n + 1 - i;
    MetProduct(t, n, k, a);
    CancelFactor(n, 2 * t, k * (n + 1));
    MetRemainder(n, i - 1);
  }

  lemma MetProduct(t: int, n: int, k: int, a: int)
    requires k >= 0 && n * t <= k * a && 2 * a <= n * (n + 1)
    ensures n * (2 * t) <= n * (k * (n + 1))
  {
    Multiply(k, 2 * a, n * (n + 1));
    Swap(k, n, n + 1);
    Distribute(k, a, a);
    Distribute(n, t, t);
  }

  lemma MetRemainder(n: int, j: int)
    requires 0 <= j < n
    ensures (n - j) * (n + 1) <= n * (n + 1) - j * (j + 1)
  {
    Multiply(j, j + 1, n + 1);
    Distribute(n + 1, n, j);
  }

  lemma DivideExactly(n: int, x: int)
    requires n > 0
    ensures n * x / n == x
  {
    var q, r := n * x / n, n * x % n;
    assert n * q + r == n * x;
    Distribute(n, x, q);
    if x > q { Multiply(n, 1, x - q); }
    if x < q { Multiply(n, x - q, -1); }
  }

  // ---------------------------------------------------------------- the list

  ghost predicate NonIncreasing(s: seq<int>) {
    forall j, k | 0 <= j < k < |s| :: s[j] >= s[k]
  }

  /** The inner loop: rounds of `i` until another one would not come closer to `med`. */
  method AddRounds(list: seq<int>, i: int, med: int) returns (longer: seq<int>, sum: int)
    requires i > 0 && med >= 0 && Sum(list) >= 0
    ensures list < longer && forall k | |list| <= k < |longer| :: longer[k] == i
    ensures sum == Sum(longer) && sum >= Sum(list) + i
    ensures 2 * sum + i >= 2 * med
    ensures sum == Sum(list) + i || 2 * sum - i < 2 * med
    ensures 2 * Sum(list) + 3 * i >= 2 * med ==> sum == Sum(list) + i
  {
    longer, sum := list, Sum(list);
    while true
      invariant list <= longer && forall k | |list| <= k < |longer| :: longer[k] == i
      invariant sum == Sum(longer)
      invariant longer == list || (sum >= Sum(list) + i && 2 * sum + i < 2 * med)
      decreases if longer == list then 1 else 0, 2 * med - 2 * sum
    {
      SumAppend(longer, [i]);
      sum := sum + i;
      longer := longer + [i];
      CloserExact(sum, i, med);
      if !Closer(sum, i, med) {
        break;
      }
    }
  }

  /** What the values from `v` on make together. */
  function SumFrom(s: seq<int>, v: int): int {
    if s == [] then 0 else (if s[0] >= v then s[0] else 0) + SumFrom(s[1..], v)
  }

  lemma {:induction false} SumFromAppend(a: seq<int>, b: seq<int>, v: int)
    ensures SumFrom(a + b, v) == SumFrom(a, v) + SumFrom(b, v)
  {
    if a == [] {
      assert a + b == b;
    } else {
      SumFromAppend(a[1..], b, v);
      assert (a + b)[1..] == a[1..] + b;
    }
  }

  lemma {:induction false} SumFromAll(s: seq<int>, v: int)
    ensures (forall k | 0 <= k < |s| :: s[k] >= v) ==> SumFrom(s, v) == Sum(s)
    ensures (forall k | 0 <= k < |s| :: s[k] < v) ==> SumFrom(s, v) == 0
  {
    if s != [] {
      SumFromAll(s[1..], v);
      assert forall k | 0 <= k < |s[1..]| :: s[1..][k] == s[k + 1];
    }
  }

  /** The values from `v` on come as near as they can to their share of the amount: one round of `v` less
      would be less near, unless it is the only one, and one more would not be nearer. */
  ghost predicate Near(list: seq<int>, share: int, v: int) {
    var sum := SumFrom(list, v);
    2 * sum + v >= 2 * share && (sum == SumFrom(list, v + 1) + v || 2 * sum - v < 2 * share)
  }

  ghost predicate AllNear(list: seq<int>, size: nat, start: nat, i: nat)
    requires start > 0
  {
    forall v: nat | i < v <= start :: Near(list, Target(size, start, v), v)
  }

  lemma RoundsAdded(before: seq<int>, after: seq<int>, i: int)
    requires before < after && forall k | |before| <= k < |after| :: after[k] == i
    requires forall v | v in before :: i < v
    ensures SumFrom(after, i) == Sum(after) && SumFrom(after, i + 1) == Sum(before)
    ensures forall v | v > i :: SumFrom(after, v) == SumFrom(before, v)
  {
    var rounds := after[|before|..];
    assert after == before + rounds && forall k | 0 <= k < |before| :: before[k] in before;
    forall v | v > i ensures SumFrom(after, v) == SumFrom(before, v) {
      SumFromAppend(before, rounds, v);
      SumFromAll(rounds, v);
    }
    SumFromAll(after, i);
    SumFromAll(before, i + 1);
  }

  lemma RoundsNear(before: seq<int>, after: seq<int>, size: nat, start: nat, i: nat, med: int)
    requires 1 <= i <= start && AllNear(before, size, start, i) && med == Target(size, start, i)
    requires before < after && forall k | |before| <= k < |after| :: after[k] == i
    requires forall v | v in before :: i < v
    requires 2 * Sum(after) + i >= 2 * med && (Sum(after) == Sum(before) + i || 2 * Sum(after) - i < 2 * med)
    ensures AllNear(after, size, start, i - 1)
  {
    RoundsAdded(before, after, i);
    assert Near(after, med, i);
    forall v: nat | i < v <= start ensures Near(after, Target(size, start, v), v) {
      StillNear(before, after, Target(size, start, v), v, i);
    }
  }

  lemma StillNear(before: seq<int>, after: seq<int>, share: int, v: int, i: int)
    requires v > i && Near(before, share, v) && forall w | w > i :: SumFrom(after, w) == SumFrom(before, w)
    ensures Near(after, share, v)
  {
  }

  /** The rounds add up to the amount exactly when the amount is at least 1 + 2 + ... + start, and to
      that triangle number otherwise; the values never increase and none is left out. */
  method GenerateDamageList(amount: int, start: int) returns (list: seq<int>)
    ensures start <= 0 ==> list == []
    ensures start > 0 ==> Sum(list) == if Abs(amount) >= Triangle(start) then Abs(amount) else Triangle(start)
    ensures NonIncreasing(list)
    ensures forall v :: v in list <==> 1 <= v <= start
    ensures start > 0 ==> AllNear(list, Abs(amount), start, 0)
  {
    var size := Abs(amount);
    list := [];
    if start <= 0 {  // the loop of the source does nothing then
      return;
    }
    var i, sum := start, 0;
    while i > 0
      invariant 0 <= i <= start
      invariant sum == Sum(list) && sum >= 0
      invariant NonIncreasing(list)
      invariant forall v :: v in list <==> i < v <= start
      invariant AllNear(list, size, start, i)
      invariant size >= Triangle(start) ==> sum <= size - Triangle(i)
      invariant size < Triangle(start) ==> sum == Triangle(start) - Triangle(i)
      invariant i == 0 ==> 2 * sum + 1 >= 2 * size
    {
      var med := (start + 1 - i) * size / start;
      TargetBound(size, start, i);
      if size >= Triangle(start) { TargetLeavesRoom(size, start, i); } else { TargetMetAtOnce(size, start, i); }
      if i == 1 { LastTarget(size, start); }
      ghost var before := list;
      list, sum := AddRounds(list, i, med);
      Extended(before, list, i, start);
      RoundsNear(before, list, size, start, i, med);
      i := i - 1;
    }
  }

  lemma LastTarget(amount: nat, start: nat)
    requires start > 0
    ensures Target(amount, start, 1) == amount
  {
    DivideExactly(start, amount);
  }

  lemma Extended(before: seq<int>, after: seq<int>, i: int, start: int)
    requires before < after && forall k | |before| <= k < |after| :: after[k] == i
    requires NonIncreasing(before) && i <= start && forall v :: v in before <==> i < v <= start
    ensures NonIncreasing(after) && forall v :: v in after <==> i <= v <= start
  {
    assert forall k | 0 <= k < |before| :: after[k] == before[k] && before[k] in before;
    assert after[|before|] == i;
    forall v | i < v <= start ensures v in after {
      assert v in before;
      var k :| 0 <= k < |before| && before[k] == v;
      assert after[k] == v;
    }
  }

  // ---------------------------------------------------------------- starting a condition

  function TotalDamage(l: seq<IntervalInfo<int>>): int {
    if l == [] then 0 else l[0].value + TotalDamage(l[1..])
  }

  function TotalTime(l: seq<IntervalInfo<int>>): int {
    if l == [] then 0 else l[0].interval + TotalTime(l[1..])
  }

  lemma {:induction false} TotalsAppend(a: seq<IntervalInfo<int>>, b: seq<IntervalInfo<int>>)
    ensures TotalDamage(a + b) == TotalDamage(a) + TotalDamage(b)
    ensures TotalTime(a + b) == TotalTime(a) + TotalTime(b)
  {
    if a == [] {
      assert a + b == b;
    } else {
      TotalsAppend(a[1..], b);
      assert (a + b)[1..] == a[1..] + b;
    }
  }

  /** The starting value chosen when none is set: a twentieth of the amount, rounded up. */
  function DefaultStart(amount: nat): nat {
    if (amount + 19) / 20 > 1 then (amount + 19) / 20 else 1
  }

  /** With the default starting value a condition deals exactly the amount up to 760 points (and, by
      luck, at 780); beyond that the triangle number takes over and it deals more. */
  lemma DefaultStartExact(amount: nat)
    requires amount > 0
    ensures Triangle(DefaultStart(amount)) <= amount <==> amount <= 760 || amount == 780
  {
    var s := DefaultStart(amount);
    TriangleClosed(s);
    assert s == 1 || 20 * (s - 1) < amount <= 20 * s;
    SmallTriangles(s);
  }

  lemma SmallTriangles(s: nat)
    requires s >= 1
    ensures s <= 38 ==> s * (s + 1) <= 40 * (s - 1) + 2
    ensures s == 39 ==> s * (s + 1) == 1560
    ensures s >= 40 ==> s * (s + 1) > 40 * s
  {
    if s <= 38 {
      assert (s - 1) * (38 - s) >= 0;
      assert (s - 1) * (38 - s) == 39 * s - s * s - 38;
    } else if s >= 40 {
      Multiply(s, 41, s + 1);
    }
  }

  class ConditionDamage {
    var minDamage: nat
    var maxDamage: nat
    var startDamage: nat
    var tickInterval: nat
    var periodDamage: int
    var ticks: int
    var damageList: seq<IntervalInfo<int>>

    constructor (minDamage: nat, maxDamage: nat, startDamage: nat, tickInterval: nat)
    {
      this.minDamage, this.maxDamage, this.startDamage, this.tickInterval :=
        minDamage, maxDamage, startDamage, tickInterval;
      periodDamage, ticks, damageList := 0, 0, [];
    }

    /** One round of addDamage, the way init calls it. */
    method AddRound(time: nat, value: int)
      requires periodDamage <= 0 && ticks >= 0
      modifies this`damageList, this`ticks
      ensures damageList == old(damageList) + [IntervalInfo(time, value, time)]
      ensures ticks == old(ticks) + time
    {
      damageList := damageList + [IntervalInfo(time, value, time)];
      ticks := ticks + time;
    }

    /** The starting value init settles on. */
    function SettledStart(amount: nat): nat
      reads this
    {
      if startDamage > maxDamage then maxDamage else if startDamage != 0 then startDamage else DefaultStart(amount)
    }

    /** init, given the amount drawn between minDamage and maxDamage, which may come in any order. A
        list built here deals the amount, or more if the starting value asks for it, and lasts as
        long as its rounds. */
    method Init(amount: nat) returns (ok: bool, ghost rounds: seq<int>)
      requires minDamage <= amount <= maxDamage || maxDamage <= amount <= minDamage
      modifies this`startDamage, this`ticks, this`damageList
      ensures old(periodDamage) != 0 || old(damageList) != [] ==> ok && unchanged(this)
      ensures old(periodDamage) == 0 && old(damageList) == [] ==>
        && ok == (amount != 0 && startDamage != 0)
        && (amount != 0 ==> startDamage == old(SettledStart(amount)))
        && TotalTime(damageList) == ticks
        && TotalDamage(damageList) ==
          if ok then -(if amount >= Triangle(startDamage) then amount else Triangle(startDamage)) else 0
      ensures old(periodDamage) == 0 && old(damageList) == [] ==>
        && |rounds| == |damageList| && NonIncreasing(rounds)
        && (ok ==> AllNear(rounds, amount, startDamage, 0))
        && forall k | 0 <= k < |rounds| :: damageList[k] == IntervalInfo(tickInterval, -rounds[k], tickInterval)
      ensures old(periodDamage) == 0 && old(damageList) == [] && amount != 0 ==>
        if old(startDamage) > maxDamage then startDamage == maxDamage
        else if old(startDamage) != 0 then startDamage == old(startDamage)
        else startDamage > 0 && 20 * startDamage >= amount && (startDamage == 1 || 20 * (startDamage - 1) < amount)
    {
      rounds := [];
      if periodDamage != 0 {
        ok := true;
        return;
      }
      if damageList != [] {
        ok := true;
        return;
      }
      ticks := 0;
      if amount == 0 {
        ok := false;
        return;
      }
      if startDamage > maxDamage {
        startDamage := maxDamage;
      } else if startDamage == 0 {
        startDamage := DefaultStart(amount);
      }
      var list := GenerateDamageList(amount, startDamage);
      for k := 0 to |list|
        invariant startDamage == old(SettledStart(amount))
        invariant 0 <= ticks == TotalTime(damageList) && TotalDamage(damageList) == -Sum(list[..k]) && |damageList| == k
        invariant forall j | 0 <= j < k :: damageList[j] == IntervalInfo(tickInterval, -list[j], tickInterval)
      {
        AddOne(damageList, IntervalInfo(tickInterval, -list[k], tickInterval));
        assert list[..k + 1] == list[..k] + [list[k]];
        SumAppend(list[..k], [list[k]]);
        AddRound(tickInterval, -list[k]);
      }
      assert list[..|list|] == list;
      rounds := list;
      ok := damageList != [];
      assert startDamage > 0 ==> 1 in list;
    }
  }

  lemma AddOne(l: seq<IntervalInfo<int>>, x: IntervalInfo<int>)
    ensures TotalDamage(l + [x]) == TotalDamage(l) + x.value && TotalTime(l + [x]) == TotalTime(l) + x.interval
  {
    TotalsAppend(l, [x]);
  }
}
