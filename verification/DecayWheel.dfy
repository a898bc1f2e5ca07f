/** The decay timing wheel of src/game.cpp (startDecay, checkDecay, cleanup): items wait in one of
    sixteen buckets, one bucket is looked at every second.

    `due` is the ghost tick at which an item should fire; `tick` counts the calls of checkDecay. What
    an item that fires turns into is a parameter, and what it turns into may decay in its turn. */
module DecayWheel {
  import opened Common

  const EVENT_DECAYINTERVAL := 1000
  const EVENT_DECAYBUCKETS := 16
  const WHEEL := EVENT_DECAYINTERVAL * EVENT_DECAYBUCKETS

  /** Ticks until bucket `b` is looked at, when `last` was looked at last. */
  function Distance(last: nat, b: nat): nat
    requires last < EVENT_DECAYBUCKETS && b < EVENT_DECAYBUCKETS
  {
    if b > last then b - last else b + EVENT_DECAYBUCKETS - last
  }

  /** Ticks that an item of this duration still waits after its bucket is looked at next. */
  function Extra(duration: nat): nat {
    if duration <= WHEEL then 0
    else if duration < 2 * WHEEL then ((duration - WHEEL + EVENT_DECAYINTERVAL / 2) / 1000) % EVENT_DECAYBUCKETS
    else EVENT_DECAYBUCKETS + Extra(duration - WHEEL)
  }

  /** The tick, counted from registration, at which an item fires. */
  function FireDelay(duration: nat): nat {
    if duration < WHEEL then 1 + duration / EVENT_DECAYINTERVAL
    else
      var k, r := duration / WHEEL, duration % WHEEL;
      k * EVENT_DECAYBUCKETS + ((r + EVENT_DECAYINTERVAL / 2) / EVENT_DECAYINTERVAL) % EVENT_DECAYBUCKETS
  }

  /** The bucket an item of this duration is first put into. */
  function FirstBucket(last: nat, duration: nat): (b: nat)
    requires last < EVENT_DECAYBUCKETS
    ensures b < EVENT_DECAYBUCKETS
  {
    if duration >= WHEEL then last else (last + 1 + duration / 1000) % EVENT_DECAYBUCKETS
  }

  /** Going round the wheel bucket by bucket amounts to the closed form. */
  lemma FireDelayExact(last: nat, duration: nat)
    requires last < EVENT_DECAYBUCKETS && duration > 0
    ensures Distance(last, FirstBucket(last, duration)) + Extra(duration) == FireDelay(duration)
  {
    if duration >= WHEEL {
      ExtraClosed(duration);
    }
  }

  lemma {:induction false} ExtraClosed(duration: nat)
    requires duration >= WHEEL
    ensures EVENT_DECAYBUCKETS + Extra(duration) == FireDelay(duration)
  {
    if duration >= 2 * WHEEL {
      ExtraClosed(duration - WHEEL);
      OneTurnLess(duration);
    } else {
      FirstTurn(duration - WHEEL);
    }
  }

  lemma FirstTurn(rest: nat)
    requires rest < WHEEL
    ensures FireDelay(WHEEL + rest) ==
      EVENT_DECAYBUCKETS + ((rest + EVENT_DECAYINTERVAL / 2) / 1000) % EVENT_DECAYBUCKETS
  {
  }

  lemma OneTurnLess(duration: nat)
    requires duration >= 2 * WHEEL
    ensures FireDelay(duration) == EVENT_DECAYBUCKETS + FireDelay(duration - WHEEL)
  {
    assert (duration - WHEEL) / WHEEL == duration / WHEEL - 1;
    assert (duration - WHEEL) % WHEEL == duration % WHEEL;
  }

  /** The bucket chosen for less than one turn is as far away as Extra says. */
  lemma ExtraIsDistance(bucket: nat, dur: nat)
    requires bucket < EVENT_DECAYBUCKETS && 0 < dur < WHEEL
    ensures var newBucket := (bucket + ((dur + EVENT_DECAYINTERVAL / 2) / 1000)) % EVENT_DECAYBUCKETS;
      if newBucket == bucket then Extra(dur + WHEEL) == 0
      else newBucket < EVENT_DECAYBUCKETS && Extra(dur + WHEEL) == Distance(bucket, newBucket) > 0
  {
  }

  /** A long duration is met within half a second exactly when what is left after whole turns of the
      wheel is less than 15.5 seconds; otherwise rounding wraps and the item fires a turn too early. */
  lemma LongDurationError(duration: nat)
    requires duration >= WHEEL
    ensures var fired := FireDelay(duration) * EVENT_DECAYINTERVAL;
      -500 <= fired - duration <= 500 <==> duration % WHEEL < WHEEL - 500
  {
  }

  /** A short duration is never undercut, and overrun by at most one second. */
  lemma ShortDurationError(duration: nat)
    requires duration < WHEEL
    ensures 0 < FireDelay(duration) * EVENT_DECAYINTERVAL - duration <= EVENT_DECAYINTERVAL
  {
  }

  /** An item of 31.6 seconds fires after 16 seconds. */
  lemma EarlyFiring()
    ensures FireDelay(31600) == 16
  {
  }

  lemma Tail<T>(list: seq<T>, it: nat, bag: seq<T>, k: nat)
    requires it < |list| && k <= |bag| && list[it..] == bag[k..]
    ensures k < |bag| && list[it] == bag[k] && list[it + 1..] == bag[k + 1..]
    ensures (list[..it] + list[it + 1..])[it..] == bag[k + 1..]
  {
    assert |list[it..]| == |bag[k..]| && list[it..][0] == bag[k..][0];
    assert list[it + 1..] == list[it..][1..] && bag[k + 1..] == bag[k..][1..];
  }

  // where an item is, when not in a bucket
  const WAITING := -1
  const GONE := -2

  /** What decides whether an item can start to decay, and when it then fires. */
  datatype Form = Form(duration: int, decayable: bool, decaying: bool)

  /** What becomes of an item that decays: it is removed, or transformed, in place or into a new one,
      and then has this form. When that has no time left either, `next` becomes of it. */
  datatype Fate = Removed | Becomes(inPlace: bool, form: Form, next: Fate)

  /** The registration of an item, the same or a new one, with its duration. */
  datatype Renewal = Renewal(inPlace: bool, duration: nat)

  /** What startDecay registers for an item of this form. */
  function Started(form: Form, fate: Fate): Option<Renewal>
    decreases fate, 1
  {
    if !form.decayable || form.decaying then None
    else if form.duration > 0 then Some(Renewal(true, form.duration))
    else Renewed(fate)
  }

  /** What internalDecayItem registers. */
  function Renewed(fate: Fate): Option<Renewal>
    decreases fate, 0
  {
    match fate
    case Removed => None
    case Becomes(inPlace, form, next) =>
      match Started(form, next)
      case None => None
      case Some(r) => Some(Renewal(inPlace && r.inPlace, r.duration))
  }

  /** What becomes of what an item becomes, and so on, `k` times. */
  ghost function Later(fate: Fate, k: nat): Fate {
    if k == 0 then fate else if fate.Removed? then Removed else Later(fate.next, k - 1)
  }

  /** Form after form has no time left but could start to decay; the one after `k` others has time. */
  ghost predicate FirstWithTime(fate: Fate, k: nat, r: Renewal) {
    && Later(fate, k).Becomes? && Later(fate, k).form == Form(r.duration, true, false) && r.duration > 0
    && (forall j: nat | j < k ::
      Later(fate, j).Becomes? && Later(fate, j).form == Form(Later(fate, j).form.duration, true, false) &&
      Later(fate, j).form.duration <= 0)
    && (r.inPlace <==> forall j: nat | j <= k :: Later(fate, j).inPlace)
  }

  /** What is registered in the end is the first form with time left, if it and all before it can start
      to decay; it is the item itself exactly if every change on the way was in place. */
  lemma RenewedExact(fate: Fate, r: Renewal)
    ensures Renewed(fate) == Some(r) <==> exists k: nat :: FirstWithTime(fate, k, r)
  {
    if Renewed(fate) == Some(r) {
      var k := RenewedIsFirst(fate);
    }
    if k: nat :| FirstWithTime(fate, k, r) {
      FirstIsRenewed(fate, k, r);
    }
  }

  lemma {:induction false} RenewedIsFirst(fate: Fate) returns (k: nat)
    requires Renewed(fate).Some?
    ensures FirstWithTime(fate, k, Renewed(fate).value)
  {
    k := 0;
    if fate.form.duration <= 0 {
      var next := RenewedIsFirst(fate.next);
      k := next + 1;
      assert Later(fate, 0) == fate && forall j: nat | 0 < j <= k :: Later(fate, j) == Later(fate.next, j - 1);
      if Renewed(fate).value.inPlace {
        assert forall j: nat | j <= k :: Later(fate, j).inPlace;
      } else if fate.inPlace {
        var j: nat :| j <= next && !Later(fate.next, j).inPlace;
        assert !Later(fate, j + 1).inPlace;
      }
    }
  }

  lemma {:induction false} FirstIsRenewed(fate: Fate, k: nat, r: Renewal)
    requires FirstWithTime(fate, k, r)
    ensures Renewed(fate) == Some(r)
  {
    assert Later(fate, 0) == fate;
    if k > 0 {
      assert forall j: nat | 0 < j <= k :: Later(fate, j) == Later(fate.next, j - 1);
      assert forall j: nat | j < k :: Later(fate.next, j) == Later(fate, j + 1);
      var rest := forall j: nat | j < k :: Later(fate.next, j).inPlace;
      assert r.inPlace <==> fate.inPlace && rest;
      FirstIsRenewed(fate.next, k - 1, Renewal(rest, r.duration));
    }
  }

  class Item {
    var duration: int
    var decaying: bool
    var decayable: bool  // canDecay()
    ghost var bucket: int
    ghost var due: nat

    constructor (duration: int, decayable: bool)
      ensures this.duration == duration && this.decayable == decayable && !decaying
    {
      this.duration, this.decayable, decaying := duration, decayable, false;
      bucket, due := GONE, 0;
    }

    function CurrentForm(): Form
      reads this`duration, this`decayable, this`decaying
    {
      Form(duration, decayable, decaying)
    }

    /** What a look at the item at tick `now` must lead to. */
    ghost predicate Checked(outcome: Outcome, now: nat)
      reads this
    {
      && (outcome == Fired <==> decayable && due == now)
      && (outcome == Dropped <==> !decayable)
      && (outcome == Dropped ==> !decaying)
      && if outcome == Fired || outcome == Dropped then bucket == GONE else bucket >= 0
    }

    /** The same for the lists that one look at a bucket hands out. */
    ghost predicate Settled(fired: seq<Item>, dropped: seq<Item>, could: bool, now: nat)
      reads this
    {
      && (this in fired <==> could && due == now)
      && (this in dropped <==> !could)
      && (this in dropped ==> !decaying && bucket == GONE)
      && (this in fired || this in dropped <==> bucket < 0)
      && (this !in fired ==> decayable == could)
    }

    /** Just registered, with this duration. */
    ghost predicate Begins(duration: nat)
      reads this
    {
      bucket == WAITING && this.duration == duration > 0 && decaying && decayable
    }

    /** In bucket `b`, the item is on time for its due tick. */
    ghost predicate OnTime(b: nat, tick: nat, last: nat)
      requires b < EVENT_DECAYBUCKETS && last < EVENT_DECAYBUCKETS
      reads this
    {
      bucket == b && decaying && duration >= 0 && due == tick + Distance(last, b) + Extra(duration)
    }
  }

  ghost predicate BucketOk(items: seq<Item>, b: nat, tick: nat, last: nat)
    requires b < EVENT_DECAYBUCKETS && last < EVENT_DECAYBUCKETS
    reads items
  {
    && NoDup(items)
    && forall item {:trigger item.OnTime(b, tick, last)} {:trigger item in items} | item in items ::
      item.OnTime(b, tick, last)
  }

  /** What one look at an item leads to. */
  datatype Outcome = Kept | Moved | Fired | Dropped

  /** When an item on the wheel is to fire, and whether it can still decay. */
  datatype Plan = Plan(tick: nat, decayable: bool)

  /** One turn of the wheel to tick `tick`: exactly the items that can decay and whose tick has come
      fire; an item that cannot decay may be let go; all others stay as they are; and what those that
      fired become is on the wheel, the item itself or a new one, each due after its own delay. */
  ghost predicate Turns(before: map<Item, Plan>, tick: nat, fired: seq<Item>, fates: Item -> Fate,
                        heirs: map<Item, Item>, after: map<Item, Plan>)
  {
    && NoDup(fired) && (forall x | x in fired :: x in before)
    && (forall x | x in before :: x in fired <==> before[x] == Plan(tick, true))
    && (forall x | x in before && x !in fired && before[x].decayable :: x in after)
    && (forall x | x in after && x !in heirs.Values :: x in before && x !in fired && after[x] == before[x])
    && heirs.Keys == (set x | x in fired && Renewed(fates(x)).Some?)
    && (forall x | x in heirs :: heirs[x] in after && Succeeds(x, fates(x), heirs[x], tick, after[heirs[x]]))
    && (forall x | x in heirs :: heirs[x] == x || heirs[x] !in before)
    && (forall x, y | x in heirs && y in heirs && x != y :: heirs[x] != heirs[y])
  }

  ghost predicate Succeeds(item: Item, fate: Fate, heir: Item, tick: nat, plan: Plan) {
    match Renewed(fate)
    case None => false
    case Some(r) => plan == Plan(tick + FireDelay(r.duration), true) && (r.inPlace <==> heir == item)
  }

  /** What happens to the wheel: an item starts to decay, the wheel turns, or an item becomes able or
      unable to decay. `fate` and `fates` say what becomes of items that decay. */
  datatype Event = Start(item: Item, fate: Fate) | Tick(fates: Item -> Fate) | Change(item: Item, decayable: bool)

  function Subject(event: Event): set<Item> {
    if event.Tick? then {} else {event.item}
  }

  /** An event with what it leads to: the tick and the wheel after it, the items fired, and the item
      registered for each that started or fired. `form` is the one an item has that is to start. */
  datatype Moment = Moment(event: Event, form: Option<Form>, tick: nat, fired: seq<Item>,
                           heirs: map<Item, Item>, wheel: map<Item, Plan>)

  /** The wheel after an item was registered. */
  ghost function Extended(wheel: map<Item, Plan>, tick: nat, heirs: seq<Item>, renewal: Option<Renewal>)
    : map<Item, Plan>
  {
    if heirs == [] || renewal.None? then wheel
    else wheel[heirs[0] := Plan(tick + 1 + FireDelay(renewal.value.duration), true)]
  }

  /** What an event does to the wheel. */
  ghost predicate Leads(before: map<Item, Plan>, tick: nat, m: Moment) {
    match m.event
    case Start(item, fate) =>
      && m.tick == tick && m.fired == [] && m.form.Some?
      && (match Started(m.form.value, fate)
          case None => m.heirs == map[] && m.wheel == before
          case Some(r) =>
            && item in m.heirs && m.heirs == map[item := m.heirs[item]]
            && m.heirs[item] !in before && (r.inPlace <==> m.heirs[item] == item)
            && m.wheel == before[m.heirs[item] := Plan(tick + 1 + FireDelay(r.duration), true)])
    case Tick(fates) => m.tick == tick + 1 && Turns(before, m.tick, m.fired, fates, m.heirs, m.wheel)
    case Change(item, decayable) =>
      && m.tick == tick && m.fired == [] && m.heirs == map[]
      && m.wheel == if item in before then before[item := Plan(before[item].tick, decayable)] else before
  }

  ghost predicate IsTrace(before: map<Item, Plan>, tick: nat, trace: seq<Moment>)
    decreases trace
  {
    trace == [] || (Leads(before, tick, trace[0]) && IsTrace(trace[0].wheel, trace[0].tick, trace[1..]))
  }

  /** The tick, and every item on the wheel with what the next clean-up makes of it. */
  datatype State = State(tick: nat, wheel: map<Item, Plan>)

  ghost function After(start: State, trace: seq<Moment>): State {
    if trace == [] then start else State(trace[|trace| - 1].tick, trace[|trace| - 1].wheel)
  }

  ghost function StartMoment(before: map<Item, Plan>, tick: nat, item: Item, form: Form, fate: Fate, heirs: seq<Item>)
    : Moment
  {
    Moment(Start(item, fate), Some(form), tick, [], if heirs == [] then map[] else map[item := heirs[0]],
           Extended(before, tick, heirs, Started(form, fate)))
  }

  lemma StartLeads(before: map<Item, Plan>, tick: nat, item: Item, form: Form, fate: Fate, heirs: seq<Item>)
    requires forall h | h in heirs :: h !in before
    requires match Started(form, fate)
             case None => heirs == []
             case Some(r) => |heirs| == 1 && (r.inPlace <==> heirs[0] == item)
    ensures IsTrace(before, tick, [StartMoment(before, tick, item, form, fate, heirs)])
  {
    OneMoment(before, tick, StartMoment(before, tick, item, form, fate, heirs));
  }

  lemma OneMoment(before: map<Item, Plan>, tick: nat, m: Moment)
    requires Leads(before, tick, m)
    ensures IsTrace(before, tick, [m])
  {
    assert [m][1..] == [];
  }

  lemma {:induction false} TraceGrows(start: State, trace: seq<Moment>, m: Moment)
    requires IsTrace(start.wheel, start.tick, trace) &&
      IsTrace(After(start, trace).wheel, After(start, trace).tick, [m])
    ensures IsTrace(start.wheel, start.tick, trace + [m])
    decreases trace
  {
    if trace == [] {
      assert trace + [m] == [m];
    } else {
      assert (trace + [m])[1..] == trace[1..] + [m];
      TraceGrows(State(trace[0].tick, trace[0].wheel), trace[1..], m);
    }
  }

  ghost predicate Ahead(wheel: map<Item, Plan>, tick: nat) {
    forall item | item in wheel :: wheel[item].tick > tick
  }

  const BEGINNING := -1

  /** No event after `i` and before `j` makes the item unable to decay. */
  ghost predicate Stays(trace: seq<Moment>, i: int, j: nat, item: Item)
    requires BEGINNING <= i < j <= |trace|
  {
    forall k | i < k < j :: !(trace[k].event.Change? && trace[k].event.item == item && !trace[k].event.decayable)
  }

  /** From `i` on the item fires at tick `due` and at no other up to then, if it can decay until then. */
  ghost predicate FiresOn(trace: seq<Moment>, i: int, j: nat, item: Item, due: nat)
    requires BEGINNING <= i < j < |trace|
  {
    Stays(trace, i, j, item) && trace[j].tick <= due ==>
      (item in trace[j].fired <==> trace[j].event.Tick? && trace[j].tick == due)
  }

  lemma LeadsOn(before: map<Item, Plan>, tick: nat, m: Moment, item: Item)
    requires Leads(before, tick, m) && item in before && before[item].decayable
    requires !(m.event.Change? && m.event.item == item && !m.event.decayable)
    ensures item in m.fired <==> m.event.Tick? && m.tick == before[item].tick
    ensures item !in m.fired ==> item in m.wheel && m.wheel[item] == before[item]
  {
    if m.event.Tick? && item !in m.fired {
      assert forall x | x in m.heirs :: m.heirs[x] != item;
    }
  }

  /** An item on the wheel that stays able to decay fires at its tick and at no other up to then. */
  lemma {:induction false} FiresAtItsTick(before: map<Item, Plan>, tick: nat, trace: seq<Moment>, j: nat, item: Item)
    requires IsTrace(before, tick, trace) && j < |trace| && item in before && before[item].decayable
    requires tick < before[item].tick && Stays(trace, BEGINNING, j, item) && trace[j].tick <= before[item].tick
    ensures item in trace[j].fired <==> trace[j].event.Tick? && trace[j].tick == before[item].tick
    decreases j
  {
    TicksGrow(before, tick, trace, j);
    if j == 0 {
      if trace[0].event.Tick? {
        LeadsOn(before, tick, trace[0], item);
      }
    } else {
      LeadsOn(before, tick, trace[0], item);
      TicksGrow(trace[0].wheel, trace[0].tick, trace[1..], j - 1);
      if trace[0].tick < before[item].tick {
        FiresAtItsTick(trace[0].wheel, trace[0].tick, trace[1..], j - 1, item);
      }
    }
  }

  /** Ticks never go back, and a tick event always moves on. */
  lemma {:induction false} TicksGrow(before: map<Item, Plan>, tick: nat, trace: seq<Moment>, j: nat)
    requires IsTrace(before, tick, trace) && j < |trace|
    ensures tick <= trace[j].tick && (trace[j].event.Tick? ==> tick < trace[j].tick)
    ensures !trace[j].event.Tick? ==> trace[j].fired == []
    decreases j
  {
    if j > 0 {
      TicksGrow(trace[0].wheel, trace[0].tick, trace[1..], j - 1);
    }
  }

  lemma FiresOnLater(trace: seq<Moment>, i: int, j: nat, item: Item, due: nat)
    requires 0 <= i < j < |trace| && FiresOn(trace[1..], i - 1, j - 1, item, due)
    ensures FiresOn(trace, i, j, item, due)
  {
    if Stays(trace, i, j, item) {
      assert forall k | i - 1 < k < j - 1 :: trace[1..][k].event == trace[k + 1].event;
    }
  }

  lemma LeadsAhead(before: map<Item, Plan>, tick: nat, m: Moment, item: Item)
    requires Leads(before, tick, m) && item in m.heirs.Values
    ensures item in m.wheel && m.wheel[item].tick > m.tick && m.wheel[item].decayable
  {
  }

  lemma RegisteredFirst(before: map<Item, Plan>, tick: nat, trace: seq<Moment>, j: nat, item: Item)
    requires IsTrace(before, tick, trace) && 0 < j < |trace| && item in trace[0].heirs.Values
    ensures item in trace[0].wheel && trace[0].wheel[item].tick > trace[0].tick
    ensures FiresOn(trace[1..], BEGINNING, j - 1, item, trace[0].wheel[item].tick)
  {
    var wheel, now, rest := trace[0].wheel, trace[0].tick, trace[1..];
    LeadsAhead(before, tick, trace[0], item);
    if Stays(rest, BEGINNING, j - 1, item) && rest[j - 1].tick <= wheel[item].tick {
      FiresAtItsTick(wheel, now, rest, j - 1, item);
    }
  }

  /** Whenever an item is registered, it fires at the tick that its registration sets, if it stays able
      to decay until then, and at no other up to then. */
  lemma {:induction false} RegisteredFiresOnce(before: map<Item, Plan>, tick: nat, trace: seq<Moment>, i: nat,
                                               j: nat, item: Item)
    requires IsTrace(before, tick, trace) && i < j < |trace| && item in trace[i].heirs.Values
    ensures item in trace[i].wheel && trace[i].wheel[item].tick > trace[i].tick
    ensures FiresOn(trace, i, j, item, trace[i].wheel[item].tick)
    decreases i
  {
    if i > 0 {
      RegisteredFiresOnce(trace[0].wheel, trace[0].tick, trace[1..], i - 1, j - 1, item);
    } else {
      RegisteredFirst(before, tick, trace, j, item);
    }
    FiresOnLater(trace, i, j, item, trace[i].wheel[item].tick);
  }

  /** The firing at `j` is the one that the item's registration at `i` set, and the first since. */
  ghost predicate SetAt(trace: seq<Moment>, i: nat, j: nat, item: Item)
    requires i < j < |trace|
  {
    && item in trace[i].heirs.Values && item in trace[i].wheel && trace[i].wheel[item].tick == trace[j].tick
    && forall k | i < k < j :: item !in trace[k].fired
  }

  /** Nothing fires but what was on the wheel or was registered since, at the tick set then, once. */
  lemma {:induction false} EveryFiringWasSet(before: map<Item, Plan>, tick: nat, trace: seq<Moment>, j: nat, item: Item)
    requires IsTrace(before, tick, trace) && j < |trace| && item in trace[j].fired
    ensures trace[j].event.Tick?
    ensures
      || (exists i: nat | i < j :: SetAt(trace, i, j, item))
      || (item in before && before[item].tick == trace[j].tick && forall k | 0 <= k < j :: item !in trace[k].fired)
    decreases j
  {
    if j > 0 {
      var rest := trace[1..];
      var before1, j1 := trace[0].wheel, j - 1;
      EveryFiringWasSet(before1, trace[0].tick, rest, j1, item);
      if i: nat :| i < j1 && SetAt(rest, i, j1, item) {
        assert forall k | i + 1 < k < j :: trace[k].fired == rest[k - 1].fired;
        assert SetAt(trace, i + 1, j, item);
      } else {
        assert forall k | 0 < k < j :: trace[k].fired == rest[k - 1].fired;
        if item in trace[0].heirs.Values {
          assert SetAt(trace, 0, j, item);
        }
      }
    }
  }

  /** Each item that stays able to decay, whether it is on the wheel before or registered later, fires
      at its tick and at no other up to then; and every firing is the first since the item was
      registered, at the tick set then. */
  ghost predicate InTime(before: map<Item, Plan>, trace: seq<Moment>) {
    && (forall item, j: nat | item in before && j < |trace| :: FromBefore(before, trace, j, item))
    && (forall item, i: nat, j: nat | i < j < |trace| && item in trace[i].heirs.Values :: FromThen(trace, i, j, item))
    && (forall item, j: nat | j < |trace| && item in trace[j].fired :: WasSet(before, trace, j, item))
  }

  ghost predicate FromBefore(before: map<Item, Plan>, trace: seq<Moment>, j: nat, item: Item)
    requires j < |trace|
  {
    item in before && before[item].decayable ==> FiresOn(trace, BEGINNING, j, item, before[item].tick)
  }

  ghost predicate FromThen(trace: seq<Moment>, i: nat, j: nat, item: Item)
    requires i < j < |trace|
  {
    item in trace[i].heirs.Values ==>
      item in trace[i].wheel && FiresOn(trace, i, j, item, trace[i].wheel[item].tick)
  }

  ghost predicate WasSet(before: map<Item, Plan>, trace: seq<Moment>, j: nat, item: Item)
    requires j < |trace|
  {
    item in trace[j].fired ==>
      || (exists i: nat | i < j :: SetAt(trace, i, j, item))
      || (item in before && before[item].tick == trace[j].tick && forall k | 0 <= k < j :: item !in trace[k].fired)
  }

  lemma TraceInTime(before: map<Item, Plan>, tick: nat, trace: seq<Moment>)
    requires IsTrace(before, tick, trace) && Ahead(before, tick)
    ensures InTime(before, trace)
  {
    forall item, j: nat | item in before && j < |trace| ensures FromBefore(before, trace, j, item) {
      if before[item].decayable && Stays(trace, BEGINNING, j, item) && trace[j].tick <= before[item].tick {
        FiresAtItsTick(before, tick, trace, j, item);
      }
    }
    forall item, i: nat, j: nat | i < j < |trace| && item in trace[i].heirs.Values ensures FromThen(trace, i, j, item) {
      RegisteredFiresOnce(before, tick, trace, i, j, item);
    }
    forall item, j: nat | j < |trace| && item in trace[j].fired ensures WasSet(before, trace, j, item) {
      EveryFiringWasSet(before, tick, trace, j, item);
    }
  }

  /** An item that starts to decay with time left fires after its delay, counted from the clean-up to
      come: no earlier, and no later if it stays able to decay. */
  ghost predicate StartFires(trace: seq<Moment>, i: nat, j: nat)
    requires i < j < |trace|
  {
    trace[i].event.Start? && trace[i].form.Some? ==>
      var form := trace[i].form.value;
      form.decayable && !form.decaying && form.duration > 0 ==>
        FiresOn(trace, i, j, trace[i].event.item, trace[i].tick + 1 + FireDelay(form.duration))
  }

  /** What an item that fires becomes fires in its turn after its own delay, if it has time left and can
      start to decay; nothing comes of an item that is removed. */
  ghost predicate HeirFires(trace: seq<Moment>, i: nat, j: nat, item: Item)
    requires i < j < |trace|
  {
    trace[i].event.Tick? && item in trace[i].fired ==>
      match trace[i].event.fates(item)
      case Removed => item !in trace[i].heirs
      case Becomes(inPlace, form, _) =>
        form.decayable && !form.decaying && form.duration > 0 ==>
          && item in trace[i].heirs && (inPlace <==> trace[i].heirs[item] == item)
          && FiresOn(trace, i, j, trace[i].heirs[item], trace[i].tick + FireDelay(form.duration))
  }

  lemma {:induction false} MomentLeads(before: map<Item, Plan>, tick: nat, trace: seq<Moment>, i: nat)
    returns (wheel: map<Item, Plan>, now: nat)
    requires IsTrace(before, tick, trace) && i < |trace|
    ensures Leads(wheel, now, trace[i])
    decreases i
  {
    wheel, now := before, tick;
    if i > 0 {
      wheel, now := MomentLeads(trace[0].wheel, trace[0].tick, trace[1..], i - 1);
    }
  }

  lemma StartsFireInTime(before: map<Item, Plan>, tick: nat, trace: seq<Moment>, i: nat, j: nat)
    requires IsTrace(before, tick, trace) && i < j < |trace|
    ensures StartFires(trace, i, j)
  {
    var m := trace[i];
    var wheel, now := MomentLeads(before, tick, trace, i);
    if m.event.Start? {
      var item := m.event.item;
      if m.form.value == Form(m.form.value.duration, true, false) && m.form.value.duration > 0 {
        assert m.heirs[item] == item;
        assert item in m.heirs.Values;
        RegisteredFiresOnce(before, tick, trace, i, j, item);
      }
    }
  }

  lemma RenewedAtOnce(fate: Fate)
    ensures fate.Removed? ==> Renewed(fate) == None
    ensures fate.Becomes? && fate.form == Form(fate.form.duration, true, false) && fate.form.duration > 0 ==>
      Renewed(fate) == Some(Renewal(fate.inPlace, fate.form.duration))
  {
  }

  lemma HeirsFireInTime(before: map<Item, Plan>, tick: nat, trace: seq<Moment>, i: nat, j: nat, item: Item)
    requires IsTrace(before, tick, trace) && i < j < |trace|
    ensures HeirFires(trace, i, j, item)
  {
    var m := trace[i];
    var wheel, now := MomentLeads(before, tick, trace, i);
    if m.event.Tick? && item in m.fired {
      RenewedAtOnce(m.event.fates(item));
      assert item in m.heirs <==> Renewed(m.event.fates(item)).Some?;
      if item in m.heirs {
        assert m.heirs[item] in m.heirs.Values;
        assert Succeeds(item, m.event.fates(item), m.heirs[item], m.tick, m.wheel[m.heirs[item]]);
        RegisteredFiresOnce(before, tick, trace, i, j, m.heirs[item]);
      }
    }
  }

  /** No event before the one at `i` is about its item. */
  predicate FirstAbout(events: seq<Event>, i: nat)
    requires i < |events| && !events[i].Tick?
  {
    forall k | 0 <= k < i && !events[k].Tick? :: events[k].item != events[i].item
  }

  /** What starts, and was not the subject of an event before, does so in the form it is listed with. */
  ghost predicate StartIn(events: seq<Event>, trace: seq<Moment>, forms: map<Item, Form>)
    requires |trace| <= |events|
  {
    forall i | 0 <= i < |trace| && events[i].Start? ::
      FirstAbout(events, i) && events[i].item in forms ==> trace[i].form == Some(forms[events[i].item])
  }

  /** Each moment is that of its event, and its items are those logged. */
  ghost predicate Logged(events: seq<Event>, log: seq<seq<Item>>, trace: seq<Moment>) {
    && |log| == |trace| <= |events|
    && forall k | 0 <= k < |trace| :: trace[k].event == events[k] && trace[k].fired == log[k]
  }

  lemma LoggedToo(events: seq<Event>, log: seq<seq<Item>>, trace: seq<Moment>, fired: seq<Item>, m: Moment)
    requires Logged(events, log, trace) && |trace| < |events| && m.event == events[|trace|] && m.fired == fired
    ensures Logged(events, log + [fired], trace + [m])
  {
  }

  lemma StartsInToo(events: seq<Event>, trace: seq<Moment>, forms: map<Item, Form>, m: Moment)
    requires |trace| < |events| && StartIn(events, trace, forms)
    requires var k := |trace|;
      events[k].Start? && FirstAbout(events, k) && events[k].item in forms ==> m.form == Some(forms[events[k].item])
    ensures StartIn(events, trace + [m], forms)
  {
  }

  class Game {
    const decayItems: array<seq<Item>>
    var toDecayItems: seq<Item>
    var lastBucket: nat
    ghost var tick: nat
    ghost var items: set<Item>  // every item in a list of the wheel

    /** The item is in exactly one list, once: waiting, or in the bucket it is marked with. */
    ghost predicate Valid()
      reads this, decayItems, items
    {
      BucketsOk() && Waiting() && forall item | item in items :: item.bucket != GONE
    }

    /** An item is where its mark says. */
    ghost predicate Listed()
      requires decayItems.Length == EVENT_DECAYBUCKETS
      reads this, decayItems, items
    {
      forall item | item in items ::
        || item.bucket == GONE
        || (item.bucket == WAITING && item in toDecayItems)
        || (0 <= item.bucket < EVENT_DECAYBUCKETS && item in decayItems[item.bucket])
    }

    ghost predicate BucketsOk()
      reads this, decayItems, items
    {
      && decayItems.Length == EVENT_DECAYBUCKETS && lastBucket < EVENT_DECAYBUCKETS
      && Listed()
      && forall b: nat | b < EVENT_DECAYBUCKETS :: Within(decayItems[b]) && BucketOk(decayItems[b], b, tick, lastBucket)
    }

    ghost predicate Within(list: seq<Item>)
      reads this`items
    {
      forall item | item in list :: item in items
    }

    ghost predicate Waiting()
      reads this`items, this`toDecayItems, items
    {
      && Within(toDecayItems) && NoDup(toDecayItems)
      && forall item | item in toDecayItems ::
        item.bucket == WAITING && item.duration > 0 && item.decaying
    }

    constructor ()
      ensures Valid() && toDecayItems == [] && items == {} && tick == 0
    {
      decayItems := new seq<Item>[EVENT_DECAYBUCKETS](b => []);
      toDecayItems, lastBucket, tick, items := [], 0, 0, {};
    }

    /** The item is in no list. */
    ghost predicate OffWheel(item: Item)
      reads this`toDecayItems, decayItems
    {
      item !in toDecayItems && forall b | 0 <= b < decayItems.Length :: item !in decayItems[b]
    }

    /** What was registered for the item: nothing, the item, or another one. */
    ghost predicate Registered(renewal: Option<Renewal>, item: Item, heirs: seq<Item>)
      reads heirs
    {
      match renewal
      case None => heirs == []
      case Some(r) => |heirs| == 1 && heirs[0].Begins(r.duration) && (r.inPlace <==> heirs[0] == item)
    }

    /** startDecay: an item that can decay and does not yet joins the waiting list; one without time
        left decays at once. */
    method StartDecay(item: Item, fate: Fate) returns (ghost heirs: seq<Item>)
      requires !item.decaying ==> OffWheel(item)
      modifies this`toDecayItems, this`items, item`duration, item`decayable, item`decaying, item`bucket
      ensures toDecayItems == old(toDecayItems) + heirs && items == old(items) + (set h | h in heirs)
      ensures Registered(Started(old(item.CurrentForm()), fate), item, heirs)
      ensures old(item.decayable && !item.decaying && item.duration > 0) ==>
        heirs == [item] && item.Begins(old(item.duration))
      ensures old(!item.decayable || item.decaying) ==> heirs == [] && unchanged(item)
      ensures forall h | h in heirs && h != item :: fresh(h)
      ensures item !in heirs ==> item.bucket == old(item.bucket)
      decreases fate, 1
    {
      heirs := [];
      if !item.decayable || item.decaying {
        return;
      }
      if item.duration > 0 {
        item.decaying := true;
        item.bucket := WAITING;
        toDecayItems := toDecayItems + [item];
        items := items + {item};
        heirs := [item];
      } else {
        heirs := InternalDecayItem(item, fate);
      }
    }

    /** internalDecayItem: the item is removed, or what it becomes starts to decay. */
    method InternalDecayItem(item: Item, fate: Fate) returns (ghost heirs: seq<Item>)
      requires OffWheel(item)
      modifies this`toDecayItems, this`items, item`duration, item`decayable, item`decaying, item`bucket
      ensures toDecayItems == old(toDecayItems) + heirs && items == old(items) + (set h | h in heirs)
      ensures Registered(Renewed(fate), item, heirs) && forall h | h in heirs && h != item :: fresh(h)
      ensures fate.Removed? ==> heirs == []
      ensures fate.Becomes? && fate.form == Form(fate.form.duration, true, false) && fate.form.duration > 0 ==>
        |heirs| == 1 && heirs[0].Begins(fate.form.duration) && (heirs[0] == item <==> fate.inPlace)
      ensures fate.Becomes? && (!fate.form.decayable || fate.form.decaying) ==> heirs == []
      ensures item !in heirs ==> item.bucket == old(item.bucket)
      decreases fate, 0
    {
      heirs := [];
      match fate {
        case Removed => item.decayable := false;
        case Becomes(inPlace, form, next) =>
          var newItem := item;
          if inPlace {
            item.duration, item.decayable := form.duration, form.decayable;
          } else {
            newItem := new Item(form.duration, form.decayable);
          }
          newItem.decaying := form.decaying;
          heirs := StartDecay(newItem, next);
          assert !inPlace ==> item !in heirs;
      }
    }

    /** One registered item: it goes to the back of its first bucket. */
    method Register(item: Item)
      requires BucketsOk() && item in items && item.bucket == WAITING && item.duration > 0 && item.decaying
      modifies decayItems, item`bucket, item`due
      ensures BucketsOk() && item.bucket >= 0 && item.due == tick + FireDelay(item.duration)
    {
      var bucket := FirstBucket(lastBucket, item.duration);
      FireDelayExact(lastBucket, item.duration);
      forall b: nat | b < EVENT_DECAYBUCKETS ensures item !in decayItems[b] {
        assert BucketOk(decayItems[b], b, tick, lastBucket);
      }
      decayItems[bucket] := decayItems[bucket] + [item];
      item.bucket := bucket;
      item.due := tick + FireDelay(item.duration);
    }

    /** The loop of cleanup: every waiting item goes into its first bucket. */
    method RegisterAll(waiting: seq<Item>)
      requires Valid() && toDecayItems == waiting
      modifies decayItems, waiting`bucket, waiting`due
      ensures BucketsOk()
      ensures forall item | item in waiting :: item.bucket >= 0 && item.due == tick + FireDelay(item.duration)
    {
      for k := 0 to |waiting|
        invariant BucketsOk() && Within(waiting) && NoDup(waiting)
        invariant forall j | k <= j < |waiting| :: waiting[j].bucket == WAITING
        invariant forall j | 0 <= j < |waiting| :: waiting[j].duration > 0 && waiting[j].decaying
        invariant forall j | 0 <= j < k ::
          waiting[j].bucket >= 0 && waiting[j].due == tick + FireDelay(waiting[j].duration)
      {
        Register(waiting[k]);
      }
    }

    /** cleanup: every waiting item is in a bucket then, due after its delay. */
    method Cleanup()
      requires Valid()
      modifies this`toDecayItems, decayItems, toDecayItems`bucket, toDecayItems`due
      ensures Valid() && toDecayItems == []
      ensures forall item | item in items :: Expected(item, tick + 1) == old(Expected(item, tick))
    {
      RegisterAll(toDecayItems);
      toDecayItems := [];
    }

    /** In the middle of checkDecay: the first `it` items of the bucket were looked at, the one at
        `it` is in hand, those from `rest` on come next. */
    ghost predicate Midway(bucket: nat, it: nat, rest: nat)
      reads this, decayItems, items
    {
      && decayItems.Length == EVENT_DECAYBUCKETS && lastBucket < EVENT_DECAYBUCKETS
      && bucket == (lastBucket + 1) % EVENT_DECAYBUCKETS && it <= rest && it <= |decayItems[bucket]|
      && (forall b: nat | b < EVENT_DECAYBUCKETS && b != bucket ::
        Within(decayItems[b]) && BucketOk(decayItems[b], b, tick + 1, bucket))
      && Listed() && Within(decayItems[bucket]) && NoDup(decayItems[bucket])
      && (forall j | 0 <= j < it :: decayItems[bucket][j].OnTime(bucket, tick + 1, bucket))
      && (forall j | rest <= j < |decayItems[bucket]| :: decayItems[bucket][j].OnTime(bucket, tick, lastBucket))
    }

    /** The item is in no bucket but possibly this one. */
    ghost predicate NotElsewhere(item: Item, bucket: nat)
      requires decayItems.Length == EVENT_DECAYBUCKETS
      reads decayItems
    {
      forall b: nat | b < EVENT_DECAYBUCKETS && b != bucket :: item !in decayItems[b]
    }

    lemma InOneBucket(item: Item, bucket: nat, it: nat, rest: nat)
      requires Midway(bucket, it, rest) && item.bucket == bucket
      ensures NotElsewhere(item, bucket)
    {
      forall b: nat | b < EVENT_DECAYBUCKETS && b != bucket ensures item !in decayItems[b] {
        assert BucketOk(decayItems[b], b, tick + 1, bucket);
      }
    }

    /** Erasing at the iterator: the item in hand leaves the bucket. */
    method Erase(bucket: nat, it: nat)
      requires Midway(bucket, it, it + 1) && it < |decayItems[bucket]| && NotElsewhere(decayItems[bucket][it], bucket)
      modifies decayItems, {decayItems[bucket][it]}`bucket
      ensures Midway(bucket, it, it)
      ensures decayItems[bucket] == old(decayItems[bucket][..it] + decayItems[bucket][it + 1..])
      ensures var item := old(decayItems[bucket][it]);
        item.bucket == GONE && item !in decayItems[bucket] && NotElsewhere(item, bucket)
    {
      ghost var item := decayItems[bucket][it];
      decayItems[bucket] := decayItems[bucket][..it] + decayItems[bucket][it + 1..];
      item.bucket := GONE;
    }

    /** An erased item goes to the back of another bucket. */
    method PushBack(item: Item, newBucket: nat, ghost bucket: nat, ghost it: nat)
      requires Midway(bucket, it, it) && newBucket < EVENT_DECAYBUCKETS && newBucket != bucket
      requires item in items && item.decaying && item !in decayItems[bucket] && NotElsewhere(item, bucket)
      requires 0 <= item.duration <= WHEEL && item.due == tick + 1 + Distance(bucket, newBucket)
      modifies decayItems, item`bucket
      ensures Midway(bucket, it, it) && decayItems[bucket] == old(decayItems[bucket]) && item.bucket == newBucket
    {
      decayItems[newBucket] := decayItems[newBucket] + [item];
      item.bucket := newBucket;
    }

    /** The round of an item that has less than one turn left: another bucket, or it fires here. */
    method Reschedule(item: Item, dur: nat, bucket: nat, ghost it: nat) returns (moved: bool)
      requires Midway(bucket, it, it) && item.bucket == GONE && NotElsewhere(item, bucket) &&
        item !in decayItems[bucket]
      requires item in items && item.decaying && item.duration == dur && 0 < dur < WHEEL
      requires item.due == tick + 1 + Extra(dur + WHEEL)
      modifies decayItems, item`bucket
      ensures Midway(bucket, it, it) && decayItems[bucket] == old(decayItems[bucket])
      ensures moved <==> item.due != tick + 1
      ensures if moved then item.bucket >= 0 else item.bucket == GONE
    {
      var newBucket := (bucket + ((dur + EVENT_DECAYINTERVAL / 2) / 1000)) % EVENT_DECAYBUCKETS;
      ExtraIsDistance(bucket, dur);
      if newBucket == bucket {
        return false;
      }
      PushBack(item, newBucket, bucket, it);
      return true;
    }

    /** One turn of the wheel, or what is left, is taken off the item in hand. */
    method Decrease(bucket: nat, it: nat)
      requires Midway(bucket, it, it) && it < |decayItems[bucket]|
      modifies {decayItems[bucket][it]}`duration
      ensures Midway(bucket, it, it + 1)
      ensures var item := decayItems[bucket][it];
        item.duration >= 0 && item.bucket == bucket && item.decaying && NotElsewhere(item, bucket)
      ensures var item := decayItems[bucket][it];
        item.due == if item.duration == 0 then tick + 1 else tick + 1 + Extra(item.duration + WHEEL)
    {
      var item := decayItems[bucket][it];
      InOneBucket(item, bucket, it, it);
      var decreaseTime := WHEEL;
      if item.duration - decreaseTime < 0 {
        decreaseTime := item.duration;
      }
      item.duration := item.duration - decreaseTime;
    }

    /** An item that decays no longer leaves the wheel. */
    method LetGo(bucket: nat, it: nat)
      requires Midway(bucket, it, it + 1) && it < |decayItems[bucket]| && NotElsewhere(decayItems[bucket][it], bucket)
      modifies decayItems, {decayItems[bucket][it]}`decaying, {decayItems[bucket][it]}`bucket
      ensures Midway(bucket, it, it)
      ensures decayItems[bucket] == old(decayItems[bucket][..it] + decayItems[bucket][it + 1..])
      ensures var item := old(decayItems[bucket][it]); item.bucket == GONE && !item.decaying
    {
      decayItems[bucket][it].decaying := false;
      Erase(bucket, it);
    }

    /** One round of the loop of checkDecay. */
    method CheckItem(bucket: nat, it: nat) returns (outcome: Outcome)
      requires Midway(bucket, it, it) && it < |decayItems[bucket]|
      modifies decayItems, {decayItems[bucket][it]}`duration, {decayItems[bucket][it]}`decaying
      modifies {decayItems[bucket][it]}`bucket
      ensures var next := if outcome == Kept then it + 1 else it; Midway(bucket, next, next)
      ensures decayItems[bucket] ==
        old(if outcome == Kept then decayItems[bucket] else decayItems[bucket][..it] + decayItems[bucket][it + 1..])
      ensures old(decayItems[bucket][it]).Checked(outcome, tick + 1)
    {
      var item := decayItems[bucket][it];
      Decrease(bucket, it);
      if !item.decayable {
        LetGo(bucket, it);
        return Dropped;
      }
      var dur := item.duration;
      if dur <= 0 {
        Erase(bucket, it);
        return Fired;
      } else if dur < WHEEL {
        Erase(bucket, it);
        var moved := Reschedule(item, dur, bucket, it);
        return if moved then Moved else Fired;
      }
      return Kept;
    }

    /** An item that has left the wheel is in no list. */
    lemma GoneIsOff(item: Item, bucket: nat, it: nat)
      requires Midway(bucket, it, it) && Waiting() && item.bucket == GONE
      ensures OffWheel(item)
    {
      forall b: nat | b < EVENT_DECAYBUCKETS ensures item !in decayItems[b] {
        assert b != bucket ==> BucketOk(decayItems[b], b, tick + 1, bucket);
      }
    }

    /** The first `k` items of the bag are settled, the others are in the bucket from `it` on; `could`
        are those that can decay when they are looked at. */
    ghost predicate Progress(bag: seq<Item>, k: nat, bucket: nat, it: nat, fired: seq<Item>, dropped: seq<Item>,
                             could: set<Item>)
      reads this, decayItems, items, bag
    {
      && Midway(bucket, it, it) && Waiting() && NoDup(bag) && k <= |bag| && decayItems[bucket][it..] == bag[k..]
      && (forall j | k <= j < |bag| :: bag[j].decayable <==> bag[j] in could)
      && Noting(bag, k, fired, dropped, could)
    }

    /** The lists hold exactly what the first `k` items of the bag led to. */
    ghost predicate Noting(bag: seq<Item>, k: nat, fired: seq<Item>, dropped: seq<Item>, could: set<Item>)
      requires k <= |bag|
      reads this`tick, bag
    {
      && (forall j | 0 <= j < k :: bag[j].Settled(fired, dropped, bag[j] in could, tick + 1)) && NoDup(fired)
      && (forall item | item in fired :: item in bag[..k]) && (forall item | item in dropped :: item in bag[..k])
    }

    /** What an item that fires becomes may join the waiting list while the bucket is looked at. */
    method Decay(item: Item, fate: Fate, ghost bag: seq<Item>, ghost k: nat, ghost bucket: nat, ghost it: nat,
                 ghost fired: seq<Item>, ghost dropped: seq<Item>, ghost could: set<Item>)
      returns (ghost heirs: seq<Item>)
      requires Progress(bag, k, bucket, it, fired, dropped, could) && item in fired && item.bucket == GONE
      modifies this`toDecayItems, this`items, item`duration, item`decayable, item`decaying, item`bucket
      ensures Progress(bag, k, bucket, it, fired, dropped, could)
      ensures toDecayItems == old(toDecayItems) + heirs && items == old(items) + (set h | h in heirs)
      ensures Registered(Renewed(fate), item, heirs) && forall h | h in heirs && h != item :: fresh(h)
      ensures forall h | h in heirs :: h !in old(toDecayItems)
    {
      GoneIsOff(item, bucket, it);
      heirs := InternalDecayItem(item, fate);
      forall j | 0 <= j < k ensures bag[j].Settled(fired, dropped, bag[j] in could, tick + 1) {
        assert old(bag[j].Settled(fired, dropped, bag[j] in could, tick + 1));
      }
    }

    /** Each item that fired and becomes something that decays has its own heir on the waiting list. */
    ghost predicate Inherited(fired: seq<Item>, fates: Item -> Fate, heirs: map<Item, Item>)
      reads this`toDecayItems, heirs.Values
    {
      && heirs.Keys == (set x | x in fired && Renewed(fates(x)).Some?)
      && (forall x | x in heirs :: heirs[x] in toDecayItems && Follows(x, fates(x), heirs[x]))
      && (forall x, y | x in heirs && y in heirs && x != y :: heirs[x] != heirs[y])
    }

    ghost predicate Follows(item: Item, fate: Fate, heir: Item)
      reads heir
    {
      Renewed(fate).Some? && heir.Begins(Renewed(fate).value.duration) &&
        (Renewed(fate).value.inPlace <==> heir == item)
    }

    /** The item in hand is looked at; those looked at before stay settled. */
    method Pass(ghost bag: seq<Item>, ghost k: nat, bucket: nat, it: nat, ghost fired: seq<Item>,
                ghost dropped: seq<Item>, ghost could: set<Item>)
      returns (next: nat, outcome: Outcome)
      requires Progress(bag, k, bucket, it, fired, dropped, could) && it < |decayItems[bucket]|
      modifies decayItems, {decayItems[bucket][it]}`duration
      modifies {decayItems[bucket][it]}`decaying, {decayItems[bucket][it]}`bucket
      ensures k < |bag| && bag[k] == old(decayItems[bucket][it]) && bag[k].Checked(outcome, tick + 1)
      ensures Midway(bucket, next, next) && Waiting() && decayItems[bucket][next..] == bag[k + 1..]
      ensures |decayItems[bucket]| - next < old(|decayItems[bucket]|) - it
      ensures Noting(bag, k, fired, dropped, could)
    {
      Tail(decayItems[bucket], it, bag, k);
      var item := decayItems[bucket][it];
      outcome := CheckItem(bucket, it);
      next := if outcome == Kept then it + 1 else it;
      forall j | 0 <= j < k ensures bag[j].Settled(fired, dropped, bag[j] in could, tick + 1) {
        assert old(bag[j].Settled(fired, dropped, bag[j] in could, tick + 1)) && bag[j] != item;
      }
    }

    /** The item in hand is looked at, and noted when it leaves the wheel. */
    method Look(ghost bag: seq<Item>, ghost k: nat, bucket: nat, it: nat, fired0: seq<Item>, dropped0: seq<Item>,
                ghost could: set<Item>)
      returns (next: nat, fired: seq<Item>, dropped: seq<Item>, fires: bool)
      requires Progress(bag, k, bucket, it, fired0, dropped0, could) && it < |decayItems[bucket]|
      modifies decayItems, {decayItems[bucket][it]}`duration
      modifies {decayItems[bucket][it]}`decaying, {decayItems[bucket][it]}`bucket
      ensures k < |bag| && Progress(bag, k + 1, bucket, next, fired, dropped, could)
      ensures |decayItems[bucket]| - next < old(|decayItems[bucket]|) - it
      ensures bag[k] == old(decayItems[bucket][it])
      ensures fired == (if fires then fired0 + [bag[k]] else fired0) && (fires ==> bag[k].bucket == GONE)
    {
      var outcome;
      var item := decayItems[bucket][it];
      next, outcome := Pass(bag, k, bucket, it, fired0, dropped0, could);
      Noted(bag, k, outcome, fired0, dropped0, could);
      fires := outcome == Fired;
      fired := if fires then fired0 + [item] else fired0;
      dropped := if outcome == Dropped then dropped0 + [item] else dropped0;
    }

    /** One round. */
    method LookAndDecay(ghost bag: seq<Item>, ghost k: nat, bucket: nat, it: nat, fired0: seq<Item>,
                        dropped0: seq<Item>, ghost could: set<Item>, fates: Item -> Fate)
      returns (next: nat, fired: seq<Item>, dropped: seq<Item>, ghost heirs: seq<Item>)
      requires Progress(bag, k, bucket, it, fired0, dropped0, could) && it < |decayItems[bucket]|
      modifies decayItems, this`toDecayItems, this`items
      modifies {decayItems[bucket][it]}`duration, {decayItems[bucket][it]}`decayable
      modifies {decayItems[bucket][it]}`decaying, {decayItems[bucket][it]}`bucket
      ensures k < |bag| && Progress(bag, k + 1, bucket, next, fired, dropped, could)
      ensures |decayItems[bucket]| - next < old(|decayItems[bucket]|) - it
      ensures toDecayItems == old(toDecayItems) + heirs && items == old(items) + (set h | h in heirs)
      ensures (fired == fired0 && heirs == []) ||
              (fired == fired0 + [bag[k]] && Registered(Renewed(fates(bag[k])), bag[k], heirs))
      ensures forall h | h in heirs :: h !in old(toDecayItems) && (h == bag[k] || fresh(h))
    {
      var fires;
      var item := decayItems[bucket][it];
      next, fired, dropped, fires := Look(bag, k, bucket, it, fired0, dropped0, could);
      heirs := [];
      if fires {
        heirs := Decay(item, fates(item), bag, k + 1, bucket, next, fired, dropped, could);
      }
    }

    /** The lists after one more item of the bag was looked at. */
    lemma Noted(bag: seq<Item>, k: nat, outcome: Outcome, fired0: seq<Item>, dropped0: seq<Item>, could: set<Item>)
      requires NoDup(bag) && k < |bag| && bag[k].Checked(outcome, tick + 1)
      requires bag[k].decayable <==> bag[k] in could
      requires Noting(bag, k, fired0, dropped0, could)
      ensures Noting(bag, k + 1, if outcome == Fired then fired0 + [bag[k]] else fired0,
                     if outcome == Dropped then dropped0 + [bag[k]] else dropped0, could)
    {
      assert bag[..k + 1] == bag[..k] + [bag[k]] && bag[k] !in bag[..k];
      assert bag[k] !in fired0 && bag[k] !in dropped0;
    }

    /** The waiting list holds those that waited before and the heirs. */
    ghost predicate Joined(before: seq<Item>, heirs: map<Item, Item>)
      reads this`toDecayItems
    {
      && (forall item | item in before :: item in toDecayItems)
      && (forall item | item in toDecayItems :: item in before || item in heirs.Values)
    }

    /** One more item of the bag fired; its heir, if any, was appended. */
    lemma Inherit(fired: seq<Item>, fates: Item -> Fate, heirs: map<Item, Item>, item: Item, more: seq<Item>,
                  waiting: seq<Item>)
      requires toDecayItems == waiting + more && item !in fired && Registered(Renewed(fates(item)), item, more)
      requires heirs.Keys == (set x | x in fired && Renewed(fates(x)).Some?)
      requires forall x | x in heirs :: heirs[x] in waiting && Follows(x, fates(x), heirs[x])
      requires forall x, y | x in heirs && y in heirs && x != y :: heirs[x] != heirs[y]
      requires forall h | h in more :: h !in waiting
      ensures Inherited(fired + [item], fates, Added(heirs, item, more)) && Joined(waiting, Added(heirs, item, more))
      ensures Added(heirs, item, more).Values == heirs.Values + set h | h in more
    {
      AddedValues(heirs, item, more);
    }

    ghost function Added(heirs: map<Item, Item>, item: Item, more: seq<Item>): map<Item, Item> {
      if more == [] then heirs else heirs[item := more[0]]
    }

    lemma AddedValues(heirs: map<Item, Item>, item: Item, more: seq<Item>)
      requires item !in heirs && |more| <= 1
      ensures Added(heirs, item, more).Values == heirs.Values + set h | h in more
    {
      if more != [] {
        var added := heirs[item := more[0]];
        forall x | x in heirs ensures heirs[x] in added.Values {
          assert added[x] == heirs[x];
        }
        assert added[item] == more[0];
      }
    }

    /** One round, with its heir noted. */
    method NextRound(ghost bag: seq<Item>, ghost k: nat, bucket: nat, it: nat, fired0: seq<Item>,
                     dropped0: seq<Item>, ghost could: set<Item>, fates: Item -> Fate, ghost heirs0: map<Item, Item>)
      returns (next: nat, fired: seq<Item>, dropped: seq<Item>, ghost heirs: map<Item, Item>)
      requires Progress(bag, k, bucket, it, fired0, dropped0, could) && it < |decayItems[bucket]|
      requires Inherited(fired0, fates, heirs0)
      modifies decayItems, this`toDecayItems, this`items
      modifies bag`duration, bag`decayable, bag`decaying, bag`bucket
      ensures k < |bag| && Progress(bag, k + 1, bucket, next, fired, dropped, could)
      ensures |decayItems[bucket]| - next < old(|decayItems[bucket]|) - it
      ensures Inherited(fired, fates, heirs) && Joined(old(toDecayItems), heirs) && heirs0.Values <= heirs.Values
      ensures forall x | x in old(items) :: x in items
      ensures forall x | x in items :: x in old(items) || x in heirs.Values
      ensures forall x | x in heirs :: (x in heirs0 && heirs[x] == heirs0[x]) || heirs[x] == x || fresh(heirs[x])
    {
      ghost var more;
      ghost var item, waiting := decayItems[bucket][it], toDecayItems;
      Tail(decayItems[bucket], it, bag, k);
      next, fired, dropped, more := LookAndDecay(bag, k, bucket, it, fired0, dropped0, could, fates);
      heirs := heirs0;
      if fired != fired0 {
        Inherit(fired0, fates, heirs0, item, more, waiting);
        heirs := Added(heirs0, item, more);
      }
    }

    lemma AllNoted(bag: seq<Item>, fired: seq<Item>, dropped: seq<Item>, could: set<Item>)
      requires Noting(bag, |bag|, fired, dropped, could)
      ensures NoDup(fired) && forall item | item in bag :: item.Settled(fired, dropped, item in could, tick + 1)
      ensures forall item | item in fired || item in dropped :: item in bag
    {
      assert bag[..|bag|] == bag;
    }

    /** The loop of checkDecay over one bucket. */
    method LookAtBucket(bucket: nat, fates: Item -> Fate)
      returns (fired: seq<Item>, dropped: seq<Item>, ghost heirs: map<Item, Item>)
      requires Midway(bucket, 0, 0) && Waiting()
      modifies this`toDecayItems, this`items, decayItems, decayItems[bucket]`duration, decayItems[bucket]`decayable
      modifies decayItems[bucket]`decaying, decayItems[bucket]`bucket
      ensures Midway(bucket, |decayItems[bucket]|, |decayItems[bucket]|) && Waiting() && NoDup(fired)
      ensures forall item | item in old(decayItems[bucket]) ::
        item.Settled(fired, dropped, old(item.decayable), tick + 1)
      ensures forall item | item in fired || item in dropped :: item in old(decayItems[bucket])
      ensures Inherited(fired, fates, heirs) && Joined(old(toDecayItems), heirs)
      ensures forall x | x in old(items) :: x in items
      ensures forall x | x in items :: x in old(items) || x in heirs.Values
      ensures forall x | x in heirs :: heirs[x] == x || fresh(heirs[x])
    {
      ghost var bag, k: nat := decayItems[bucket], 0;
      ghost var could := set item | item in bag && item.decayable;
      var it: nat := 0;
      fired, dropped, heirs := [], [], map[];
      while it < |decayItems[bucket]|
        invariant Progress(bag, k, bucket, it, fired, dropped, could)
        invariant Inherited(fired, fates, heirs) && Joined(old(toDecayItems), heirs)
        invariant forall x | x in old(items) :: x in items
        invariant forall x | x in items :: x in old(items) || x in heirs.Values
        invariant forall x | x in heirs :: heirs[x] == x || fresh(heirs[x])
        decreases |decayItems[bucket]| - it
      {
        it, fired, dropped, heirs := NextRound(bag, k, bucket, it, fired, dropped, could, fates, heirs);
        k := k + 1;
      }
      assert k == |bag|;
      AllNoted(bag, fired, dropped, could);
    }

    /** The bucket was looked at to its end: it is the last one now. */
    method TurnTo(bucket: nat)
      requires bucket < decayItems.Length && Midway(bucket, |decayItems[bucket]|, |decayItems[bucket]|) && Waiting()
      modifies this`lastBucket, this`tick, this`items
      ensures Valid() && tick == old(tick) + 1
      ensures forall item | item in items :: item in old(items) && item.bucket != GONE
      ensures forall item | item in old(items) && item.bucket != GONE :: item in items
    {
      lastBucket := bucket;
      tick := tick + 1;
      items := set item | item in items && item.bucket != GONE;
    }

    /** The tick at which an item of the wheel is to fire, whatever list it is in, if the next clean-up
        comes at tick `now`. */
    ghost function Expected(item: Item, now: nat): nat
      reads item
    {
      if item.bucket == WAITING && item.duration > 0 then now + FireDelay(item.duration) else item.due
    }

    /** Every item on the wheel with its tick, if the next clean-up comes at tick `now`. */
    ghost function Wheel(now: nat): map<Item, Plan>
      reads this`items, items
    {
      map item | item in items :: Plan(Expected(item, now), item.decayable)
    }

    /** Before a bucket is looked at every item is on time, and due now only if it lies there. */
    lemma MidwayAtStart(bucket: nat)
      requires Valid() && bucket == (lastBucket + 1) % EVENT_DECAYBUCKETS
      ensures Midway(bucket, 0, 0) && Waiting()
      ensures forall x | x in items && x.bucket >= 0 && x.due == tick + 1 :: x in decayItems[bucket]
    {
      forall x | x in items && x.bucket >= 0 && x.due == tick + 1 ensures x in decayItems[bucket] {
        assert BucketOk(decayItems[x.bucket], x.bucket, tick, lastBucket);
      }
    }

    /** The next bucket is looked at and becomes the last one. */
    method NextBucket(fates: Item -> Fate) returns (fired: seq<Item>, ghost heirs: map<Item, Item>)
      requires Valid()
      modifies this`toDecayItems, this`lastBucket, this`tick, this`items, decayItems
      modifies items`duration, items`decayable, items`decaying, items`bucket
      ensures Valid() && tick == old(tick) + 1 && NoDup(fired)
      ensures forall x | x in fired :: x in old(items) && old(x.bucket) >= 0
      ensures forall x | x in old(items) && old(x.bucket) >= 0 :: x in fired <==> old(x.decayable) && x.due == tick
      ensures forall x | x in old(items) && x !in fired && old(x.decayable) :: x in items
      ensures forall x | x in items && x !in heirs.Values ::
        x in old(items) && x !in fired && x.decayable == old(x.decayable) && (x.bucket < 0 <==> old(x.bucket) < 0)
      ensures forall x | x in old(items) && old(x.bucket) < 0 :: x.bucket < 0 && x.duration == old(x.duration)
      ensures Inherited(fired, fates, heirs)
      ensures forall x | x in heirs :: heirs[x] in items && (heirs[x] == x || fresh(heirs[x]))
    {
      var bucket := (lastBucket + 1) % EVENT_DECAYBUCKETS;
      MidwayAtStart(bucket);
      var dropped;
      fired, dropped, heirs := LookAtBucket(bucket, fates);
      TurnTo(bucket);
    }

    lemma Turned(before: map<Item, Plan>, fired: seq<Item>, fates: Item -> Fate, heirs: map<Item, Item>)
      requires NoDup(fired) && (forall x | x in fired :: x in before)
      requires forall x | x in before :: x in fired <==> before[x] == Plan(tick, true)
      requires forall x | x in before && x !in fired && before[x].decayable :: x in items
      requires forall x | x in items && x !in heirs.Values ::
        x in before && x !in fired && Plan(Expected(x, tick), x.decayable) == before[x]
      requires forall x | x in heirs :: heirs[x] in items && (heirs[x] == x || heirs[x] !in before)
      requires heirs.Keys == (set x | x in fired && Renewed(fates(x)).Some?)
      requires forall x | x in heirs :: Follows(x, fates(x), heirs[x])
      requires forall x, y | x in heirs && y in heirs && x != y :: heirs[x] != heirs[y]
      ensures Turns(before, tick, fired, fates, heirs, Wheel(tick))
    {
    }

    /** checkDecay up to its clean-up. */
    method CheckDecay(fates: Item -> Fate) returns (fired: seq<Item>, ghost heirs: map<Item, Item>)
      requires Valid()
      modifies this`toDecayItems, this`lastBucket, this`tick, this`items, decayItems
      modifies items`duration, items`decayable, items`decaying, items`bucket
      ensures Valid() && tick == old(tick) + 1
      ensures Turns(old(Wheel(tick + 1)), tick, fired, fates, heirs, Wheel(tick))
      ensures forall x | x in items :: x in old(items) || fresh(x)
    {
      ghost var before := Wheel(tick + 1);
      fired, heirs := NextBucket(fates);
      Turned(before, fired, fates, heirs);
    }

    lemma SameWheel(wheel: map<Item, Plan>)
      requires wheel.Keys == items
      requires forall item | item in items :: wheel[item] == Plan(Expected(item, tick + 1), item.decayable)
      ensures Wheel(tick + 1) == wheel
    {
    }

    /** checkDecay with its clean-up: exactly the items that can decay and whose tick has come fire,
        and what they become is on the wheel, due after its own delay. */
    method Round(fates: Item -> Fate) returns (fired: seq<Item>, ghost heirs: map<Item, Item>)
      requires Valid()
      modifies this`toDecayItems, this`lastBucket, this`tick, this`items, decayItems
      modifies items`duration, items`decayable, items`decaying, items`bucket, items`due
      ensures Valid() && toDecayItems == [] && tick == old(tick) + 1
      ensures Turns(old(Wheel(tick + 1)), tick, fired, fates, heirs, Wheel(tick + 1))
      ensures forall x | x in items :: x in old(items) || fresh(x)
    {
      fired, heirs := CheckDecay(fates);
      ghost var wheel := Wheel(tick);
      Cleanup();
      SameWheel(wheel);
    }

    /** Every item on the wheel is to fire after the present tick. */
    lemma TicksAhead()
      requires Valid()
      ensures Ahead(Wheel(tick + 1), tick)
    {
      forall item | item in items ensures Expected(item, tick + 1) > tick {
        if item.bucket >= 0 {
          assert BucketOk(decayItems[item.bucket], item.bucket, tick, lastBucket);
        }
      }
    }

    /** An item that is not marked as decaying is on no list. */
    lemma UnmarkedIsOff(item: Item)
      requires Valid() && !item.decaying
      ensures OffWheel(item) && item !in items
    {
      forall b: nat | b < EVENT_DECAYBUCKETS ensures item !in decayItems[b] {
        assert BucketOk(decayItems[b], b, tick, lastBucket);
      }
    }

    /** startDecay called from outside. */
    method Begin(item: Item, fate: Fate) returns (ghost heirs: seq<Item>)
      requires Valid()
      modifies this`toDecayItems, this`items, item`duration, item`decayable, item`decaying, item`bucket
      ensures Valid() && items == old(items) + (set h | h in heirs)
      ensures Registered(Started(old(item.CurrentForm()), fate), item, heirs)
      ensures forall h | h in heirs :: h !in old(items) && (h == item || fresh(h))
      ensures item in old(items) ==> unchanged(item)
    {
      if !item.decaying {
        UnmarkedIsOff(item);
      }
      heirs := StartDecay(item, fate);
    }

    ghost function Now(): State
      reads this`tick, this`items, items
    {
      State(tick, Wheel(tick + 1))
    }

    lemma Joins(wheel: map<Item, Plan>, item: Item, heirs: seq<Item>, renewal: Option<Renewal>)
      requires items == wheel.Keys + (set h | h in heirs) && Registered(renewal, item, heirs)
      requires forall x | x in wheel :: x !in heirs && wheel[x] == Plan(Expected(x, tick + 1), x.decayable)
      ensures Wheel(tick + 1) == Extended(wheel, tick, heirs, renewal)
    {
      if heirs != [] {
        assert heirs == [heirs[0]];
      }
    }

    method HandleStart(item: Item, fate: Fate) returns (ghost m: Moment)
      requires Valid()
      modifies this`toDecayItems, this`items, item`duration, item`decayable, item`decaying, item`bucket
      ensures Valid() && m.event == Start(item, fate) && Now() == State(m.tick, m.wheel) && m.fired == []
      ensures IsTrace(old(Now()).wheel, old(Now()).tick, [m])
      ensures m.form == Some(old(item.CurrentForm()))
      ensures forall x | x in items :: x in old(items) || x == item || fresh(x)
    {
      ghost var before := Wheel(tick + 1);
      ghost var form := item.CurrentForm();
      ghost var heirs := Begin(item, fate);
      Joins(before, item, heirs, Started(form, fate));
      StartLeads(before, tick, item, form, fate, heirs);
      m := StartMoment(before, tick, item, form, fate, heirs);
    }

    method SetDecayable(item: Item, decayable: bool)
      requires Valid()
      modifies item`decayable
      ensures Valid() && item.decayable == decayable
    {
      item.decayable := decayable;
    }

    method HandleChange(item: Item, decayable: bool) returns (ghost m: Moment)
      requires Valid()
      modifies item`decayable
      ensures Valid() && m.event == Change(item, decayable) && Now() == State(m.tick, m.wheel) && m.fired == []
      ensures IsTrace(old(Now()).wheel, old(Now()).tick, [m])
    {
      ghost var before := Wheel(tick + 1);
      SetDecayable(item, decayable);
      ghost var after := if item in before then before[item := Plan(before[item].tick, decayable)] else before;
      SameWheel(after);
      m := Moment(Change(item, decayable), None, tick, [], map[], after);
      OneMoment(before, tick, m);
    }

    method HandleTick(fates: Item -> Fate) returns (fired: seq<Item>, ghost m: Moment)
      requires Valid()
      modifies this`toDecayItems, this`lastBucket, this`tick, this`items, decayItems
      modifies items`duration, items`decayable, items`decaying, items`bucket, items`due
      ensures Valid() && m.event == Tick(fates) && Now() == State(m.tick, m.wheel) && m.fired == fired
      ensures IsTrace(old(Now()).wheel, old(Now()).tick, [m])
      ensures forall x | x in items :: x in old(items) || fresh(x)
    {
      ghost var before, start := Wheel(tick + 1), tick;
      ghost var heirs;
      fired, heirs := Round(fates);
      m := Moment(Tick(fates), None, tick, fired, heirs, Wheel(tick + 1));
      OneMoment(before, start, m);
    }

    method Handle(event: Event) returns (fired: seq<Item>, ghost m: Moment)
      requires Valid()
      modifies this`toDecayItems, this`lastBucket, this`tick, this`items, decayItems, items, Subject(event)
      ensures Valid() && m.event == event && Now() == State(m.tick, m.wheel) && m.fired == fired
      ensures IsTrace(old(Now()).wheel, old(Now()).tick, [m])
      ensures event.Start? ==> m.form == Some(old(event.item.CurrentForm()))
      ensures forall x | x in items :: x in old(items) || x in Subject(event) || fresh(x)
    {
      fired := [];
      match event
      case Start(item, fate) => m := HandleStart(item, fate);
      case Change(item, decayable) => m := HandleChange(item, decayable);
      case Tick(fates) => fired, m := HandleTick(fates);
    }

    ghost function Subjects(events: seq<Event>): set<Item> {
      set event | event in events && !event.Tick? :: event.item
    }

    /** The trace of a run led to the present state. */
    ghost predicate LedHere(start: State, trace: seq<Moment>)
      reads this`tick, this`items, items
    {
      IsTrace(start.wheel, start.tick, trace) && Now() == After(start, trace)
    }

    /** These items are not on the wheel and have these forms. */
    ghost predicate Apart(rest: map<Item, Form>)
      reads this`items, rest.Keys
    {
      forall x | x in rest :: x !in items && x.CurrentForm() == rest[x]
    }

    method Next(event: Event, ghost start: State, ghost trace: seq<Moment>, ghost rest: map<Item, Form>)
      returns (fired: seq<Item>, ghost m: Moment)
      requires Valid() && LedHere(start, trace) && Apart(rest)
      modifies this`toDecayItems, this`lastBucket, this`tick, this`items, decayItems, items, Subject(event)
      ensures Valid() && m.event == event && m.fired == fired && LedHere(start, trace + [m])
      ensures Apart(rest - Subject(event))
      ensures event.Start? && event.item in rest ==> m.form == Some(rest[event.item])
      ensures forall x | x in items :: x in old(items) || x in Subject(event) || fresh(x)
    {
      fired, m := Handle(event);
      TraceGrows(start, trace, m);
    }

    ghost function Rest(forms: map<Item, Form>, events: seq<Event>): map<Item, Form> {
      forms - Subjects(events)
    }

    lemma OneSubjectMore(events: seq<Event>, k: nat, forms: map<Item, Form>)
      requires k < |events|
      ensures Rest(forms, events[..k + 1]) == Rest(forms, events[..k]) - Subject(events[k])
      ensures Subject(events[k]) <= Subjects(events)
      ensures !events[k].Tick? && FirstAbout(events, k) ==> events[k].item !in Subjects(events[..k])
    {
      assert events[..k + 1] == events[..k] + [events[k]];
    }

    ghost function FormsApart(events: seq<Event>): map<Item, Form>
      reads this`items, Subjects(events)
    {
      map x | x in Subjects(events) && x !in items :: x.CurrentForm()
    }

    /** Any events in any order lead from state to state, each as `Leads` says; an item that was on no
        list and that no event was about starts in the form it had at the beginning. */
    method Drive(events: seq<Event>) returns (log: seq<seq<Item>>, ghost trace: seq<Moment>)
      requires Valid()
      modifies this`toDecayItems, this`lastBucket, this`tick, this`items, decayItems, items, Subjects(events)
      ensures Valid() && |log| == |trace| == |events| && LedHere(old(Now()), trace)
      ensures Ahead(old(Now()).wheel, old(Now()).tick)
      ensures Logged(events, log, trace) && StartIn(events, trace, old(FormsApart(events)))
    {
      ghost var start := Now();
      ghost var forms := FormsApart(events);
      assert Rest(forms, events[..0]) == forms;
      TicksAhead();
      log, trace := [], [];
      for k := 0 to |events|
        invariant Valid() && |log| == |trace| == k && LedHere(start, trace)
        invariant Logged(events, log, trace)
        invariant forall x | x in items :: x in old(items) || x in Subjects(events) || fresh(x)
        invariant Apart(Rest(forms, events[..k]))
        invariant StartIn(events, trace, forms)
      {
        OneSubjectMore(events, k, forms);
        ghost var m;
        var fired;
        fired, m := Next(events[k], start, trace, Rest(forms, events[..k]));
        StartsInToo(events, trace, forms, m);
        LoggedToo(events, log, trace, fired, m);
        log, trace := log + [fired], trace + [m];
      }
    }

    /** Any events in any order: items fire at their ticks, once for each registration, and no others.
        An item that starts with time left is registered, and so is what an item that fires becomes. */
    method Run(events: seq<Event>) returns (log: seq<seq<Item>>, ghost trace: seq<Moment>)
      requires Valid()
      modifies this`toDecayItems, this`lastBucket, this`tick, this`items, decayItems, items, Subjects(events)
      ensures Valid() && |log| == |trace| == |events| && LedHere(old(Now()), trace)
      ensures Logged(events, log, trace) && StartIn(events, trace, old(FormsApart(events)))
      ensures InTime(old(Now()).wheel, trace)
      ensures forall i: nat, j: nat | i < j < |trace| :: StartFires(trace, i, j)
      ensures forall i: nat, j: nat, item | i < j < |trace| :: HeirFires(trace, i, j, item)
    {
      ghost var start := Now();
      log, trace := Drive(events);
      TraceInTime(start.wheel, start.tick, trace);
      forall i: nat, j: nat | i < j < |trace| ensures StartFires(trace, i, j) {
        StartsFireInTime(start.wheel, start.tick, trace, i, j);
      }
      forall i: nat, j: nat, item | i < j < |trace| ensures HeirFires(trace, i, j, item) {
        HeirsFireInTime(start.wheel, start.tick, trace, i, j, item);
      }
    }
  }
}
