/** The conditions of a creature and their effects on its speed, skills and stats: Creature::addCondition,
    removeCondition, removeConditions and executeConditions (src/creature.cpp) over start, merge and end
    of conditions (src/condition.cpp).

    Conditions are values here; the list owns them. Subclasses that change neither speed nor skills nor
    stats are one kind, merged as ConditionGeneric merges. What a creature has from elsewhere (equipment,
    say) is `other` and does not change. */
module ConditionEngine {
  import opened Common
  import opened Conditions

  const CONDITION_HASTE := 16
  const CONDITION_PARALYZE := 32
  const CONDITION_ATTRIBUTES := 131072

  datatype Effect =
    | NoEffect
    | SpeedEffect(speedDelta: int)
    | AttributeEffect(skills: seq<int>, skillsPercent: seq<int>, stats: seq<int>, statsPercent: seq<int>)

  datatype Condition = Condition(conditionType: nat, id: int, subId: nat, ticks: int, endTime: int, effect: Effect)

  /** The subclass is the one of the type. */
  predicate WellFormed(c: Condition) {
    && (c.effect.SpeedEffect? <==> c.conditionType == CONDITION_HASTE || c.conditionType == CONDITION_PARALYZE)
    && (c.effect.AttributeEffect? <==> c.conditionType == CONDITION_ATTRIBUTES)
    && (c.effect.AttributeEffect? ==>
          && |c.effect.skills| == |c.effect.skillsPercent| == SKILLS
          && |c.effect.stats| == |c.effect.statsPercent| == STATS)
  }

  datatype Key = Key(conditionType: nat, id: int, subId: nat)

  function KeyOf(c: Condition): Key {
    Key(c.conditionType, c.id, c.subId)
  }

  /** Conditions of one type, id and sub-id share a place. */
  lemma SameKey(c: Condition, d: Condition)
    ensures KeyOf(c) == KeyOf(d) <==> c.conditionType == d.conditionType && c.id == d.id && c.subId == d.subId
  {
  }

  ghost predicate Unique(list: seq<Condition>) {
    forall i, j | 0 <= i < j < |list| :: KeyOf(list[i]) != KeyOf(list[j])
  }

  /** What happens around a call: the time, the speed that a formula draws, the player's skill levels and
      default stats, and whether a condition without effect here starts at all. */
  datatype Env = Env(now: int, drawn: int, levels: seq<int>, defaults: seq<int>, starts: bool)

  predicate EnvOk(env: Env) {
    |env.levels| == SKILLS && |env.defaults| == STATS
  }

  // what a condition does to a creature

  datatype What = Speed | Skill(i: nat) | Stat(i: nat)

  predicate Known(what: What) {
    match what
    case Speed => true
    case Skill(i) => i < SKILLS
    case Stat(i) => i < STATS
  }

  function Share(c: Condition, what: What, isPlayer: bool): int {
    match what
    case Speed => if c.effect.SpeedEffect? then c.effect.speedDelta else 0
    case Skill(i) => if isPlayer && c.effect.AttributeEffect? && i < |c.effect.skills| then c.effect.skills[i] else 0
    case Stat(i) => if isPlayer && c.effect.AttributeEffect? && i < |c.effect.stats| then c.effect.stats[i] else 0
  }

  function Sum(list: seq<Condition>, what: What, isPlayer: bool): int {
    if list == [] then 0 else Share(list[0], what, isPlayer) + Sum(list[1..], what, isPlayer)
  }

  lemma {:induction false} SumUpdate(list: seq<Condition>, k: nat, c: Condition, what: What, isPlayer: bool)
    requires k < |list|
    ensures Sum(list[k := c], what, isPlayer) ==
      Sum(list, what, isPlayer) - Share(list[k], what, isPlayer) + Share(c, what, isPlayer)
  {
    if k == 0 {
      assert list[k := c][1..] == list[1..];
    } else {
      SumUpdate(list[1..], k - 1, c, what, isPlayer);
      assert list[k := c][1..] == list[1..][k - 1 := c];
    }
  }

  lemma {:induction false} SumRemove(list: seq<Condition>, k: nat, what: What, isPlayer: bool)
    requires k < |list|
    ensures Sum(list[..k] + list[k + 1..], what, isPlayer) == Sum(list, what, isPlayer) - Share(list[k], what, isPlayer)
  {
    if k == 0 {
      assert list[..k] + list[k + 1..] == list[1..];
    } else {
      SumRemove(list[1..], k - 1, what, isPlayer);
      assert (list[..k] + list[k + 1..])[1..] == list[1..][..k - 1] + list[1..][k..];
    }
  }

  lemma {:induction false} SumAppend(list: seq<Condition>, c: Condition, what: What, isPlayer: bool)
    ensures Sum(list + [c], what, isPlayer) == Sum(list, what, isPlayer) + Share(c, what, isPlayer)
  {
    if list == [] {
      assert list + [c] == [c];
    } else {
      SumAppend(list[1..], c, what, isPlayer);
      assert (list + [c])[1..] == list[1..] + [c];
    }
  }

  // one condition over time

  function SetTicks(c: Condition, ticks: int, now: int): Condition {
    c.(ticks := ticks, endTime := if ticks > 0 then now + ticks else c.endTime)
  }

  /** Division of C, toward zero. */
  function Truncated(a: int, b: int): int
    requires b > 0
  {
    if a >= 0 then a / b else -(-a / b)
  }

  /** Percentages are turned into points once, when the condition takes effect. */
  function WithPercent(values: seq<int>, percents: seq<int>, levels: seq<int>): (r: seq<int>)
    requires |values| == |percents| == |levels|
    ensures |r| == |values|
  {
    seq(|values|, i requires 0 <= i < |values| =>
      if percents[i] != 0 then values[i] + Truncated(levels[i] * (percents[i] - 100), 100) else values[i])
  }

  function InEffect(e: Effect, isPlayer: bool, env: Env): Effect
    requires EnvOk(env)
    requires e.AttributeEffect? ==> |e.skills| == |e.skillsPercent| == SKILLS && |e.stats| == |e.statsPercent| == STATS
  {
    match e
    case NoEffect => e
    case SpeedEffect(speedDelta) => SpeedEffect(if speedDelta == 0 then env.drawn else speedDelta)
    case AttributeEffect(skills, skillsPercent, stats, statsPercent) =>
      if isPlayer then
        e.(skills := WithPercent(skills, skillsPercent, env.levels),
           stats := WithPercent(stats, statsPercent, env.defaults))
      else e
  }

  /** startCondition. */
  function Started(c: Condition, isPlayer: bool, env: Env): (d: Condition)
    requires WellFormed(c) && EnvOk(env)
    ensures WellFormed(d) && KeyOf(d) == KeyOf(c)
  {
    SetTicks(c, c.ticks, env.now).(effect := InEffect(c.effect, isPlayer, env))
  }

  /** updateCondition: whether the new condition outlasts the old one. */
  predicate Updates(c: Condition, add: Condition, now: int) {
    && c.conditionType == add.conditionType
    && (c.ticks != -1 || add.ticks < 1)
    && (add.ticks < 0 || c.endTime <= now + add.ticks)
  }

  /** addCondition of a condition that is there: what it becomes. A change of speed replaces another
      whether it lasts longer or not. */
  function Merged(c: Condition, add: Condition, isPlayer: bool, env: Env): (d: Condition)
    requires WellFormed(c) && WellFormed(add) && KeyOf(c) == KeyOf(add) && EnvOk(env)
    ensures WellFormed(d) && KeyOf(d) == KeyOf(c)
  {
    var takes := if c.effect.SpeedEffect? then !(c.ticks == -1 && add.ticks > 0) else Updates(c, add, env.now);
    if takes then SetTicks(c, add.ticks, env.now).(effect := InEffect(add.effect, isPlayer, env)) else c
  }

  function Executed(c: Condition, interval: nat): (d: Condition)
    ensures KeyOf(d) == KeyOf(c) && d.effect == c.effect && (WellFormed(c) ==> WellFormed(d))
  {
    if c.ticks == -1 then c else c.(ticks := if c.ticks - interval < 0 then 0 else c.ticks - interval)
  }

  predicate Lasts(c: Condition, now: int) {
    c.ticks == -1 || c.endTime >= now
  }

  /** The removals of the source, by what they remove. */
  datatype Removal = OfType(conditionType: nat) | OfTypeAndId(conditionType: nat, id: int) | All(onlyPersistent: bool)

  predicate Removes(r: Removal, c: Condition) {
    match r
    case OfType(conditionType) => c.conditionType == conditionType
    case OfTypeAndId(conditionType, id) => c.conditionType == conditionType && c.id == id
    case All(onlyPersistent) => !onlyPersistent || IsPersistent(c.ticks, c.id)
  }

  function Remaining(list: seq<Condition>, r: Removal): seq<Condition> {
    if list == [] then [] else (if Removes(r, list[0]) then [] else [list[0]]) + Remaining(list[1..], r)
  }

  function AfterInterval(list: seq<Condition>, interval: nat, now: int): seq<Condition> {
    if list == [] then []
    else (if Lasts(list[0], now) then [Executed(list[0], interval)] else []) + AfterInterval(list[1..], interval, now)
  }

  // what that amounts to, told without the functions above

  /** `value` points and `percent` percent of a level make `points`: the surplus over a hundred percent
      counts, less than a point of it is lost, and no percentage at all changes nothing. */
  ghost predicate Points(value: int, percent: int, level: int, points: int) {
    var surplus := level * (percent - 100);
    if percent == 0 then points == value
    else if surplus >= 0 then 100 * (points - value) <= surplus < 100 * (points - value) + 100
    else 100 * (points - value) - 100 < surplus <= 100 * (points - value)
  }

  /** The effect `e` is in force as `f`: a speed not given was drawn, a player's percentages are points. */
  ghost predicate InForce(e: Effect, f: Effect, isPlayer: bool, env: Env)
    requires EnvOk(env)
    requires e.AttributeEffect? ==> |e.skills| == |e.skillsPercent| == SKILLS && |e.stats| == |e.statsPercent| == STATS
  {
    match e
    case NoEffect => f == NoEffect
    case SpeedEffect(speedDelta) => f.SpeedEffect? && f.speedDelta == if speedDelta == 0 then env.drawn else speedDelta
    case AttributeEffect(skills, skillsPercent, stats, statsPercent) =>
      && f.AttributeEffect? && |f.skills| == SKILLS && |f.stats| == STATS
      && f.skillsPercent == skillsPercent && f.statsPercent == statsPercent
      && if isPlayer then
           && (forall i | 0 <= i < SKILLS :: Points(skills[i], skillsPercent[i], env.levels[i], f.skills[i]))
           && (forall i | 0 <= i < STATS :: Points(stats[i], statsPercent[i], env.defaults[i], f.stats[i]))
         else f.skills == skills && f.stats == stats
  }

  lemma PercentExact(values: seq<int>, percents: seq<int>, levels: seq<int>, i: nat)
    requires |values| == |percents| == |levels| && i < |values|
    ensures Points(values[i], percents[i], levels[i], WithPercent(values, percents, levels)[i])
  {
  }

  lemma InEffectExact(e: Effect, isPlayer: bool, env: Env)
    requires EnvOk(env)
    requires e.AttributeEffect? ==> |e.skills| == |e.skillsPercent| == SKILLS && |e.stats| == |e.statsPercent| == STATS
    ensures InForce(e, InEffect(e, isPlayer, env), isPlayer, env)
  {
    if e.AttributeEffect? {
      forall i | 0 <= i < SKILLS {
        PercentExact(e.skills, e.skillsPercent, env.levels, i);
      }
      forall i | 0 <= i < STATS {
        PercentExact(e.stats, e.statsPercent, env.defaults, i);
      }
    }
  }

  /** `d` lasts as long as `add` from now on, or for ever if `add` does, and has its effect. */
  ghost predicate TakesOver(c: Condition, add: Condition, d: Condition, isPlayer: bool, env: Env)
    requires WellFormed(add) && EnvOk(env)
  {
    && KeyOf(d) == KeyOf(c) && d.ticks == add.ticks && InForce(add.effect, d.effect, isPlayer, env)
    && d.endTime == if add.ticks > 0 then env.now + add.ticks else c.endTime
  }

  /** Which of two conditions with one key prevails. */
  ghost predicate Prevails(c: Condition, add: Condition, d: Condition, isPlayer: bool, env: Env)
    requires WellFormed(c) && WellFormed(add) && EnvOk(env)
  {
    && (add.ticks > 0 && c.ticks == -1 ==> d == c)
    && (add.ticks > 0 && c.ticks != -1 && !c.effect.SpeedEffect? ==>
          && d.endTime == (if c.endTime < env.now + add.ticks then env.now + add.ticks else c.endTime)
          && if env.now + add.ticks < c.endTime then d == c else TakesOver(c, add, d, isPlayer, env))
    && (add.ticks > 0 && c.ticks != -1 && c.effect.SpeedEffect? ==> TakesOver(c, add, d, isPlayer, env))
    && (add.ticks == 0 && !c.effect.SpeedEffect? && env.now < c.endTime ==> d == c)
    && (add.ticks == 0 && (c.effect.SpeedEffect? || c.endTime <= env.now) ==> TakesOver(c, add, d, isPlayer, env))
    && (add.ticks < 0 ==> TakesOver(c, add, d, isPlayer, env))
  }

  /** The longer condition prevails, a permanent one does not give way to a timed one, one without end
      always takes over, and a change of speed gives way to any that is not timed while it is permanent. */
  lemma MergedExact(c: Condition, add: Condition, isPlayer: bool, env: Env)
    requires WellFormed(c) && WellFormed(add) && KeyOf(c) == KeyOf(add) && EnvOk(env)
    ensures Prevails(c, add, Merged(c, add, isPlayer, env), isPlayer, env)
  {
    InEffectExact(add.effect, isPlayer, env);
  }

  lemma StartedExact(c: Condition, isPlayer: bool, env: Env)
    requires WellFormed(c) && EnvOk(env)
    ensures TakesOver(c, c, Started(c, isPlayer, env), isPlayer, env)
  {
    InEffectExact(c.effect, isPlayer, env);
  }

  /** After an interval those are left that have no end or whose end is not past; only the ticks of those
      that have an end are fewer, but never below none. */
  ghost predicate Outlive(before: seq<Condition>, interval: nat, now: int, after: seq<Condition>) {
    && (forall c | c in before && c.ticks == -1 :: c in after)
    && (forall c | c in before && c.ticks != -1 && c.endTime >= now :: Older(c, interval) in after)
    && (forall d | d in after && d.ticks == -1 :: d in before)
    && (forall d | d in after && d.ticks != -1 :: d.endTime >= now)
    && (forall d | d in after && d.ticks != -1 :: exists c :: c in before && c.ticks != -1 && d == Older(c, interval))
  }

  ghost function Older(c: Condition, interval: nat): Condition {
    c.(ticks := if c.ticks > interval then c.ticks - interval else 0)
  }

  lemma {:induction false} AfterIntervalExact(list: seq<Condition>, interval: nat, now: int)
    ensures Outlive(list, interval, now, AfterInterval(list, interval, now))
  {
    if list != [] {
      AfterIntervalExact(list[1..], interval, now);
      var c, rest, after := list[0], AfterInterval(list[1..], interval, now), AfterInterval(list, interval, now);
      assert list == [c] + list[1..];
      if c.ticks == -1 {
        assert after == [c] + rest;
      } else if c.endTime >= now {
        assert after == [Older(c, interval)] + rest;
      } else {
        assert after == rest;
      }
    }
  }

  /** What a removal leaves on the list. */
  ghost predicate Spared(r: Removal, c: Condition) {
    match r
    case OfType(conditionType) => c.conditionType != conditionType
    case OfTypeAndId(conditionType, id) => c.conditionType != conditionType || c.id != id
    case All(onlyPersistent) => onlyPersistent && (c.ticks <= 0 || c.id == CONDITIONID_COMBAT)
  }

  lemma {:induction false} RemainingExact(list: seq<Condition>, r: Removal)
    ensures forall c :: c in Remaining(list, r) <==> c in list && Spared(r, c)
  {
    if list != [] {
      RemainingExact(list[1..], r);
      assert list == [list[0]] + list[1..];
    }
  }

  class Creature {
    const isPlayer: bool
    var conditions: seq<Condition>
    var varSpeed: int
    const varSkills: array<int>
    const varStats: array<int>
    ghost const otherSpeed: int
    ghost const otherSkills: seq<int>
    ghost const otherStats: seq<int>

    ghost predicate Shaped() {
      varSkills.Length == |otherSkills| == SKILLS && varStats.Length == |otherStats| == STATS && varSkills != varStats
    }

    /** The value in force. */
    ghost function Var(what: What): int
      requires Shaped() && Known(what)
      reads this`varSpeed, varSkills, varStats
    {
      match what
      case Speed => varSpeed
      case Skill(i) => varSkills[i]
      case Stat(i) => varStats[i]
    }

    ghost function Other(what: What): int
      requires Shaped() && Known(what)
    {
      match what
      case Speed => otherSpeed
      case Skill(i) => otherSkills[i]
      case Stat(i) => otherStats[i]
    }

    /** Every value in force is the sum of what these conditions give, over what comes from elsewhere. */
    ghost predicate Balanced(list: seq<Condition>)
      reads this`varSpeed, varSkills, varStats
    {
      Shaped() && forall what {:trigger Var(what)} | Known(what) :: Var(what) == Other(what) + Sum(list, what, isPlayer)
    }

    ghost predicate Valid()
      reads this`conditions, this`varSpeed, varSkills, varStats
    {
      Balanced(conditions) && Unique(conditions) && forall c | c in conditions :: WellFormed(c)
    }

    constructor (isPlayer: bool, speed: int, skills: seq<int>, stats: seq<int>)
      requires |skills| == SKILLS && |stats| == STATS
      ensures Valid() && conditions == [] && this.isPlayer == isPlayer && fresh(varSkills) && fresh(varStats)
    {
      this.isPlayer, conditions, varSpeed := isPlayer, [], speed;
      varSkills := new int[SKILLS](i requires 0 <= i < SKILLS => skills[i]);
      varStats := new int[STATS](i requires 0 <= i < STATS => stats[i]);
      otherSpeed, otherSkills, otherStats := speed, skills, stats;
    }

    method ChangeSpeed(varSpeedDelta: int)
      modifies this`varSpeed
      ensures varSpeed == old(varSpeed) + varSpeedDelta
    {
      varSpeed := varSpeed + varSpeedDelta;
    }

    /** updateSkills and updateStats, or with the other sign the loops of endCondition. */
    method ChangeAttributes(effect: Effect, sign: int)
      requires Shaped() && effect.AttributeEffect? && |effect.skills| == SKILLS && |effect.stats| == STATS &&
        (sign == 1 || sign == -1)
      modifies varSkills, varStats
      ensures forall i | 0 <= i < SKILLS :: varSkills[i] == old(varSkills[i]) + sign * effect.skills[i]
      ensures forall i | 0 <= i < STATS :: varStats[i] == old(varStats[i]) + sign * effect.stats[i]
    {
      for i := 0 to SKILLS
        invariant forall j | 0 <= j < i :: varSkills[j] == old(varSkills[j]) + sign * effect.skills[j]
        invariant forall j | i <= j < SKILLS :: varSkills[j] == old(varSkills[j])
        invariant forall j | 0 <= j < STATS :: varStats[j] == old(varStats[j])
      {
        if effect.skills[i] != 0 {
          varSkills[i] := varSkills[i] + sign * effect.skills[i];
        }
      }
      for i := 0 to STATS
        invariant forall j | 0 <= j < i :: varStats[j] == old(varStats[j]) + sign * effect.stats[j]
        invariant forall j | i <= j < STATS :: varStats[j] == old(varStats[j])
        invariant forall j | 0 <= j < SKILLS :: varSkills[j] == old(varSkills[j]) + sign * effect.skills[j]
      {
        if effect.stats[i] != 0 {
          varStats[i] := varStats[i] + sign * effect.stats[i];
        }
      }
    }

    /** endCondition: what the condition gave is taken away again. */
    method EndCondition(c: Condition)
      requires Shaped() && WellFormed(c)
      modifies this`varSpeed, varSkills, varStats
      ensures forall what {:trigger Var(what)} | Known(what) :: Var(what) == old(Var(what)) - Share(c, what, isPlayer)
      ensures c.effect.SpeedEffect? ==> varSpeed == old(varSpeed) - c.effect.speedDelta
      ensures c.effect.AttributeEffect? && isPlayer ==>
        forall i | 0 <= i < SKILLS :: varSkills[i] == old(varSkills[i]) - c.effect.skills[i]
      ensures c.effect.AttributeEffect? && isPlayer ==>
        forall i | 0 <= i < STATS :: varStats[i] == old(varStats[i]) - c.effect.stats[i]
    {
      match c.effect
      case NoEffect =>
      case SpeedEffect(speedDelta) => ChangeSpeed(-speedDelta);
      case AttributeEffect(_, _, _, _) =>
        if isPlayer {
          ChangeAttributes(c.effect, -1);
        }
    }

    /** startCondition. */
    method StartCondition(c: Condition, env: Env) returns (ok: bool, d: Condition)
      requires Shaped() && WellFormed(c) && EnvOk(env)
      modifies this`varSpeed, varSkills, varStats
      ensures ok == (!c.effect.NoEffect? || env.starts) && d == Started(c, isPlayer, env)
      ensures forall what {:trigger Var(what)} | Known(what) :: Var(what) == old(Var(what)) + Share(d, what, isPlayer)
      ensures d.effect.SpeedEffect? ==> varSpeed == old(varSpeed) + d.effect.speedDelta
      ensures d.effect.AttributeEffect? && isPlayer ==>
        forall i | 0 <= i < SKILLS :: varSkills[i] == old(varSkills[i]) + d.effect.skills[i]
      ensures d.effect.AttributeEffect? && isPlayer ==>
        forall i | 0 <= i < STATS :: varStats[i] == old(varStats[i]) + d.effect.stats[i]
    {
      d := Started(c, isPlayer, env);
      ok := true;
      match d.effect
      case NoEffect => ok := env.starts;
      case SpeedEffect(speedDelta) => ChangeSpeed(speedDelta);
      case AttributeEffect(_, _, _, _) =>
        if isPlayer {
          ChangeAttributes(d.effect, 1);
        }
    }

    /** getCondition: the place of the condition with this key, or -1. */
    method GetCondition(key: Key) returns (k: int)
      ensures -1 <= k < |conditions|
      ensures k >= 0 ==> KeyOf(conditions[k]) == key
      ensures k == -1 ==> forall c | c in conditions :: KeyOf(c) != key
    {
      k := 0;
      while k < |conditions|
        invariant 0 <= k <= |conditions| && forall j | 0 <= j < k :: KeyOf(conditions[j]) != key
      {
        if KeyOf(conditions[k]) == key {
          return;
        }
        k := k + 1;
      }
      return -1;
    }

    /** addCondition of a condition, by its subclass: the effect of what it was gives way to that of what
        it becomes. */
    method Merge(c: Condition, add: Condition, env: Env) returns (d: Condition)
      requires Shaped() && WellFormed(c) && WellFormed(add) && KeyOf(c) == KeyOf(add) && EnvOk(env)
      modifies this`varSpeed, varSkills, varStats
      ensures d == Merged(c, add, isPlayer, env)
      ensures forall what {:trigger Var(what)} | Known(what) ::
        Var(what) == old(Var(what)) - Share(c, what, isPlayer) + Share(d, what, isPlayer)
    {
      d := Merged(c, add, isPlayer, env);
      match c.effect {
        case SpeedEffect(oldSpeedDelta) =>
          if !(c.ticks == -1 && add.ticks > 0) {
            var newSpeedChange := d.effect.speedDelta - oldSpeedDelta;
            if newSpeedChange != 0 {
              ChangeSpeed(newSpeedChange);
            }
          }
        case AttributeEffect(_, _, _, _) =>
          if Updates(c, add, env.now) {
            EndCondition(c);
            AfterEnd(c, old(varSpeed), old(varSkills[..]), old(varStats[..]));
            if isPlayer {
              ChangeAttributes(d.effect, 1);
            }
          }
        case NoEffect =>
      }
    }

    /** What the end of a condition did, field by field. */
    lemma AfterEnd(c: Condition, speed: int, skills: seq<int>, stats: seq<int>)
      requires Shaped() && |skills| == SKILLS && |stats| == STATS
      requires forall what {:trigger Var(what)} | Known(what) ::
        Var(what) ==
          (match what case Speed => speed case Skill(i) => skills[i] case Stat(i) => stats[i]) - Share(c, what,
            isPlayer)
      ensures varSpeed == speed - Share(c, Speed, isPlayer)
      ensures forall i | 0 <= i < SKILLS :: varSkills[i] == skills[i] - Share(c, Skill(i), isPlayer)
      ensures forall i | 0 <= i < STATS :: varStats[i] == stats[i] - Share(c, Stat(i), isPlayer)
    {
      assert Var(Speed) == varSpeed;
      assert forall i: nat | i < SKILLS :: Var(Skill(i)) == varSkills[i];
      assert forall i: nat | i < STATS :: Var(Stat(i)) == varStats[i];
    }

    method MergeAt(k: nat, add: Condition, env: Env)
      requires Valid() && k < |conditions| && WellFormed(add) && KeyOf(conditions[k]) == KeyOf(add) && EnvOk(env)
      modifies this`conditions, this`varSpeed, varSkills, varStats
      ensures Valid() && conditions == old(conditions[k := Merged(conditions[k], add, isPlayer, env)])
    {
      ghost var before := conditions;
      var d := Merge(conditions[k], add, env);
      forall what {
        SumUpdate(before, k, d, what, isPlayer);
      }
      UniqueUpdate(before, k, d);
      conditions := conditions[k := d];
    }

    /** Creature::addCondition: one that is there already is merged, another starts and is added. */
    method AddCondition(add: Condition, env: Env) returns (ok: bool)
      requires Valid() && WellFormed(add) && EnvOk(env)
      modifies this`conditions, this`varSpeed, varSkills, varStats
      ensures Valid()
      ensures forall k | 0 <= k < |old(conditions)| && KeyOf(old(conditions[k])) == KeyOf(add) ::
        && ok && conditions == old(conditions[k := Merged(conditions[k], add, isPlayer, env)])
        && WellFormed(old(conditions[k])) && Prevails(old(conditions[k]), add, conditions[k], isPlayer, env)
      ensures (forall c | c in old(conditions) :: KeyOf(c) != KeyOf(add)) ==>
        && ok == (!add.effect.NoEffect? || env.starts)
        && conditions == (if ok then old(conditions) + [Started(add, isPlayer, env)] else old(conditions))
        && (ok ==> TakesOver(add, add, conditions[|conditions| - 1], isPlayer, env))
    {
      var k := GetCondition(KeyOf(add));
      if k >= 0 {
        MergedExact(conditions[k], add, isPlayer, env);
        MergeAt(k, add, env);
        return true;
      }
      ghost var before := conditions;
      StartedExact(add, isPlayer, env);
      var d;
      ok, d := StartCondition(add, env);
      if ok {
        conditions := conditions + [d];
        forall what {
          SumAppend(before, d, what, isPlayer);
        }
      }
    }

    /** The condition at `it` leaves the list, and its effect ends. */
    method EraseAndEnd(it: nat)
      requires Valid() && it < |conditions|
      modifies this`conditions, this`varSpeed, varSkills, varStats
      ensures Valid() && conditions == old(conditions[..it] + conditions[it + 1..])
    {
      var condition := conditions[it];
      ghost var before := conditions;
      conditions := conditions[..it] + conditions[it + 1..];
      forall what {
        SumRemove(before, it, what, isPlayer);
      }
      UniqueRemove(before, it);
      EndCondition(condition);
    }

    /** removeCondition and removeConditions. */
    method RemoveConditions(r: Removal)
      requires Valid()
      modifies this`conditions, this`varSpeed, varSkills, varStats
      ensures Valid() && conditions == old(Remaining(conditions, r))
      ensures forall c :: c in conditions <==> c in old(conditions) && Spared(r, c)
    {
      var it := 0;
      RemainingExact(conditions, r);
      RemainingAll(conditions, r);
      while it < |conditions|
        invariant 0 <= it <= |conditions| && Valid()
        invariant conditions[..it] + Remaining(conditions[it..], r) == old(Remaining(conditions, r))
        decreases |conditions| - it
      {
        RemainingStep(conditions, it, r);
        if !Removes(r, conditions[it]) {
          it := it + 1;
        } else {
          EraseAndEnd(it);
        }
      }
      assert conditions[..it] + [] == conditions;
    }

    /** executeConditions: those whose time is over end. */
    method ExecuteConditions(interval: nat, now: int)
      requires Valid()
      modifies this`conditions, this`varSpeed, varSkills, varStats
      ensures Valid() && conditions == old(AfterInterval(conditions, interval, now))
      ensures Outlive(old(conditions), interval, now, conditions)
    {
      var it := 0;
      AfterIntervalExact(conditions, interval, now);
      assert conditions[..0] + AfterInterval(conditions[0..], interval, now) ==
        AfterInterval(conditions, interval, now) by {
        assert conditions[0..] == conditions;
      }
      while it < |conditions|
        invariant 0 <= it <= |conditions| && Valid()
        invariant conditions[..it] + AfterInterval(conditions[it..], interval, now) ==
          old(AfterInterval(conditions, interval, now))
        decreases |conditions| - it
      {
        IntervalStep(conditions, it, interval, now);
        var alive := ExecuteCondition(it, interval, now);
        if alive {
          it := it + 1;
        } else {
          EraseAndEnd(it);
        }
      }
      assert conditions[..it] + [] == conditions;
    }

    /** executeCondition. */
    method ExecuteCondition(k: nat, interval: nat, now: int) returns (alive: bool)
      requires Valid() && k < |conditions|
      modifies this`conditions
      ensures Valid() && conditions == old(conditions[k := Executed(conditions[k], interval)]) &&
        alive == old(Lasts(conditions[k], now))
    {
      var c := conditions[k];
      ghost var before := conditions;
      forall what {
        SumUpdate(before, k, Executed(c, interval), what, isPlayer);
      }
      UniqueUpdate(before, k, Executed(c, interval));
      conditions := conditions[k := Executed(c, interval)];
      return if c.ticks == -1 then true else c.endTime >= now;
    }

    /** Without conditions a creature is what it is from elsewhere: all effects have cancelled. */
    lemma EffectsCancel()
      requires Valid() && conditions == []
      ensures varSpeed == otherSpeed && varSkills[..] == otherSkills && varStats[..] == otherStats
    {
      assert Var(Speed) == Other(Speed);
      forall i | 0 <= i < SKILLS ensures varSkills[i] == otherSkills[i] {
        assert Var(Skill(i)) == Other(Skill(i));
      }
      forall i | 0 <= i < STATS ensures varStats[i] == otherStats[i] {
        assert Var(Stat(i)) == Other(Stat(i));
      }
    }

    method Handle(e: Event)
      requires Valid() && (e.Add? ==> WellFormed(e.condition) && EnvOk(e.env))
      modifies this`conditions, this`varSpeed, varSkills, varStats
      ensures Valid()
    {
      match e
      case Add(condition, env) => var _ := AddCondition(condition, env);
      case Remove(r) => RemoveConditions(r);
      case RemoveAt(k) =>
        if k < |conditions| {
          EraseAndEnd(k);
        }
      case Execute(interval, now) => ExecuteConditions(interval, now);
    }

    /** Whatever comes in whatever order: speed, skills and stats are always those of the conditions on the
        list, and when all conditions are removed nothing of them is left. */
    method Run(events: seq<Event>)
      requires Valid() && forall e | e in events && e.Add? :: WellFormed(e.condition) && EnvOk(e.env)
      modifies this`conditions, this`varSpeed, varSkills, varStats
      ensures Valid() && conditions == []
      ensures varSpeed == otherSpeed && varSkills[..] == otherSkills && varStats[..] == otherStats
    {
      for k := 0 to |events|
        invariant Valid()
      {
        Handle(events[k]);
      }
      NoneRemain(conditions);
      RemoveConditions(All(false));
      EffectsCancel();
    }
  }

  datatype Event =
    | Add(condition: Condition, env: Env)
    | Remove(r: Removal)
    | RemoveAt(k: nat)
    | Execute(interval: nat, now: int)

  lemma UniqueUpdate(list: seq<Condition>, k: nat, c: Condition)
    requires Unique(list) && k < |list| && KeyOf(c) == KeyOf(list[k])
    ensures Unique(list[k := c])
  {
  }

  lemma UniqueRemove(list: seq<Condition>, k: nat)
    requires Unique(list) && k < |list|
    ensures Unique(list[..k] + list[k + 1..])
  {
  }

  lemma {:induction false} NoneRemain(list: seq<Condition>)
    ensures Remaining(list, All(false)) == []
  {
    if list != [] {
      NoneRemain(list[1..]);
    }
  }

  lemma RemainingAll(list: seq<Condition>, r: Removal)
    ensures list[..0] + Remaining(list[0..], r) == Remaining(list, r)
  {
    assert list[0..] == list;
  }

  lemma RemainingStep(list: seq<Condition>, it: nat, r: Removal)
    requires it < |list|
    ensures Removes(r, list[it]) ==>
      var next := list[..it] + list[it + 1..];
      next[..it] + Remaining(next[it..], r) == list[..it] + Remaining(list[it..], r)
    ensures !Removes(r, list[it]) ==>
      list[..it + 1] + Remaining(list[it + 1..], r) == list[..it] + Remaining(list[it..], r)
  {
    var next := list[..it] + list[it + 1..];
    assert list[it..][1..] == list[it + 1..] && next[..it] == list[..it] && next[it..] == list[it + 1..];
    assert list[..it + 1] == list[..it] + [list[it]];
  }

  lemma IntervalStep(list: seq<Condition>, it: nat, interval: nat, now: int)
    requires it < |list|
    ensures var done := list[it := Executed(list[it], interval)];
      var next := done[..it] + done[it + 1..];
      if Lasts(list[it], now) then
        done[..it + 1] + AfterInterval(done[it + 1..], interval, now) ==
          list[..it] + AfterInterval(list[it..], interval, now)
      else
        next[..it] + AfterInterval(next[it..], interval, now) == list[..it] + AfterInterval(list[it..], interval, now)
  {
    var done := list[it := Executed(list[it], interval)];
    var next := done[..it] + done[it + 1..];
    assert list[it..][1..] == list[it + 1..] && done[it + 1..] == list[it + 1..];
    assert next[..it] == list[..it] && next[it..] == list[it + 1..];
    assert done[..it + 1] == list[..it] + [done[it]];
  }
}
