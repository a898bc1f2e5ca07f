/** Saving and loading conditions: the serialize and unserializeProp members of src/condition.cpp, the
    streams of src/fileloader.h and the loops over a player's conditions in src/iologindata.cpp.

    A float is its 32 bits, an outfit its 10 bytes as they lie in memory; both are copied and never
    looked at. Numbers are stored with the lowest byte first. */
module ConditionStream {
  import opened Common
  import opened Conditions
  import BitMask

  const TWO32 := 0x1_0000_0000

  type Int32 = x: int | -0x8000_0000 <= x < 0x8000_0000
  type UInt32 = x: int | 0 <= x < TWO32
  type Outfit = s: seq<Byte> | |s| == 10 witness [0, 0, 0, 0, 0, 0, 0, 0, 0, 0]

  // attributes of the stream
  const CONDITIONATTR_TYPE: Byte := 1
  const CONDITIONATTR_ID: Byte := 2
  const CONDITIONATTR_TICKS: Byte := 3
  const CONDITIONATTR_HEALTHTICKS: Byte := 4
  const CONDITIONATTR_HEALTHGAIN: Byte := 5
  const CONDITIONATTR_MANATICKS: Byte := 6
  const CONDITIONATTR_MANAGAIN: Byte := 7
  const CONDITIONATTR_DELAYED: Byte := 8
  const CONDITIONATTR_OWNER: Byte := 9
  const CONDITIONATTR_INTERVALDATA: Byte := 10
  const CONDITIONATTR_SPEEDDELTA: Byte := 11
  const CONDITIONATTR_FORMULA_MINA: Byte := 12
  const CONDITIONATTR_FORMULA_MINB: Byte := 13
  const CONDITIONATTR_FORMULA_MAXA: Byte := 14
  const CONDITIONATTR_FORMULA_MAXB: Byte := 15
  const CONDITIONATTR_LIGHTCOLOR: Byte := 16
  const CONDITIONATTR_LIGHTLEVEL: Byte := 17
  const CONDITIONATTR_LIGHTTICKS: Byte := 18
  const CONDITIONATTR_LIGHTINTERVAL: Byte := 19
  const CONDITIONATTR_SOULTICKS: Byte := 20
  const CONDITIONATTR_SOULGAIN: Byte := 21
  const CONDITIONATTR_SKILLS: Byte := 22
  const CONDITIONATTR_STATS: Byte := 23
  const CONDITIONATTR_OUTFIT: Byte := 24
  const CONDITIONATTR_PERIODDAMAGE: Byte := 25
  const CONDITIONATTR_BUFF: Byte := 26
  const CONDITIONATTR_SUBID: Byte := 27
  const CONDITIONATTR_END: Byte := 254

  /** What the subclasses of Condition add. */
  datatype Data =
    | Generic
    | Attributes(skills: seq<Int32>, stats: seq<Int32>, currentSkill: nat, currentStat: nat)
    | Regeneration(healthTicks: UInt32, healthGain: UInt32, manaTicks: UInt32, manaGain: UInt32)
    | Soul(soulGain: UInt32, soulTicks: UInt32)
    | Damage(delayed: bool, periodDamage: Int32, owner: UInt32, damageList: seq<IntervalInfo<Int32>>)
    | Outfits(outfits: seq<Outfit>)
    | Speed(outfits: seq<Outfit>, speedDelta: Int32, mina: UInt32, minb: UInt32, maxa: UInt32, maxb: UInt32)
    | Light(color: UInt32, level: UInt32, lightTicks: UInt32, lightInterval: UInt32)

  datatype Condition = Condition(conditionType: Int32, id: Int32, ticks: int, buff: bool, subId: UInt32, data: Data)

  // numbers as bytes

  function WordBytes(v: int): (bytes: seq<Byte>)
    ensures |bytes| == 4
  {
    var n := v % TWO32;
    [n % 256, n / 256 % 256, n / 65536 % 256, n / 16777216]
  }

  function Unsigned(bytes: seq<Byte>): UInt32
    requires |bytes| == 4
  {
    bytes[0] as int + 256 * bytes[1] as int + 65536 * bytes[2] as int + 16777216 * bytes[3] as int
  }

  function Signed(bytes: seq<Byte>): Int32
    requires |bytes| == 4
  {
    var n := Unsigned(bytes);
    if n < 0x8000_0000 then n else n - TWO32
  }

  lemma WordRoundTrip(v: int)
    ensures 0 <= v < TWO32 ==> Unsigned(WordBytes(v)) == v
    ensures -0x8000_0000 <= v < 0x8000_0000 ==> Signed(WordBytes(v)) == v
  {
    var n := v % TWO32;
    assert n / 256 / 256 == n / 65536 && n / 65536 / 256 == n / 16777216;
  }

  // a saved condition is a list of attributes

  datatype Prop = Prop(attr: Byte, data: seq<Byte>)

  function Encode(props: seq<Prop>): seq<Byte> {
    if props == [] then [] else [props[0].attr] + props[0].data + Encode(props[1..])
  }

  lemma {:induction false} EncodeAppend(a: seq<Prop>, b: seq<Prop>)
    ensures Encode(a + b) == Encode(a) + Encode(b)
  {
    if a == [] {
      assert a + b == b;
    } else {
      EncodeAppend(a[1..], b);
      assert (a + b)[1..] == a[1..] + b;
      AssociateThree([a[0].attr] + a[0].data, Encode(a[1..]), Encode(b));
    }
  }

  lemma EncodeOneMore(start: seq<Byte>, props: seq<Prop>, p: Prop)
    ensures start + Encode(props) + [p.attr] + p.data == start + Encode(props + [p])
  {
    EncodeAppend(props, [p]);
    assert [p][1..] == [] && Encode([p]) == [p.attr] + p.data;
    Regroup(start, Encode(props), [p.attr], p.data);
  }

  function IntervalBytes(info: IntervalInfo<Int32>): (bytes: seq<Byte>)
    ensures |bytes| == 12
  {
    WordBytes(info.timeLeft) + WordBytes(info.value) + WordBytes(info.interval)
  }

  function Interval(bytes: seq<Byte>): IntervalInfo<Int32>
    requires |bytes| == 12
  {
    IntervalInfo(Signed(bytes[..4]), Signed(bytes[4..8]), Signed(bytes[8..]))
  }

  lemma IntervalRoundTrip(info: IntervalInfo<Int32>)
    ensures Interval(IntervalBytes(info)) == info
  {
    var bytes := IntervalBytes(info);
    assert bytes[..4] == WordBytes(info.timeLeft) && bytes[4..8] == WordBytes(info.value) &&
      bytes[8..] == WordBytes(info.interval);
    WordRoundTrip(info.timeLeft);
    WordRoundTrip(info.value);
    WordRoundTrip(info.interval);
  }

  function Header(c: Condition): seq<Prop> {
    [Prop(CONDITIONATTR_TYPE, WordBytes(c.conditionType)), Prop(CONDITIONATTR_ID, WordBytes(c.id)),
     Prop(CONDITIONATTR_TICKS, WordBytes(c.ticks)), Prop(CONDITIONATTR_BUFF, WordBytes(if c.buff then 1 else 0)),
     Prop(CONDITIONATTR_SUBID, WordBytes(c.subId))]
  }

  function Words(attr: Byte, values: seq<Int32>): seq<Prop> {
    if values == [] then [] else [Prop(attr, WordBytes(values[0]))] + Words(attr, values[1..])
  }

  function Intervals(list: seq<IntervalInfo<Int32>>): seq<Prop> {
    if list == [] then [] else [Prop(CONDITIONATTR_INTERVALDATA, IntervalBytes(list[0]))] + Intervals(list[1..])
  }

  function OutfitProps(outfits: seq<Outfit>): seq<Prop> {
    if outfits == [] then [] else [Prop(CONDITIONATTR_OUTFIT, outfits[0])] + OutfitProps(outfits[1..])
  }

  /** What a subclass writes behind the header. */
  function Tail(data: Data): seq<Prop> {
    match data
    case Generic => []
    case Attributes(skills, stats, _, _) => Words(CONDITIONATTR_SKILLS, skills) + Words(CONDITIONATTR_STATS, stats)
    case Regeneration(healthTicks, healthGain, manaTicks, manaGain) =>
      [Prop(CONDITIONATTR_HEALTHTICKS, WordBytes(healthTicks)), Prop(CONDITIONATTR_HEALTHGAIN, WordBytes(healthGain)),
       Prop(CONDITIONATTR_MANATICKS, WordBytes(manaTicks)), Prop(CONDITIONATTR_MANAGAIN, WordBytes(manaGain))]
    case Soul(soulGain, soulTicks) =>
      [Prop(CONDITIONATTR_SOULGAIN, WordBytes(soulGain)), Prop(CONDITIONATTR_SOULTICKS, WordBytes(soulTicks))]
    case Damage(delayed, periodDamage, owner, damageList) =>
      [Prop(CONDITIONATTR_DELAYED, [if delayed then 1 else 0]),
       Prop(CONDITIONATTR_PERIODDAMAGE, WordBytes(periodDamage)), Prop(CONDITIONATTR_OWNER, WordBytes(owner))]
      + Intervals(damageList)
    case Outfits(outfits) => OutfitProps(outfits)
    case Speed(outfits, speedDelta, mina, minb, maxa, maxb) =>
      OutfitProps(outfits)
      + [Prop(CONDITIONATTR_SPEEDDELTA, WordBytes(speedDelta)), Prop(CONDITIONATTR_FORMULA_MINA, WordBytes(mina)),
         Prop(CONDITIONATTR_FORMULA_MINB, WordBytes(minb)), Prop(CONDITIONATTR_FORMULA_MAXA, WordBytes(maxa)),
         Prop(CONDITIONATTR_FORMULA_MAXB, WordBytes(maxb))]
    case Light(color, level, lightTicks, lightInterval) =>
      [Prop(CONDITIONATTR_LIGHTCOLOR, WordBytes(color)), Prop(CONDITIONATTR_LIGHTLEVEL, WordBytes(level)),
       Prop(CONDITIONATTR_LIGHTTICKS, WordBytes(lightTicks)),
       Prop(CONDITIONATTR_LIGHTINTERVAL, WordBytes(lightInterval))]
  }

  // reading

  /** How many bytes unserializeProp reads for an attribute, if the condition knows it. */
  function Size(data: Data, attr: Byte): Option<nat> {
    if attr == CONDITIONATTR_TYPE || attr == CONDITIONATTR_ID || attr == CONDITIONATTR_TICKS then Some(4)
    else if attr == CONDITIONATTR_BUFF || attr == CONDITIONATTR_SUBID then Some(4)
    else if attr == CONDITIONATTR_END then Some(0)
    else
      match data
      case Generic => None
      case Attributes(_, _, _, _) =>
        if attr == CONDITIONATTR_SKILLS || attr == CONDITIONATTR_STATS then Some(4) else None
      case Regeneration(_, _, _, _) =>
        if CONDITIONATTR_HEALTHTICKS <= attr <= CONDITIONATTR_MANAGAIN then Some(4) else None
      case Soul(_, _) => if attr == CONDITIONATTR_SOULTICKS || attr == CONDITIONATTR_SOULGAIN then Some(4) else None
      case Damage(_, _, _, _) =>
        if attr == CONDITIONATTR_DELAYED then Some(1)
        else if attr == CONDITIONATTR_PERIODDAMAGE || attr == CONDITIONATTR_OWNER then Some(4)
        else if attr == CONDITIONATTR_INTERVALDATA then Some(12)
        else None
      case Outfits(_) => if attr == CONDITIONATTR_OUTFIT then Some(10) else None
      case Speed(_, _, _, _, _, _) =>
        if attr == CONDITIONATTR_OUTFIT then Some(10)
        else if CONDITIONATTR_SPEEDDELTA <= attr <= CONDITIONATTR_FORMULA_MAXB then Some(4)
        else None
      case Light(_, _, _, _) =>
        if CONDITIONATTR_LIGHTCOLOR <= attr <= CONDITIONATTR_LIGHTINTERVAL then Some(4) else None
  }

  /** The attribute can be taken: it is known, has its size, and there is room in the arrays. */
  predicate Takes(data: Data, p: Prop) {
    && Size(data, p.attr) == Some(|p.data|)
    && (data.Attributes? ==>
          && (p.attr == CONDITIONATTR_SKILLS ==> data.currentSkill < |data.skills|)
          && (p.attr == CONDITIONATTR_STATS ==> data.currentStat < |data.stats|))
  }

  /** The effect of one attribute on a condition. */
  function Apply(c: Condition, p: Prop): Condition
    requires Takes(c.data, p)
  {
    var b := p.data;
    if p.attr == CONDITIONATTR_TYPE then c.(conditionType := Signed(b))
    else if p.attr == CONDITIONATTR_ID then c.(id := Signed(b))
    else if p.attr == CONDITIONATTR_TICKS then c.(ticks := Signed(b))
    else if p.attr == CONDITIONATTR_BUFF then c.(buff := Signed(b) != 0)
    else if p.attr == CONDITIONATTR_SUBID then c.(subId := Unsigned(b))
    else if p.attr == CONDITIONATTR_END then c
    else if p.attr == CONDITIONATTR_INTERVALDATA then
      var info := Interval(b);
      c.(data := c.data.(damageList := c.data.damageList + [info]),
         ticks := if c.ticks == -1 then -1 else c.ticks + info.interval)
    else c.(data := ApplyOwn(c.data, p))
  }

  /** The effect of an attribute that only the subclass knows on what the subclass adds. */
  function ApplyOwn(d: Data, p: Prop): Data
    requires Takes(d, p) && CONDITIONATTR_TICKS < p.attr && p.attr != CONDITIONATTR_INTERVALDATA
    requires p.attr != CONDITIONATTR_BUFF && p.attr != CONDITIONATTR_SUBID && p.attr != CONDITIONATTR_END
  {
    var b := p.data;
    match d
    case Generic => d
    case Attributes(skills, stats, currentSkill, currentStat) =>
      if p.attr == CONDITIONATTR_SKILLS then
        d.(skills := skills[currentSkill := Signed(b)], currentSkill := currentSkill + 1)
      else d.(stats := stats[currentStat := Signed(b)], currentStat := currentStat + 1)
    case Regeneration(_, _, _, _) =>
      if p.attr == CONDITIONATTR_HEALTHTICKS then d.(healthTicks := Unsigned(b))
      else if p.attr == CONDITIONATTR_HEALTHGAIN then d.(healthGain := Unsigned(b))
      else if p.attr == CONDITIONATTR_MANATICKS then d.(manaTicks := Unsigned(b))
      else d.(manaGain := Unsigned(b))
    case Soul(_, _) =>
      if p.attr == CONDITIONATTR_SOULGAIN then d.(soulGain := Unsigned(b)) else d.(soulTicks := Unsigned(b))
    case Damage(_, _, _, _) =>
      if p.attr == CONDITIONATTR_DELAYED then d.(delayed := b[0] != 0)
      else if p.attr == CONDITIONATTR_PERIODDAMAGE then d.(periodDamage := Signed(b))
      else d.(owner := Unsigned(b))
    case Outfits(outfits) => Outfits(outfits + [b])
    case Speed(outfits, _, _, _, _, _) =>
      if p.attr == CONDITIONATTR_OUTFIT then d.(outfits := outfits + [b])
      else if p.attr == CONDITIONATTR_SPEEDDELTA then d.(speedDelta := Signed(b))
      else if p.attr == CONDITIONATTR_FORMULA_MINA then d.(mina := Unsigned(b))
      else if p.attr == CONDITIONATTR_FORMULA_MINB then d.(minb := Unsigned(b))
      else if p.attr == CONDITIONATTR_FORMULA_MAXA then d.(maxa := Unsigned(b))
      else d.(maxb := Unsigned(b))
    case Light(_, _, _, _) =>
      if p.attr == CONDITIONATTR_LIGHTCOLOR then d.(color := Unsigned(b))
      else if p.attr == CONDITIONATTR_LIGHTLEVEL then d.(level := Unsigned(b))
      else if p.attr == CONDITIONATTR_LIGHTTICKS then d.(lightTicks := Unsigned(b))
      else d.(lightInterval := Unsigned(b))
  }

  predicate TakesAll(c: Condition, props: seq<Prop>)
    decreases |props|
  {
    props == [] ||
    (Takes(c.data, props[0]) && props[0].attr != CONDITIONATTR_END && TakesAll(Apply(c, props[0]), props[1..]))
  }

  function ApplyAll(c: Condition, props: seq<Prop>): Condition
    requires TakesAll(c, props)
    decreases |props|
  {
    if props == [] then c else ApplyAll(Apply(c, props[0]), props[1..])
  }

  /** Read from these attributes, `c` becomes `d`. */
  predicate Becomes(c: Condition, props: seq<Prop>, d: Condition) {
    TakesAll(c, props) && ApplyAll(c, props) == d
  }

  lemma {:induction false} BecomesInTwo(c: Condition, a: seq<Prop>, d: Condition, b: seq<Prop>, e: Condition)
    requires Becomes(c, a, d) && Becomes(d, b, e)
    ensures Becomes(c, a + b, e)
    decreases |a|
  {
    if a == [] {
      assert a + b == b;
    } else {
      BecomesInTwo(Apply(c, a[0]), a[1..], d, b, e);
      assert (a + b)[1..] == a[1..] + b;
    }
  }

  lemma BecomesFirst(c: Condition, p: Prop, rest: seq<Prop>, e: Condition)
    requires Takes(c.data, p) && p.attr != CONDITIONATTR_END && Becomes(Apply(c, p), rest, e)
    ensures Becomes(c, [p] + rest, e)
  {
    assert ([p] + rest)[1..] == rest;
  }

  function Zeros(n: nat): (zeros: seq<Int32>)
    ensures |zeros| == n
  {
    seq(n, i => 0)
  }

  /** The subclass that belongs to a type, as it is constructed. */
  function NewData(conditionType: int): Option<Data> {
    match conditionType
    case 1 => Some(Damage(false, 0, 0, []))        // poison
    case 2 => Some(Damage(false, 0, 0, []))        // fire
    case 4 => Some(Damage(false, 0, 0, []))        // energy
    case 8 => Some(Damage(false, 0, 0, []))        // physical
    case 16 => Some(Speed([], 0, 0, 0, 0, 0))      // haste
    case 32 => Some(Speed([], 0, 0, 0, 0, 0))      // paralyze
    case 64 => Some(Outfits([]))                   // outfit
    case 128 => Some(Generic)                      // invisible
    case 256 => Some(Light(0, 0, 0, 0))            // light
    case 512 => Some(Generic)                      // mana shield
    case 1024 => Some(Generic)                     // in fight
    case 2048 => Some(Generic)                     // drunk
    case 4096 => Some(Generic)                     // exhaust
    case 8192 => Some(Regeneration(1000, 0, 1000, 0))
    case 16384 => Some(Soul(0, 0))
    case 32768 => Some(Damage(false, 0, 0, []))    // drown
    case 65536 => Some(Generic)                    // muted
    case 131072 => Some(Attributes(Zeros(SKILLS), Zeros(STATS), 0, 0))
    case 262144 => Some(Damage(false, 0, 0, []))   // freezing
    case 524288 => Some(Damage(false, 0, 0, []))   // dazzled
    case 1048576 => Some(Damage(false, 0, 0, []))  // cursed
    case 2097152 => Some(Generic)                  // pacified
    case 4194304 => Some(Generic)                  // gamemaster
    case 8388608 => Some(Generic)                  // hunting
    case _ => None
  }

  /** The types of each subclass; regeneration starts with a second for either kind of points. */
  lemma KindsExact(t: int)
    ensures NewData(t).Some? && NewData(t).value.Damage? <==>
      t in {1, 2, 4, 8, 32768, 262144, 524288, 1048576}
    ensures NewData(t).Some? && NewData(t).value.Generic? <==>
      t in {128, 512, 1024, 2048, 4096, 65536, 2097152, 4194304, 8388608}
    ensures NewData(t).Some? && NewData(t).value.Speed? <==> t in {16, 32}
    ensures NewData(t).Some? && NewData(t).value.Outfits? <==> t == 64
    ensures NewData(t).Some? && NewData(t).value.Light? <==> t == 256
    ensures NewData(t) == Some(Regeneration(1000, 0, 1000, 0)) <==> t == 8192
    ensures NewData(t).Some? && NewData(t).value.Soul? <==> t == 16384
    ensures NewData(t).Some? && NewData(t).value.Attributes? <==> t == 131072
  {
  }

  /** createCondition without a stream: a damage condition starts without ticks. */
  function Created(conditionType: Int32, id: Int32, ticks: int, buff: bool, subId: UInt32): Option<Condition> {
    match NewData(conditionType)
    case None => None
    case Some(data) => Some(Condition(conditionType, id, if data.Damage? then 0 else ticks, buff, subId, data))
  }

  predicate SameKind(a: Data, b: Data) {
    match a
    case Generic => b.Generic?
    case Attributes(_, _, _, _) => b.Attributes?
    case Regeneration(_, _, _, _) => b.Regeneration?
    case Soul(_, _) => b.Soul?
    case Damage(_, _, _, _) => b.Damage?
    case Outfits(_) => b.Outfits?
    case Speed(_, _, _, _, _, _) => b.Speed?
    case Light(_, _, _, _) => b.Light?
  }

  /** A condition whose subclass is the one of its type. */
  predicate WellFormed(c: Condition) {
    && -0x8000_0000 <= c.ticks < 0x8000_0000
    && NewData(c.conditionType).Some? && SameKind(NewData(c.conditionType).value, c.data)
    && (c.data.Attributes? ==> |c.data.skills| == SKILLS && |c.data.stats| == STATS)
  }

  /** The ticks of a damage condition, counted up from its list while it is read. */
  function Rebuilt(ticks: int, list: seq<IntervalInfo<Int32>>): int
    decreases |list|
  {
    if list == [] then ticks else Rebuilt(if ticks == -1 then -1 else ticks + list[0].interval, list[1..])
  }

  function TotalInterval(list: seq<IntervalInfo<Int32>>): int {
    if list == [] then 0 else list[0].interval + TotalInterval(list[1..])
  }

  lemma {:induction false} RebuiltIsSum(ticks: int, list: seq<IntervalInfo<Int32>>)
    requires ticks >= 0 && forall info | info in list :: info.interval >= 0
    ensures Rebuilt(ticks, list) == ticks + TotalInterval(list)
    decreases |list|
  {
    if list != [] {
      RebuiltIsSum(ticks + list[0].interval, list[1..]);
    }
  }

  /** What a saved condition comes back as: itself, but for the ticks of a damage condition and the two
      positions that reading leaves behind in an attribute condition. */
  function Restored(c: Condition): Condition {
    match c.data
    case Damage(_, _, _, damageList) => c.(ticks := Rebuilt(0, damageList))
    case Attributes(_, _, _, _) => c.(data := c.data.(currentSkill := SKILLS, currentStat := STATS))
    case _ => c
  }

  lemma {:induction false} SkillsRead(c: Condition, skills: seq<Int32>, k: nat)
    requires c.data.Attributes? && |c.data.skills| == |skills| && k <= |skills| && c.data.currentSkill == k
    ensures Becomes(c, Words(CONDITIONATTR_SKILLS, skills[k..]),
      c.(data := c.data.(skills := c.data.skills[..k] + skills[k..], currentSkill := |skills|)))
    decreases |skills| - k
  {
    if k == |skills| {
      assert c.data.skills[..k] + skills[k..] == c.data.skills;
    } else {
      var p := Prop(CONDITIONATTR_SKILLS, WordBytes(skills[k]));
      WordRoundTrip(skills[k]);
      var d := Apply(c, p);
      assert skills[k..][1..] == skills[k + 1..];
      SkillsRead(d, skills, k + 1);
      assert d.data.skills[..k + 1] + skills[k + 1..] == c.data.skills[..k] + skills[k..];
      BecomesFirst(c, p, Words(CONDITIONATTR_SKILLS, skills[k + 1..]),
        c.(data := c.data.(skills := c.data.skills[..k] + skills[k..], currentSkill := |skills|)));
    }
  }

  lemma {:induction false} StatsRead(c: Condition, stats: seq<Int32>, k: nat)
    requires c.data.Attributes? && |c.data.stats| == |stats| && k <= |stats| && c.data.currentStat == k
    ensures Becomes(c, Words(CONDITIONATTR_STATS, stats[k..]),
      c.(data := c.data.(stats := c.data.stats[..k] + stats[k..], currentStat := |stats|)))
    decreases |stats| - k
  {
    if k == |stats| {
      assert c.data.stats[..k] + stats[k..] == c.data.stats;
    } else {
      var p := Prop(CONDITIONATTR_STATS, WordBytes(stats[k]));
      WordRoundTrip(stats[k]);
      var d := Apply(c, p);
      assert stats[k..][1..] == stats[k + 1..];
      StatsRead(d, stats, k + 1);
      assert d.data.stats[..k + 1] + stats[k + 1..] == c.data.stats[..k] + stats[k..];
      BecomesFirst(c, p, Words(CONDITIONATTR_STATS, stats[k + 1..]),
        c.(data := c.data.(stats := c.data.stats[..k] + stats[k..], currentStat := |stats|)));
    }
  }

  lemma {:induction false} IntervalsRead(c: Condition, list: seq<IntervalInfo<Int32>>)
    requires c.data.Damage?
    ensures Becomes(c, Intervals(list),
      c.(data := c.data.(damageList := c.data.damageList + list), ticks := Rebuilt(c.ticks, list)))
    decreases |list|
  {
    if list == [] {
      assert c.data.damageList + list == c.data.damageList;
    } else {
      var p := Prop(CONDITIONATTR_INTERVALDATA, IntervalBytes(list[0]));
      IntervalRoundTrip(list[0]);
      var d := Apply(c, p);
      IntervalsRead(d, list[1..]);
      assert d.data.damageList + list[1..] == c.data.damageList + list;
      BecomesFirst(c, p, Intervals(list[1..]),
        c.(data := c.data.(damageList := c.data.damageList + list), ticks := Rebuilt(c.ticks, list)));
    }
  }

  lemma {:induction false} OutfitsRead(c: Condition, outfits: seq<Outfit>)
    requires c.data.Outfits? || c.data.Speed?
    ensures Becomes(c, OutfitProps(outfits), c.(data := c.data.(outfits := c.data.outfits + outfits)))
    decreases |outfits|
  {
    if outfits == [] {
      assert c.data.outfits + outfits == c.data.outfits;
    } else {
      var p := Prop(CONDITIONATTR_OUTFIT, outfits[0]);
      var d := Apply(c, p);
      OutfitsRead(d, outfits[1..]);
      assert d.data.outfits + outfits[1..] == c.data.outfits + outfits;
      BecomesFirst(c, p, OutfitProps(outfits[1..]), c.(data := c.data.(outfits := c.data.outfits + outfits)));
    }
  }

  /** One attribute turns `c` into `d`. */
  predicate Goes(c: Condition, p: Prop, d: Condition) {
    Takes(c.data, p) && p.attr != CONDITIONATTR_END && Apply(c, p) == d
  }

  /** One number after the other: `c` becomes `g` by four attributes. */
  lemma BecomesByFour(c: Condition, p: Prop, d: Condition, q: Prop, e: Condition, r: Prop, f: Condition, t: Prop,
                      g: Condition)
    requires Goes(c, p, d) && Goes(d, q, e) && Goes(e, r, f) && Goes(f, t, g)
    ensures Becomes(c, [p, q, r, t], g)
  {
    assert Becomes(g, [], g);
    BecomesFirst(f, t, [], g);
    BecomesFirst(e, r, [t], g);
    BecomesFirst(d, q, [r, t], g);
    BecomesFirst(c, p, [q, r, t], g);
    assert [t] + [] == [t] && [r] + [t] == [r, t] && [q] + [r, t] == [q, r, t] && [p] + [q, r, t] == [p, q, r, t];
  }

  lemma RegenerationRead(n: Condition, c: Condition)
    requires n.data.Regeneration? && c.data.Regeneration?
    ensures Becomes(n, Tail(c.data), n.(data := c.data))
  {
    var v := c.data;
    var d := n.(data := n.data.(healthTicks := v.healthTicks));
    var e := n.(data := d.data.(healthGain := v.healthGain));
    var f := n.(data := e.data.(manaTicks := v.manaTicks));
    WordRoundTrip(v.healthTicks);
    WordRoundTrip(v.healthGain);
    WordRoundTrip(v.manaTicks);
    WordRoundTrip(v.manaGain);
    BecomesByFour(n, Prop(CONDITIONATTR_HEALTHTICKS, WordBytes(v.healthTicks)), d,
                  Prop(CONDITIONATTR_HEALTHGAIN, WordBytes(v.healthGain)), e,
                  Prop(CONDITIONATTR_MANATICKS, WordBytes(v.manaTicks)), f,
                  Prop(CONDITIONATTR_MANAGAIN, WordBytes(v.manaGain)), n.(data := v));
  }

  lemma LightRead(n: Condition, c: Condition)
    requires n.data.Light? && c.data.Light?
    ensures Becomes(n, Tail(c.data), n.(data := c.data))
  {
    var v := c.data;
    var d := n.(data := n.data.(color := v.color));
    var e := n.(data := d.data.(level := v.level));
    var f := n.(data := e.data.(lightTicks := v.lightTicks));
    WordRoundTrip(v.color);
    WordRoundTrip(v.level);
    WordRoundTrip(v.lightTicks);
    WordRoundTrip(v.lightInterval);
    BecomesByFour(n, Prop(CONDITIONATTR_LIGHTCOLOR, WordBytes(v.color)), d,
                  Prop(CONDITIONATTR_LIGHTLEVEL, WordBytes(v.level)), e,
                  Prop(CONDITIONATTR_LIGHTTICKS, WordBytes(v.lightTicks)), f,
                  Prop(CONDITIONATTR_LIGHTINTERVAL, WordBytes(v.lightInterval)), n.(data := v));
  }

  lemma SoulRead(n: Condition, c: Condition)
    requires n.data.Soul? && c.data.Soul?
    ensures Becomes(n, Tail(c.data), n.(data := c.data))
  {
    WordRoundTrip(c.data.soulGain);
    WordRoundTrip(c.data.soulTicks);
    var p, q := Prop(CONDITIONATTR_SOULGAIN, WordBytes(c.data.soulGain)),
      Prop(CONDITIONATTR_SOULTICKS, WordBytes(c.data.soulTicks));
    var d := Apply(Apply(n, p), q);
    assert Becomes(d, [], d);
    BecomesFirst(Apply(n, p), q, [], d);
    BecomesFirst(n, p, [q], d);
    assert [q] + [] == [q] && [p] + [q] == [p, q];
  }

  lemma DamageRead(n: Condition, c: Condition)
    requires n.data.Damage? && c.data.Damage? && n.data.damageList == [] && n.ticks == 0
    ensures Becomes(n, Tail(c.data), n.(data := c.data, ticks := Rebuilt(0, c.data.damageList)))
  {
    WordRoundTrip(c.data.periodDamage);
    WordRoundTrip(c.data.owner);
    var p, q := Prop(CONDITIONATTR_DELAYED, [if c.data.delayed then 1 else 0]),
      Prop(CONDITIONATTR_PERIODDAMAGE, WordBytes(c.data.periodDamage));
    var r := Prop(CONDITIONATTR_OWNER, WordBytes(c.data.owner));
    var d := Apply(Apply(Apply(n, p), q), r);
    var e := n.(data := c.data, ticks := Rebuilt(0, c.data.damageList));
    IntervalsRead(d, c.data.damageList);
    assert [] + c.data.damageList == c.data.damageList;
    var list := Intervals(c.data.damageList);
    BecomesFirst(Apply(Apply(n, p), q), r, list, e);
    BecomesFirst(Apply(n, p), q, [r] + list, e);
    BecomesFirst(n, p, [q] + ([r] + list), e);
    assert [p] + ([q] + ([r] + list)) == [p, q, r] + list;
  }

  function FormulaProps(d: Data): seq<Prop>
    requires d.Speed?
  {
    [Prop(CONDITIONATTR_FORMULA_MINA, WordBytes(d.mina)), Prop(CONDITIONATTR_FORMULA_MINB, WordBytes(d.minb)),
     Prop(CONDITIONATTR_FORMULA_MAXA, WordBytes(d.maxa)), Prop(CONDITIONATTR_FORMULA_MAXB, WordBytes(d.maxb))]
  }

  lemma FormulaRead(n: Condition, c: Condition)
    requires n.data.Speed? && c.data.Speed? && n.data.outfits == c.data.outfits &&
      n.data.speedDelta == c.data.speedDelta
    ensures Becomes(n, FormulaProps(c.data), n.(data := c.data))
  {
    var v := c.data;
    var d := n.(data := n.data.(mina := v.mina));
    var e := n.(data := d.data.(minb := v.minb));
    var f := n.(data := e.data.(maxa := v.maxa));
    WordRoundTrip(v.mina);
    WordRoundTrip(v.minb);
    WordRoundTrip(v.maxa);
    WordRoundTrip(v.maxb);
    BecomesByFour(n, Prop(CONDITIONATTR_FORMULA_MINA, WordBytes(v.mina)), d,
                  Prop(CONDITIONATTR_FORMULA_MINB, WordBytes(v.minb)), e,
                  Prop(CONDITIONATTR_FORMULA_MAXA, WordBytes(v.maxa)), f,
                  Prop(CONDITIONATTR_FORMULA_MAXB, WordBytes(v.maxb)), n.(data := v));
  }

  lemma SpeedRead(n: Condition, c: Condition)
    requires n.data.Speed? && c.data.Speed? && n.data.outfits == []
    ensures Becomes(n, Tail(c.data), n.(data := c.data))
  {
    var outfits, p := OutfitProps(c.data.outfits), Prop(CONDITIONATTR_SPEEDDELTA, WordBytes(c.data.speedDelta));
    OutfitsRead(n, c.data.outfits);
    assert [] + c.data.outfits == c.data.outfits;
    var d := n.(data := n.data.(outfits := c.data.outfits));
    WordRoundTrip(c.data.speedDelta);
    FormulaRead(Apply(d, p), c);
    BecomesFirst(d, p, FormulaProps(c.data), n.(data := c.data));
    BecomesInTwo(n, outfits, d, [p] + FormulaProps(c.data), n.(data := c.data));
    assert outfits + ([p] + FormulaProps(c.data)) == Tail(c.data);
  }

  lemma AttributesRead(n: Condition, c: Condition)
    requires n.data == Attributes(Zeros(SKILLS), Zeros(STATS), 0, 0)
    requires c.data.Attributes? && |c.data.skills| == SKILLS && |c.data.stats| == STATS
    ensures Becomes(n, Tail(c.data), n.(data := c.data.(currentSkill := SKILLS, currentStat := STATS)))
  {
    var skills, stats := c.data.skills, c.data.stats;
    assert skills[0..] == skills && stats[0..] == stats;
    SkillsRead(n, skills, 0);
    assert n.data.skills[..0] + skills == skills && n.data.stats[..0] + stats == stats;
    var d := n.(data := n.data.(skills := skills, currentSkill := SKILLS));
    StatsRead(d, stats, 0);
    BecomesInTwo(n, Words(CONDITIONATTR_SKILLS, skills), d, Words(CONDITIONATTR_STATS, stats),
      n.(data := c.data.(currentSkill := SKILLS, currentStat := STATS)));
  }

  /** A condition made for the saved header and given the saved attributes is the one saved. */
  lemma TailRoundTrip(c: Condition)
    requires WellFormed(c)
    ensures var n := Created(c.conditionType, c.id, c.ticks, c.buff, c.subId);
      n.Some? && Becomes(n.value, Tail(c.data), Restored(c))
  {
    var n := Created(c.conditionType, c.id, c.ticks, c.buff, c.subId).value;
    match c.data
    case Generic =>
    case Attributes(_, _, _, _) => AttributesRead(n, c);
    case Regeneration(_, _, _, _) => RegenerationRead(n, c);
    case Soul(_, _) => SoulRead(n, c);
    case Damage(_, _, _, _) => DamageRead(n, c);
    case Outfits(outfits) =>
      OutfitsRead(n, outfits);
      assert [] + outfits == outfits;
    case Speed(_, _, _, _, _, _) => SpeedRead(n, c);
    case Light(_, _, _, _) => LightRead(n, c);
  }

  // the streams

  class PropWriteStream {
    var buffer: array<Byte>
    var size: nat

    ghost predicate Valid()
      reads this
    {
      size <= buffer.Length
    }

    ghost function Written(): seq<Byte>
      requires Valid()
      reads this, buffer
    {
      buffer[..size]
    }

    constructor ()
      ensures Valid() && Written() == [] && fresh(buffer)
    {
      buffer := new Byte[32](i => 0);
      size := 0;
    }

    /** The buffer grows by whole units of 32 bytes, which is always enough. */
    method Grow(n: nat)
      requires Valid()
      modifies this`buffer
      ensures Valid() && Written() == old(Written()) && fresh(buffer) && buffer.Length - size >= n
    {
      BitMask.AndNotBounds(n + 0x1F, 0x1F);
      var from := buffer;
      var bigger := new Byte[from.Length + BitMask.AndNot(n + 0x1F, 0x1F)](i => 0);
      for k := 0 to from.Length
        invariant bigger[..k] == from[..k] && buffer == from
      {
        bigger[k] := from[k];
      }
      buffer := bigger;
      assert bigger[..size] == bigger[..from.Length][..size] && from[..size] == from[..from.Length][..size];
    }

    method AddType(bytes: seq<Byte>)
      requires Valid()
      modifies this, buffer
      ensures Valid() && Written() == old(Written()) + bytes && (buffer == old(buffer) || fresh(buffer))
    {
      if buffer.Length - size < |bytes| {
        Grow(|bytes|);
      }
      Put(bytes);
      ghost var before := Written();
      size := size + |bytes|;
      assert buffer[..size] == before + bytes;
    }

    /** The bytes go behind those written. */
    method Put(bytes: seq<Byte>)
      requires size + |bytes| <= buffer.Length
      modifies buffer
      ensures buffer[..size + |bytes|] == old(buffer[..size]) + bytes && buffer[..size] == old(buffer[..size])
    {
      for k := 0 to |bytes|
        invariant buffer[..size + k] == old(buffer[..size]) + bytes[..k]
      {
        buffer[size + k] := bytes[k];
      }
      assert bytes[..|bytes|] == bytes;
      assert buffer[..size] == buffer[..size + |bytes|][..size];
    }

    /** An attribute byte and its value. */
    method AddProp(attr: Byte, bytes: seq<Byte>, ghost start: seq<Byte>, ghost props: seq<Prop>)
      requires Valid() && Written() == start + Encode(props)
      modifies this, buffer
      ensures Valid() && Written() == start + Encode(props + [Prop(attr, bytes)]) &&
        (buffer == old(buffer) || fresh(buffer))
    {
      AddType([attr]);
      AddType(bytes);
      EncodeOneMore(start, props, Prop(attr, bytes));
    }
  }

  class PropStream {
    const data: seq<Byte>
    var p: nat

    ghost predicate Valid()
      reads this
    {
      p <= |data|
    }

    ghost function Remaining(): seq<Byte>
      requires Valid()
      reads this
    {
      data[p..]
    }

    constructor (data: seq<Byte>)
      ensures Valid() && Remaining() == data
    {
      this.data, p := data, 0;
    }

    method GetType(n: nat) returns (ok: bool, bytes: seq<Byte>)
      requires Valid()
      modifies this
      ensures Valid() && ok == (|old(Remaining())| >= n)
      ensures if ok then bytes == old(Remaining())[..n] && Remaining() == old(Remaining())[n..]
              else bytes == [] && Remaining() == old(Remaining())
    {
      if |data| - p < n {
        return false, [];
      }
      ok, bytes := true, data[p..p + n];
      p := p + n;
    }

    /** An attribute byte that must be this one, and a number. */
    method GetField(attr: Byte) returns (bytes: Option<seq<Byte>>)
      requires Valid()
      modifies this
      ensures Valid() && (bytes, Remaining()) == ReadField(attr, old(Remaining()))
    {
      ghost var s := Remaining();
      assert |s| >= 5 ==> s[1..][..4] == s[1..5] && s[1..][4..] == s[5..];
      var found, head := GetType(1);
      if !found || head[0] != attr {
        return None;
      }
      var ok, number := GetType(4);
      return if ok then Some(number) else None;
    }
  }

  // saving

  /** The values of an array, each as an attribute. */
  method AddWords(out: PropWriteStream, attr: Byte, values: seq<Int32>, ghost start: seq<Byte>, ghost props: seq<Prop>)
    requires out.Valid() && out.Written() == start + Encode(props)
    modifies out, out.buffer
    ensures out.Valid() && out.Written() == start + Encode(props + Words(attr, values)) &&
      (out.buffer == old(out.buffer) || fresh(out.buffer))
  {
    ghost var done := props;
    assert props + Words(attr, values) == done + Words(attr, values[0..]) by { assert values[0..] == values; }
    for i := 0 to |values|
      invariant out.Valid() && (out.buffer == old(out.buffer) || fresh(out.buffer))
      invariant out.Written() == start + Encode(done) && done + Words(attr, values[i..]) == props + Words(attr, values)
    {
      assert values[i..][1..] == values[i + 1..];
      out.AddProp(attr, WordBytes(values[i]), start, done);
      done := done + [Prop(attr, WordBytes(values[i]))];
    }
    assert done + [] == done;
  }

  method AddIntervals(out: PropWriteStream, list: seq<IntervalInfo<Int32>>, ghost start: seq<Byte>,
                      ghost props: seq<Prop>)
    requires out.Valid() && out.Written() == start + Encode(props)
    modifies out, out.buffer
    ensures out.Valid() && out.Written() == start + Encode(props + Intervals(list)) &&
      (out.buffer == old(out.buffer) || fresh(out.buffer))
  {
    ghost var done := props;
    assert props + Intervals(list) == done + Intervals(list[0..]) by { assert list[0..] == list; }
    for i := 0 to |list|
      invariant out.Valid() && (out.buffer == old(out.buffer) || fresh(out.buffer))
      invariant out.Written() == start + Encode(done) && done + Intervals(list[i..]) == props + Intervals(list)
    {
      assert list[i..][1..] == list[i + 1..];
      out.AddProp(CONDITIONATTR_INTERVALDATA, IntervalBytes(list[i]), start, done);
      done := done + [Prop(CONDITIONATTR_INTERVALDATA, IntervalBytes(list[i]))];
    }
    assert done + [] == done;
  }

  method AddOutfits(out: PropWriteStream, outfits: seq<Outfit>, ghost start: seq<Byte>, ghost props: seq<Prop>)
    requires out.Valid() && out.Written() == start + Encode(props)
    modifies out, out.buffer
    ensures out.Valid() && out.Written() == start + Encode(props + OutfitProps(outfits)) &&
      (out.buffer == old(out.buffer) || fresh(out.buffer))
  {
    ghost var done := props;
    assert props + OutfitProps(outfits) == done + OutfitProps(outfits[0..]) by { assert outfits[0..] == outfits; }
    for i := 0 to |outfits|
      invariant out.Valid() && (out.buffer == old(out.buffer) || fresh(out.buffer))
      invariant out.Written() == start + Encode(done) &&
        done + OutfitProps(outfits[i..]) == props + OutfitProps(outfits)
    {
      assert outfits[i..][1..] == outfits[i + 1..];
      out.AddProp(CONDITIONATTR_OUTFIT, outfits[i], start, done);
      done := done + [Prop(CONDITIONATTR_OUTFIT, outfits[i])];
    }
    assert done + [] == done;
  }

  /** Condition::serialize, the header. */
  method SerializeHeader(c: Condition, out: PropWriteStream, ghost start: seq<Byte>)
    requires out.Valid() && out.Written() == start
    modifies out, out.buffer
    ensures out.Valid() && out.Written() == start + Encode(Header(c)) &&
      (out.buffer == old(out.buffer) || fresh(out.buffer))
  {
    ghost var h := Header(c);
    SerializeKey(c, out, start);
    out.AddProp(CONDITIONATTR_BUFF, WordBytes(if c.buff then 1 else 0), start, h[..3]);
    assert h[..4] == h[..3] + [h[3]];
    out.AddProp(CONDITIONATTR_SUBID, WordBytes(c.subId), start, h[..4]);
    assert h == h[..4] + [h[4]];
  }

  method SerializeKey(c: Condition, out: PropWriteStream, ghost start: seq<Byte>)
    requires out.Valid() && out.Written() == start
    modifies out, out.buffer
    ensures out.Valid() && out.Written() == start + Encode(Header(c)[..3]) &&
      (out.buffer == old(out.buffer) || fresh(out.buffer))
  {
    ghost var h := Header(c);
    assert start + Encode([]) == start;
    out.AddProp(CONDITIONATTR_TYPE, WordBytes(c.conditionType), start, []);
    assert h[..1] == [] + [h[0]];
    out.AddProp(CONDITIONATTR_ID, WordBytes(c.id), start, h[..1]);
    assert h[..2] == h[..1] + [h[1]];
    out.AddProp(CONDITIONATTR_TICKS, WordBytes(c.ticks), start, h[..2]);
    assert h[..3] == h[..2] + [h[2]];
  }

  // what the subclasses add

  method SerializeAttributes(d: Data, out: PropWriteStream, ghost start: seq<Byte>, ghost props: seq<Prop>)
    requires d.Attributes?
    requires out.Valid() && out.Written() == start + Encode(props)
    modifies out, out.buffer
    ensures out.Valid() && out.Written() == start + Encode(props + Tail(d)) &&
      (out.buffer == old(out.buffer) || fresh(out.buffer))
  {
    AddWords(out, CONDITIONATTR_SKILLS, d.skills, start, props);
    AddWords(out, CONDITIONATTR_STATS, d.stats, start, props + Words(CONDITIONATTR_SKILLS, d.skills));
    assert props + Words(CONDITIONATTR_SKILLS, d.skills) + Words(CONDITIONATTR_STATS, d.stats) == props + Tail(d);
  }

  method SerializeRegeneration(d: Data, out: PropWriteStream, ghost start: seq<Byte>, ghost props: seq<Prop>)
    requires d.Regeneration?
    requires out.Valid() && out.Written() == start + Encode(props)
    modifies out, out.buffer
    ensures out.Valid() && out.Written() == start + Encode(props + Tail(d)) &&
      (out.buffer == old(out.buffer) || fresh(out.buffer))
  {
    out.AddProp(CONDITIONATTR_HEALTHTICKS, WordBytes(d.healthTicks), start, props);
    ghost var p1 := props + [Prop(CONDITIONATTR_HEALTHTICKS, WordBytes(d.healthTicks))];
    out.AddProp(CONDITIONATTR_HEALTHGAIN, WordBytes(d.healthGain), start, p1);
    ghost var p2 := p1 + [Prop(CONDITIONATTR_HEALTHGAIN, WordBytes(d.healthGain))];
    out.AddProp(CONDITIONATTR_MANATICKS, WordBytes(d.manaTicks), start, p2);
    ghost var p3 := p2 + [Prop(CONDITIONATTR_MANATICKS, WordBytes(d.manaTicks))];
    out.AddProp(CONDITIONATTR_MANAGAIN, WordBytes(d.manaGain), start, p3);
    ghost var p4 := p3 + [Prop(CONDITIONATTR_MANAGAIN, WordBytes(d.manaGain))];
    assert p4 == props + Tail(d);
  }

  method SerializeSoul(d: Data, out: PropWriteStream, ghost start: seq<Byte>, ghost props: seq<Prop>)
    requires d.Soul?
    requires out.Valid() && out.Written() == start + Encode(props)
    modifies out, out.buffer
    ensures out.Valid() && out.Written() == start + Encode(props + Tail(d)) &&
      (out.buffer == old(out.buffer) || fresh(out.buffer))
  {
    out.AddProp(CONDITIONATTR_SOULGAIN, WordBytes(d.soulGain), start, props);
    ghost var p1 := props + [Prop(CONDITIONATTR_SOULGAIN, WordBytes(d.soulGain))];
    out.AddProp(CONDITIONATTR_SOULTICKS, WordBytes(d.soulTicks), start, p1);
    ghost var p2 := p1 + [Prop(CONDITIONATTR_SOULTICKS, WordBytes(d.soulTicks))];
    assert p2 == props + Tail(d);
  }

  lemma ThreeInRow<T>(s: seq<T>, a: T, b: T, c: T, rest: seq<T>)
    ensures s + [a] + [b] + [c] + rest == s + ([a, b, c] + rest)
  {
  }

  lemma FiveInRow<T>(s: seq<T>, a: T, b: T, c: T, d: T, e: T)
    ensures s + [a] + [b, c, d, e] == s + [a, b, c, d, e]
  {
  }

  method SerializeDamage(d: Data, out: PropWriteStream, ghost start: seq<Byte>, ghost props: seq<Prop>)
    requires d.Damage?
    requires out.Valid() && out.Written() == start + Encode(props)
    modifies out, out.buffer
    ensures out.Valid() && out.Written() == start + Encode(props + Tail(d)) &&
      (out.buffer == old(out.buffer) || fresh(out.buffer))
  {
    out.AddProp(CONDITIONATTR_DELAYED, [if d.delayed then 1 else 0], start, props);
    ghost var p1 := props + [Prop(CONDITIONATTR_DELAYED, [if d.delayed then 1 else 0])];
    out.AddProp(CONDITIONATTR_PERIODDAMAGE, WordBytes(d.periodDamage), start, p1);
    ghost var p2 := p1 + [Prop(CONDITIONATTR_PERIODDAMAGE, WordBytes(d.periodDamage))];
    out.AddProp(CONDITIONATTR_OWNER, WordBytes(d.owner), start, p2);
    ghost var p3 := p2 + [Prop(CONDITIONATTR_OWNER, WordBytes(d.owner))];
    AddIntervals(out, d.damageList, start, p3);
    ThreeInRow(props, p3[|props|], p3[|props| + 1], p3[|props| + 2], Intervals(d.damageList));
  }

  method SerializeSpeed(d: Data, out: PropWriteStream, ghost start: seq<Byte>, ghost props: seq<Prop>)
    requires d.Speed?
    requires out.Valid() && out.Written() == start + Encode(props)
    modifies out, out.buffer
    ensures out.Valid() && out.Written() == start + Encode(props + Tail(d)) &&
      (out.buffer == old(out.buffer) || fresh(out.buffer))
  {
    AddOutfits(out, d.outfits, start, props);
    ghost var base := props + OutfitProps(d.outfits);
    out.AddProp(CONDITIONATTR_SPEEDDELTA, WordBytes(d.speedDelta), start, base);
    ghost var p := Prop(CONDITIONATTR_SPEEDDELTA, WordBytes(d.speedDelta));
    SerializeFormula(d, out, start, base + [p]);
    var f := FormulaProps(d);
    assert f == [f[0], f[1], f[2], f[3]];
    FiveInRow(props + OutfitProps(d.outfits), p, f[0], f[1], f[2], f[3]);
    AssociateThree(props, OutfitProps(d.outfits), [p, f[0], f[1], f[2], f[3]]);
  }

  method SerializeFormula(d: Data, out: PropWriteStream, ghost start: seq<Byte>, ghost props: seq<Prop>)
    requires d.Speed?
    requires out.Valid() && out.Written() == start + Encode(props)
    modifies out, out.buffer
    ensures out.Valid() && out.Written() == start + Encode(props + FormulaProps(d)) &&
      (out.buffer == old(out.buffer) || fresh(out.buffer))
  {
    out.AddProp(CONDITIONATTR_FORMULA_MINA, WordBytes(d.mina), start, props);
    ghost var p1 := props + [Prop(CONDITIONATTR_FORMULA_MINA, WordBytes(d.mina))];
    out.AddProp(CONDITIONATTR_FORMULA_MINB, WordBytes(d.minb), start, p1);
    ghost var p2 := p1 + [Prop(CONDITIONATTR_FORMULA_MINB, WordBytes(d.minb))];
    out.AddProp(CONDITIONATTR_FORMULA_MAXA, WordBytes(d.maxa), start, p2);
    ghost var p3 := p2 + [Prop(CONDITIONATTR_FORMULA_MAXA, WordBytes(d.maxa))];
    out.AddProp(CONDITIONATTR_FORMULA_MAXB, WordBytes(d.maxb), start, p3);
    ghost var p4 := p3 + [Prop(CONDITIONATTR_FORMULA_MAXB, WordBytes(d.maxb))];
    assert p4 == props + FormulaProps(d);
  }

  method SerializeLight(d: Data, out: PropWriteStream, ghost start: seq<Byte>, ghost props: seq<Prop>)
    requires d.Light?
    requires out.Valid() && out.Written() == start + Encode(props)
    modifies out, out.buffer
    ensures out.Valid() && out.Written() == start + Encode(props + Tail(d)) &&
      (out.buffer == old(out.buffer) || fresh(out.buffer))
  {
    out.AddProp(CONDITIONATTR_LIGHTCOLOR, WordBytes(d.color), start, props);
    ghost var p1 := props + [Prop(CONDITIONATTR_LIGHTCOLOR, WordBytes(d.color))];
    out.AddProp(CONDITIONATTR_LIGHTLEVEL, WordBytes(d.level), start, p1);
    ghost var p2 := p1 + [Prop(CONDITIONATTR_LIGHTLEVEL, WordBytes(d.level))];
    out.AddProp(CONDITIONATTR_LIGHTTICKS, WordBytes(d.lightTicks), start, p2);
    ghost var p3 := p2 + [Prop(CONDITIONATTR_LIGHTTICKS, WordBytes(d.lightTicks))];
    out.AddProp(CONDITIONATTR_LIGHTINTERVAL, WordBytes(d.lightInterval), start, p3);
    ghost var p4 := p3 + [Prop(CONDITIONATTR_LIGHTINTERVAL, WordBytes(d.lightInterval))];
    assert p4 == props + Tail(d);
  }

  /** serialize of the condition's subclass. */
  method Serialize(c: Condition, out: PropWriteStream)
    requires out.Valid()
    modifies out, out.buffer
    ensures out.Valid() && out.Written() == old(out.Written()) + Encode(Header(c) + Tail(c.data)) &&
      (out.buffer == old(out.buffer) || fresh(out.buffer))
  {
    ghost var start := out.Written();
    SerializeHeader(c, out, start);
    match c.data
    case Generic => assert Header(c) + [] == Header(c);
    case Attributes(_, _, _, _) => SerializeAttributes(c.data, out, start, Header(c));
    case Regeneration(_, _, _, _) => SerializeRegeneration(c.data, out, start, Header(c));
    case Soul(_, _) => SerializeSoul(c.data, out, start, Header(c));
    case Damage(_, _, _, _) => SerializeDamage(c.data, out, start, Header(c));
    case Outfits(outfits) => AddOutfits(out, outfits, start, Header(c));
    case Speed(_, _, _, _, _, _) => SerializeSpeed(c.data, out, start, Header(c));
    case Light(_, _, _, _) => SerializeLight(c.data, out, start, Header(c));
  }

  function EncodeAll(list: seq<Condition>): seq<Byte> {
    if list == [] then [] else Encode(Header(list[0]) + Tail(list[0].data)) + [CONDITIONATTR_END] + EncodeAll(list[1..])
  }

  const CONDITION_GAMEMASTER := 4194304

  predicate IsSaved(c: Condition) {
    IsPersistent(c.ticks, c.id) || c.conditionType == CONDITION_GAMEMASTER
  }

  function Saved(list: seq<Condition>): seq<Condition> {
    if list == [] then [] else (if IsSaved(list[0]) then [list[0]] else []) + Saved(list[1..])
  }

  /** The conditions from `i` on are still to be written. */
  ghost predicate Saving(written: seq<Byte>, conditions: seq<Condition>, i: nat)
    requires i <= |conditions|
  {
    written + EncodeAll(Saved(conditions[i..])) == EncodeAll(Saved(conditions))
  }

  lemma SavedOne(written: seq<Byte>, conditions: seq<Condition>, i: nat)
    requires i < |conditions| && Saving(written, conditions, i)
    ensures var c := conditions[i];
      Saving(if IsSaved(c) then written + Encode(Header(c) + Tail(c.data)) + [CONDITIONATTR_END]
        else written, conditions, i + 1)
  {
    assert conditions[i..][1..] == conditions[i + 1..];
    var rest := Saved(conditions[i + 1..]);
    if IsSaved(conditions[i]) {
      assert ([conditions[i]] + rest)[1..] == rest;
    } else {
      assert [] + rest == rest;
    }
  }

  method SaveAll(conditions: seq<Condition>) returns (out: PropWriteStream)
    ensures out.Valid() && out.Written() == EncodeAll(Saved(conditions))
  {
    out := new PropWriteStream();
    assert conditions[0..] == conditions && [] + EncodeAll(Saved(conditions)) == EncodeAll(Saved(conditions));
    for i := 0 to |conditions|
      invariant out.Valid() && fresh(out) && fresh(out.buffer) && Saving(out.Written(), conditions, i)
    {
      SavedOne(out.Written(), conditions, i);
      if IsSaved(conditions[i]) {
        Serialize(conditions[i], out);
        out.AddType([CONDITIONATTR_END]);
      }
    }
    assert out.Written() + [] == out.Written();
  }

  // loading

  /** Reading one attribute behind its byte: one that the subclass does not know, or whose value is cut
      off, fails; so does here a skill or stat too many, which the source writes behind its array. */
  function ReadProp(c: Condition, attr: Byte, s: seq<Byte>): (r: (bool, Condition, seq<Byte>))
    ensures |r.2| <= |s|
  {
    match Size(c.data, attr)
    case None => (false, c, s)
    case Some(n) =>
      if |s| < n then (false, c, s)
      else if Takes(c.data, Prop(attr, s[..n])) then (true, Apply(c, Prop(attr, s[..n])), s[n..])
      else (false, c, s[n..])
  }

  /** Reading attributes up to an end mark, or to the end of the stream. */
  function ReadProps(c: Condition, s: seq<Byte>): (r: (bool, Condition, seq<Byte>))
    ensures |r.2| <= |s|
    decreases |s|
  {
    if s == [] then (true, c, s)
    else if s[0] == CONDITIONATTR_END then (true, c, s[1..])
    else
      var r := ReadProp(c, s[0], s[1..]);
      if r.0 then ReadProps(r.1, r.2) else r
  }

  /** A number behind an attribute byte that must be this one; a wrong byte is consumed all the same. */
  function ReadField(attr: Byte, s: seq<Byte>): (r: (Option<seq<Byte>>, seq<Byte>))
    ensures |r.1| <= |s| && (r.0.Some? ==> |r.0.value| == 4 && |r.1| < |s|)
  {
    if s == [] then (None, s)
    else if s[0] != attr || |s| < 5 then (None, s[1..])
    else (Some(s[1..5]), s[5..])
  }

  /** The five fields that must come first, in this order, and the condition they make. */
  function ReadHeader(s: seq<Byte>): (r: (Option<Condition>, seq<Byte>))
    ensures |r.1| <= |s| && (r.0.Some? ==> |r.1| < |s|)
  {
    var conditionType := ReadField(CONDITIONATTR_TYPE, s);
    if conditionType.0.None? then (None, conditionType.1)
    else
      var id := ReadField(CONDITIONATTR_ID, conditionType.1);
      if id.0.None? then (None, id.1)
      else
        var ticks := ReadField(CONDITIONATTR_TICKS, id.1);
        if ticks.0.None? then (None, ticks.1)
        else
          var buff := ReadField(CONDITIONATTR_BUFF, ticks.1);
          if buff.0.None? then (None, buff.1)
          else
            var subId := ReadField(CONDITIONATTR_SUBID, buff.1);
            if subId.0.None? then (None, subId.1)
            else
              (Created(Signed(conditionType.0.value), Signed(id.0.value), Signed(ticks.0.value),
                       Unsigned(buff.0.value) != 0, Unsigned(subId.0.value)), subId.1)
  }

  /** Conditions one after the other, until none can be made; one with bad attributes is left out. */
  function ReadConditions(s: seq<Byte>): (r: (seq<Condition>, seq<Byte>))
    decreases |s|
  {
    var h := ReadHeader(s);
    if h.0.None? then ([], h.1)
    else
      var r := ReadProps(h.0.value, h.1);
      var more := ReadConditions(r.2);
      ((if r.0 then [r.1] else []) + more.0, more.1)
  }

  /** unserializeProp. */
  method UnserializeProp(c: Condition, attr: Byte, stream: PropStream) returns (ok: bool, d: Condition)
    requires stream.Valid()
    modifies stream
    ensures stream.Valid() && (ok, d, stream.Remaining()) == ReadProp(c, attr, old(stream.Remaining()))
  {
    d := c;
    var size := Size(c.data, attr);
    if size.None? {
      return false, d;
    }
    var bytes;
    ok, bytes := stream.GetType(size.value);
    if ok {
      ok := Takes(c.data, Prop(attr, bytes));
      if ok {
        d := Apply(c, Prop(attr, bytes));
      }
    }
  }

  /** unserialize. */
  method Unserialize(c: Condition, stream: PropStream) returns (ok: bool, d: Condition)
    requires stream.Valid()
    modifies stream
    ensures stream.Valid() && (ok, d, stream.Remaining()) == ReadProps(c, old(stream.Remaining()))
  {
    d := c;
    while true
      invariant stream.Valid() && ReadProps(d, stream.Remaining()) == ReadProps(c, old(stream.Remaining()))
      decreases |stream.Remaining()|
    {
      var more, attr := stream.GetType(1);
      if !more || attr[0] == CONDITIONATTR_END {
        return true, d;
      }
      ok, d := UnserializeProp(d, attr[0], stream);
      if !ok {
        return;
      }
    }
  }

  /** createCondition from a stream. */
  method CreateCondition(stream: PropStream) returns (c: Option<Condition>)
    requires stream.Valid()
    modifies stream
    ensures stream.Valid() && (c, stream.Remaining()) == ReadHeader(old(stream.Remaining()))
  {
    var conditionType := stream.GetField(CONDITIONATTR_TYPE);
    if conditionType.None? {
      return None;
    }
    var id := stream.GetField(CONDITIONATTR_ID);
    if id.None? {
      return None;
    }
    var ticks := stream.GetField(CONDITIONATTR_TICKS);
    if ticks.None? {
      return None;
    }
    var buff := stream.GetField(CONDITIONATTR_BUFF);
    if buff.None? {
      return None;
    }
    var subId := stream.GetField(CONDITIONATTR_SUBID);
    if subId.None? {
      return None;
    }
    c := Created(Signed(conditionType.value), Signed(id.value), Signed(ticks.value), Unsigned(buff.value) != 0,
      Unsigned(subId.value));
  }

  /** The loop that loads a player's conditions. */
  method LoadAll(stream: PropStream) returns (list: seq<Condition>)
    requires stream.Valid()
    modifies stream
    ensures stream.Valid() && (list, stream.Remaining()) == ReadConditions(old(stream.Remaining()))
  {
    list := [];
    assert [] + ReadConditions(stream.Remaining()).0 == ReadConditions(stream.Remaining()).0;
    while true
      invariant stream.Valid()
      invariant var r := ReadConditions(stream.Remaining());
        (list + r.0, r.1) == ReadConditions(old(stream.Remaining()))
      decreases |stream.Remaining()|
    {
      var c := CreateCondition(stream);
      if c.None? {
        assert list + [] == list;
        return;
      }
      var ok, d := Unserialize(c.value, stream);
      if ok {
        AssociateThree(list, [d], ReadConditions(stream.Remaining()).0);
        list := list + [d];
      } else {
        assert [] + ReadConditions(stream.Remaining()).0 == ReadConditions(stream.Remaining()).0;
      }
    }
  }

  // what was saved is read back

  /** The stream holds these attributes, an end mark, and something else. */
  predicate Holds(s: seq<Byte>, props: seq<Prop>, rest: seq<Byte>) {
    s == Encode(props) + [CONDITIONATTR_END] + rest
  }

  lemma HoldsFirst(s: seq<Byte>, props: seq<Prop>, rest: seq<Byte>)
    requires Holds(s, props, rest)
    ensures s != []
    ensures props == [] ==> s[0] == CONDITIONATTR_END && s[1..] == rest
    ensures props != [] ==>
      s[0] == props[0].attr && |s| > |props[0].data| && s[1..][..|props[0].data|] == props[0].data
      && Holds(s[1..][|props[0].data|..], props[1..], rest)
  {
    if props != [] {
      assert s == [props[0].attr] + (props[0].data + (Encode(props[1..]) + [CONDITIONATTR_END] + rest));
      assert s[1..] == props[0].data + (Encode(props[1..]) + [CONDITIONATTR_END] + rest);
    } else {
      assert s == [CONDITIONATTR_END] + rest;
    }
  }

  /** Attributes written in a row and ended by a mark are all read, up to behind the mark. */
  lemma {:induction false} ReadPropsExact(c: Condition, s: seq<Byte>, props: seq<Prop>, rest: seq<Byte>)
    requires Holds(s, props, rest) && TakesAll(c, props)
    ensures ReadProps(c, s) == (true, ApplyAll(c, props), rest)
    decreases |props|
  {
    HoldsFirst(s, props, rest);
    if props != [] {
      var p := props[0];
      ReadPropExact(c, p, s[1..]);
      ReadPropsExact(Apply(c, p), s[1..][|p.data|..], props[1..], rest);
    }
  }

  /** Attributes that are read without fault are laid out in the stream, each known to the condition and
      of its size, up to an end mark or to the end of the stream. */
  lemma {:induction false} ReadPropsSound(c: Condition, s: seq<Byte>) returns (props: seq<Prop>)
    requires ReadProps(c, s).0
    ensures Becomes(c, props, ReadProps(c, s).1)
    ensures Holds(s, props, ReadProps(c, s).2) || (s == Encode(props) && ReadProps(c, s).2 == [])
    decreases |s|
  {
    props := [];
    if s != [] && s[0] != CONDITIONATTR_END {
      var n := Size(c.data, s[0]).value;
      var p := Prop(s[0], s[1..][..n]);
      props := ReadPropsSound(Apply(c, p), s[1..][n..]);
      BecomesFirst(c, p, props, ReadProps(c, s).1);
      LaidFirst(s, p, props, ReadProps(c, s).2);
      props := [p] + props;
    } else if s != [] {
      assert s == Encode([]) + [s[0]] + s[1..];
    }
  }

  lemma LaidFirst(s: seq<Byte>, p: Prop, props: seq<Prop>, rest: seq<Byte>)
    requires |s| > |p.data| && s[0] == p.attr && s[1..][..|p.data|] == p.data
    ensures Holds(s[1..][|p.data|..], props, rest) ==> Holds(s, [p] + props, rest)
    ensures s[1..][|p.data|..] == Encode(props) ==> s == Encode([p] + props)
  {
    var tail := s[1..][|p.data|..];
    assert s[1..] == p.data + tail;
    assert s == [p.attr] + p.data + tail;
    assert ([p] + props)[1..] == props;
  }

  lemma {:induction false} ReadPropsToEnd(c: Condition, props: seq<Prop>)
    requires TakesAll(c, props)
    ensures ReadProps(c, Encode(props)) == (true, ApplyAll(c, props), [])
    decreases |props|
  {
    if props != [] {
      var p := props[0];
      var s := Encode(props);
      assert s[1..] == p.data + Encode(props[1..]);
      ReadPropExact(c, p, s[1..]);
      ReadPropsToEnd(Apply(c, p), props[1..]);
    }
  }

  /** Attributes that a condition can take one after the other, up to an end mark or the end. */
  ghost predicate Laid(c: Condition, s: seq<Byte>, props: seq<Prop>) {
    TakesAll(c, props) && (s == Encode(props) || exists rest :: Holds(s, props, rest))
  }

  lemma LaidIsRead(c: Condition, s: seq<Byte>, props: seq<Prop>)
    requires Laid(c, s, props)
    ensures ReadProps(c, s).0
  {
    if s == Encode(props) {
      ReadPropsToEnd(c, props);
    } else {
      var rest :| Holds(s, props, rest);
      ReadPropsExact(c, s, props, rest);
    }
  }

  /** These are exactly the streams that are read without fault. */
  lemma ReadPropsLanguage(c: Condition, s: seq<Byte>)
    ensures ReadProps(c, s).0 <==> exists props :: Laid(c, s, props)
  {
    if ReadProps(c, s).0 {
      var props := ReadPropsSound(c, s);
      assert Laid(c, s, props);
    }
    if props :| Laid(c, s, props) {
      LaidIsRead(c, s, props);
    }
  }

  lemma ReadFieldSound(attr: Byte, s: seq<Byte>)
    ensures var r := ReadField(attr, s);
      if |s| >= 5 && s[0] == attr then r.0.Some? && s == [attr] + r.0.value + r.1
      else r.0.None? && r.1 == if s == [] then [] else s[1..]
  {
  }

  /** A condition is made exactly from five numbers behind the bytes 1, 2, 3, 26 and 27. */
  lemma ReadHeaderSound(s: seq<Byte>)
    ensures ReadHeader(s).0.Some? ==>
      && |s| >= 25 && s[0] == 1 && s[5] == 2 && s[10] == 3 && s[15] == 26 && s[20] == 27
      && ReadHeader(s).1 == s[25..]
      && ReadHeader(s).0 ==
           Created(Signed(s[1..5]), Signed(s[6..10]), Signed(s[11..15]), Unsigned(s[16..20]) != 0, Unsigned(s[21..25]))
    ensures |s| >= 25 && s[0] == 1 && s[5] == 2 && s[10] == 3 && s[15] == 26 && s[20] == 27 ==>
      (ReadHeader(s).0.Some? <==> NewData(Signed(s[1..5])).Some?)
  {
    if |s| >= 25 {
      assert s[5..][5..] == s[10..] && s[10..][5..] == s[15..] && s[15..][5..] == s[20..] && s[20..][5..] == s[25..];
      assert s[5..][1..5] == s[6..10] && s[10..][1..5] == s[11..15] && s[15..][1..5] == s[16..20];
      assert s[20..][1..5] == s[21..25];
    }
  }

  lemma ReadPropExact(c: Condition, p: Prop, s: seq<Byte>)
    requires Takes(c.data, p) && |s| >= |p.data| && s[..|p.data|] == p.data
    ensures ReadProp(c, p.attr, s) == (true, Apply(c, p), s[|p.data|..])
  {
    assert Prop(p.attr, s[..|p.data|]) == p;
  }

  lemma ReadFieldExact(p: Prop, more: seq<Prop>, rest: seq<Byte>)
    requires |p.data| == 4
    ensures ReadField(p.attr, Encode([p] + more) + rest) == (Some(p.data), Encode(more) + rest)
  {
    assert ([p] + more)[1..] == more;
    var s := Encode([p] + more) + rest;
    assert s == [p.attr] + (p.data + (Encode(more) + rest));
    assert s[1..] == p.data + (Encode(more) + rest);
    assert s[1..5] == s[1..][..4] && s[5..] == s[1..][4..];
  }

  lemma FieldsInRow(a: Prop, b: Prop, c: Prop, d: Prop, e: Prop, rest: seq<Byte>)
    requires |a.data| == |b.data| == |c.data| == |d.data| == |e.data| == 4
    ensures ReadField(a.attr, Encode([a, b, c, d, e]) + rest) == (Some(a.data), Encode([b, c, d, e]) + rest)
    ensures ReadField(b.attr, Encode([b, c, d, e]) + rest) == (Some(b.data), Encode([c, d, e]) + rest)
    ensures ReadField(c.attr, Encode([c, d, e]) + rest) == (Some(c.data), Encode([d, e]) + rest)
    ensures ReadField(d.attr, Encode([d, e]) + rest) == (Some(d.data), Encode([e]) + rest)
    ensures ReadField(e.attr, Encode([e]) + rest) == (Some(e.data), rest)
  {
    assert [a, b, c, d, e] == [a] + [b, c, d, e] && [b, c, d, e] == [b] + [c, d, e] && [c, d, e] == [c] + [d, e];
    assert [d, e] == [d] + [e] && [e] == [e] + [] && Encode([]) + rest == rest;
    ReadFieldExact(a, [b, c, d, e], rest);
    ReadFieldExact(b, [c, d, e], rest);
    ReadFieldExact(c, [d, e], rest);
    ReadFieldExact(d, [e], rest);
    ReadFieldExact(e, [], rest);
  }

  lemma ReadHeaderExact(c: Condition, rest: seq<Byte>)
    requires -0x8000_0000 <= c.ticks < 0x8000_0000
    ensures ReadHeader(Encode(Header(c)) + rest) == (Created(c.conditionType, c.id, c.ticks, c.buff, c.subId), rest)
  {
    var h := Header(c);
    assert h == [h[0], h[1], h[2], h[3], h[4]];
    FieldsInRow(h[0], h[1], h[2], h[3], h[4], rest);
    WordRoundTrip(c.conditionType);
    WordRoundTrip(c.id);
    WordRoundTrip(c.ticks);
    WordRoundTrip(if c.buff then 1 else 0);
    WordRoundTrip(c.subId);
  }

  /** What comes back is what was saved, but for the ticks of a damage condition, which are those of all its
      intervals, and the positions in an attribute condition. */
  lemma RestoredExact(c: Condition)
    ensures var d := Restored(c);
      && d.conditionType == c.conditionType && d.id == c.id && d.buff == c.buff && d.subId == c.subId
      && (!c.data.Attributes? ==> d.data == c.data) && (!c.data.Damage? ==> d.ticks == c.ticks)
      && (c.data.Attributes? ==> d.data.Attributes? && d.data.skills == c.data.skills && d.data.stats == c.data.stats)
      && (c.data.Damage? && (forall info | info in c.data.damageList :: info.interval >= 0) ==>
            d.ticks == TotalInterval(c.data.damageList))
  {
    if c.data.Damage? && forall info | info in c.data.damageList :: info.interval >= 0 {
      RebuiltIsSum(0, c.data.damageList);
    }
  }

  /** Conditions that outlast a logout, and are neither of attributes nor of damage, come back unchanged. */
  lemma {:induction false} AllComeBack(list: seq<Condition>)
    requires forall c | c in list :: c.ticks > 0 && c.id != 0 && !c.data.Attributes? && !c.data.Damage?
    ensures RestoredAll(Saved(list)) == list
  {
    if list != [] {
      AllComeBack(list[1..]);
      RestoredExact(list[0]);
      assert ([list[0]] + Saved(list[1..]))[1..] == Saved(list[1..]);
    }
  }

  /** Those without ticks, and those of combat, are left out, unless a gamemaster's. */
  lemma {:induction false} SavedExact(list: seq<Condition>, c: Condition)
    ensures c in Saved(list) <==> c in list && ((c.ticks > 0 && c.id != 0) || c.conditionType == 4194304)
  {
    if list != [] {
      SavedExact(list[1..], c);
      assert list == [list[0]] + list[1..];
    }
  }

  /** The bytes of a saved condition: the fields that all have, and of a damage condition what it adds, with
      one interval here. */
  lemma HeaderBytes(c: Condition)
    requires c.conditionType == 2 && c.id == -1 && c.ticks == 9 && c.buff && c.subId == 258
    ensures Encode(Header(c)) ==
      [1, 2, 0, 0, 0] + ([2, 255, 255, 255, 255] + ([3, 9, 0, 0, 0] + ([26, 1, 0, 0, 0] + [27, 2, 1, 0, 0])))
  {
    assert WordBytes(2) == [2, 0, 0, 0] && WordBytes(-1) == [255, 255, 255, 255] && WordBytes(9) == [9, 0, 0, 0];
    assert WordBytes(1) == [1, 0, 0, 0] && WordBytes(258) == [2, 1, 0, 0];
    FiveEncoded(Header(c));
  }

  lemma DamageBytes(data: Data, info: IntervalInfo<Int32>)
    requires data == Damage(true, 7, 258, [info]) && info == IntervalInfo(1, 2, 3)
    ensures Encode(Tail(data)) ==
      [8, 1] + ([25, 7, 0, 0, 0] + ([9, 2, 1, 0, 0] + [10, 1, 0, 0, 0, 2, 0, 0, 0, 3, 0, 0, 0]))
  {
    assert WordBytes(7) == [7, 0, 0, 0] && WordBytes(258) == [2, 1, 0, 0];
    OneInterval(info);
    FourEncoded(Tail(data));
  }

  lemma OneInterval(info: IntervalInfo<Int32>)
    requires info == IntervalInfo(1, 2, 3)
    ensures Intervals([info]) == [Prop(10, [1, 0, 0, 0, 2, 0, 0, 0, 3, 0, 0, 0])]
  {
    assert WordBytes(1) == [1, 0, 0, 0] && WordBytes(2) == [2, 0, 0, 0] && WordBytes(3) == [3, 0, 0, 0];
    assert IntervalBytes(info) == [1, 0, 0, 0, 2, 0, 0, 0, 3, 0, 0, 0];
    assert [info][1..] == [];
  }

  lemma OneEncoded(props: seq<Prop>)
    requires |props| == 1
    ensures Encode(props) == [props[0].attr] + props[0].data
  {
    assert props[1..] == [] && [props[0].attr] + props[0].data + [] == [props[0].attr] + props[0].data;
  }

  lemma FourEncoded(props: seq<Prop>)
    requires |props| == 4
    ensures Encode(props) == [props[0].attr] + props[0].data + ([props[1].attr] + props[1].data +
      ([props[2].attr] + props[2].data + ([props[3].attr] + props[3].data)))
  {
    var two, three, four := props[1..], props[2..], props[3..];
    assert two[1..] == three && three[1..] == four;
    OneEncoded(four);
    assert Encode(three) == [props[2].attr] + props[2].data + Encode(four);
    assert Encode(two) == [props[1].attr] + props[1].data + Encode(three);
  }

  lemma FiveEncoded(props: seq<Prop>)
    requires |props| == 5
    ensures Encode(props) == [props[0].attr] + props[0].data + ([props[1].attr] + props[1].data +
      ([props[2].attr] + props[2].data + ([props[3].attr] + props[3].data + ([props[4].attr] + props[4].data))))
  {
    FourEncoded(props[1..]);
  }

  /** Each condition is ended by the mark 254. */
  lemma OneSaved(c: Condition)
    ensures EncodeAll([c]) == Encode(Header(c)) + Encode(Tail(c.data)) + [254]
  {
    assert [c][1..] == [];
    EncodeAppend(Header(c), Tail(c.data));
    var bytes := Encode(Header(c)) + Encode(Tail(c.data)) + [254];
    assert bytes + [] == bytes;
  }

  function RestoredAll(list: seq<Condition>): seq<Condition> {
    if list == [] then [] else [Restored(list[0])] + RestoredAll(list[1..])
  }

  ghost predicate AllWellFormed(list: seq<Condition>) {
    forall c | c in list :: WellFormed(c)
  }

  lemma EncodeFirst(list: seq<Condition>)
    requires list != []
    ensures var rest := Encode(Tail(list[0].data)) + [CONDITIONATTR_END] + EncodeAll(list[1..]);
      EncodeAll(list) == Encode(Header(list[0])) + rest && Holds(rest, Tail(list[0].data), EncodeAll(list[1..]))
  {
    EncodeAppend(Header(list[0]), Tail(list[0].data));
    Regroup(Encode(Header(list[0])), Encode(Tail(list[0].data)), [CONDITIONATTR_END], EncodeAll(list[1..]));
  }

  lemma Regroup(a: seq<Byte>, b: seq<Byte>, c: seq<Byte>, d: seq<Byte>)
    ensures a + b + c + d == a + (b + c + d)
  {
  }

  /** The round trip: all conditions written come back in order, and the stream is at its end. */
  lemma {:induction false} ReadConditionsExact(list: seq<Condition>)
    requires AllWellFormed(list)
    ensures ReadConditions(EncodeAll(list)) == (RestoredAll(list), [])
  {
    if list != [] {
      var c, next := list[0], EncodeAll(list[1..]);
      var rest := Encode(Tail(c.data)) + [CONDITIONATTR_END] + next;
      assert c in list && WellFormed(c) && forall d | d in list[1..] :: d in list;
      EncodeFirst(list);
      ReadHeaderExact(c, rest);
      TailRoundTrip(c);
      ReadPropsExact(Created(c.conditionType, c.id, c.ticks, c.buff, c.subId).value, rest, Tail(c.data), next);
      ReadConditionsExact(list[1..]);
    }
  }

  /** A condition with an attribute that it does not know is left out; those behind it are read. */
  lemma UnknownIsLeftOut(c: Condition, attr: Byte, list: seq<Condition>)
    requires WellFormed(c) && AllWellFormed(list) && Size(NewData(c.conditionType).value, attr) == None
    ensures ReadConditions(Encode(Header(c)) + ([attr] + EncodeAll(list))) == (RestoredAll(list), [])
  {
    ReadHeaderExact(c, [attr] + EncodeAll(list));
    var d := Created(c.conditionType, c.id, c.ticks, c.buff, c.subId).value;
    assert ([attr] + EncodeAll(list))[1..] == EncodeAll(list);
    assert ReadProps(d, [attr] + EncodeAll(list)) == (false, d, EncodeAll(list));
    ReadConditionsExact(list);
    assert [] + RestoredAll(list) == RestoredAll(list);
  }

  lemma {:induction false} SavedWellFormed(conditions: seq<Condition>)
    requires AllWellFormed(conditions)
    ensures AllWellFormed(Saved(conditions))
  {
    if conditions != [] {
      SavedWellFormed(conditions[1..]);
    }
  }

  /** Conditions that are saved and loaded come back in order: those that last, each with all that is
      written of it. */
  method SaveAndLoad(conditions: seq<Condition>) returns (list: seq<Condition>)
    requires AllWellFormed(conditions)
    ensures list == RestoredAll(Saved(conditions))
    ensures (forall c | c in conditions :: c.ticks > 0 && c.id != 0 && !c.data.Attributes? && !c.data.Damage?) ==>
      list == conditions
  {
    if forall c | c in conditions :: c.ticks > 0 && c.id != 0 && !c.data.Attributes? && !c.data.Damage? {
      AllComeBack(conditions);
    }
    var out := SaveAll(conditions);
    var stream := new PropStream(out.buffer[..out.size]);
    SavedWellFormed(conditions);
    ReadConditionsExact(Saved(conditions));
    list := LoadAll(stream);
  }
}
