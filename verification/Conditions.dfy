/** What the modules about conditions share (src/condition.h, src/condition.cpp). */
module Conditions {

  const SKILLS := 7
  const STATS := 5

  const CONDITIONID_DEFAULT := -1
  const CONDITIONID_COMBAT := 0

  /** One interval of a damage condition. */
  datatype IntervalInfo<+Number> = IntervalInfo(timeLeft: Number, value: Number, interval: Number)

  /** Condition::isPersistent: the condition outlasts a logout. */
  predicate IsPersistent(ticks: int, id: int) {
    ticks > 0 && (id == CONDITIONID_DEFAULT || id != CONDITIONID_COMBAT)
  }
}
