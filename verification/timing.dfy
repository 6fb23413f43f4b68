/** `createInterval`, `createTimestamp` and the rule by which `createCycle`
    picks the delay it hands to `setInterval`. */
module Timing {
  import opened Wrappers
  import opened Js

  /** What `_createTiming(_type, amount)` builds: `{type, amount}`. A missing
      amount is `None` (`undefined`). */
  datatype Timing = Timing(kind: Value, amount: Option<Num>)

  function CreateInterval(delay: Num): Timing {
    Timing(Str("interval"), Some(delay))
  }

  function CreateTimestamp(timestamp: Num): Timing {
    Timing(Str("timestamp"), Some(timestamp))
  }

  /** The default argument `_createTiming(1000)`: the 1000 lands in `type` and
      `amount` is `undefined`. */
  function DefaultTiming(): Timing {
    Timing(Number(Finite(1000.0)), None)
  }

  predicate IsTimestamp(t: Timing) { t.kind == Str("timestamp") }

  /** `!isTimestamp && timing.amount > 0 ? timing.amount : 1000`. */
  function CycleDelay(t: Timing): (delay: Num)
    ensures IsPositive(delay)
    ensures !IsTimestamp(t) && t.amount.Some? && IsPositive(t.amount.value) ==> delay == t.amount.value
    ensures !(!IsTimestamp(t) && t.amount.Some? && IsPositive(t.amount.value)) ==> delay == Finite(1000.0)
  {
    if !IsTimestamp(t) && t.amount.Some? && IsPositive(t.amount.value) then t.amount.value
    else Finite(1000.0)
  }

  /** An interval with a positive delay runs at that delay; any other interval
      (zero, negative, NaN) falls back to 1000. */
  lemma IntervalDelay(delay: Num)
    ensures IsPositive(delay) ==> CycleDelay(CreateInterval(delay)) == delay
    ensures !IsPositive(delay) ==> CycleDelay(CreateInterval(delay)) == Finite(1000.0)
  {
  }

  /** A timestamp cycle always polls every 1000, whatever its timestamp. */
  lemma TimestampDelay(timestamp: Num)
    ensures CycleDelay(CreateTimestamp(timestamp)) == Finite(1000.0)
  {
  }

  /** The default timing has no amount, so it also yields 1000. */
  lemma DefaultDelay()
    ensures !IsTimestamp(DefaultTiming()) && DefaultTiming().amount == None
    ensures CycleDelay(DefaultTiming()) == Finite(1000.0)
  {
  }
}
