/** How journal writes and executions end, and how many of them have gone wrong. */
module Fates {

  /** It succeeds; the process ends after it took effect; or the process ends before it did. */
  datatype Fate = Goes | EndsAfter | EndsBefore

  /** How many of the first `n` end the process. */
  function Failures(fate: nat -> Fate, n: nat): nat {
    if n == 0 then 0 else Failures(fate, n - 1) + if fate(n - 1).Goes? then 0 else 1
  }
}
