/**
 * What the five visualizers share around a run: the answer a start button
 * gives, and the length rule of the random-array buttons.
 */
module Runs {

  /** What a click on a start button does: nothing while a run is active, an "empty array" alert, or a full run. */
  datatype StartOutcome = Ignored | RejectedEmpty | Completed

  /**
   * The length `handleRandom` asks of the random generator,
   * `Math.max(5, Math.min(20, size || 10))`: an unset (zero) size means 10,
   * and every size is clamped into [5, 20].
   */
  function RandomLength(size: int): (n: int)
    ensures 5 <= n <= 20
    ensures 5 <= size <= 20 ==> n == size
    ensures size == 0 ==> n == 10
    ensures size != 0 && size < 5 ==> n == 5
    ensures 20 < size ==> n == 20
  {
    var requested := if size == 0 then 10 else size;
    if requested < 5 then 5 else if 20 < requested then 20 else requested
  }
}
