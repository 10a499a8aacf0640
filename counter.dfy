/** The per-card arithmetic of the counter: today's count as the cache reports
    it, the daily cap, and the "Remaining" figure shown on each card. */
module Counter {

  /** `todaysCounts[id] || 0`: a goal with no entry in today's map reads as 0. */
  function CachedCount(todaysCounts: map<nat, int>, id: nat): int
  {
    if id in todaysCounts then todaysCounts[id] else 0
  }

  /** The daily target is reached: counting is refused and the card shows "Target Completed!". */
  predicate AtCap(count: int, dailyLimit: int)
  {
    count >= dailyLimit
  }

  /** `Math.max(0, dailyLimit - currentCount)`: how many repetitions are still due today. */
  function Remaining(dailyLimit: int, count: int): (r: int)
    ensures 0 <= r
    ensures 0 <= count && 0 <= dailyLimit ==> r <= dailyLimit
    ensures count <= dailyLimit ==> count + r == dailyLimit
    ensures r == 0 <==> AtCap(count, dailyLimit)
  {
    if dailyLimit - count > 0 then dailyLimit - count else 0
  }

  /** Each accepted repetition lowers "Remaining" by exactly one, and the one that
      reaches the target brings it to 0. */
  lemma RemainingCountsDown(dailyLimit: int, count: int)
    requires !AtCap(count, dailyLimit)
    ensures Remaining(dailyLimit, count + 1) == Remaining(dailyLimit, count) - 1
    ensures Remaining(dailyLimit, count + 1) == 0 <==> count + 1 == dailyLimit
  {
  }
}
