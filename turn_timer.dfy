// The turn clock. A turn lasts `turnMinutes` minutes, less a configured number of
// seconds for every turn the current player has already let run out, but never
// less than a minute. Every ten seconds the game compares the time elapsed since
// the turn began with that budget: past it the player has idled, and shortly
// before it the player is warned. The clock itself and its ten-second interval
// are not part of this model; elapsed time is a parameter.

module TurnTimer {

  /** What one tick of the turn clock does. */
  datatype Alarm = TimeUp | Warn10 | Warn30 | Warn60 | Quiet

  /** The seconds on the clock: `max(60, 60 * turnMinutes - idleTurns * decrement)`. */
  function TurnSeconds(turnMinutes: int, idleTurns: int, decrement: int): (s: int)
    ensures s >= 60 && s >= 60 * turnMinutes - idleTurns * decrement
    ensures s == 60 || s == 60 * turnMinutes - idleTurns * decrement
  {
    var t := 60 * turnMinutes - idleTurns * decrement;
    if t > 60 then t else 60
  }

  /** A player who has idled more often never gets a longer turn. */
  lemma BudgetShrinks(turnMinutes: int, i: int, j: int, decrement: int)
    requires 0 <= decrement && i <= j
    ensures TurnSeconds(turnMinutes, j, decrement) <= TurnSeconds(turnMinutes, i, decrement)
  {
    assert (j - i) * decrement >= 0;
    assert j * decrement == i * decrement + (j - i) * decrement;
  }

  /**
   * One tick, given the milliseconds elapsed in the turn and the limit in
   * milliseconds. The warnings are stated as the time that remains: at most 10
   * seconds, between 20 and 30 seconds, between 50 and 60 seconds.
   */
  function Classify(elapsed: int, limit: int): (a: Alarm)
    ensures a == TimeUp <==> limit - elapsed <= 0
    ensures a == Warn10 <==> 0 < limit - elapsed <= 10000
    ensures a == Warn30 <==> 20000 < limit - elapsed <= 30000
    ensures a == Warn60 <==> 50000 < limit - elapsed <= 60000
  {
    if elapsed >= limit then TimeUp
    else if elapsed >= limit - 10000 && elapsed < limit then Warn10
    else if elapsed >= limit - 30000 && elapsed < limit - 20000 then Warn30
    else if elapsed >= limit - 60000 && elapsed < limit - 50000 then Warn60
    else Quiet
  }

  /** `turnTimer` on the current player's budget. */
  function TurnAlarm(elapsed: int, turnMinutes: int, idleTurns: int, decrement: int): Alarm
  {
    Classify(elapsed, TurnSeconds(turnMinutes, idleTurns, decrement) * 1000)
  }

  /** The elapsed time at the j-th tick of the ten-second clock. */
  function Tick(j: nat): int
  {
    10000 * j
  }

  /** On the ten-second clock each warning is given at most once per turn. */
  lemma WarningsAtMostOnce(limit: int, i: nat, j: nat, a: Alarm)
    requires a != TimeUp && a != Quiet
    requires Classify(Tick(i), limit) == a && Classify(Tick(j), limit) == a
    ensures i == j
  {
  }

  /**
   * The first tick at which time is up comes less than ten seconds after the
   * budget is spent, and no earlier tick declares the time up.
   */
  lemma TimeUpTick(limit: int)
    requires limit > 0
    ensures var j0 := (limit + 9999) / 10000;
            Classify(Tick(j0), limit) == TimeUp
            && Tick(j0) - limit < 10000
            && forall j: nat :: j < j0 ==> Classify(Tick(j), limit) != TimeUp
  {
    var j0 := (limit + 9999) / 10000;
    assert 10000 * j0 <= limit + 9999 < 10000 * j0 + 10000;
    forall j: nat | j < j0
      ensures Classify(Tick(j), limit) != TimeUp
    {
      assert 10000 * j <= 10000 * (j0 - 1);
    }
  }
}
