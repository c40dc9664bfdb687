// Who moves next. The players sit in list order; `nextPlayer` looks at the seat
// of the current player and at every player's `skipped` flag. This module states
// its answer on seat numbers only, so that it can be reasoned about apart from the
// game object; the game's `NextPlayer` method is proved to compute it.

module TurnOrder {
  import opened Basics

  /** What `nextPlayer` returns: the player at a seat, the current player again, or nobody. */
  datatype Pick = Index(i: nat) | Stay | Nobody

  /**
   * The seat `e + 1` places after seat `k`, going round a table of `n` seats; seat
   * -1 stands for the place before seat 0, where the scan starts once the current
   * player has left. On this range it is `(k + 1 + e) % n` (see `BeyondIsMod`).
   */
  function Beyond(k: int, e: nat, n: nat): (s: nat)
    requires -1 <= k < n && e < n
    ensures s < n
  {
    if k + 1 + e < n then k + 1 + e else k + 1 + e - n
  }

  lemma BeyondIsMod(k: int, e: nat, n: nat)
    requires -1 <= k < n && e < n
    ensures Beyond(k, e, n) == (k + 1 + e) % n
  {
    var x := k + 1 + e;
    if x < n {
      ModBelow(x, n);
    } else {
      ModOnce(x, n);
    }
  }

  /** One more step round the table is the source's `(i + 1) % n`. */
  lemma BeyondStep(k: int, e: nat, n: nat)
    requires -1 <= k < n && e + 1 < n
    ensures Beyond(k, e + 1, n) == (Beyond(k, e, n) + 1) % n
  {
    var i := Beyond(k, e, n);
    if i + 1 == n {
      ModOnce(n, n);
    } else {
      ModBelow(i + 1, n);
    }
  }

  /** Below the divisor, the remainder is the number itself. */
  lemma ModBelow(x: int, n: int)
    requires 0 <= x < n
    ensures x % n == x
  {
    MulBounds(x / n, n);
  }

  /** Between the divisor and twice it, the remainder is one divisor less. */
  lemma ModOnce(x: int, n: int)
    requires 0 < n <= x < 2 * n
    ensures x % n == x - n
  {
    MulBounds(x / n, n);
  }

  /** Multiples of a positive number, bounded by the sign of the factor. */
  lemma MulBounds(q: int, n: int)
    requires n > 0
    ensures q <= -1 ==> q * n <= -n
    ensures q <= 0 ==> q * n <= 0
    ensures q >= 1 ==> q * n >= n
    ensures q >= 2 ==> q * n >= 2 * n
  {
  }

  /**
   * Going round from seat `k`, the first offset `e` in `[d, limit)` whose seat is
   * not skipped.
   */
  function FirstFrom(skipped: seq<bool>, k: int, d: nat, limit: nat): (r: Option<nat>)
    requires -1 <= k < |skipped| && limit <= |skipped|
    ensures r.Some? ==> d <= r.value < limit && !skipped[Beyond(k, r.value, |skipped|)]
    ensures r.Some? ==> forall e :: d <= e < r.value ==> skipped[Beyond(k, e, |skipped|)]
    ensures r.None? ==> forall e :: d <= e < limit ==> skipped[Beyond(k, e, |skipped|)]
    decreases limit - d
  {
    if d >= limit then None
    else if !skipped[Beyond(k, d, |skipped|)] then Some(d)
    else FirstFrom(skipped, k, d + 1, limit)
  }

  /**
   * `nextPlayer`: `cur` is the seat of the current player as `indexOf` reports it
   * (-1 once that player has left the table), or `None` when there is no current
   * player yet.
   *  - No current player: the first seat.
   *  - Two seats: the other seat, or the current player again if the other is skipped.
   *  - Otherwise: the first seat after the current one that is not skipped, going
   *    round once; when the current player has left, the scan starts at seat 0 and
   *    can only end at a player who is not skipped. Where the source finds nobody
   *    (or, in the second case, never returns) the pick is `Nobody`.
   */
  function NextPick(skipped: seq<bool>, cur: Option<int>): (r: Pick)
    requires cur.Some? ==> -1 <= cur.value < |skipped|
    ensures r.Index? ==> r.i < |skipped|
    ensures cur.None? ==> r == if |skipped| > 0 then Index(0) else Nobody
    ensures cur.Some? && r.Index? ==> !skipped[r.i] && r.i != cur.value
    ensures r == Stay <==> cur.Some? && |skipped| == 2 && skipped[Beyond(cur.value, 0, 2)]
  {
    var n := |skipped|;
    match cur
    case None => if n > 0 then Index(0) else Nobody
    case Some(k) =>
      if n == 2 then
        var j := Beyond(k, 0, n);
        if !skipped[j] then Index(j) else Stay
      else if k >= 0 then
        BeyondNotCurrent(k, n);
        match FirstFrom(skipped, k, 0, n - 1)
        case Some(d) => Index(Beyond(k, d, n))
        case None => Nobody
      else
        match FirstFrom(skipped, k, 0, n)
        case Some(d) => Index(Beyond(k, d, n))
        case None => Nobody
  }

  /** Going round from seat `k`, the first n-1 steps visit every seat but `k`, the n-th is `k`. */
  lemma BeyondNotCurrent(k: int, n: nat)
    requires 0 <= k < n
    ensures forall e :: 0 <= e < n - 1 ==> Beyond(k, e, n) != k
    ensures Beyond(k, n - 1, n) == k
  {
  }

  /** Offsets below n name distinct seats. */
  lemma BeyondInjective(k: int, d: nat, e: nat, n: nat)
    requires -1 <= k < n && d < n && e < n
    requires Beyond(k, d, n) == Beyond(k, e, n)
    ensures d == e
  {
  }

  /** How many seats lie strictly between seat `k` and seat `i`, going round. */
  function Offset(k: int, i: int, n: nat): nat
    requires 0 <= k < n && 0 <= i < n
  {
    if i > k then i - k - 1 else i - k - 1 + n
  }

  /** Every seat other than `k` is reached from `k` in fewer than n-1 steps. */
  lemma BeyondReaches(k: int, i: int, n: nat)
    requires 0 <= k < n && 0 <= i < n && i != k
    ensures Offset(k, i, n) < n - 1 && Beyond(k, Offset(k, i, n), n) == i
  {
  }

  /** Is every seat but `k` skipped? */
  predicate AllOthersSkipped(skipped: seq<bool>, k: int)
  {
    forall i :: 0 <= i < |skipped| && i != k ==> skipped[i]
  }

  /**
   * With three or more seats, `nextPlayer` finds nobody exactly when every other
   * player is skipped.
   */
  lemma NobodyIffAllOthersSkipped(skipped: seq<bool>, k: int)
    requires |skipped| >= 3 && 0 <= k < |skipped|
    ensures NextPick(skipped, Some(k)) == Nobody <==> AllOthersSkipped(skipped, k)
  {
    var n := |skipped|;
    BeyondNotCurrent(k, n);
    if NextPick(skipped, Some(k)) == Nobody {
      forall i | 0 <= i < n && i != k
        ensures skipped[i]
      {
        BeyondReaches(k, i, n);
      }
    }
  }

  /**
   * With three or more seats, the pick is the first seat after the current one that
   * is not skipped: every seat passed over on the way is skipped.
   */
  lemma PickIsFirstUnskipped(skipped: seq<bool>, k: int, i: nat)
    requires |skipped| >= 3 && 0 <= k < |skipped|
    requires NextPick(skipped, Some(k)) == Index(i)
    ensures i < |skipped| && i != k && !skipped[i]
    ensures forall e :: 0 <= e < Offset(k, i, |skipped|) ==> skipped[Beyond(k, e, |skipped|)]
  {
    var n := |skipped|;
    BeyondReaches(k, i, n);
    var d := FirstFrom(skipped, k, 0, n - 1).value;
    BeyondInjective(k, d, Offset(k, i, n), n);
  }

  /** No player is skipped. */
  predicate NoneSkipped(skipped: seq<bool>)
  {
    forall i :: 0 <= i < |skipped| ==> !skipped[i]
  }

  /** Only the player at seat `j` is skipped. */
  predicate OnlySkipped(skipped: seq<bool>, j: int)
  {
    forall i :: 0 <= i < |skipped| ==> (skipped[i] <==> i == j)
  }

  /** With nobody skipped, the turn passes to the next seat round the table. */
  lemma NextWhenNoneSkipped(skipped: seq<bool>, k: int)
    requires |skipped| >= 2 && 0 <= k < |skipped| && NoneSkipped(skipped)
    ensures NextPick(skipped, Some(k)) == Index(Beyond(k, 0, |skipped|))
  {
    if |skipped| > 2 {
      assert FirstFrom(skipped, k, 0, |skipped| - 1) == Some(0);
    }
  }

  /**
   * With only the next seat skipped, the turn jumps over it; at a table of two it
   * comes back to the current player.
   */
  lemma NextWhenNextSkipped(skipped: seq<bool>, k: int)
    requires |skipped| >= 2 && 0 <= k < |skipped|
    requires OnlySkipped(skipped, Beyond(k, 0, |skipped|))
    ensures |skipped| == 2 ==> NextPick(skipped, Some(k)) == Stay
    ensures |skipped| > 2 ==> NextPick(skipped, Some(k)) == Index(Beyond(k, 1, |skipped|))
  {
    var n := |skipped|;
    if n > 2 {
      assert !skipped[Beyond(k, 1, n)];
      assert FirstFrom(skipped, k, 1, n - 1) == Some(1);
      assert FirstFrom(skipped, k, 0, n - 1) == Some(1);
    }
  }

  /** Once the current player has left, with nobody skipped the turn goes to seat 0. */
  lemma NextWhenCurrentLeft(skipped: seq<bool>)
    requires |skipped| >= 1 && NoneSkipped(skipped)
    ensures NextPick(skipped, Some(-1)) == Index(0)
  {
    if |skipped| != 2 {
      assert FirstFrom(skipped, -1, 0, |skipped|) == Some(0);
    }
  }

  /**
   * In the reversed seating, the seat after a player holds the player who sat
   * before them in the original one.
   */
  lemma ReversedSuccessor<T>(s: seq<T>, k: int)
    requires 2 <= |s| && 0 <= k < |s|
    ensures |Reverse(s)| == |s|
    ensures Reverse(s)[Beyond(|s| - 1 - k, 0, |s|)] == s[Beyond(k, |s| - 2, |s|)]
  {
    var n := |s|;
    ReverseLength(s);
    ReverseAt(s, Beyond(n - 1 - k, 0, n));
  }
}
