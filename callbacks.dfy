/**
 * How the game's callbacks reach the game. The constructor and `nextTurn`
 * register `startTimeoutFunction`, `turnTimer` and the four IRC listeners as
 * bare method references, so when Node calls them `this` is whatever object
 * calls them: the Timeout object for a timer, the IRC client for a listener.
 * A callback runs its `this.` accesses in order; one that dereferences or
 * calls a member the receiver does not have throws a TypeError.
 */
module Callbacks {

  /** The object a callback runs with as `this`. */
  datatype Receiver = TheGame | TimerObject | IrcClient

  /** The game's callbacks. */
  datatype Callback = StartTimeout | TurnTimer | PartHandler | KickHandler | QuitHandler | NickHandler

  /** What the body does with a `this.` member: pass it on as a value, read a field of it, or call it. */
  datatype Use = Pass | Deref | Call

  /** One `this.<member>` access of a callback body, at a source line. */
  datatype Access = Access(line: nat, member: string, use: Use)

  /** The game operation a callback body reaches once its accesses have all succeeded. */
  datatype Target = StopGame | CheckTurnClock | RemoveIfPlaying | RenamePlayer

  datatype Outcome = Threw(line: nat) | Reached(target: Target)

  /** The game's own members that the callbacks use. */
  const GameMembers: set<string> :=
    {"startTimeout", "say", "stop", "currentPlayer", "config", "roundStarted", "idled", "pm",
     "findAndRemoveIfPlaying", "getPlayer"}

  /**
   * Whether `r` has the member `m`. The IRC client has `say` (used by the
   * game's own `say` and `pm`) but none of the game's fields or methods; a
   * Timeout object has none of them.
   */
  predicate Has(r: Receiver, m: string)
  {
    match r
    case TheGame => m in GameMembers
    case TimerObject => false
    case IrcClient => m == "say"
  }

  /** An access fails when it dereferences or calls a member the receiver lacks; passing `undefined` on does not fail. */
  predicate Faults(a: Access, r: Receiver)
  {
    a.use != Pass && !Has(r, a.member)
  }

  /** The `this.` accesses of each callback, in the order they run, up to the game operation it reaches. */
  function Accesses(cb: Callback): seq<Access>
  {
    match cb
    case StartTimeout => [Access(99, "startTimeout", Pass), Access(100, "say", Call), Access(101, "say", Call), Access(104, "stop", Call)]
    case TurnTimer => [Access(160, "currentPlayer", Deref), Access(160, "config", Deref), Access(161, "config", Deref), Access(165, "roundStarted", Deref)]
    case PartHandler => [Access(608, "findAndRemoveIfPlaying", Call)]
    case KickHandler => [Access(613, "findAndRemoveIfPlaying", Call)]
    case QuitHandler => [Access(618, "findAndRemoveIfPlaying", Call)]
    case NickHandler => [Access(624, "getPlayer", Call)]
  }

  function TargetOf(cb: Callback): Target
  {
    match cb
    case StartTimeout => StopGame
    case TurnTimer => CheckTurnClock
    case PartHandler => RemoveIfPlaying
    case KickHandler => RemoveIfPlaying
    case QuitHandler => RemoveIfPlaying
    case NickHandler => RenamePlayer
  }

  /**
   * Runs the accesses `steps` with receiver `r`: the first faulting access throws
   * at its line; when none faults, the body reaches `t`.
   */
  function Run(steps: seq<Access>, r: Receiver, t: Target): (o: Outcome)
    ensures o.Reached? <==> forall i :: 0 <= i < |steps| ==> !Faults(steps[i], r)
    ensures o.Reached? ==> o.target == t
    ensures o.Threw? ==> exists i :: 0 <= i < |steps| && Faults(steps[i], r) && steps[i].line == o.line &&
                                     forall j :: 0 <= j < i ==> !Faults(steps[j], r)
  {
    if steps == [] then Reached(t)
    else if Faults(steps[0], r) then Threw(steps[0].line)
    else
      var o := Run(steps[1..], r, t);
      assert forall i :: 1 <= i < |steps| ==> steps[i] == steps[1..][i - 1];
      if o.Threw? then
        var i :| 0 <= i < |steps[1..]| && Faults(steps[1..][i], r) && steps[1..][i].line == o.line &&
                 forall j :: 0 <= j < i ==> !Faults(steps[1..][j], r);
        assert Faults(steps[i + 1], r) && forall j :: 0 <= j < i + 1 ==> !Faults(steps[j], r);
        o
      else o
  }

  /** A callback invoked with `r` as `this`. */
  function Invoke(cb: Callback, r: Receiver): Outcome
  {
    Run(Accesses(cb), r, TargetOf(cb))
  }

  /**
   * The receiver Node supplies to a bare method reference: `setTimeout` and
   * `setInterval` call it on their Timeout object, an event emitter on itself.
   */
  function AsRegistered(cb: Callback): Receiver
  {
    if cb == StartTimeout || cb == TurnTimer then TimerObject else IrcClient
  }

  /**
   * As registered, every callback throws before it reaches the game: the start
   * timeout when it calls `say`, the turn timer when it reads the current
   * player's idle count, the part, kick and quit listeners when they call
   * `findAndRemoveIfPlaying`, and the nick listener when it calls `getPlayer`.
   */
  lemma UnboundCallbacksThrow(cb: Callback)
    ensures Invoke(cb, AsRegistered(cb)).Threw?
    ensures Invoke(cb, AsRegistered(cb)).line ==
      match cb
      case StartTimeout => 100
      case TurnTimer => 160
      case PartHandler => 608
      case KickHandler => 613
      case QuitHandler => 618
      case NickHandler => 624
  {
  }

  /**
   * Bound to the game, every callback reaches its operation: the turn timer the
   * clock check that `TurnTick` models, the part, kick and quit listeners the
   * removal that `FindAndRemoveIfPlaying` models, and the start timeout `stop`.
   */
  lemma BoundCallbacksReachGame(cb: Callback)
    ensures Invoke(cb, TheGame) == Reached(TargetOf(cb))
    ensures cb == TurnTimer <==> TargetOf(cb) == CheckTurnClock
    ensures cb in {PartHandler, KickHandler, QuitHandler} <==> TargetOf(cb) == RemoveIfPlaying
  {
  }
}
