// The chat commands. Each command reaches the game only when a game exists and
// is in the right state; these checks are what confine `play`, `draw` and the
// other turn commands to a game under way, as the game's own methods do not
// look at the state. `join` also decides when a new game is built. Arguments
// arrive already split into words.

module Controller {
  import opened Basics
  import opened Cards
  import opened Players
  import opened Games

  // ---------------------------------------------------------------------------
  // The checks, on the state of the current game (None when there is none).
  // ---------------------------------------------------------------------------

  /** `cards`, `challenge`, `draw`, `end`, `play` and `uno` need a game under way. */
  predicate TurnCommandReaches(s: Option<State>)
  {
    s == Some(Playable)
  }

  /** `join` is refused while a game is anywhere between its start and its end. */
  predicate JoinRefused(s: Option<State>)
  {
    s.Some? && s.value != Stopped && s.value != Finished && s.value != Waiting
  }

  /** `join` builds a new game when there is none or the last one is over. */
  predicate NeedsNewGame(s: Option<State>)
  {
    s.None? || s.value == Finished
  }

  /** `start` is passed on only to a game waiting for players. */
  predicate StartReaches(s: Option<State>)
  {
    s == Some(Waiting)
  }

  /** `quit` and `stop` are ignored when there is no game or it is over. */
  predicate GameLive(s: Option<State>)
  {
    s.Some? && s.value != Finished
  }

  /** The word at position `i` of a command's arguments, when there is one. */
  function Arg(args: seq<string>, i: nat): (r: Option<string>)
    ensures r.Some? <==> i < |args|
    ensures r.Some? ==> r.value == args[i]
  {
    if i < |args| then Some(args[i]) else None
  }

  /** The seating part of `join`: a new player with this identity is offered a seat by `addPlayer`. */
  method Seat(g: Game, nick: string, user: string, host: string) returns (added: bool)
    requires g.Valid() && (g.state == Stopped || g.state == Waiting)
    modifies g, g.deck, g.discard, g.HandSet(), set x: Player | x in g.players
    ensures g.Valid()
    ensures added <==> !old(g.HasIdentity(nick, user, host))
    ensures added ==>
      && g.state == Waiting && |g.players| == old(|g.players|) + 1
      && g.players[..old(|g.players|)] == old(g.players) && g.players[old(|g.players|)].nick == nick
    ensures !added ==> unchanged(g)
  {
    var p := new Player(nick, user, host);
    ghost var before := g.players;
    assert g.HasIdentity(nick, user, host) == g.HasIdentity(p.nick, p.user, p.hostname);
    added := g.AddPlayer(p);
    assert added ==> g.players == before + [p];
  }

  // ---------------------------------------------------------------------------
  // The command handler.
  // ---------------------------------------------------------------------------

  class Uno {
    var game: Game?
    /** The deck composition and the game options every new game is built with. */
    const composition: seq<Face>
    const turnMinutes: int
    const idleRoundTimerDecrement: int
    const maxIdleTurns: int

    constructor (composition: seq<Face>, turnMinutes: int, idleRoundTimerDecrement: int, maxIdleTurns: int)
      ensures game == null && Valid()
      ensures this.composition == composition && this.turnMinutes == turnMinutes
      ensures this.idleRoundTimerDecrement == idleRoundTimerDecrement && this.maxIdleTurns == maxIdleTurns
    {
      game := null;
      this.composition := composition;
      this.turnMinutes := turnMinutes;
      this.idleRoundTimerDecrement := idleRoundTimerDecrement;
      this.maxIdleTurns := maxIdleTurns;
    }

    /** The state of the current game, or None when there is none. */
    function GameState(): (s: Option<State>)
      reads this, game
      ensures s.Some? <==> game != null
      ensures s.Some? ==> s.value == game.state
    {
      if game == null then None else Some(game.state)
    }

    /** Whatever the current game's methods may change. */
    ghost function Footprint(): set<object>
      reads this, game, if game == null then {} else game.HeldHand()
    {
      if game == null then {}
      else
        var g: Game := game;
        {g, g.deck, g.discard} + g.HandSet() + g.HeldCards() + set x: Player | x in g.players
    }

    /** The current game, if any, is as between commands. */
    ghost predicate Valid()
      reads this, game, if game == null then {} else {game.discard}
      reads if game == null then [] else game.HandSeq(), if game == null then [] else game.players
    {
      game != null ==> game.Valid()
    }

    /**
     * `cards`: the hand of the player with this nick, which the source sends to
     * them; nothing when no game is under way or the nick is not at the table.
     */
    method CardsCommand(nick: string) returns (shown: Option<seq<Card>>)
      requires game != null ==> game.Valid()
      ensures shown.Some? <==> TurnCommandReaches(GameState()) && game.NickIndex(Some(nick)) >= 0
      ensures shown.Some? ==> shown.value == game.players[game.NickIndex(Some(nick))].hand.cards
    {
      if game == null || game.state != Playable {
        return None;
      }
      var k := game.NickIndex(Some(nick));
      if k < 0 {
        return None;
      }
      return Some(game.players[k].hand.cards);
    }

    /** `play`: the card index and the colour are the first two words. */
    method PlayCommand(nick: string, args: seq<string>) returns (v: Option<Verdict>)
      requires Valid()
      modifies Footprint()
      ensures Valid() && game == old(game)
      ensures v.Some? <==> TurnCommandReaches(old(GameState()))
      ensures v.Some? ==> v.value == old(game.Judge(nick, Arg(args, 0), Arg(args, 1)))
      ensures v == None ==> unchanged(this) && unchanged(old(Footprint()))
    {
      var g := game;
      v := None;
      if g != null && g.state == Playable {
        var verdict := g.Play(nick, Arg(args, 0), Arg(args, 1));
        v := Some(verdict);
      }
    }

    /** `draw`, off the idle path. */
    method DrawCommand(nick: string) returns (drew: Option<bool>)
      requires Valid()
      modifies Footprint()
      ensures Valid() && game == old(game)
      ensures drew.Some? <==> TurnCommandReaches(old(GameState()))
      ensures drew.Some? ==> (drew.value <==> old(game.currentPlayer.nick == nick && !game.currentPlayer.hasDrawn))
      ensures drew == None ==> unchanged(this) && unchanged(old(Footprint()))
    {
      var g := game;
      drew := None;
      if g != null && g.state == Playable {
        var d := g.Draw(nick, false);
        drew := Some(d);
      }
    }

    /** `end`. */
    method EndCommand(nick: string) returns (ended: Option<bool>)
      requires Valid()
      modifies Footprint()
      ensures Valid() && game == old(game)
      ensures ended.Some? <==> TurnCommandReaches(old(GameState()))
      ensures ended.Some? ==> (ended.value <==> old(game.currentPlayer.nick == nick && (game.currentPlayer.hasPlayed || game.currentPlayer.hasDrawn)))
      ensures ended == None ==> unchanged(this) && unchanged(old(Footprint()))
    {
      var g := game;
      ended := None;
      if g != null && g.state == Playable {
        var e := g.End(nick);
        ended := Some(e);
      }
    }

    /** `challenge`. */
    method ChallengeCommand(nick: string) returns (r: Option<bool>)
      requires Valid()
      modifies Footprint()
      ensures Valid() && game == old(game)
      ensures r.Some? <==> TurnCommandReaches(old(GameState()))
      ensures r.Some? ==> (r.value <==> old(game.MayChallenge(nick)))
      ensures r == None ==> unchanged(this) && unchanged(old(Footprint()))
    {
      var g := game;
      r := None;
      if g != null && g.state == Playable {
        var c := g.Challenge(nick);
        r := Some(c);
      }
    }

    /** `uno`, possibly with a card to play at once. */
    method UnoCommand(nick: string, args: seq<string>) returns (declared: Option<bool>)
      requires Valid()
      modifies Footprint()
      ensures Valid() && game == old(game)
      ensures declared.Some? <==> TurnCommandReaches(old(GameState()))
      ensures declared.Some? ==> (declared.value <==> old(game.currentPlayer.nick == nick && |game.currentPlayer.hand.cards| == 2))
      ensures declared == None ==> unchanged(this) && unchanged(old(Footprint()))
    {
      var g := game;
      declared := None;
      if g != null && g.state == Playable {
        var d, _ := g.Uno(nick, Arg(args, 0), Arg(args, 1));
        declared := Some(d);
      }
    }

    /**
     * `join`: refused while a game is under way. Otherwise a new game is built
     * when there is none or the last one is over, and a new player with this
     * identity is offered a seat.
     */
    method Join(nick: string, user: string, host: string) returns (joined: Option<bool>)
      requires Valid()
      modifies this`game, Footprint()
      ensures Valid()
      ensures joined.None? <==> JoinRefused(old(GameState()))
      ensures joined.None? ==> game == old(game) && unchanged(old(Footprint()))
      ensures joined.Some? && NeedsNewGame(old(GameState())) ==>
        fresh(game) && joined.value && game.state == Waiting && |game.players| == 1
      ensures joined.Some? && !NeedsNewGame(old(GameState())) ==>
        game == old(game) && (joined.value <==> !old(game.HasIdentity(nick, user, host)))
      ensures joined == Some(true) ==>
        var n := old(if NeedsNewGame(GameState()) then 0 else |game.players|);
        && |game.players| == n + 1 && game.players[n].nick == nick
        && (!NeedsNewGame(old(GameState())) ==> game.players[..n] == old(game.players))
    {
      if game != null && game.state != Stopped && game.state != Finished && game.state != Waiting {
        joined := None;
      } else {
        var g: Game;
        if game == null || game.state == Finished {
          g := new Game(composition, turnMinutes, idleRoundTimerDecrement, maxIdleTurns);
          game := g;
        } else {
          g := game;
        }
        var added := Seat(g, nick, user, host);
        joined := Some(added);
      }
    }

    /** `quit`: the player with this nick leaves a game that is not over. */
    method Quit(nick: string) returns (removed: Option<bool>)
      requires Valid()
      modifies Footprint()
      ensures Valid() && game == old(game)
      ensures removed.Some? <==> GameLive(old(GameState()))
      ensures removed.Some? ==> (removed.value <==> old(game.NickIndex(Some(nick))) >= 0)
      ensures removed == None ==> unchanged(this) && unchanged(old(Footprint()))
    {
      var g := game;
      removed := None;
      if g != null && g.state != Finished {
        var r := g.RemovePlayer(nick);
        removed := Some(r);
      }
    }

    /** `start`, passed on only to a game waiting for players. */
    method StartCommand(nick: string) returns (started: Option<bool>)
      requires Valid()
      requires GameState() == Some(Waiting) && game.NickIndex(Some(nick)) >= 0 && |game.players| >= 2 ==>
        7 * |game.players| < |game.deck.cards|
      modifies Footprint()
      ensures Valid() && game == old(game)
      ensures started.Some? <==> StartReaches(old(GameState()))
      ensures started.Some? ==> (started.value <==> old(game.NickIndex(Some(nick))) >= 0 && old(|game.players|) >= 2)
      ensures started == Some(true) ==> game.state == Playable && game.turn == 1
      ensures started == None ==> unchanged(this) && unchanged(old(Footprint()))
    {
      if game != null && game.state == Waiting {
        var g := game;
        var s := g.Start(Some(nick));
        started := Some(s);
      } else {
        started := None;
      }
    }

    /** `stop`: only a player at the table can stop a game that is not over. */
    method StopCommand(nick: string) returns (stopped: bool)
      requires Valid()
      modifies Footprint()
      ensures Valid() && game == old(game)
      ensures stopped <==> GameLive(old(GameState())) && old(game.NickIndex(Some(nick))) >= 0
      ensures stopped ==> game.state == Finished
      ensures !stopped ==> unchanged(this) && unchanged(old(Footprint()))
    {
      var g := game;
      stopped := false;
      if g != null && g.state != Finished && g.NickIndex(Some(nick)) >= 0 {
        g.Stop();
        g.StoppedIsValid();
        stopped := true;
      }
    }
  }
}
