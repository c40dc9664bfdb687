// A seat at the table: the player's identity, their hand and the per-turn flags
// the game sets and clears.

module Players {
  import opened Decks

  class Player {
    var nick: string
    const user: string
    const hostname: string
    var points: int
    var idleTurns: int
    const hand: Deck
    /** Set by Skip, Draw Two and Wild Draw Four, cleared at every turn change. */
    var skipped: bool
    var hasPlayed: bool
    var hasDrawn: bool
    /** Set on a successful or failed challenge; nothing ever clears it. */
    var hasChallenged: bool
    /** The player declared "uno" this turn. */
    var uno: bool
    /** The player ended a turn holding one card without declaring "uno". */
    var challengeable: bool

    constructor (nick: string, user: string, hostname: string)
      ensures this.nick == nick && this.user == user && this.hostname == hostname
      ensures points == 0 && idleTurns == 0
      ensures fresh(hand) && hand.cards == []
      ensures !skipped && !hasPlayed && !hasDrawn && !hasChallenged && !uno && !challengeable
    {
      this.nick := nick;
      this.user := user;
      this.hostname := hostname;
      points := 0;
      idleTurns := 0;
      hand := new Deck(false, []);
      skipped := false;
      hasPlayed := false;
      hasDrawn := false;
      hasChallenged := false;
      uno := false;
      challengeable := false;
    }
  }
}
