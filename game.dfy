// The game: the seating (whose order is the turn order), the draw pile, the
// discard pile, whose turn it is, the turn counter, the first-card flag and the
// state of the game. Every rule of play is a method here, and so are the special
// effects of the cards, because they change the game.

module Games {
  import opened Basics
  import opened Text
  import opened Cards
  import opened Decks
  import opened Players
  import opened TurnOrder
  import opened TurnTimer

  datatype State = Stopped | Started | Playable | TurnEnd | Finished | Waiting

  // ---------------------------------------------------------------------------
  // The checks of `play`, on values.
  // ---------------------------------------------------------------------------

  /** The outcome of the checks of `play`: the accepted index, or why the card is refused. */
  datatype Verdict =
    | NoSuchPlayer
    | NotYourTurn
    | NotNumeric
    | BadIndex
    | NotPlayable
    | NoColor
    | BadColor
    | MustPlayDrawn
    | Accept(index: nat)

  /** Where a verdict stands in the order of the checks; an accepted card passed them all. */
  function Rank(v: Verdict): nat
  {
    match v
    case NoSuchPlayer => 0
    case NotYourTurn => 1
    case NotNumeric => 2
    case BadIndex => 3
    case NotPlayable => 4
    case NoColor => 5
    case BadColor => 6
    case MustPlayDrawn => 7
    case Accept(_) => 8
  }

  /** The card argument names a position: a token of decimal digits. */
  predicate Numeric(cardRaw: Option<string>)
  {
    cardRaw.Some? && IsDigits(cardRaw.value)
  }

  /**
   * The checks of `play` in the order the source makes them. `found` says the nick
   * belongs to a player, `isCurrent` that this player holds the turn, `hand` is
   * that player's hand, `top` the top of the discard pile.
   */
  function PlayVerdict(found: bool, isCurrent: bool, cardRaw: Option<string>, hand: seq<Face>,
                       top: Face, color: Option<string>, hasDrawn: bool): (v: Verdict)
    ensures Rank(v) > 0 <==> found
    ensures Rank(v) > 1 <==> found && isCurrent
    ensures Rank(v) > 2 <==> found && isCurrent && Numeric(cardRaw)
    ensures Rank(v) > 3 <==> found && isCurrent && Numeric(cardRaw) && DecimalValue(cardRaw.value) < |hand|
    ensures Rank(v) > 3 ==> var i := DecimalValue(cardRaw.value);
      && (Rank(v) > 4 <==> Cards.Playable(hand[i], top) != Some(false))
      && (Rank(v) > 5 <==> Rank(v) > 4 && (hand[i].color == Color.Wild ==> color.Some?))
      && (Rank(v) > 6 <==> Rank(v) > 5 && (hand[i].color == Color.Wild ==> ParseColor(color.value).Some?))
      && (Rank(v) > 7 <==> Rank(v) > 6 && (hasDrawn ==> i == |hand| - 1))
    ensures v.Accept? <==> Rank(v) == 8
    ensures v.Accept? ==> v.index == DecimalValue(cardRaw.value)
  {
    if !found then NoSuchPlayer
    else if !isCurrent then NotYourTurn
    else if !Numeric(cardRaw) then NotNumeric
    else
      var i := DecimalValue(cardRaw.value);
      if i >= |hand| then BadIndex
      else if Cards.Playable(hand[i], top) == Some(false) then NotPlayable
      else if hand[i].color == Color.Wild && color.None? then NoColor
      else if hand[i].color == Color.Wild && ParseColor(color.value).None? then BadColor
      else if hasDrawn && i != |hand| - 1 then MustPlayDrawn
      else Accept(i)
  }

  /** A card is accepted exactly when every check passes, whatever their order. */
  lemma AcceptIffAllChecks(found: bool, isCurrent: bool, cardRaw: Option<string>, hand: seq<Face>,
                           top: Face, color: Option<string>, hasDrawn: bool)
    ensures PlayVerdict(found, isCurrent, cardRaw, hand, top, color, hasDrawn).Accept? <==>
      && found && isCurrent && Numeric(cardRaw)
      && var i := DecimalValue(cardRaw.value);
      && i < |hand|
      && Cards.Playable(hand[i], top) != Some(false)
      && (hand[i].color == Color.Wild ==> color.Some? && ParseColor(color.value).Some?)
      && (hasDrawn ==> i == |hand| - 1)
  {
  }

  /** An accepted wild card always comes with one of the four colours. */
  lemma AcceptedWildHasColor(found: bool, isCurrent: bool, cardRaw: Option<string>, hand: seq<Face>,
                             top: Face, color: Option<string>, hasDrawn: bool)
    requires PlayVerdict(found, isCurrent, cardRaw, hand, top, color, hasDrawn).Accept?
    requires hand[DecimalValue(cardRaw.value)].color == Color.Wild
    ensures color.Some? && ParseColor(color.value).Some? && ParseColor(color.value).value != Color.Wild
  {
  }

  // ---------------------------------------------------------------------------
  // Who holds the turn after a card is played, on seat numbers.
  // ---------------------------------------------------------------------------

  /** Cards the next player must draw when a card's effect is not suppressed. */
  function Penalty(kind: Kind, suppressed: bool): nat
  {
    if suppressed then 0
    else if kind == DrawTwo then 2
    else if kind == WildDrawFour then 4
    else 0
  }

  /** The card turns the seating round. */
  predicate Reverses(kind: Kind, suppressed: bool, n: nat)
  {
    !suppressed && kind == Kind.Reverse && n != 2
  }

  /** The card makes the next player lose their turn (a Reverse does so between two players). */
  predicate SkipsNext(kind: Kind, suppressed: bool, n: nat)
  {
    !suppressed && (kind == Skip || kind == DrawTwo || kind == WildDrawFour || (kind == Kind.Reverse && n == 2))
  }

  /**
   * The seat (in the seating before the card) of the player whose turn follows a
   * card of `kind` played from seat `k` at a table of `n`, with nobody skipped
   * before: the next seat; the one after it when the next player is skipped, which
   * between two players is the player's own seat; and the previous seat once the
   * seating is reversed.
   */
  function SeatAfterPlay(kind: Kind, suppressed: bool, k: nat, n: nat): (s: nat)
    requires 2 <= n && k < n
    ensures s < n
  {
    if SkipsNext(kind, suppressed, n) then (if n == 2 then k else Beyond(k, 1, n))
    else if Reverses(kind, suppressed, n) then Beyond(k, n - 2, n)
    else Beyond(k, 0, n)
  }

  /** A skip between two players gives the turn straight back; at a bigger table it never does. */
  lemma SkipAtTwoReplays(kind: Kind, k: nat, n: nat)
    requires 2 <= n && k < n && SkipsNext(kind, false, n)
    ensures SeatAfterPlay(kind, false, k, n) == k <==> n == 2
  {
    if n > 2 {
      BeyondNotCurrent(k, n);
    }
  }

  /** With three or more players nobody plays twice in a row, whatever card was played. */
  lemma NoSecondTurnAtBigTable(kind: Kind, suppressed: bool, k: nat, n: nat)
    requires 3 <= n && k < n
    ensures SeatAfterPlay(kind, suppressed, k, n) != k
  {
    BeyondNotCurrent(k, n);
  }
  // ---------------------------------------------------------------------------
  // One field of every player, seat by seat. Each reads that field only, so that
  // changing another field of a player leaves it as it was.
  // ---------------------------------------------------------------------------

  ghost function SkipFlags(s: seq<Player>): (r: seq<bool>)
    reads s`skipped
    ensures |r| == |s| && forall i :: 0 <= i < |s| ==> r[i] == s[i].skipped
  {
    if s == [] then [] else SkipFlags(s[..|s| - 1]) + [s[|s| - 1].skipped]
  }

  function NicksOf(s: seq<Player>): (r: seq<string>)
    reads s`nick
    ensures |r| == |s| && forall i :: 0 <= i < |s| ==> r[i] == s[i].nick
  {
    if s == [] then [] else NicksOf(s[..|s| - 1]) + [s[|s| - 1].nick]
  }

  /**
   * `getPlayer` exactly as written: its body evaluates `_.find` and drops the
   * result, so the lookup yields nothing whatever the table holds. The rest of
   * the model reads it as `_.find` (`Game.NickIndex`).
   */
  function GetPlayerAsWritten(nicks: seq<string>, nick: string): Option<nat>
  {
    None
  }

  /** The written lookup misses every seated nick, while `_.find` finds its first seat. */
  lemma GetPlayerMissesSeated(nicks: seq<string>, i: nat)
    requires i < |nicks|
    ensures GetPlayerAsWritten(nicks, nicks[i]).None?
    ensures 0 <= IndexOf(nicks, nicks[i]) <= i && nicks[IndexOf(nicks, nicks[i])] == nicks[i]
  {
    var r := IndexOf(nicks, nicks[i]);
    assert forall j :: 0 <= j < r ==> nicks[..r][j] == nicks[j];
  }

  function IdentitiesOf(s: seq<Player>): (r: seq<(string, string, string)>)
    reads s`nick
    ensures |r| == |s| && forall i :: 0 <= i < |s| ==> r[i] == (s[i].nick, s[i].user, s[i].hostname)
  {
    if s == [] then [] else IdentitiesOf(s[..|s| - 1]) + [(s[|s| - 1].nick, s[|s| - 1].user, s[|s| - 1].hostname)]
  }

  function ChallengeFlagsOf(s: seq<Player>): (r: seq<bool>)
    reads s`challengeable
    ensures |r| == |s| && forall i :: 0 <= i < |s| ==> r[i] == s[i].challengeable
  {
    if s == [] then [] else ChallengeFlagsOf(s[..|s| - 1]) + [s[|s| - 1].challengeable]
  }

  ghost function HandsOf(s: seq<Player>): (r: seq<seq<Card>>)
    reads set i | 0 <= i < |s| :: s[i].hand
    ensures |r| == |s| && forall i :: 0 <= i < |s| ==> r[i] == s[i].hand.cards
  {
    if s == [] then [] else HandsOf(s[..|s| - 1]) + [s[|s| - 1].hand.cards]
  }

  /**
   * The hands of the seating `s` against the hands `h` it held before a card took
   * effect: the hand at seat `j` has taken `number` more cards on top of the ones
   * it held, and every hand but those at seats `j` and `k` (the seat the card was
   * played from) is as it was.
   */
  ghost predicate Penalized(s: seq<Player>, h: seq<seq<Card>>, k: int, j: int, number: nat)
    reads set i | 0 <= i < |s| :: s[i].hand
  {
    && |s| == |h|
    && (forall i :: 0 <= i < |s| && i != k && i != j ==> s[i].hand.cards == h[i])
    && (0 <= j < |s| ==> |s[j].hand.cards| == |h[j]| + number && s[j].hand.cards[..|h[j]|] == h[j])
  }

  /** The cards of the pile `s`. */
  ghost function CardSet(s: seq<Card>): set<Card>
  {
    set c | c in s
  }

  /**
   * The piles after `deal` has handed out the cards `got`, in the order drawn,
   * from the draw pile `D` with the discard pile `S`; `D2` and `S2` are the piles
   * afterwards. While `D` lasts, the cards taken are its top ones, the last card
   * first, and the discard pile is as it was. Once `D` runs out, the player has
   * taken all of it first and the discard pile is turned over: it is left with
   * only its old top card, and every further card taken and every card of the new
   * draw pile comes from `S`; when `S` sufficed, those cards are exactly the cards
   * of `S`.
   */
  ghost predicate Dealt(D: seq<Card>, S: seq<Card>, D2: seq<Card>, S2: seq<Card>, got: seq<Card>)
  {
    if |got| <= |D| then
      D2 == D[..|D| - |got|] && S2 == S && got == Basics.Reverse(D[|D| - |got|..])
    else
      && S != [] && S2 == [S[|S| - 1]] && got[..|D|] == Basics.Reverse(D)
      && CardSet(got[|D|..]) <= CardSet(S) && CardSet(D2) <= CardSet(S)
      && (|got| <= |D| + |S| ==> multiset(got[|D|..]) + multiset(D2) == multiset(S))
  }

  /** Dealing no card is exactly leaving both piles as they were. */
  lemma DealtNothing(D: seq<Card>, S: seq<Card>, D2: seq<Card>, S2: seq<Card>)
    ensures Dealt(D, S, D2, S2, []) <==> D2 == D && S2 == S
  {
    assert D[..|D|] == D && D[|D|..] == [];
  }

  /** A single card dealt from a draw pile that is not empty is its top card, and the pile loses it. */
  lemma DealtOne(D: seq<Card>, S: seq<Card>, D2: seq<Card>, S2: seq<Card>, c: Card)
    requires Dealt(D, S, D2, S2, [c]) && D != []
    ensures c == D[|D| - 1] && D2 == D[..|D| - 1] && S2 == S
  {
    var x := D[|D| - 1];
    assert D[|D| - 1..] == [x];
    assert [x][1..] == [];
    assert Basics.Reverse([x]) == Basics.Reverse([]) + [x];
    assert [c] == Basics.Reverse(D[|D| - 1..]);
    assert [c] == [x];
  }

  /** A single card dealt from an empty draw pile comes from the turned-over discard pile, which becomes the draw pile. */
  lemma DealtOneRecycled(S: seq<Card>, D2: seq<Card>, S2: seq<Card>, c: Card)
    requires Dealt([], S, D2, S2, [c])
    ensures S2 == [S[|S| - 1]] && multiset(D2) + multiset{c} == multiset(S)
  {
    assert [c][0..] == [c];
  }

  /**
   * One card `c` drawn from the draw pile `D` with the discard pile `S`, leaving
   * the piles `D2` and `S2`: the top card of `D` while there is one; otherwise the
   * discard pile is turned over, keeps only its top card, and `c` with the new
   * draw pile are the rest of it.
   */
  ghost predicate DrewOne(D: seq<Card>, S: seq<Card>, D2: seq<Card>, S2: seq<Card>, c: Card)
  {
    if D != [] then c == D[|D| - 1] && D2 == D[..|D| - 1] && S2 == S
    else S != [] && S2 == [S[|S| - 1]] && multiset(D2) + multiset{c} == multiset(S)
  }

  /** Dealing one card is drawing it. */
  lemma DealtOneDrew(D: seq<Card>, S: seq<Card>, D2: seq<Card>, S2: seq<Card>, c: Card)
    requires Dealt(D, S, D2, S2, [c])
    ensures DrewOne(D, S, D2, S2, c)
  {
    if D != [] {
      DealtOne(D, S, D2, S2, c);
    } else {
      DealtOneRecycled(S, D2, S2, c);
    }
  }

  /** A hand other than the seat `k`'s that is as in `h1` is as in `h0` as well. */
  lemma PenalizedSince(s: seq<Player>, h1: seq<seq<Card>>, h0: seq<seq<Card>>, k: int, j: int, number: nat)
    requires Penalized(s, h1, k, j, number) && |h0| == |h1| && j != k
    requires forall i :: 0 <= i < |h0| && i != k ==> h1[i] == h0[i]
    ensures Penalized(s, h0, k, j, number)
  {
  }

  /**
   * The hands after `start` has dealt: seat by seat, each of the hands `h` takes
   * the next seven cards off the top of the draw pile `pile`, one at a time.
   */
  function DealtHands(h: seq<seq<Card>>, pile: seq<Card>): (r: seq<seq<Card>>)
    requires 7 * |h| <= |pile|
  {
    var L := |pile|;
    seq(|h|, j requires 0 <= j < |h| => h[j] + Basics.Reverse(pile[L - 7 * (j + 1)..L - 7 * j]))
  }

  /** Every hand dealt by `start` holds seven more cards than before. */
  lemma DealtHandsSizes(h: seq<seq<Card>>, pile: seq<Card>)
    requires 7 * |h| <= |pile|
    ensures |DealtHands(h, pile)| == |h|
    ensures forall j :: 0 <= j < |h| ==> |DealtHands(h, pile)[j]| == |h[j]| + 7
  {
    var L := |pile|;
    forall j | 0 <= j < |h|
      ensures |DealtHands(h, pile)[j]| == |h[j]| + 7
    {
      ReverseLength(pile[L - 7 * (j + 1)..L - 7 * j]);
    }
  }

  /** Hands that hold, seat by seat, what `DealtHands` describes are `DealtHands`. */
  lemma DealtHandsAre(x: seq<seq<Card>>, h: seq<seq<Card>>, pile: seq<Card>)
    requires 7 * |h| <= |pile| && |x| == |h|
    requires forall j :: 0 <= j < |x| ==> x[j] == h[j] + Basics.Reverse(pile[|pile| - 7 * (j + 1)..|pile| - 7 * j])
    ensures x == DealtHands(h, pile)
  {
  }

  // ---------------------------------------------------------------------------
  // The game object.
  // ---------------------------------------------------------------------------

  class Game {
    var players: seq<Player>
    var deck: Deck
    var discard: Deck
    var currentPlayer: Player?
    var turn: nat
    var firstCard: bool
    var state: State
    const turnMinutes: int
    const idleRoundTimerDecrement: int
    const maxIdleTurns: int
    /**
     * The seat of every player's hand. It witnesses that no two seats share a hand
     * (and so that no player sits twice) and that no hand is one of the two piles.
     */
    ghost var handSeat: map<Deck, int>

    /**
     * A new game: no players, a full deck (shuffled) and an empty discard pile.
     * The configuration values are passed in.
     */
    constructor (composition: seq<Face>, turnMinutes: int, idleRoundTimerDecrement: int, maxIdleTurns: int)
      ensures players == [] && currentPlayer == null && turn == 0 && firstCard && state == Stopped
      ensures fresh(deck) && fresh(discard) && discard.cards == []
      ensures |deck.cards| == |composition|
      ensures multiset(Views(deck.cards)) == multiset(composition) && Distinct(deck.cards)
      ensures this.turnMinutes == turnMinutes && this.idleRoundTimerDecrement == idleRoundTimerDecrement
      ensures this.maxIdleTurns == maxIdleTurns
      ensures handSeat == map[] && Valid()
    {
      var pile := new Deck(false, []);
      var full := new Deck(true, composition);
      ghost var before := full.cards;
      full.Shuffle();
      players := [];
      state := Stopped;
      deck := full;
      discard := pile;
      firstCard := true;
      turn := 0;
      currentPlayer := null;
      this.turnMinutes := turnMinutes;
      this.idleRoundTimerDecrement := idleRoundTimerDecrement;
      this.maxIdleTurns := maxIdleTurns;
      handSeat := map[];
      new;
      ShuffledDeck(before, deck.cards, composition);
    }

    // --- views -----------------------------------------------------------------

    /** The players' hands, seat by seat. */
    ghost function HandSeq(): (r: seq<Deck>)
      reads this`players
      ensures |r| == |players| && forall i :: 0 <= i < |players| ==> r[i] == players[i].hand
    {
      var s := players;
      seq(|s|, i requires 0 <= i < |s| => s[i].hand)
    }

    /** Every hand is recorded at its seat, so no two seats share a hand or a player. */
    ghost predicate Seated()
      reads this`players, this`handSeat
    {
      forall i :: 0 <= i < |players| ==> players[i].hand in handSeat && handSeat[players[i].hand] == i
    }

    /** The players' hands, as a frame. */
    ghost function HandSet(): (r: set<Deck>)
      reads this`players
      ensures forall i :: 0 <= i < |players| ==> players[i].hand in r
    {
      set i | 0 <= i < |players| :: players[i].hand
    }

    /** The cards of every hand, seat by seat. */
    ghost function Hands(): (r: seq<seq<Card>>)
      reads this`players, HandSeq()
      ensures |r| == |players| && forall i :: 0 <= i < |players| ==> r[i] == players[i].hand.cards
    {
      HandsOf(players)
    }

    /** The two piles are distinct decks, and distinct from every hand. */
    ghost predicate Wf()
      reads this`players, this`deck, this`discard, this`handSeat
    {
      && Seated()
      && deck != discard
      && deck !in handSeat && discard !in handSeat
    }

    /** No player sits at two seats. */
    lemma PlayersDistinct()
      requires Seated()
      ensures Distinct(players)
    {
    }

    ghost function Skips(): (r: seq<bool>)
      reads this`players, players`skipped
      ensures |r| == |players| && forall i :: 0 <= i < |players| ==> r[i] == players[i].skipped
    {
      SkipFlags(players)
    }

    ghost predicate NoneSkippedNow()
      reads this`players, players`skipped
    {
      forall i :: 0 <= i < |players| ==> !players[i].skipped
    }

    /** Exactly the seats of player `t` are skipped. */
    ghost predicate SkippedOnly(t: Player)
      reads this`players, players`skipped
    {
      forall i :: 0 <= i < |players| ==> (players[i].skipped <==> players[i] == t)
    }

    /** The seat of the current player while they sit at the table. */
    ghost function Seat(): (k: nat)
      reads this`players, this`currentPlayer, this`handSeat
      requires Seated() && currentPlayer in players
      ensures k < |players| && players[k] == currentPlayer
    {
      var i :| 0 <= i < |players| && players[i] == currentPlayer;
      i
    }

    /** The seat after the current player's. */
    ghost function NextSeat(): (j: nat)
      reads this`players, this`currentPlayer, this`handSeat
      requires Seated() && currentPlayer in players
      ensures j < |players|
    {
      Beyond(Seat(), 0, |players|)
    }

    /** The seat of the current player as `indexOf` reports it (-1 once they have left). */
    ghost function CurrentIndex(): (r: Option<int>)
      reads this`players, this`currentPlayer, this`handSeat
      requires Seated()
      ensures r.Some? ==> -1 <= r.value < |players|
    {
      if currentPlayer == null then None
      else if currentPlayer in players then Some(Seat() as int)
      else Some(-1)
    }

    /** The player `nextPlayer` returns in this state. */
    ghost function Next(): Player?
      reads this`players, this`currentPlayer, this`handSeat, players`skipped
      requires Seated()
    {
      match NextPick(Skips(), CurrentIndex())
      case Index(i) => players[i]
      case Stay => currentPlayer
      case Nobody => null
    }

    /** The situation while a turn is being played: a current player at the table, nobody skipped. */
    ghost predicate TurnHolder()
      reads this`players, this`currentPlayer, this`turn, players`skipped
    {
      currentPlayer in players && |players| >= 2 && turn > 0 && NoneSkippedNow()
    }

    ghost predicate HandsNonEmpty()
      reads this`players, HandSeq()
    {
      forall i :: 0 <= i < |players| ==> |players[i].hand.cards| > 0
    }

    /** Every player but the current one holds a card: so it is while a card is being played. */
    ghost predicate OthersHoldCards()
      reads this`players, this`currentPlayer, HandSeq()
    {
      forall i :: 0 <= i < |players| && players[i] != currentPlayer ==> |players[i].hand.cards| > 0
    }

    /**
     * The invariant between commands: the piles and hands are distinct, a game
     * under way has a discard pile, the two transient states are never seen, a
     * game not yet started has nobody on turn, a game over has no seating left
     * (`stop` deletes it), and while a game is playable a player at a table of
     * at least two holds the turn, nobody is skipped and nobody has run out of
     * cards.
     */
    ghost predicate Valid()
      reads this, players`skipped, discard, HandSeq()
    {
      && Wf()
      && (turn > 0 ==> |discard.cards| > 0)
      && state != Started && state != TurnEnd
      && (state == Waiting || state == Stopped ==> currentPlayer == null && turn == 0)
      && (state == Finished ==> players == [])
      && (state == Playable ==> TurnHolder() && HandsNonEmpty())
    }

    /** Some player has run out of cards: the `winner` search of `nextTurn`. */
    predicate SomeHandEmpty(): (r: bool)
      reads this`players, HandSeq()
      ensures r ==> !HandsNonEmpty()
    {
      exists i :: 0 <= i < |players| && |players[i].hand.cards| == 0
    }

    /** The winner search finds a player exactly when some hand is empty. */
    lemma SomeHandEmptyIff()
      ensures SomeHandEmpty() <==> !HandsNonEmpty()
    {
      if !HandsNonEmpty() {
        var i :| 0 <= i < |players| && !(|players[i].hand.cards| > 0);
        assert |players[i].hand.cards| == 0;
      }
    }

    ghost predicate FlagsCleared()
      reads this`players, players`skipped, players`hasPlayed, players`hasDrawn, players`uno
    {
      forall i :: 0 <= i < |players| ==>
        !players[i].skipped && !players[i].hasPlayed && !players[i].hasDrawn && !players[i].uno
    }

    /** Between two states, every card of `cs` has kept its colour. */
    twostate predicate ColorsKept(cs: set<Card>)
      reads cs
    {
      forall x :: x in cs ==> x.color == old(x.color)
    }

    /**
     * Between two states, of the players `ps` only `p`'s "uno" flag may have
     * changed: every other field of `p`, and every other player, is as it was.
     */
    twostate predicate OnlyUnoChanged(ps: seq<Player>, p: Player)
      reads ps, p
    {
      && (forall q :: q in ps && q != p ==> unchanged(q))
      && p.nick == old(p.nick) && p.points == old(p.points) && p.idleTurns == old(p.idleTurns)
      && p.skipped == old(p.skipped) && p.hasPlayed == old(p.hasPlayed) && p.hasDrawn == old(p.hasDrawn)
      && p.hasChallenged == old(p.hasChallenged) && p.challengeable == old(p.challengeable)
    }

    /**
     * Between two states, the turn has gone on with the players `ps` as they
     * were except that `p` has drawn: no other per-turn flag and no idle count
     * has changed.
     */
    twostate predicate OnlyDrawnChanged(ps: seq<Player>, p: Player)
      reads ps
    {
      forall q :: q in ps ==>
        && q.skipped == old(q.skipped) && q.hasPlayed == old(q.hasPlayed) && q.uno == old(q.uno)
        && q.idleTurns == old(q.idleTurns) && (q != p ==> q.hasDrawn == old(q.hasDrawn))
    }

    /** Between two states, every player of `ps` other than `p` has kept their challenge flag. */
    twostate predicate ChallengesKept(ps: seq<Player>, p: Player)
      reads ps
    {
      forall q :: q in ps && q != p ==> q.challengeable == old(q.challengeable)
    }

    /**
     * The challenge flag `endTurn` leaves on the player `p` whose turn it ends:
     * set when they hold one card without having declared "uno", else as it was.
     */
    twostate predicate MarkedAtEnd(p: Player)
      reads p, p.hand
    {
      p.challengeable == old(p.challengeable || (!p.uno && |p.hand.cards| == 1))
    }

    /** A turn has just begun: the game is playable, that turn's holder is set and every flag is clear. */
    ghost predicate Begun()
      reads this, players`skipped, players`hasPlayed, players`hasDrawn, players`uno, HandSeq()
    {
      Wf() && state == Playable && FlagsCleared() && TurnHolder() && HandsNonEmpty()
    }

    // --- lookups (`getPlayer`, read as `_.find`) --------------------------------

    function Nicks(): (r: seq<string>)
      reads this`players, players`nick
      ensures |r| == |players| && forall i :: 0 <= i < |players| ==> r[i] == players[i].nick
    {
      NicksOf(players)
    }

    /** The seat of the first player with this nick; -1 when there is none or no nick is given. */
    function NickIndex(nick: Option<string>): (r: int)
      reads this`players, players`nick
      ensures -1 <= r < |players|
      ensures r == -1 <==> nick.None? || forall i :: 0 <= i < |players| ==> players[i].nick != nick.value
      ensures r >= 0 ==> players[r].nick == nick.value && forall j :: 0 <= j < r ==> players[j].nick != nick.value
    {
      if nick.None? then -1
      else
        var r := IndexOf(Nicks(), nick.value);
        assert r >= 0 ==> forall j :: 0 <= j < r ==> Nicks()[..r][j] == Nicks()[j];
        r
    }

    function Identities(): (r: seq<(string, string, string)>)
      reads this`players, players`nick
      ensures |r| == |players| && forall i :: 0 <= i < |players| ==> r[i] == (players[i].nick, players[i].user, players[i].hostname)
    {
      IdentitiesOf(players)
    }

    /** Is there a player with the same nick, user and host? */
    function HasIdentity(nick: string, user: string, hostname: string): (r: bool)
      reads this`players, players`nick
      ensures r <==> exists i :: 0 <= i < |players| && players[i].nick == nick && players[i].user == user && players[i].hostname == hostname
    {
      var r := IndexOf(Identities(), (nick, user, hostname));
      assert r >= 0 ==> Identities()[r] == (nick, user, hostname);
      r >= 0
    }

    function ChallengeFlags(): (r: seq<bool>)
      reads this`players, players`challengeable
      ensures |r| == |players| && forall i :: 0 <= i < |players| ==> r[i] == players[i].challengeable
    {
      ChallengeFlagsOf(players)
    }

    /** The seat of the first challengeable player, or -1. */
    function ChallengeableIndex(): (r: int)
      reads this`players, players`challengeable
      ensures -1 <= r < |players|
      ensures r == -1 <==> forall i :: 0 <= i < |players| ==> !players[i].challengeable
      ensures r >= 0 ==> players[r].challengeable && forall j :: 0 <= j < r ==> !players[j].challengeable
    {
      var r := IndexOf(ChallengeFlags(), true);
      assert r >= 0 ==> forall j :: 0 <= j < r ==> ChallengeFlags()[..r][j] == ChallengeFlags()[j];
      r
    }

    /** The current player, as a frame. */
    ghost function Holder(): (r: set<Player>)
      reads this`currentPlayer
      ensures currentPlayer != null ==> r == {currentPlayer}
    {
      if currentPlayer == null then {} else {currentPlayer}
    }

    /** The current player's hand, as a frame. */
    ghost function HeldHand(): (r: set<Deck>)
      reads this`currentPlayer
      ensures currentPlayer != null ==> r == {currentPlayer.hand}
    {
      if currentPlayer == null then {} else {currentPlayer.hand}
    }

    /** The cards in the current player's hand, as a frame. */
    ghost function HeldCards(): (r: set<Card>)
      reads this`currentPlayer, HeldHand()
      ensures currentPlayer != null ==> forall j :: 0 <= j < |currentPlayer.hand.cards| ==> currentPlayer.hand.cards[j] in r
    {
      if currentPlayer == null then {} else set c | c in currentPlayer.hand.cards
    }

    /**
     * The checks of `play` on this state: the first player with this nick, whether
     * they hold the turn, their hand, the top of the discard pile and whether they
     * have drawn this turn.
     */
    function Judge(nick: string, cardRaw: Option<string>, color: Option<string>): (v: Verdict)
      reads this, players`nick, Holder()`hasDrawn, HeldHand(), HeldCards(), discard, discard.cards
      requires |discard.cards| > 0
      ensures v == NoSuchPlayer <==> NickIndex(Some(nick)) < 0
      ensures v == NotYourTurn <==> NickIndex(Some(nick)) >= 0 && players[NickIndex(Some(nick))] != currentPlayer
      ensures v.Accept? ==>
        && NickIndex(Some(nick)) >= 0 && players[NickIndex(Some(nick))] == currentPlayer
        && Numeric(cardRaw) && v.index == DecimalValue(cardRaw.value) && v.index < |currentPlayer.hand.cards|
        && Cards.Playable(currentPlayer.hand.cards[v.index].View(), discard.GetCurrentCard().View()) != Some(false)
        && (currentPlayer.hand.cards[v.index].color == Color.Wild ==> color.Some? && ParseColor(color.value).Some?)
        && (currentPlayer.hasDrawn ==> v.index == |currentPlayer.hand.cards| - 1)
    {
      var k := NickIndex(Some(nick));
      if k < 0 then NoSuchPlayer
      else if players[k] != currentPlayer then NotYourTurn
      else
        var p := players[k];
        PlayVerdict(true, true, cardRaw, Views(p.hand.cards), discard.GetCurrentCard().View(), color, p.hasDrawn)
    }

    // --- lemmas about the turn order of this game --------------------------------

    /** With nobody skipped, `nextPlayer` gives the next seat. */
    lemma NextOfNoneSkipped()
      requires Seated() && currentPlayer in players && |players| >= 2 && NoneSkippedNow()
      ensures Next() == players[NextSeat()]
    {
      NextWhenNoneSkipped(Skips(), Seat());
    }

    /** With only the next player skipped, `nextPlayer` jumps them, or returns the player at a table of two. */
    lemma NextOfNextSkipped()
      requires Seated() && currentPlayer in players && |players| >= 2
      requires SkippedOnly(players[NextSeat()])
      ensures Next() == if |players| == 2 then currentPlayer else players[Beyond(Seat(), 1, |players|)]
    {
      assert OnlySkipped(Skips(), NextSeat());
      NextWhenNextSkipped(Skips(), Seat());
    }

    // --- nextPlayer / setPlayer -------------------------------------------------

    /**
     * The circular scan of `nextPlayer` at a table of other than two seats: from
     * seat `k` (-1 once the current player has left), the first player round the
     * table who is not skipped. The source's loop stops when it comes back to seat
     * `k`; from -1 it only stops at a player who is not skipped, so one must exist.
     */
    method Scan(k: int) returns (next: Player?)
      requires -1 <= k < |players| && |players| != 2
      requires k < 0 ==> FirstFrom(Skips(), k, 0, |players|).Some?
      ensures next == match FirstFrom(Skips(), k, 0, if k >= 0 then |players| - 1 else |players|)
                      case Some(d) => players[Beyond(k, d, |players|)]
                      case None => null
    {
      var n := |players|;
      ghost var S := Skips();
      ghost var limit := if k >= 0 then n - 1 else n;
      ghost var found := FirstFrom(S, k, 0, limit);
      if k >= 0 {
        BeyondNotCurrent(k, n);
      }
      BeyondIsMod(k, 0, n);
      var i := (k + 1) % n;
      ghost var d: nat := 0;
      while i != k
        invariant d <= limit && d < n
        invariant i == Beyond(k, d, n)
        invariant FirstFrom(S, k, d, limit) == found
        invariant k < 0 ==> found.Some? && d <= found.value
        decreases limit - d
      {
        if !players[i].skipped {
          assert found == Some(d);
          return players[i];
        }
        BeyondStep(k, d, n);
        i := (i + 1) % n;
        d := d + 1;
      }
      return null;
    }

    /** `nextPlayer`. */
    method NextPlayer() returns (next: Player?)
      requires Seated()
      requires currentPlayer != null && currentPlayer !in players ==> Next() != null
      ensures next == Next()
    {
      if currentPlayer == null {
        if |players| == 0 {
          return null;
        }
        return players[0];
      }
      var n := |players|;
      var k := IndexOf(players, currentPlayer);
      assert k >= 0 ==> handSeat[players[k].hand] == k;
      assert Some(k) == CurrentIndex();
      if n == 2 {
        BeyondIsMod(k, 0, n);
        var j := (k + 1) % n;
        if !players[j].skipped {
          return players[j];
        }
        return currentPlayer;
      }
      next := Scan(k);
    }

    /** `setPlayer`: the turn passes to whoever `nextPlayer` names. */
    method SetPlayer()
      requires Seated()
      requires currentPlayer != null && currentPlayer !in players ==> Next() != null
      modifies this`currentPlayer
      ensures currentPlayer == old(Next())
    {
      currentPlayer := NextPlayer();
    }

    // --- deal ---------------------------------------------------------------------

    /** Turns the discard pile over into a new shuffled draw pile, leaving its top card behind. */
    method Recycle()
      requires Wf() && deck.cards == [] && discard.cards != []
      modifies this`deck, this`discard, discard
      ensures Wf()
      ensures deck == old(discard) && fresh(discard)
      ensures discard.cards == [old(discard.cards[|discard.cards| - 1])]
      ensures multiset(deck.cards) == multiset(old(discard.cards))
    {
      deck := discard;
      discard := new Deck(false, []);
      var top := deck.GetCurrentCard();
      discard.AddCard(top);
      deck.Shuffle();
    }

    /**
     * One pass of the loop of `deal`: when the draw pile is empty the discard pile
     * is turned over first; then the top card of the draw pile goes into the hand.
     */
    method DrawOne(p: Player)
      requires Wf() && p in players
      requires |deck.cards| > 0 || |discard.cards| > 0
      modifies this`deck, this`discard, deck, discard, p.hand
      ensures Wf()
      ensures |p.hand.cards| == old(|p.hand.cards|) + 1 && p.hand.cards[..old(|p.hand.cards|)] == old(p.hand.cards)
      ensures old(|deck.cards|) > 0 ==>
        && deck == old(deck) && discard == old(discard) && discard.cards == old(discard.cards)
        && deck.cards == old(deck.cards[..|deck.cards| - 1])
        && p.hand.cards == old(p.hand.cards) + [old(deck.cards[|deck.cards| - 1])]
      ensures old(|deck.cards|) == 0 ==>
        && deck == old(discard) && fresh(discard)
        && discard.cards == [old(discard.cards[|discard.cards| - 1])]
        && multiset(deck.cards) + multiset{p.hand.cards[old(|p.hand.cards|)]} == multiset(old(discard.cards))
      ensures old(discard.cards) != [] ==> discard.GetCurrentCard() == old(discard.GetCurrentCard())
    {
      if deck.NumCards() == 0 {
        Recycle();
      }
      ghost var pile := deck.cards;
      var card := deck.Deal();
      assert pile == deck.cards + [card];
      p.hand.AddCard(card);
    }

    /**
     * `deal(p, number)`: the player draws `number` cards from the top of the draw
     * pile, one at a time, turning the discard pile over whenever the draw pile
     * runs out (the source has no answer when both piles are empty, hence the
     * precondition). Nobody else's hand changes.
     */
    method Deal(p: Player, number: nat)
      requires Wf() && p in players
      requires number <= |deck.cards| || |discard.cards| > 0
      modifies this`deck, this`discard, deck, discard, p.hand
      ensures Wf()
      ensures |p.hand.cards| == old(|p.hand.cards|) + number
      ensures p.hand.cards[..old(|p.hand.cards|)] == old(p.hand.cards)
      ensures number <= old(|deck.cards|) ==>
        && deck == old(deck) && discard == old(discard) && discard.cards == old(discard.cards)
        && deck.cards == old(deck.cards)[..old(|deck.cards|) - number]
        && p.hand.cards == old(p.hand.cards) + Basics.Reverse(old(deck.cards)[old(|deck.cards|) - number..])
      ensures number > old(|deck.cards|) ==>
        fresh(discard) && discard.cards == [old(discard.cards)[old(|discard.cards|) - 1]]
      ensures old(discard.cards) != [] ==> discard.GetCurrentCard() == old(discard.GetCurrentCard())
      ensures Dealt(old(deck.cards), old(discard.cards), deck.cards, discard.cards, p.hand.cards[old(|p.hand.cards|)..])
    {
      ghost var D, H := deck.cards, p.hand.cards;
      ghost var top := discard.GetCurrentCard();
      for i := 0 to number
        invariant Drawing(p, i, D, H, top, old(deck), old(discard), old(discard.cards))
        invariant deck == old(deck) || deck == old(discard) || fresh(deck)
        invariant discard == old(discard) || fresh(discard)
        invariant i > |D| ==> fresh(discard)
        invariant i < number ==> |deck.cards| > 0 || |discard.cards| > 0
      {
        DrawStep(p, i, D, H, top, old(deck), old(discard), old(discard.cards));
      }
      ghost var got := p.hand.cards[|H|..];
      if number <= |D| {
        assert got == Basics.Reverse(D[|D| - number..]);
      } else {
        assert got[..|D|] == p.hand.cards[..|H| + |D|][|H|..];
        assert got[|D|..] == p.hand.cards[|H| + |D|..];
      }
    }

    /**
     * The state the loop of `deal` keeps after `i` cards, dealing from the pile `D`
     * into the hand `H`: the hand has grown by `i` cards; while the draw pile lasts
     * the piles `d0` and `s0` stay in place and the hand has taken the top `i`
     * cards of `D` in the order drawn; once it has run out the discard pile holds
     * only the card `top` that was on it.
     */
    ghost predicate Drawing(p: Player, i: nat, D: seq<Card>, H: seq<Card>, top: Card?, d0: Deck, s0: Deck, sc0: seq<Card>)
      reads this`players, this`deck, this`discard, this`handSeat, deck, discard, p.hand
    {
      && Wf() && p in players
      && |p.hand.cards| == |H| + i && p.hand.cards[..|H|] == H
      && (i <= |D| ==>
           && deck == d0 && discard == s0 && discard.cards == sc0
           && deck.cards == D[..|D| - i] && p.hand.cards == H + Basics.Reverse(D[|D| - i..]))
      && (i > |D| ==> TurnedOver(p, i, D, H, top, sc0))
      && (sc0 != [] ==> top == sc0[|sc0| - 1])
      && (top != null ==> discard.GetCurrentCard() == top)
    }

    /**
     * The state of the loop of `deal` after `i` cards once the draw pile `D` has run
     * out and the discard pile `sc0` has been turned over: the discard pile holds
     * only `top`; the hand took all of `D` first; every card taken since, and every
     * card of the draw pile, comes from `sc0`; and while `sc0` has not run out in
     * turn, those cards are exactly the cards of `sc0`.
     */
    ghost predicate TurnedOver(p: Player, i: nat, D: seq<Card>, H: seq<Card>, top: Card?, sc0: seq<Card>)
      reads this`deck, this`discard, deck, discard, p.hand
    {
      && sc0 != [] && discard.cards == [top]
      && |H| + |D| <= |p.hand.cards| && p.hand.cards[..|H| + |D|] == H + Basics.Reverse(D)
      && CardSet(p.hand.cards[|H| + |D|..]) <= CardSet(sc0) && CardSet(deck.cards) <= CardSet(sc0)
      && (i <= |D| + |sc0| ==> multiset(p.hand.cards[|H| + |D|..]) + multiset(deck.cards) == multiset(sc0))
    }

    /** One pass of the loop of `deal`, in the terms of `Drawing`. */
    method DrawStep(p: Player, i: nat, ghost D: seq<Card>, ghost H: seq<Card>, ghost top: Card?,
                    ghost d0: Deck, ghost s0: Deck, ghost sc0: seq<Card>)
      requires Drawing(p, i, D, H, top, d0, s0, sc0) && (|deck.cards| > 0 || |discard.cards| > 0)
      modifies this`deck, this`discard, deck, discard, p.hand
      ensures Drawing(p, i + 1, D, H, top, d0, s0, sc0)
      ensures deck == old(deck) || deck == old(discard)
      ensures discard == old(discard) || fresh(discard)
      ensures i == |D| ==> fresh(discard)
    {
      if deck.NumCards() == 0 {
        DrawTurningOver(p, i, D, H, top, d0, s0, sc0);
      } else {
        DrawTop(p, i, D, H, top, d0, s0, sc0);
      }
    }

    /** `DrawStep` with cards on the draw pile: the hand takes its top card. */
    method DrawTop(p: Player, i: nat, ghost D: seq<Card>, ghost H: seq<Card>, ghost top: Card?,
                   ghost d0: Deck, ghost s0: Deck, ghost sc0: seq<Card>)
      requires Drawing(p, i, D, H, top, d0, s0, sc0) && |deck.cards| > 0
      modifies this`deck, this`discard, deck, discard, p.hand
      ensures Drawing(p, i + 1, D, H, top, d0, s0, sc0)
      ensures deck == old(deck) && discard == old(discard) && i != |D|
    {
      ghost var L := |D|;
      ghost var before, pile := p.hand.cards, deck.cards;
      DrawOne(p);
      if i < L {
        TakeFromDeck(D, H, i, before, pile);
      } else {
        ghost var x := p.hand.cards[|before|];
        assert p.hand.cards == before + [x];
        ghost var m := |H| + L;
        assert p.hand.cards[m..] == before[m..] + [x];
        TurnOverLater(before[m..], x, pile, deck.cards, sc0, i - L);
      }
      assert p.hand.cards[..|H|] == before[..|H|];
    }

    /** `DrawStep` with the draw pile empty: the discard pile is turned over and the hand takes a card from it. */
    method DrawTurningOver(p: Player, i: nat, ghost D: seq<Card>, ghost H: seq<Card>, ghost top: Card?,
                           ghost d0: Deck, ghost s0: Deck, ghost sc0: seq<Card>)
      requires Drawing(p, i, D, H, top, d0, s0, sc0) && deck.cards == [] && |discard.cards| > 0
      modifies this`deck, this`discard, deck, discard, p.hand
      ensures Drawing(p, i + 1, D, H, top, d0, s0, sc0)
      ensures deck == old(discard) && fresh(discard)
    {
      ghost var L := |D|;
      assert i >= L;
      ghost var before, pileS := p.hand.cards, discard.cards;
      DrawOne(p);
      ghost var x := p.hand.cards[|before|];
      assert p.hand.cards == before + [x];
      ghost var m := |H| + L;
      if i == L {
        assert D[L - i..] == D;
        TurnOverFirst(H, D, x, p.hand.cards, deck.cards, sc0);
      } else {
        assert p.hand.cards[m..] == before[m..] + [x];
        assert pileS == sc0[|sc0| - 1..];
        TurnOverLater(before[m..], x, [], deck.cards, sc0, i - L);
      }
      assert p.hand.cards[..|H|] == before[..|H|];
    }

    /** While the draw pile `D` lasts, the next card taken is its top one, and the hand goes on taking `D` in reverse. */
    static lemma TakeFromDeck(D: seq<Card>, H: seq<Card>, i: nat, hand: seq<Card>, pile: seq<Card>)
      requires i < |D| && pile == D[..|D| - i] && hand == H + Basics.Reverse(D[|D| - i..])
      ensures pile[..|pile| - 1] == D[..|D| - (i + 1)]
      ensures hand + [pile[|pile| - 1]] == H + Basics.Reverse(D[|D| - (i + 1)..])
    {
      var L := |D|;
      assert D[L - i - 1..] == [D[L - i - 1]] + D[L - i..];
      Basics.ReverseCons(D[L - i - 1], D[L - i..]);
    }

    /** The first card taken once the draw pile `D` is used up comes from the turned-over discard pile `sc0`. */
    static lemma TurnOverFirst(H: seq<Card>, D: seq<Card>, x: Card, hand: seq<Card>, D2: seq<Card>, sc0: seq<Card>)
      requires hand == H + Basics.Reverse(D) + [x]
      requires multiset(D2) + multiset{x} == multiset(sc0)
      ensures |H| + |D| <= |hand| && hand[..|H| + |D|] == H + Basics.Reverse(D)
      ensures CardSet(hand[|H| + |D|..]) <= CardSet(sc0) && CardSet(D2) <= CardSet(sc0)
      ensures multiset(hand[|H| + |D|..]) + multiset(D2) == multiset(sc0)
    {
      ReverseLength(D);
      assert hand[|H| + |D|..] == [x];
      assert x in multiset(sc0);
      forall c | c in D2
        ensures c in sc0
      {
        assert c in multiset(D2) && multiset(D2) <= multiset(sc0);
        assert c in multiset(sc0);
      }
    }

    /**
     * A later card taken after the turn-over, from the pile `pile`, or from the
     * discard pile's last card turned over again when `pile` is empty: the cards
     * `G` taken so far and the pile keep coming from `sc0`, and keep making up
     * exactly `sc0` until it has run out.
     */
    static lemma TurnOverLater(G: seq<Card>, x: Card, pile: seq<Card>, D2: seq<Card>, sc0: seq<Card>, n: nat)
      requires sc0 != [] && |G| == n
      requires CardSet(G) <= CardSet(sc0) && CardSet(pile) <= CardSet(sc0)
      requires n <= |sc0| ==> multiset(G) + multiset(pile) == multiset(sc0)
      requires pile != [] ==> pile == D2 + [x]
      requires pile == [] ==> multiset(D2) + multiset{x} == multiset(sc0[|sc0| - 1..])
      ensures CardSet(G + [x]) <= CardSet(sc0) && CardSet(D2) <= CardSet(sc0)
      ensures n + 1 <= |sc0| ==> multiset(G + [x]) + multiset(D2) == multiset(sc0)
    {
      if pile == [] {
        assert sc0[|sc0| - 1..] == [sc0[|sc0| - 1]];
        assert multiset(D2) == multiset{} && D2 == [];
        assert x in multiset(sc0[|sc0| - 1..]) && x == sc0[|sc0| - 1];
      } else {
        assert x in pile;
      }
    }

    /** What the card effects and commands need of `deal`: the hand grows, no other hand changes, the discard top stays. */
    method DealTo(p: Player, number: nat, ghost j: nat)
      requires Wf() && j < |players| && players[j] == p && |discard.cards| > 0
      modifies this`deck, this`discard, deck, discard, p.hand
      ensures Wf() && |discard.cards| > 0
      ensures |p.hand.cards| == old(|p.hand.cards|) + number
      ensures p.hand.cards[..old(|p.hand.cards|)] == old(p.hand.cards)
      ensures discard.GetCurrentCard() == old(discard.GetCurrentCard())
      ensures forall i :: 0 <= i < |players| && i != j ==> players[i].hand.cards == old(players[i].hand.cards)
      ensures DealtTo(old(deck.cards), old(discard.cards), p, old(|p.hand.cards|))
    {
      Deal(p, number);
    }

    /**
     * The piles `deck` and `discard` hold against the draw pile `D` and the discard
     * pile `S` once `deal` has handed the player `p` every card of their hand past
     * its first `n`.
     */
    ghost predicate DealtTo(D: seq<Card>, S: seq<Card>, p: Player, n: nat)
      reads this`deck, this`discard, deck, discard, p.hand
    {
      n <= |p.hand.cards| && Dealt(D, S, deck.cards, discard.cards, p.hand.cards[n..])
    }

    /** `DealtTo` for the player at seat `j` of the seating `ps`, whose hands were `h`. */
    ghost predicate DealtAt(D: seq<Card>, S: seq<Card>, ps: seq<Player>, h: seq<seq<Card>>, j: int)
      reads this`deck, this`discard, deck, discard, set i | 0 <= i < |ps| :: ps[i].hand
    {
      0 <= j < |ps| && j < |h| && DealtTo(D, S, ps[j], |h[j]|)
    }

    // --- the card effects (`onPlay`) --------------------------------------------
    // Each handler first checks `firstCard`: the card turned up to open the game has
    // no effect on anybody, and every handler leaves `firstCard` false. Each states
    // its effect on the seating and on the skip flags in the same terms, with the
    // card's kind filled in, so that `onPlay` can state it for every kind at once.

    /** `number`: nothing changes but the suppression. */
    method NumberEffect()
      requires Wf() && TurnHolder() && |discard.cards| > 0 && OthersHoldCards()
      modifies this`firstCard
      ensures !firstCard && Wf() && |discard.cards| > 0 && discard.GetCurrentCard() == old(discard.GetCurrentCard())
      ensures currentPlayer.hand.cards == old(currentPlayer.hand.cards)
      ensures Effected(Number, old(firstCard), old(players), old(Hands()), old(Seat()), old(NextSeat()))
    {
      firstCard := false;
    }

    /** `wild`: the colour is chosen by `play`; otherwise as `number`. */
    method WildEffect()
      requires Wf() && TurnHolder() && |discard.cards| > 0 && OthersHoldCards()
      modifies this`firstCard
      ensures !firstCard && Wf() && |discard.cards| > 0 && discard.GetCurrentCard() == old(discard.GetCurrentCard())
      ensures currentPlayer.hand.cards == old(currentPlayer.hand.cards)
      ensures Effected(Kind.Wild, old(firstCard), old(players), old(Hands()), old(Seat()), old(NextSeat()))
    {
      firstCard := false;
    }

    /** `skip`: unless suppressed, exactly the player `nextPlayer` names is skipped. */
    method SkipEffect()
      requires Wf() && TurnHolder() && |discard.cards| > 0 && OthersHoldCards()
      modifies this`firstCard, (if firstCard then [] else players)`skipped
      ensures !firstCard && Wf() && |discard.cards| > 0 && discard.GetCurrentCard() == old(discard.GetCurrentCard())
      ensures currentPlayer.hand.cards == old(currentPlayer.hand.cards)
      ensures Effected(Skip, old(firstCard), old(players), old(Hands()), old(Seat()), old(NextSeat()))
    {
      if firstCard {
        firstCard := false;
        return;
      }
      SkipOver();
    }

    /** `skip` once the card is not suppressed: the next player is the only one skipped. */
    method SkipOver()
      requires Wf() && TurnHolder() && !firstCard && |discard.cards| > 0 && OthersHoldCards()
      modifies this`firstCard, players`skipped
      ensures !firstCard && Wf() && |discard.cards| > 0 && discard.GetCurrentCard() == old(discard.GetCurrentCard())
      ensures currentPlayer.hand.cards == old(currentPlayer.hand.cards)
      ensures Effected(Skip, false, old(players), old(Hands()), old(Seat()), old(NextSeat()))
    {
      SkipNext();
    }

    /** `skip` once the suppression has been checked: the player `nextPlayer` names is skipped. */
    method SkipNext()
      requires Wf() && TurnHolder()
      modifies this`firstCard, players`skipped
      ensures !firstCard && SkippedOnly(old(players[NextSeat()]))
    {
      firstCard := false;
      NextOfNoneSkipped();
      var next := NextPlayer();
      next.skipped := true;
    }

    /**
     * The common part of `drawTwo` and `wildDrawFour` once the card is not
     * suppressed: the next player draws the card's penalty and is skipped.
     */
    method Penalize(kind: Kind)
      requires kind == DrawTwo || kind == WildDrawFour
      requires Wf() && TurnHolder() && !firstCard && |discard.cards| > 0 && OthersHoldCards()
      modifies this`firstCard, this`deck, this`discard, deck, discard, HandSet(), players`skipped
      ensures !firstCard && Wf() && |discard.cards| > 0 && discard.GetCurrentCard() == old(discard.GetCurrentCard())
      ensures currentPlayer.hand.cards == old(currentPlayer.hand.cards)
      ensures Effected(kind, false, old(players), old(Hands()), old(Seat()), old(NextSeat()))
      ensures DealtTo(old(deck.cards), old(discard.cards), old(players[NextSeat()]), old(|players[NextSeat()].hand.cards|))
    {
      DealNext(Penalty(kind, false), NextSeat());
      SkipNext();
    }

    /** The first half of `drawTwo` and `wildDrawFour`: the player `nextPlayer` names draws. */
    method DealNext(number: nat, ghost j: nat)
      requires Wf() && TurnHolder() && |discard.cards| > 0 && j == NextSeat()
      modifies this`deck, this`discard, deck, discard, HandSet()
      ensures Wf() && TurnHolder() && |discard.cards| > 0 && NextSeat() == j
      ensures discard.GetCurrentCard() == old(discard.GetCurrentCard())
      ensures |players[j].hand.cards| == old(|players[j].hand.cards|) + number
      ensures players[j].hand.cards[..old(|players[j].hand.cards|)] == old(players[j].hand.cards)
      ensures forall i :: 0 <= i < |players| && i != j ==> players[i].hand.cards == old(players[i].hand.cards)
      ensures DealtTo(old(deck.cards), old(discard.cards), players[j], old(|players[j].hand.cards|))
    {
      NextOfNoneSkipped();
      var next := NextPlayer();
      DealTo(next, number, j);
    }

    /** `drawTwo`: unless suppressed, the next player draws two cards and is skipped. */
    method DrawTwoEffect()
      requires Wf() && TurnHolder() && |discard.cards| > 0 && OthersHoldCards()
      modifies this`firstCard, (if firstCard then {} else {this})`deck, (if firstCard then {} else {this})`discard
      modifies if firstCard then {} else {deck, discard} + HandSet()
      modifies (if firstCard then [] else players)`skipped
      ensures !firstCard && Wf() && |discard.cards| > 0 && discard.GetCurrentCard() == old(discard.GetCurrentCard())
      ensures currentPlayer.hand.cards == old(currentPlayer.hand.cards)
      ensures Effected(DrawTwo, old(firstCard), old(players), old(Hands()), old(Seat()), old(NextSeat()))
      ensures DealtTo(old(deck.cards), old(discard.cards), old(players[NextSeat()]), old(|players[NextSeat()].hand.cards|))
    {
      if firstCard {
        firstCard := false;
        DealtNothing(deck.cards, discard.cards, deck.cards, discard.cards);
        return;
      }
      Penalize(DrawTwo);
    }

    /** `wildDrawFour`: unless suppressed, the next player draws four cards and is skipped. */
    method WildDrawFourEffect()
      requires Wf() && TurnHolder() && |discard.cards| > 0 && OthersHoldCards()
      modifies this`firstCard, (if firstCard then {} else {this})`deck, (if firstCard then {} else {this})`discard
      modifies if firstCard then {} else {deck, discard} + HandSet()
      modifies (if firstCard then [] else players)`skipped
      ensures !firstCard && Wf() && |discard.cards| > 0 && discard.GetCurrentCard() == old(discard.GetCurrentCard())
      ensures currentPlayer.hand.cards == old(currentPlayer.hand.cards)
      ensures Effected(WildDrawFour, old(firstCard), old(players), old(Hands()), old(Seat()), old(NextSeat()))
      ensures DealtTo(old(deck.cards), old(discard.cards), old(players[NextSeat()]), old(|players[NextSeat()].hand.cards|))
    {
      if firstCard {
        firstCard := false;
        DealtNothing(deck.cards, discard.cards, deck.cards, discard.cards);
        return;
      }
      Penalize(WildDrawFour);
    }

    /**
     * `reverse`: between two players it acts as a skip; at a bigger table, unless
     * suppressed, it turns the seating round in place.
     */
    method ReverseEffect()
      requires Wf() && TurnHolder() && |discard.cards| > 0 && OthersHoldCards()
      modifies this`firstCard, (if firstCard || |players| == 2 then {} else {this})`players
      modifies (if firstCard || |players| == 2 then {} else {this})`handSeat
      modifies (if firstCard || |players| != 2 then [] else players)`skipped
      ensures !firstCard && Wf() && |discard.cards| > 0 && discard.GetCurrentCard() == old(discard.GetCurrentCard())
      ensures currentPlayer.hand.cards == old(currentPlayer.hand.cards)
      ensures Effected(Kind.Reverse, old(firstCard), old(players), old(Hands()), old(Seat()), old(NextSeat()))
    {
      if |players| == 2 {
        SkipEffect();
      } else {
        ReverseAtBigTable();
      }
    }

    /** `reverse` at a table of more than two: unless suppressed, the seating is turned round. */
    method ReverseAtBigTable()
      requires Wf() && TurnHolder() && |discard.cards| > 0 && OthersHoldCards() && |players| != 2
      modifies this`firstCard, (if firstCard then {} else {this})`players, (if firstCard then {} else {this})`handSeat
      ensures !firstCard && Wf() && |discard.cards| > 0
      ensures |players| == old(|players|) && currentPlayer in players && NoneSkippedNow()
      ensures players == if old(firstCard) then old(players) else Basics.Reverse(old(players))
      ensures OthersHoldCards() && currentPlayer.hand.cards == old(currentPlayer.hand.cards)
      ensures Penalized(old(players), old(Hands()), old(Seat()), old(NextSeat()), 0)
    {
      Unpenalized();
      if firstCard {
        firstCard := false;
      } else {
        firstCard := false;
        TurnRound();
      }
    }

    /** Before a card takes effect, no hand has changed. */
    lemma Unpenalized()
      requires Seated() && currentPlayer in players
      ensures Penalized(players, Hands(), Seat(), NextSeat(), 0)
    {
    }

    /**
     * What a card of `kind` leaves behind once it has taken effect, against the
     * seating `before` and its hands `h` as they were when the card was played
     * from seat `k`, with `j` the seat after it: the seating is reversed by a
     * Reverse at a table of more than two and otherwise kept; exactly the player
     * at seat `j` is skipped when the card skips, and nobody otherwise; that
     * player has drawn the card's penalty on top of their hand, and no other
     * hand but the player's own has changed.
     */
    ghost predicate Effected(kind: Kind, suppressed: bool, before: seq<Player>, h: seq<seq<Card>>, k: nat, j: nat)
      reads this, players`skipped, HandSeq(), discard, set i | 0 <= i < |before| :: before[i].hand
    {
      && Wf() && |discard.cards| > 0 && currentPlayer in players && OthersHoldCards()
      && |players| == |before| >= 2 && k < |before| && before[k] == currentPlayer && j == Beyond(k, 0, |before|)
      && players == (if Reverses(kind, suppressed, |before|) then Basics.Reverse(before) else before)
      && (SkipsNext(kind, suppressed, |before|) ==> SkippedOnly(before[j]))
      && (!SkipsNext(kind, suppressed, |before|) ==> NoneSkippedNow())
      && Penalized(before, h, k, j, Penalty(kind, suppressed))
    }

    /** `players.reverse()`, keeping the record of seats up to date. */
    method TurnRound()
      requires Wf() && currentPlayer in players
      modifies this`players, this`handSeat
      ensures Wf() && currentPlayer in players && |players| == old(|players|)
      ensures players == Basics.Reverse(old(players))
      ensures forall i :: 0 <= i < |players| ==> players[i] == old(players[|players| - 1 - i])
    {
      var n := |players|;
      ghost var k := Seat();
      ReverseAll(players);
      handSeat := map h | h in handSeat :: n - 1 - handSeat[h];
      players := Basics.Reverse(players);
      assert players[n - 1 - k] == currentPlayer;
    }

    /** In the reversed seating the current player sits at the mirrored seat. */
    lemma SeatMirrored(before: seq<Player>, k: nat)
      requires Seated() && currentPlayer in players
      requires |before| == |players| && k < |players| && before[k] == currentPlayer
      requires forall i :: 0 <= i < |players| ==> players[i] == before[|players| - 1 - i]
      ensures Seat() == |players| - 1 - k
    {
      var m := |players| - 1 - k;
      assert players[m] == currentPlayer;
      assert handSeat[players[Seat()].hand] == Seat();
    }

    /**
     * `onPlay`: the effect of the card just played (or, suppressed, of the card
     * turned up to open the game): the seating is reversed by a Reverse at a table
     * of more than two; exactly the next player is skipped if the card skips, and
     * nobody otherwise. A card of an unknown kind does nothing, not even end the
     * suppression. `NextAfterPlay` tells who then holds the turn.
     */
    method OnPlay(kind: Kind)
      requires Wf() && TurnHolder() && |discard.cards| > 0 && OthersHoldCards()
      modifies this`firstCard
      modifies (if firstCard then {} else {this})`players, (if firstCard then {} else {this})`handSeat
      modifies (if firstCard then {} else {this})`deck, (if firstCard then {} else {this})`discard
      modifies if firstCard then {} else {deck, discard} + HandSet()
      modifies (if firstCard then [] else players)`skipped
      ensures firstCard == (old(firstCard) && kind == Unknown) && discard.GetCurrentCard() == old(discard.GetCurrentCard())
      ensures currentPlayer.hand.cards == old(currentPlayer.hand.cards)
      ensures Effected(kind, old(firstCard), old(players), old(Hands()), old(Seat()), old(NextSeat()))
      ensures DealtAt(old(deck.cards), old(discard.cards), old(players), old(Hands()), old(NextSeat()))
    {
      if Penalty(kind, firstCard) == 0 {
        DealtNothing(deck.cards, discard.cards, deck.cards, discard.cards);
      }
      match kind
      case Number => NumberEffect();
      case Wild => WildEffect();
      case Unknown => Unpenalized();
      case Skip => SkipEffect();
      case DrawTwo => DrawTwoEffect();
      case WildDrawFour => WildDrawFourEffect();
      case Reverse => ReverseEffect();
    }

    /**
     * Who holds the turn after a card: with the seating and the skip flags a card of
     * `kind` leaves behind, played from seat `k` of the seating `before`,
     * `nextPlayer` names the player at seat `SeatAfterPlay(kind, suppressed, k, n)`
     * of `before`.
     */
    lemma NextAfterPlay(kind: Kind, suppressed: bool, before: seq<Player>, k: nat)
      requires Seated() && |players| == |before| >= 2 && k < |before| && before[k] == currentPlayer
      requires players == if Reverses(kind, suppressed, |players|) then Basics.Reverse(before) else before
      requires SkipsNext(kind, suppressed, |players|) ==> SkippedOnly(before[Beyond(k, 0, |before|)])
      requires !SkipsNext(kind, suppressed, |players|) ==> NoneSkippedNow()
      ensures Next() == before[SeatAfterPlay(kind, suppressed, k, |before|)] && Next() in players
    {
      if Reverses(kind, suppressed, |before|) {
        NextAfterReverse(kind, suppressed, before, k);
      } else {
        NextAfterForward(kind, suppressed, k);
      }
    }

    /** `NextAfterPlay` for a card that reverses the seating. */
    lemma NextAfterReverse(kind: Kind, suppressed: bool, before: seq<Player>, k: nat)
      requires Seated() && |players| == |before| >= 2 && k < |before| && before[k] == currentPlayer
      requires Reverses(kind, suppressed, |players|) && players == Basics.Reverse(before)
      requires NoneSkippedNow()
      ensures Next() == before[SeatAfterPlay(kind, suppressed, k, |before|)] && Next() in players
    {
      var n := |before|;
      ReverseAll(before);
      assert players[n - 1 - k] == currentPlayer;
      SeatMirrored(before, k);
      NextOfNoneSkipped();
      ReversedSuccessor(before, k);
      var s := SeatAfterPlay(kind, suppressed, k, n);
      assert players[n - 1 - s] == before[s];
    }

    /** `NextAfterPlay` for a card that keeps the seating. */
    lemma NextAfterForward(kind: Kind, suppressed: bool, k: nat)
      requires Seated() && |players| >= 2 && k < |players| && players[k] == currentPlayer
      requires !Reverses(kind, suppressed, |players|)
      requires SkipsNext(kind, suppressed, |players|) ==> SkippedOnly(players[Beyond(k, 0, |players|)])
      requires !SkipsNext(kind, suppressed, |players|) ==> NoneSkippedNow()
      ensures Next() == players[SeatAfterPlay(kind, suppressed, k, |players|)] && Next() in players
    {
      assert handSeat[players[Seat()].hand] == Seat();
      if SkipsNext(kind, suppressed, |players|) {
        NextOfNextSkipped();
      } else {
        NextOfNoneSkipped();
      }
    }

    // --- turn progression ---------------------------------------------------------

    /**
     * `stop`: the game is over. The source also deletes the seating, the piles and
     * the configuration; with the seating gone every later lookup finds nobody. The
     * timers and the messages are not part of this model.
     */
    method Stop()
      modifies this`state, this`players
      ensures state == Finished && players == []
    {
      state := Finished;
      players := [];
    }

    /** A stopped game, whose seating is gone, is as between commands. */
    lemma StoppedIsValid()
      requires state == Finished && players == [] && deck != discard && deck !in handSeat && discard !in handSeat
      requires turn > 0 ==> |discard.cards| > 0
      ensures Valid()
    {
    }

    /** The loop of `nextTurn` that clears every player's per-turn flags. */
    method ClearFlags()
      modifies players`skipped, players`hasPlayed, players`hasDrawn, players`uno
      ensures FlagsCleared()
    {
      for i := 0 to |players|
        invariant forall j :: 0 <= j < i ==>
          !players[j].skipped && !players[j].hasPlayed && !players[j].hasDrawn && !players[j].uno
      {
        players[i].skipped := false;
        players[i].hasPlayed := false;
        players[i].hasDrawn := false;
        players[i].uno := false;
      }
    }

    /**
     * `nextTurn`. When some player has run out of cards, or only one player is
     * left, the game is over; otherwise the next turn begins (`BeginTurn`).
     */
    method NextTurn()
      requires Wf() && |players| >= 1
      requires !SomeHandEmpty() && |players| != 1 ==> Next() in players
      requires turn == 0 ==> |deck.cards| > 0
      requires turn > 0 ==> |discard.cards| > 0
      modifies this`state, this`players, this`currentPlayer, this`turn, this`firstCard, if turn == 0 then {deck, discard} else {}
      modifies players`skipped, players`hasPlayed, players`hasDrawn, players`uno
      ensures Wf()
      ensures old(SomeHandEmpty()) || old(|players|) == 1 ==>
        && state == Finished && players == [] && turn == old(turn) && currentPlayer == old(currentPlayer)
        && unchanged(deck, discard) && firstCard == old(firstCard)
      ensures !old(SomeHandEmpty()) && old(|players|) != 1 ==>
        && Begun() && players == old(players) && currentPlayer == old(Next())
        && turn == old(turn) + 1 && |discard.cards| > 0
        && (old(turn) == 0 ==>
             && deck.cards == old(deck.cards[..|deck.cards| - 1])
             && discard.cards == old(discard.cards) + [old(deck.cards[|deck.cards| - 1])])
        && (old(turn) > 0 ==> deck.cards == old(deck.cards) && discard.cards == old(discard.cards))
        && (firstCard <==> old(firstCard) && discard.GetCurrentCard().kind == Unknown)
    {
      ghost var pick := Next();
      var over := SomeHandEmpty() || |players| == 1;
      state := TurnEnd;
      assert Wf() && Next() == pick && turn == old(turn) && deck == old(deck) && discard == old(discard);
      if over {
        Stop();
      } else {
        BeginTurn();
      }
    }

    /**
     * `endTurn`. A nick that is given must be the current player's, and the player
     * must have played or drawn; otherwise nothing changes. A player left holding
     * one card without having declared "uno" becomes challengeable, a player who
     * ends the turn themselves has their idle count reset, and the next turn begins.
     * The source reads the flag under the spelling `challengable` here, and under
     * `challengeable` everywhere else; the model has one flag.
     */
    method EndTurn(nick: Option<string>, idle: bool) returns (ended: bool)
      requires Wf() && currentPlayer in players && |players| >= 2 && turn > 0 && |discard.cards| > 0
      requires !SomeHandEmpty() ==> Next() in players
      modifies this`state, this`players, this`currentPlayer, this`turn, this`firstCard
      modifies players`skipped, players`hasPlayed, players`hasDrawn, players`uno
      modifies currentPlayer`challengeable, currentPlayer`idleTurns
      ensures ended <==> old((nick.None? || currentPlayer.nick == nick.value) && (currentPlayer.hasPlayed || currentPlayer.hasDrawn))
      ensures !ended ==> unchanged(this) && unchanged(players)
      ensures ended ==>
        && old(currentPlayer).challengeable == old(currentPlayer.challengeable || (!currentPlayer.uno && |currentPlayer.hand.cards| == 1))
        && old(currentPlayer).idleTurns == (if idle then old(currentPlayer.idleTurns) else 0)
      ensures Wf() && deck.cards == old(deck.cards) && discard.cards == old(discard.cards)
      ensures ended && old(SomeHandEmpty()) ==> state == Finished && players == [] && turn == old(turn)
      ensures ended && !old(SomeHandEmpty()) ==>
        && Begun() && players == old(players) && currentPlayer == old(Next()) && turn == old(turn) + 1
        && (firstCard <==> old(firstCard) && discard.GetCurrentCard().kind == Unknown)
    {
      if nick.Some? && currentPlayer.nick != nick.value {
        return false;
      }
      if !currentPlayer.hasPlayed && !currentPlayer.hasDrawn {
        return false;
      }
      CloseTurn(idle);
      return true;
    }

    /**
     * `endTurn` as the `end` command calls it, between commands of a game under
     * way: the nick must be the current player's and they must have played or
     * drawn; then the turn passes to the next seat.
     */
    method End(nick: string) returns (ended: bool)
      requires Valid() && state == Playable
      modifies this`state, this`players, this`currentPlayer, this`turn, this`firstCard
      modifies players`skipped, players`hasPlayed, players`hasDrawn, players`uno
      modifies currentPlayer`challengeable, currentPlayer`idleTurns
      ensures ended <==> old(currentPlayer.nick == nick && (currentPlayer.hasPlayed || currentPlayer.hasDrawn))
      ensures !ended ==> unchanged(this) && unchanged(players)
      ensures Valid() && deck.cards == old(deck.cards) && discard.cards == old(discard.cards)
      ensures ended ==>
        && old(currentPlayer).challengeable == old(currentPlayer.challengeable || (!currentPlayer.uno && |currentPlayer.hand.cards| == 1))
        && old(currentPlayer).idleTurns == 0
        && Begun() && players == old(players) && currentPlayer == old(players[NextSeat()]) && turn == old(turn) + 1
    {
      NextOfNoneSkipped();
      ended := EndTurn(Some(nick), false);
    }

    /** `endTurn` once its checks have passed. */
    method CloseTurn(idle: bool)
      requires Wf() && currentPlayer in players && |players| >= 2 && turn > 0 && |discard.cards| > 0
      requires !SomeHandEmpty() ==> Next() in players
      modifies this`state, this`players, this`currentPlayer, this`turn, this`firstCard
      modifies players`skipped, players`hasPlayed, players`hasDrawn, players`uno
      modifies currentPlayer`challengeable, currentPlayer`idleTurns
      ensures old(currentPlayer).challengeable == old(currentPlayer.challengeable || (!currentPlayer.uno && |currentPlayer.hand.cards| == 1))
      ensures old(currentPlayer).idleTurns == (if idle then old(currentPlayer.idleTurns) else 0)
      ensures Wf() && deck.cards == old(deck.cards) && discard.cards == old(discard.cards)
      ensures old(SomeHandEmpty()) ==> state == Finished && players == [] && turn == old(turn)
      ensures !old(SomeHandEmpty()) ==>
        && Begun() && players == old(players) && currentPlayer == old(Next()) && turn == old(turn) + 1
        && (firstCard <==> old(firstCard) && discard.GetCurrentCard().kind == Unknown)
    {
      MarkEnd(idle);
      assert Wf() && SomeHandEmpty() == old(SomeHandEmpty()) && Next() == old(Next());
      NextTurn();
    }

    /** The flags `endTurn` sets on the player whose turn ends. */
    method MarkEnd(idle: bool)
      requires currentPlayer != null
      modifies currentPlayer`challengeable, currentPlayer`idleTurns
      ensures currentPlayer.challengeable == old(currentPlayer.challengeable || (!currentPlayer.uno && |currentPlayer.hand.cards| == 1))
      ensures currentPlayer.idleTurns == (if idle then old(currentPlayer.idleTurns) else 0)
    {
      var p := currentPlayer;
      if !p.uno && p.hand.NumCards() == 1 {
        p.challengeable := true;
      }
      if !idle {
        p.idleTurns := 0;
      }
    }

    /**
     * The rest of `nextTurn`: the game becomes playable, the turn passes to the
     * player `nextPlayer` names, the first turn turns up the top card of the draw
     * pile onto the discard pile, the turn counter goes up by one, every player's
     * per-turn flags are cleared, and while `firstCard` holds the effect of the card
     * on the discard pile is played, suppressed. The source would carry on with a
     * departed or undefined current player where `nextPlayer` names nobody at the
     * table, hence the precondition.
     */
    method BeginTurn()
      requires Wf() && |players| >= 2 && Next() in players && HandsNonEmpty()
      requires turn == 0 ==> |deck.cards| > 0
      requires turn > 0 ==> |discard.cards| > 0
      modifies this`state, this`currentPlayer, this`turn, this`firstCard, if turn == 0 then {deck, discard} else {}
      modifies players`skipped, players`hasPlayed, players`hasDrawn, players`uno
      ensures Wf() && state == Playable && currentPlayer == old(Next())
      ensures turn == old(turn) + 1 && FlagsCleared() && TurnHolder() && HandsNonEmpty() && |discard.cards| > 0
      ensures old(turn) == 0 ==>
        && deck.cards == old(deck.cards[..|deck.cards| - 1])
        && discard.cards == old(discard.cards) + [old(deck.cards[|deck.cards| - 1])]
      ensures old(turn) > 0 ==> deck.cards == old(deck.cards) && discard.cards == old(discard.cards)
      ensures firstCard <==> old(firstCard) && discard.GetCurrentCard().kind == Unknown
    {
      if turn == 0 {
        BeginFirstTurn();
      } else {
        BeginLaterTurn();
      }
    }

    /** `BeginTurn` on the first turn. */
    method BeginFirstTurn()
      requires Wf() && |players| >= 2 && Next() in players && HandsNonEmpty()
      requires turn == 0 && |deck.cards| > 0
      modifies this`state, this`currentPlayer, this`turn, this`firstCard, deck, discard
      modifies players`skipped, players`hasPlayed, players`hasDrawn, players`uno
      ensures Wf() && state == Playable && currentPlayer == old(Next())
      ensures turn == 1 && FlagsCleared() && TurnHolder() && HandsNonEmpty() && |discard.cards| > 0
      ensures deck.cards == old(deck.cards[..|deck.cards| - 1])
      ensures discard.cards == old(discard.cards) + [old(deck.cards[|deck.cards| - 1])]
      ensures firstCard <==> old(firstCard) && discard.GetCurrentCard().kind == Unknown
    {
      ghost var pick := Next();
      state := Playable;
      assert Next() == pick;
      SetPlayer();
      assert currentPlayer == pick;
      assert Wf() && currentPlayer in players && HandsNonEmpty();
      assert deck.cards == old(deck.cards) && discard.cards == old(discard.cards);
      assert firstCard == old(firstCard) && turn == old(turn);
      OpenFirstTurn();
    }

    /** `BeginTurn` on every later turn. */
    method BeginLaterTurn()
      requires Wf() && |players| >= 2 && Next() in players && HandsNonEmpty()
      requires turn > 0 && |discard.cards| > 0
      modifies this`state, this`currentPlayer, this`turn, this`firstCard
      modifies players`skipped, players`hasPlayed, players`hasDrawn, players`uno
      ensures Wf() && state == Playable && currentPlayer == old(Next())
      ensures turn == old(turn) + 1 && FlagsCleared() && TurnHolder() && HandsNonEmpty()
      ensures firstCard <==> old(firstCard) && discard.GetCurrentCard().kind == Unknown
    {
      ghost var pick := Next();
      state := Playable;
      assert Next() == pick;
      SetPlayer();
      assert currentPlayer == pick;
      assert Wf() && currentPlayer in players && HandsNonEmpty();
      assert firstCard == old(firstCard) && turn == old(turn);
      OpenTurn();
    }

    /** The part of `nextTurn` after the turn has passed, on the first turn: the top card is turned up first. */
    method OpenFirstTurn()
      requires Wf() && currentPlayer in players && |players| >= 2 && HandsNonEmpty()
      requires turn == 0 && |deck.cards| > 0
      modifies this`turn, this`firstCard, deck, discard
      modifies players`skipped, players`hasPlayed, players`hasDrawn, players`uno
      ensures Wf() && turn == 1 && FlagsCleared() && TurnHolder() && HandsNonEmpty() && |discard.cards| > 0
      ensures deck.cards == old(deck.cards[..|deck.cards| - 1])
      ensures discard.cards == old(discard.cards) + [old(deck.cards[|deck.cards| - 1])]
      ensures firstCard <==> old(firstCard) && discard.GetCurrentCard().kind == Unknown
    {
      TurnUp();
      OpenTurn();
    }

    /** The part of `nextTurn` after the turn has passed and the discard pile has its top card. */
    method OpenTurn()
      requires Wf() && currentPlayer in players && |players| >= 2 && HandsNonEmpty()
      requires turn >= 0 && |discard.cards| > 0
      modifies this`turn, this`firstCard
      modifies players`skipped, players`hasPlayed, players`hasDrawn, players`uno
      ensures Wf() && turn == old(turn) + 1 && FlagsCleared() && TurnHolder() && HandsNonEmpty()
      ensures firstCard <==> old(firstCard) && discard.GetCurrentCard().kind == Unknown
    {
      turn := turn + 1;
      ClearFlags();
      if firstCard {
        PlayFirstCard();
      }
    }

    /** The first turn turns up the top card of the draw pile onto the discard pile. */
    method TurnUp()
      requires deck != discard && |deck.cards| > 0
      modifies deck, discard
      ensures deck.cards == old(deck.cards[..|deck.cards| - 1])
      ensures discard.cards == old(discard.cards) + [old(deck.cards[|deck.cards| - 1])]
    {
      var top := deck.Deal();
      discard.AddCard(top);
    }

    /** The effect of the card turned up to open the game: suppressed, it only ends the suppression. */
    method PlayFirstCard()
      requires Wf() && TurnHolder() && HandsNonEmpty() && |discard.cards| > 0 && firstCard
      modifies this`firstCard
      ensures firstCard <==> discard.GetCurrentCard().kind == Unknown
    {
      var top := discard.GetCurrentCard();
      OnPlay(top.kind);
    }

    // --- play ---------------------------------------------------------------------

    /**
     * `play`. When a check fails nothing changes. Otherwise the chosen card leaves
     * the hand (with every other reference to the same card object) for the top of
     * the discard pile, takes effect, takes the chosen colour if it is wild, and
     * the turn ends: every challenge flag is cleared, and the player becomes
     * challengeable when left with one card and no "uno" declared. The game is over
     * exactly when the hand is now empty; otherwise the turn passes according to
     * the card (`SeatAfterPlay`).
     */
    method Play(nick: string, cardRaw: Option<string>, color: Option<string>) returns (v: Verdict)
      requires Valid() && state == Playable
      modifies this, deck, discard, HandSet(), HeldCards()`color
      modifies players`skipped, players`hasPlayed, players`hasDrawn, players`uno, players`challengeable, currentPlayer`idleTurns
      ensures v == old(Judge(nick, cardRaw, color))
      ensures !v.Accept? ==> unchanged(this) && unchanged(players) && unchanged(deck, discard) && unchanged(HandSet())
      ensures !v.Accept? ==> ColorsKept(old(HeldCards()))
      ensures Valid()
      ensures v.Accept? ==> var c := old(currentPlayer.hand.cards[v.index]); var rest := Without(old(currentPlayer.hand.cards), c);
        && old(currentPlayer).hand.cards == rest
        && discard.GetCurrentCard() == c
        && c.color == (if old(c.color) == Color.Wild then ParseColor(color.value).value else old(c.color))
        && ColorsKept(old(HeldCards()) - {c})
        && old(currentPlayer).idleTurns == 0
        && (forall p :: p in old(players) ==> p.challengeable == (p == old(currentPlayer) && !old(currentPlayer.uno) && |rest| == 1))
        && Penalized(old(players), old(Hands()), old(Seat()), old(NextSeat()), Penalty(c.kind, old(firstCard)))
        && DealtAt(old(deck.cards), old(discard.cards) + [c], old(players), old(Hands()), old(NextSeat()))
        && (state == Finished <==> rest == [])
        && (state == Finished ==> players == [] && turn == old(turn))
        && (state != Finished ==>
              && Begun() && turn == old(turn) + 1
              && players == (if Reverses(c.kind, old(firstCard), old(|players|)) then Basics.Reverse(old(players)) else old(players))
              && currentPlayer == old(players[SeatAfterPlay(c.kind, firstCard, Seat(), |players|)])
              && (firstCard <==> old(firstCard) && c.kind == Unknown))
    {
      v := Judge(nick, cardRaw, color);
      if !v.Accept? {
        return;
      }
      var chosen := if color.Some? then ParseColor(color.value) else None;
      ghost var c := PlayAccepted(v.index, chosen, players, Hands(), Seat(), NextSeat());
    }

    /**
     * `AfterPlay`, which changes neither a hand nor a card's colour.
     */
    method Settle(ghost c: Card, ghost suppressed: bool, ghost before: seq<Player>, ghost k: nat, ghost rest: seq<Card>,
                  ghost h: seq<seq<Card>>, ghost j: nat, ghost D: seq<Card>, ghost S: seq<Card>)
      requires Effected(c.kind, suppressed, before, h, k, j) && turn > 0
      requires DealtTo(D, S, before[j], |h[j]|)
      requires currentPlayer.hand.cards == rest && discard.GetCurrentCard() == c
      modifies this`state, this`players, this`currentPlayer, this`turn, this`firstCard
      modifies before`skipped, before`hasPlayed, before`hasDrawn, before`uno, before`challengeable, currentPlayer`idleTurns
      ensures Penalized(before, h, k, j, Penalty(c.kind, suppressed))
      ensures forall p :: p in before ==>
        p.challengeable == (p == old(currentPlayer) && !old(currentPlayer.uno) && |rest| == 1)
      ensures old(currentPlayer).idleTurns == 0
      ensures old(currentPlayer).hand.cards == rest && c.color == old(c.color)
      ensures Valid() && discard.GetCurrentCard() == c
      ensures state == Finished <==> rest == []
      ensures state == Finished ==> players == [] && turn == old(turn)
      ensures state != Finished ==>
        && Begun() && turn == old(turn) + 1 && players == old(players)
        && currentPlayer == before[SeatAfterPlay(c.kind, suppressed, k, |before|)]
        && (firstCard <==> old(firstCard) && c.kind == Unknown)
      ensures DealtTo(D, S, before[j], |h[j]|)
    {
      AfterPlay(c, suppressed, before, k);
    }

    /**
     * The rest of `play`, from the state the card's effect left behind: the seating
     * `before` the card, the seat `k` it was played from, the suppression.
     */
    method AfterPlay(ghost c: Card, ghost suppressed: bool, ghost before: seq<Player>, ghost k: nat)
      requires Wf() && 2 <= |before| && k < |before| && before[k] == currentPlayer && turn > 0
      requires |players| == |before| && currentPlayer in players && OthersHoldCards()
      requires players == if Reverses(c.kind, suppressed, |before|) then Basics.Reverse(before) else before
      requires SkipsNext(c.kind, suppressed, |before|) ==> SkippedOnly(before[Beyond(k, 0, |before|)])
      requires !SkipsNext(c.kind, suppressed, |before|) ==> NoneSkippedNow()
      requires |discard.cards| > 0 && discard.GetCurrentCard() == c
      modifies this`state, this`players, this`currentPlayer, this`turn, this`firstCard
      modifies before`skipped, before`hasPlayed, before`hasDrawn, before`uno, before`challengeable, currentPlayer`idleTurns
      ensures forall p :: p in before ==>
        p.challengeable == (p == old(currentPlayer) && !old(currentPlayer.uno) && old(|currentPlayer.hand.cards|) == 1)
      ensures old(currentPlayer).idleTurns == 0
      ensures Valid() && discard.GetCurrentCard() == c
      ensures state == Finished <==> old(currentPlayer.hand.cards) == []
      ensures state == Finished ==> players == [] && turn == old(turn)
      ensures state != Finished ==>
        && Begun() && turn == old(turn) + 1 && players == old(players)
        && currentPlayer == before[SeatAfterPlay(c.kind, suppressed, k, |before|)]
        && (firstCard <==> old(firstCard) && c.kind == Unknown)
    {
      ReverseElements(before);
      assert forall p :: p in players <==> p in before;
      NextAfterPlay(c.kind, suppressed, before, k);
      assert SomeHandEmpty() <==> currentPlayer.hand.cards == [] by {
        assert players[Seat()] == currentPlayer;
      }
      FinishPlay(before);
    }

    /**
     * `play` once every check has passed: the card is played out and the turn
     * settled. `before`, `h`, `k` and `j` are the seating, the hands, the player's
     * seat and the seat after it as the card is played.
     */
    method PlayAccepted(i: nat, chosen: Option<Color>, ghost before: seq<Player>, ghost h: seq<seq<Card>>, ghost k: nat, ghost j: nat)
      returns (ghost c: Card)
      requires Valid() && state == Playable && i < |currentPlayer.hand.cards|
      requires currentPlayer.hand.cards[i].color == Color.Wild ==> chosen.Some?
      requires before == players && h == Hands() && k == Seat() && j == NextSeat()
      modifies this, deck, discard, HandSet(), {currentPlayer.hand.cards[i]}`color
      modifies players`skipped, players`hasPlayed, players`hasDrawn, players`uno, players`challengeable, currentPlayer`idleTurns
      ensures c == old(currentPlayer.hand.cards[i])
      ensures Valid()
      ensures var rest := Without(old(currentPlayer.hand.cards), c);
        && old(currentPlayer).hand.cards == rest
        && discard.GetCurrentCard() == c
        && c.color == (if old(c.color) == Color.Wild then chosen.value else old(c.color))
        && old(currentPlayer).idleTurns == 0
        && (forall p :: p in before ==> p.challengeable == (p == old(currentPlayer) && !old(currentPlayer.uno) && |rest| == 1))
        && (state == Finished <==> rest == [])
        && (state == Finished ==> players == [] && turn == old(turn))
        && (state != Finished ==>
              && Begun() && turn == old(turn) + 1
              && players == (if Reverses(c.kind, old(firstCard), |before|) then Basics.Reverse(before) else before)
              && currentPlayer == before[SeatAfterPlay(c.kind, old(firstCard), k, |before|)]
              && (firstCard <==> old(firstCard) && c.kind == Unknown))
      ensures ColorsKept(old(HeldCards()) - {c})
      ensures Penalized(before, h, k, j, Penalty(c.kind, old(firstCard)))
      ensures DealtTo(old(deck.cards), old(discard.cards) + [c], before[j], |h[j]|)
    {
      ghost var held := HeldCards() - {currentPlayer.hand.cards[i]};
      c := PlayThrough(i, chosen, before, h, k, j);
      assert ColorsKept(held);
    }

    /** The card is played out and the turn settled. */
    method PlayThrough(i: nat, chosen: Option<Color>, ghost before: seq<Player>, ghost h: seq<seq<Card>>, ghost k: nat, ghost j: nat)
      returns (ghost c: Card)
      requires Wf() && TurnHolder() && HandsNonEmpty() && |discard.cards| > 0 && i < |currentPlayer.hand.cards| && turn > 0
      requires currentPlayer.hand.cards[i].color == Color.Wild ==> chosen.Some?
      requires before == players && h == Hands() && k == Seat() && j == NextSeat()
      modifies this, deck, discard, HandSet(), {currentPlayer.hand.cards[i]}`color
      modifies players`skipped, players`hasPlayed, players`hasDrawn, players`uno, players`challengeable, currentPlayer`idleTurns
      ensures c == old(currentPlayer.hand.cards[i])
      ensures Valid()
      ensures var rest := Without(old(currentPlayer.hand.cards), c);
        && old(currentPlayer).hand.cards == rest
        && discard.GetCurrentCard() == c
        && c.color == (if old(c.color) == Color.Wild then chosen.value else old(c.color))
        && old(currentPlayer).idleTurns == 0
        && (forall p :: p in before ==> p.challengeable == (p == old(currentPlayer) && !old(currentPlayer.uno) && |rest| == 1))
        && (state == Finished <==> rest == [])
        && (state == Finished ==> players == [] && turn == old(turn))
        && (state != Finished ==>
              && Begun() && turn == old(turn) + 1
              && players == (if Reverses(c.kind, old(firstCard), |before|) then Basics.Reverse(before) else before)
              && currentPlayer == before[SeatAfterPlay(c.kind, old(firstCard), k, |before|)]
              && (firstCard <==> old(firstCard) && c.kind == Unknown))
      ensures Penalized(before, h, k, j, Penalty(c.kind, old(firstCard)))
      ensures DealtTo(old(deck.cards), old(discard.cards) + [c], before[j], |h[j]|)
    {
      ghost var suppressed, hand, D, S := firstCard, currentPlayer.hand.cards, deck.cards, discard.cards;
      c := PutDown(i, chosen, before, h, k, j);
      assert currentPlayer == before[k] && currentPlayer.uno == old(currentPlayer.uno) && turn == old(turn);
      ghost var S1 := S + [c];
      assert Effected(c.kind, suppressed, before, h, k, j);
      assert DealtTo(D, S1, before[j], |h[j]|);
      Settle(c, suppressed, before, k, Without(hand, c), h, j, D, S1);
    }

    /** `PlayOut`, which leaves the player's "uno" declaration as it was. */
    method PutDown(i: nat, chosen: Option<Color>, ghost before: seq<Player>, ghost h: seq<seq<Card>>, ghost k: nat, ghost j: nat)
      returns (c: Card)
      requires Wf() && TurnHolder() && HandsNonEmpty() && |discard.cards| > 0 && i < |currentPlayer.hand.cards|
      requires currentPlayer.hand.cards[i].color == Color.Wild ==> chosen.Some?
      requires before == players && h == Hands() && k == Seat() && j == NextSeat()
      modifies this`firstCard, this`players, this`handSeat, this`deck, this`discard, deck, discard, HandSet()
      modifies players`skipped, {currentPlayer.hand.cards[i]}`color
      ensures c == old(currentPlayer.hand.cards[i]) && currentPlayer == old(currentPlayer) && currentPlayer.uno == old(currentPlayer.uno)
      ensures currentPlayer.hand.cards == Without(old(currentPlayer.hand.cards), c)
      ensures discard.GetCurrentCard() == c
      ensures c.color == if old(currentPlayer.hand.cards[i].color) == Color.Wild then chosen.value else old(c.color)
      ensures firstCard == (old(firstCard) && c.kind == Unknown)
      ensures Effected(c.kind, old(firstCard), before, h, k, j)
      ensures DealtTo(old(deck.cards), old(discard.cards) + [c], before[j], |h[j]|)
    {
      c := PlayOut(i, chosen, before, h, k, j);
    }

    /** The card leaves the hand for the discard pile, takes effect and takes its colour. */
    method PlayOut(i: nat, chosen: Option<Color>, ghost before: seq<Player>, ghost h: seq<seq<Card>>, ghost k: nat, ghost j: nat)
      returns (c: Card)
      requires Wf() && TurnHolder() && HandsNonEmpty() && |discard.cards| > 0 && i < |currentPlayer.hand.cards|
      requires currentPlayer.hand.cards[i].color == Color.Wild ==> chosen.Some?
      requires before == players && h == Hands() && k == Seat() && j == NextSeat()
      modifies this`firstCard, this`players, this`handSeat, this`deck, this`discard, deck, discard, HandSet()
      modifies players`skipped, {currentPlayer.hand.cards[i]}`color
      ensures c == old(currentPlayer.hand.cards[i]) && currentPlayer == old(currentPlayer)
      ensures currentPlayer.hand.cards == Without(old(currentPlayer.hand.cards), c)
      ensures discard.GetCurrentCard() == c
      ensures c.color == if old(currentPlayer.hand.cards[i].color) == Color.Wild then chosen.value else old(c.color)
      ensures firstCard == (old(firstCard) && c.kind == Unknown)
      ensures Effected(c.kind, old(firstCard), before, h, k, j)
      ensures DealtTo(old(deck.cards), old(discard.cards) + [c], before[j], |h[j]|)
    {
      c := Discard(i);
      ghost var h1 := Hands();
      assert forall m :: 0 <= m < |h| && m != k ==> h1[m] == h[m];
      assert Wf() && TurnHolder() && OthersHoldCards() && discard.GetCurrentCard() == c;
      TakeEffect(c, chosen, before, h1, k, j);
      EffectedSince(c.kind, old(firstCard), before, h1, h, k, j);
    }

    /** An outcome stated against hands that differ from `h1` at seat `k` only holds against them too. */
    lemma EffectedSince(kind: Kind, suppressed: bool, before: seq<Player>, h1: seq<seq<Card>>, h0: seq<seq<Card>>, k: nat, j: nat)
      requires Effected(kind, suppressed, before, h1, k, j) && |h0| == |h1|
      requires forall i :: 0 <= i < |h0| && i != k ==> h1[i] == h0[i]
      ensures Effected(kind, suppressed, before, h0, k, j)
    {
      PenalizedSince(before, h1, h0, k, j, Penalty(kind, suppressed));
    }

    /**
     * The card on top of the discard pile takes effect (`onPlay`) and then, if it
     * is wild, takes the colour chosen for it.
     */
    method TakeEffect(c: Card, chosen: Option<Color>, ghost before: seq<Player>, ghost h: seq<seq<Card>>, ghost k: nat, ghost j: nat)
      requires Wf() && TurnHolder() && OthersHoldCards() && |discard.cards| > 0 && discard.GetCurrentCard() == c
      requires c.color == Color.Wild ==> chosen.Some?
      requires before == players && h == Hands() && k == Seat() && j == NextSeat()
      modifies this`firstCard, this`players, this`handSeat, this`deck, this`discard, deck, discard, HandSet()
      modifies players`skipped, c`color
      ensures c.color == if old(c.color) == Color.Wild then chosen.value else old(c.color)
      ensures discard.GetCurrentCard() == c
      ensures firstCard == (old(firstCard) && c.kind == Unknown)
      ensures currentPlayer.hand.cards == old(currentPlayer.hand.cards)
      ensures Effected(c.kind, old(firstCard), before, h, k, j)
      ensures DealtTo(old(deck.cards), old(discard.cards), before[j], |h[j]|)
    {
      ghost var col := c.color;
      OnPlay(c.kind);
      assert c.color == col;
      Recolor(c, chosen, c.kind, old(firstCard), before, h, k, j, old(deck.cards), old(discard.cards));
    }

    /**
     * A wild card played takes the colour the player named. Nothing else changes:
     * in particular what the card's effect left behind still stands.
     */
    method Recolor(c: Card, chosen: Option<Color>, ghost kind: Kind, ghost suppressed: bool,
                   ghost before: seq<Player>, ghost h: seq<seq<Card>>, ghost k: nat, ghost j: nat, ghost D: seq<Card>, ghost S: seq<Card>)
      requires c.color == Color.Wild ==> chosen.Some?
      requires Effected(kind, suppressed, before, h, k, j) && DealtTo(D, S, before[j], |h[j]|)
      modifies c`color
      ensures c.color == if old(c.color) == Color.Wild then chosen.value else old(c.color)
      ensures Effected(kind, suppressed, before, h, k, j) && DealtTo(D, S, before[j], |h[j]|)
    {
      if c.color == Color.Wild {
        c.color := chosen.value;
      }
    }

    /** `pickCard` from the current player's hand, then `addCard` onto the discard pile. */
    method Discard(i: nat) returns (c: Card)
      requires Wf() && currentPlayer in players && i < |currentPlayer.hand.cards|
      modifies currentPlayer.hand, discard
      ensures c == old(currentPlayer.hand.cards[i])
      ensures currentPlayer.hand.cards == Without(old(currentPlayer.hand.cards), c)
      ensures discard.cards == old(discard.cards) + [c]
      ensures Hands() == old(Hands())[Seat() := currentPlayer.hand.cards]
    {
      assert handSeat[currentPlayer.hand] == Seat();
      c := currentPlayer.hand.PickCard(i);
      discard.AddCard(c);
    }

    /** The end of `play`: the player has played, no challenge stands, and the turn ends. */
    method FinishPlay(ghost seats: seq<Player>)
      requires Wf() && currentPlayer in players && |players| >= 2 && turn > 0 && |discard.cards| > 0
      requires !SomeHandEmpty() ==> Next() in players
      requires (forall i :: 0 <= i < |players| ==> players[i] in seats) && forall p :: p in seats ==> p in players
      modifies this`state, this`players, this`currentPlayer, this`turn, this`firstCard
      modifies seats`skipped, seats`hasPlayed, seats`hasDrawn, seats`uno, seats`challengeable, currentPlayer`idleTurns
      ensures forall p :: p in seats ==>
        p.challengeable == (p == old(currentPlayer) && !old(currentPlayer.uno) && old(|currentPlayer.hand.cards|) == 1)
      ensures old(currentPlayer).idleTurns == 0
      ensures Wf() && deck.cards == old(deck.cards) && discard.cards == old(discard.cards)
      ensures old(SomeHandEmpty()) ==> state == Finished && players == [] && turn == old(turn)
      ensures !old(SomeHandEmpty()) ==>
        && Begun() && players == old(players) && currentPlayer == old(Next()) && turn == old(turn) + 1
        && (firstCard <==> old(firstCard) && discard.GetCurrentCard().kind == Unknown)
    {
      MarkPlayed();
      var ended := EndTurn(None, false);
    }

    /** `hasPlayed` is set, and the loop of `play` clears every player's challenge flag. */
    method MarkPlayed()
      requires currentPlayer != null
      modifies currentPlayer`hasPlayed, players`challengeable
      ensures currentPlayer.hasPlayed
      ensures forall j :: 0 <= j < |players| ==> !players[j].challengeable
    {
      currentPlayer.hasPlayed := true;
      ClearChallenges();
    }

    /** The loop of `play` and `draw` that clears every player's challenge flag. */
    method ClearChallenges()
      modifies players`challengeable
      ensures forall j :: 0 <= j < |players| ==> !players[j].challengeable
    {
      for i := 0 to |players|
        invariant forall j :: 0 <= j < i ==> !players[j].challengeable
      {
        players[i].challengeable := false;
      }
    }

    // --- draw ---------------------------------------------------------------------

    /**
     * `draw`. Only the current player may draw, once per turn; otherwise nothing
     * changes. The player takes one card, every challenge flag is cleared, and the
     * turn ends when the draw is an idle one (the turn clock draws for a player who
     * let the time run out) or the card drawn cannot be played on the discard pile.
     * Nobody runs out of cards by drawing, so the game goes on, and nobody is left
     * challengeable: the player who drew holds at least two cards.
     */
    method Draw(nick: string, idle: bool) returns (drew: bool)
      requires Valid() && state == Playable
      modifies this, deck, discard, HandSet()
      modifies players`skipped, players`hasPlayed, players`hasDrawn, players`uno, players`challengeable, currentPlayer`idleTurns
      ensures drew <==> old(currentPlayer.nick == nick && !currentPlayer.hasDrawn)
      ensures !drew ==> unchanged(this) && unchanged(players) && unchanged(deck, discard) && unchanged(HandSet())
      ensures Valid() && state == Playable && players == old(players)
      ensures drew ==> var p := old(currentPlayer); var n := old(|currentPlayer.hand.cards|);
        && |p.hand.cards| == n + 1 && p.hand.cards[..n] == old(p.hand.cards)
        && (forall j :: 0 <= j < |players| && players[j] != p ==> players[j].hand.cards == old(players[j].hand.cards))
        && (forall j :: 0 <= j < |players| ==> !players[j].challengeable)
        && discard.GetCurrentCard() == old(discard.GetCurrentCard())
        && DrewOne(old(deck.cards), old(discard.cards), deck.cards, discard.cards, p.hand.cards[n])
        && var ends := idle || Cards.Playable(p.hand.cards[n].View(), discard.GetCurrentCard().View()) == Some(false);
        && (ends ==>
              && Begun() && currentPlayer == old(players[NextSeat()]) && turn == old(turn) + 1
              && p.idleTurns == (if idle then old(p.idleTurns) else 0))
        && (!ends ==> currentPlayer == p && p.hasDrawn && turn == old(turn) && OnlyDrawnChanged(old(players), p))
    {
      if currentPlayer.nick != nick {
        return false;
      }
      if currentPlayer.hasDrawn {
        return false;
      }
      DrawAccepted(nick, idle);
      return true;
    }

    /** `draw` once its checks have passed. */
    method DrawAccepted(nick: string, idle: bool)
      requires Valid() && state == Playable && currentPlayer.nick == nick
      modifies this, deck, discard, HandSet()
      modifies players`skipped, players`hasPlayed, players`hasDrawn, players`uno, players`challengeable, currentPlayer`idleTurns
      ensures Valid() && state == Playable && players == old(players)
      ensures var p := old(currentPlayer); var n := old(|currentPlayer.hand.cards|);
        && |p.hand.cards| == n + 1 && p.hand.cards[..n] == old(p.hand.cards)
        && (forall j :: 0 <= j < |players| && players[j] != p ==> players[j].hand.cards == old(players[j].hand.cards))
        && (forall j :: 0 <= j < |players| ==> !players[j].challengeable)
        && discard.GetCurrentCard() == old(discard.GetCurrentCard())
        && DrewOne(old(deck.cards), old(discard.cards), deck.cards, discard.cards, p.hand.cards[n])
        && var ends := idle || Cards.Playable(p.hand.cards[n].View(), discard.GetCurrentCard().View()) == Some(false);
        && (ends ==>
              && Begun() && currentPlayer == old(players[NextSeat()]) && turn == old(turn) + 1
              && p.idleTurns == (if idle then old(p.idleTurns) else 0))
        && (!ends ==> currentPlayer == p && p.hasDrawn && turn == old(turn))
      ensures var p := old(currentPlayer); var n := old(|currentPlayer.hand.cards|);
        !idle && Cards.Playable(p.hand.cards[n].View(), discard.GetCurrentCard().View()) != Some(false) ==>
        OnlyDrawnChanged(old(players), p)
    {
      ghost var j := NextSeat();
      ghost var n := |currentPlayer.hand.cards|;
      TakeCard();
      AfterDraw(nick, idle, j, n);
    }

    /** The current player draws a card and has drawn; no challenge stands. */
    method TakeCard()
      requires Wf() && TurnHolder() && HandsNonEmpty() && |discard.cards| > 0
      modifies this`deck, this`discard, deck, discard, currentPlayer.hand, currentPlayer`hasDrawn, players`challengeable
      ensures Wf() && TurnHolder() && HandsNonEmpty() && |discard.cards| > 0
      ensures discard.GetCurrentCard() == old(discard.GetCurrentCard())
      ensures |currentPlayer.hand.cards| == old(|currentPlayer.hand.cards|) + 1
      ensures currentPlayer.hand.cards[..old(|currentPlayer.hand.cards|)] == old(currentPlayer.hand.cards)
      ensures forall i :: 0 <= i < |players| && players[i] != currentPlayer ==> players[i].hand.cards == old(players[i].hand.cards)
      ensures currentPlayer.hasDrawn && forall i :: 0 <= i < |players| ==> !players[i].challengeable
      ensures OnlyDrawnChanged(players, currentPlayer)
      ensures DrewOne(old(deck.cards), old(discard.cards), deck.cards, discard.cards, currentPlayer.hand.cards[old(|currentPlayer.hand.cards|)])
    {
      ghost var n := |currentPlayer.hand.cards|;
      DealTo(currentPlayer, 1, Seat());
      assert currentPlayer.hand.cards[n..] == [currentPlayer.hand.cards[n]];
      DealtOneDrew(old(deck.cards), old(discard.cards), deck.cards, discard.cards, currentPlayer.hand.cards[n]);
      MarkDrawn();
    }

    /** `hasDrawn` is set and every challenge flag cleared. */
    method MarkDrawn()
      requires currentPlayer != null
      modifies currentPlayer`hasDrawn, players`challengeable
      ensures currentPlayer.hasDrawn
      ensures forall j :: 0 <= j < |players| ==> !players[j].challengeable
    {
      currentPlayer.hasDrawn := true;
      ClearChallenges();
    }

    /**
     * The end of `draw`: an idle draw ends the turn on the player's behalf, keeping
     * their idle count; a card drawn that cannot be played ends it as the player
     * would; otherwise the player may still play the card drawn.
     */
    method AfterDraw(nick: string, idle: bool, ghost j: nat, ghost n: nat)
      requires Wf() && TurnHolder() && HandsNonEmpty() && |discard.cards| > 0 && j == NextSeat() && state == Playable
      requires currentPlayer.nick == nick && currentPlayer.hasDrawn && |currentPlayer.hand.cards| == n + 1 >= 2
      requires forall i :: 0 <= i < |players| ==> !players[i].challengeable
      modifies this`state, this`players, this`currentPlayer, this`turn, this`firstCard
      modifies players`skipped, players`hasPlayed, players`hasDrawn, players`uno
      modifies currentPlayer`challengeable, currentPlayer`idleTurns
      ensures Valid() && state == Playable && players == old(players)
      ensures forall i :: 0 <= i < |players| ==> players[i].hand.cards == old(players[i].hand.cards)
      ensures forall i :: 0 <= i < |players| ==> !players[i].challengeable
      ensures var p := old(currentPlayer);
        var ends := idle || old(Cards.Playable(currentPlayer.hand.cards[n].View(), discard.GetCurrentCard().View())) == Some(false);
        && (ends ==>
              && Begun() && currentPlayer == old(players[j]) && turn == old(turn) + 1
              && p.idleTurns == (if idle then old(p.idleTurns) else 0))
        && (!ends ==> currentPlayer == p && p.hasDrawn && turn == old(turn))
      ensures !idle && old(Cards.Playable(currentPlayer.hand.cards[n].View(), discard.GetCurrentCard().View())) != Some(false) ==>
        unchanged(this) && unchanged(players)
    {
      var top := discard.GetCurrentCard();
      var drawn := currentPlayer.hand.GetCard(currentPlayer.hand.NumCards() - 1);
      if idle || Cards.Playable(drawn.View(), top.View()) == Some(false) {
        PassAfterDraw(nick, idle, j);
      }
    }

    /** `endTurn` from `draw`: the turn passes to the next seat; nobody is challengeable. */
    method PassAfterDraw(nick: string, idle: bool, ghost j: nat)
      requires Wf() && TurnHolder() && HandsNonEmpty() && |discard.cards| > 0 && j == NextSeat()
      requires currentPlayer.nick == nick && currentPlayer.hasDrawn && |currentPlayer.hand.cards| >= 2
      requires forall i :: 0 <= i < |players| ==> !players[i].challengeable
      modifies this`state, this`players, this`currentPlayer, this`turn, this`firstCard
      modifies players`skipped, players`hasPlayed, players`hasDrawn, players`uno
      modifies currentPlayer`challengeable, currentPlayer`idleTurns
      ensures Begun() && |discard.cards| > 0 && players == old(players)
      ensures forall i :: 0 <= i < |players| ==> players[i].hand.cards == old(players[i].hand.cards)
      ensures currentPlayer == old(players[j]) && turn == old(turn) + 1
      ensures old(currentPlayer).idleTurns == if idle then old(currentPlayer.idleTurns) else 0
      ensures forall i :: 0 <= i < |players| ==> !players[i].challengeable
    {
      NextOfNoneSkipped();
      assert !SomeHandEmpty();
      var ended := EndTurn(if idle then Some(nick) else None, idle);
    }

    // --- uno ----------------------------------------------------------------------

    /**
     * `uno`. Only the current player may call it, and it counts only while they
     * hold two cards: then the declaration is recorded, and a card given with it is
     * played at once. A player who declares and plays in one go is never left
     * challengeable. `declared` is false when the call changes nothing.
     */
    method Uno(nick: string, cardRaw: Option<string>, color: Option<string>) returns (declared: bool, v: Option<Verdict>)
      requires Valid() && state == Playable
      modifies this, deck, discard, HandSet(), HeldCards()`color
      modifies players`skipped, players`hasPlayed, players`hasDrawn, players`uno, players`challengeable, currentPlayer`idleTurns
      ensures declared <==> old(currentPlayer.nick == nick && |currentPlayer.hand.cards| == 2)
      ensures !declared ==> v == None && unchanged(this) && unchanged(players) && unchanged(deck, discard) && unchanged(HandSet())
      ensures Valid()
      ensures declared && cardRaw.None? ==> v == None && unchanged(this) && old(currentPlayer).uno && unchanged(deck, discard) && unchanged(HandSet())
      ensures declared && cardRaw.Some? ==> v == Some(old(Judge(nick, cardRaw, color)))
      ensures declared && cardRaw.Some? && !v.value.Accept? ==>
        unchanged(this) && old(currentPlayer).uno && unchanged(deck, discard) && unchanged(HandSet())
      ensures declared && (cardRaw.None? || !v.value.Accept?) ==> OnlyUnoChanged(old(players), old(currentPlayer))
      ensures !declared || cardRaw.None? || !v.value.Accept? ==> ColorsKept(old(HeldCards()))
      ensures declared && cardRaw.Some? && v.value.Accept? ==> var c := old(currentPlayer.hand.cards[v.value.index]); var rest := Without(old(currentPlayer.hand.cards), c);
        && old(currentPlayer).hand.cards == rest
        && discard.GetCurrentCard() == c
        && c.color == (if old(c.color) == Color.Wild then ParseColor(color.value).value else old(c.color))
        && ColorsKept(old(HeldCards()) - {c})
        && old(currentPlayer).idleTurns == 0
        && (forall p :: p in old(players) ==> !p.challengeable)
        && Penalized(old(players), old(Hands()), old(Seat()), old(NextSeat()), Penalty(c.kind, old(firstCard)))
        && DealtAt(old(deck.cards), old(discard.cards) + [c], old(players), old(Hands()), old(NextSeat()))
        && (state == Finished <==> rest == [])
        && (state == Finished ==> players == [] && turn == old(turn))
        && (state != Finished ==>
              && Begun() && turn == old(turn) + 1
              && players == (if Reverses(c.kind, old(firstCard), old(|players|)) then Basics.Reverse(old(players)) else old(players))
              && currentPlayer == old(players[SeatAfterPlay(c.kind, firstCard, Seat(), |players|)])
              && (firstCard <==> old(firstCard) && c.kind == Unknown))
    {
      if currentPlayer.nick != nick {
        return false, None;
      }
      if currentPlayer.hand.NumCards() != 2 {
        return false, None;
      }
      if cardRaw.None? {
        DeclareUno();
        return true, None;
      }
      var verdict := UnoPlay(nick, cardRaw, color);
      return true, Some(verdict);
    }

    /** The current player's "uno" is recorded. */
    method DeclareUno()
      requires currentPlayer != null
      modifies currentPlayer`uno
      ensures currentPlayer.uno
    {
      currentPlayer.uno := true;
    }

    /**
     * "uno" with a card: the declaration is recorded and the card played. None of
     * the checks of `play` reads the declaration, so they are made here before it
     * is recorded; the card, once accepted, is played with the declaration in place.
     */
    method UnoPlay(nick: string, cardRaw: Option<string>, color: Option<string>) returns (v: Verdict)
      requires Valid() && state == Playable
      modifies this, deck, discard, HandSet(), HeldCards()`color
      modifies players`skipped, players`hasPlayed, players`hasDrawn, players`uno, players`challengeable, currentPlayer`idleTurns
      ensures v == old(Judge(nick, cardRaw, color))
      ensures Valid()
      ensures !v.Accept? ==> unchanged(this) && old(currentPlayer).uno && unchanged(deck, discard) && unchanged(HandSet())
      ensures !v.Accept? ==> OnlyUnoChanged(old(players), old(currentPlayer)) && ColorsKept(old(HeldCards()))
      ensures v.Accept? ==> var c := old(currentPlayer.hand.cards[v.index]); var rest := Without(old(currentPlayer.hand.cards), c);
        && old(currentPlayer).hand.cards == rest
        && discard.GetCurrentCard() == c
        && c.color == (if old(c.color) == Color.Wild then ParseColor(color.value).value else old(c.color))
        && ColorsKept(old(HeldCards()) - {c})
        && old(currentPlayer).idleTurns == 0
        && (forall p :: p in old(players) ==> !p.challengeable)
        && Penalized(old(players), old(Hands()), old(Seat()), old(NextSeat()), Penalty(c.kind, old(firstCard)))
        && DealtAt(old(deck.cards), old(discard.cards) + [c], old(players), old(Hands()), old(NextSeat()))
        && (state == Finished <==> rest == [])
        && (state == Finished ==> players == [] && turn == old(turn))
        && (state != Finished ==>
              && Begun() && turn == old(turn) + 1
              && players == (if Reverses(c.kind, old(firstCard), old(|players|)) then Basics.Reverse(old(players)) else old(players))
              && currentPlayer == old(players[SeatAfterPlay(c.kind, firstCard, Seat(), |players|)])
              && (firstCard <==> old(firstCard) && c.kind == Unknown))
    {
      v := Judge(nick, cardRaw, color);
      if v.Accept? {
        var chosen := if color.Some? then ParseColor(color.value) else None;
        ghost var c := DeclareAndPlay(v.index, chosen, players, Hands(), Seat(), NextSeat());
      } else {
        DeclareUno();
      }
    }

    /** The declaration is recorded, then the accepted card is played: its player is not left challengeable. */
    method DeclareAndPlay(i: nat, chosen: Option<Color>, ghost before: seq<Player>, ghost h: seq<seq<Card>>, ghost k: nat, ghost j: nat)
      returns (ghost c: Card)
      requires Valid() && state == Playable && i < |currentPlayer.hand.cards|
      requires currentPlayer.hand.cards[i].color == Color.Wild ==> chosen.Some?
      requires before == players && h == Hands() && k == Seat() && j == NextSeat()
      modifies this, deck, discard, HandSet(), {currentPlayer.hand.cards[i]}`color
      modifies players`skipped, players`hasPlayed, players`hasDrawn, players`uno, players`challengeable, currentPlayer`idleTurns
      ensures c == old(currentPlayer.hand.cards[i])
      ensures Valid()
      ensures var rest := Without(old(currentPlayer.hand.cards), c);
        && old(currentPlayer).hand.cards == rest
        && discard.GetCurrentCard() == c
        && c.color == (if old(c.color) == Color.Wild then chosen.value else old(c.color))
        && old(currentPlayer).idleTurns == 0
        && (forall p :: p in before ==> !p.challengeable)
        && (state == Finished <==> rest == [])
        && (state == Finished ==> players == [] && turn == old(turn))
        && (state != Finished ==>
              && Begun() && turn == old(turn) + 1
              && players == (if Reverses(c.kind, old(firstCard), |before|) then Basics.Reverse(before) else before)
              && currentPlayer == before[SeatAfterPlay(c.kind, old(firstCard), k, |before|)]
              && (firstCard <==> old(firstCard) && c.kind == Unknown))
      ensures ColorsKept(old(HeldCards()) - {c})
      ensures Penalized(before, h, k, j, Penalty(c.kind, old(firstCard)))
      ensures DealtTo(old(deck.cards), old(discard.cards) + [c], before[j], |h[j]|)
    {
      DeclareUno();
      c := PlayAccepted(i, chosen, before, h, k, j);
    }

    // --- challenge ------------------------------------------------------------------

    /**
     * `challenge`. The challenger must be a player, may challenge once a game, and
     * not on the first turn; otherwise nothing changes. When some player is
     * challengeable, the first of them draws two cards; otherwise the challenger
     * draws two. Either way the challenger has now challenged. The challenged
     * player stays challengeable: the source resets a local variable, not the flag.
     */
    method Challenge(nick: string) returns (r: bool)
      requires Valid() && state == Playable
      modifies this`deck, this`discard, deck, discard, HandSet(), players`hasChallenged
      ensures r <==> old(MayChallenge(nick))
      ensures !r ==> unchanged(this) && unchanged(players) && unchanged(deck, discard) && unchanged(HandSet())
      ensures Valid() && state == Playable && players == old(players) && currentPlayer == old(currentPlayer) && turn == old(turn)
      ensures discard.GetCurrentCard() == old(discard.GetCurrentCard())
      ensures r ==>
        var k := old(NickIndex(Some(nick)));
        var t := old(ChallengeableIndex());
        var loser := if t >= 0 then t else k;
        && players[k].hasChallenged
        && (forall i :: 0 <= i < |players| && i != k ==> players[i].hasChallenged == old(players[i].hasChallenged))
        && |players[loser].hand.cards| == old(|players[loser].hand.cards|) + 2
        && players[loser].hand.cards[..old(|players[loser].hand.cards|)] == old(players[loser].hand.cards)
        && DealtTo(old(deck.cards), old(discard.cards), players[loser], old(|players[loser].hand.cards|))
        && (forall i :: 0 <= i < |players| && i != loser ==> players[i].hand.cards == old(players[i].hand.cards))
    {
      var k := NickIndex(Some(nick));
      if k < 0 {
        return false;
      }
      if players[k].hasChallenged {
        return false;
      }
      if turn == 1 {
        return false;
      }
      var t := ChallengeableIndex();
      ChallengeAccepted(k, if t >= 0 then t else k);
      return true;
    }

    /** The checks of `challenge`: a player at the table who has not challenged yet, after the first turn. */
    predicate MayChallenge(nick: string)
      reads this`players, this`turn, players`nick, players`hasChallenged
    {
      var k := NickIndex(Some(nick));
      k >= 0 && !players[k].hasChallenged && turn != 1
    }

    /** `challenge` by the player at seat `k`, decided against the player at seat `loser`. */
    method ChallengeAccepted(k: nat, loser: nat)
      requires Valid() && state == Playable && k < |players| && loser < |players|
      modifies this`deck, this`discard, deck, discard, HandSet(), players`hasChallenged
      ensures Valid() && state == Playable && players == old(players) && currentPlayer == old(currentPlayer) && turn == old(turn)
      ensures discard.GetCurrentCard() == old(discard.GetCurrentCard())
      ensures players[k].hasChallenged
      ensures forall i :: 0 <= i < |players| && i != k ==> players[i].hasChallenged == old(players[i].hasChallenged)
      ensures |players[loser].hand.cards| == old(|players[loser].hand.cards|) + 2
      ensures players[loser].hand.cards[..old(|players[loser].hand.cards|)] == old(players[loser].hand.cards)
      ensures DealtTo(old(deck.cards), old(discard.cards), players[loser], old(|players[loser].hand.cards|))
      ensures forall i :: 0 <= i < |players| && i != loser ==> players[i].hand.cards == old(players[i].hand.cards)
    {
      PenalizeSeat(loser);
      MarkChallenged(k);
    }

    /** The player at seat `j` draws two cards. */
    method PenalizeSeat(j: nat)
      requires Valid() && state == Playable && j < |players|
      modifies this`deck, this`discard, deck, discard, players[j].hand
      ensures Valid() && state == Playable && discard.GetCurrentCard() == old(discard.GetCurrentCard())
      ensures |players[j].hand.cards| == old(|players[j].hand.cards|) + 2
      ensures players[j].hand.cards[..old(|players[j].hand.cards|)] == old(players[j].hand.cards)
      ensures DealtTo(old(deck.cards), old(discard.cards), players[j], old(|players[j].hand.cards|))
      ensures forall i :: 0 <= i < |players| && i != j ==> players[i].hand.cards == old(players[i].hand.cards)
    {
      DealTo(players[j], 2, j);
    }

    /** The player at seat `k` has challenged. */
    method MarkChallenged(k: nat)
      requires Valid() && state == Playable && k < |players|
      modifies {players[k]}`hasChallenged
      ensures Valid() && players[k].hasChallenged
      ensures forall i :: 0 <= i < |players| && i != k ==> players[i].hasChallenged == old(players[i].hasChallenged)
    {
      players[k].hasChallenged := true;
    }

    // --- start --------------------------------------------------------------------

    /**
     * `start`. Only a player may start the game, and only with at least two players
     * at the table; otherwise nothing changes. Every player, seat by seat, is dealt
     * seven cards from the top of the draw pile, and the first turn begins: the
     * next card is turned up onto the discard pile and the player at seat 0 holds
     * the turn. The source assumes the draw pile holds enough cards for every hand
     * and the card turned up, hence the precondition.
     */
    method Start(nick: Option<string>) returns (r: bool)
      requires Valid() && state == Waiting
      requires NickIndex(nick) >= 0 && |players| >= 2 ==> 7 * |players| < |deck.cards|
      modifies this`state, this`players, this`currentPlayer, this`turn, this`firstCard, this`deck, this`discard
      modifies deck, discard, HandSet(), players`skipped, players`hasPlayed, players`hasDrawn, players`uno
      ensures r <==> old(NickIndex(nick) >= 0 && |players| >= 2)
      ensures !r ==> unchanged(this) && unchanged(players) && unchanged(deck, discard) && unchanged(HandSet())
      ensures Valid()
      ensures r ==>
        var L := old(|deck.cards|);
        var n := |players|;
        && Begun() && turn == 1 && players == old(players) && currentPlayer == players[0]
        && deck == old(deck) && discard == old(discard)
        && Hands() == DealtHands(old(Hands()), old(deck.cards))
        && deck.cards == old(deck.cards)[..L - 7 * n - 1]
        && discard.cards == old(discard.cards) + [old(deck.cards)[L - 7 * n - 1]]
        && (firstCard <==> old(firstCard) && discard.GetCurrentCard().kind == Unknown)
    {
      if NickIndex(nick) < 0 {
        return false;
      }
      if |players| < 2 {
        return false;
      }
      StartAccepted();
      return true;
    }

    /** `start` once its checks have passed. */
    method StartAccepted()
      requires Wf() && currentPlayer == null && turn == 0 && |players| >= 2 && 7 * |players| < |deck.cards|
      modifies this`state, this`players, this`currentPlayer, this`turn, this`firstCard, this`deck, this`discard
      modifies deck, discard, HandSet(), players`skipped, players`hasPlayed, players`hasDrawn, players`uno
      ensures Valid()
      ensures Begun() && turn == 1 && players == old(players) && currentPlayer == players[0]
      ensures deck == old(deck) && discard == old(discard)
      ensures Hands() == DealtHands(old(Hands()), old(deck.cards))
      ensures deck.cards == old(deck.cards)[..old(|deck.cards|) - 7 * |players| - 1]
      ensures discard.cards == old(discard.cards) + [old(deck.cards)[old(|deck.cards|) - 7 * |players| - 1]]
      ensures firstCard <==> old(firstCard) && discard.GetCurrentCard().kind == Unknown
    {
      ghost var D := deck.cards;
      ghost var m := |deck.cards| - 7 * |players|;
      DealHands();
      OpenGame(D, m);
    }

    /** The end of `start`, on the draw pile as it was before dealing: its first `m` cards are left. */
    method OpenGame(ghost D: seq<Card>, ghost m: int)
      requires Wf() && currentPlayer == null && turn == 0 && |players| >= 2 && HandsNonEmpty()
      requires 0 < m <= |D| && deck.cards == D[..m]
      modifies this`state, this`players, this`currentPlayer, this`turn, this`firstCard, deck, discard
      modifies players`skipped, players`hasPlayed, players`hasDrawn, players`uno
      ensures Valid() && Begun() && turn == 1 && players == old(players) && currentPlayer == players[0]
      ensures Hands() == old(Hands())
      ensures deck.cards == D[..m - 1]
      ensures discard.cards == old(discard.cards) + [D[m - 1]]
      ensures firstCard <==> old(firstCard) && discard.GetCurrentCard().kind == Unknown
    {
      FirstTurn(D[..m]);
      Basics.PrefixOfPrefix(D, m);
    }

    /** The end of `start`: with every hand dealt, `nextTurn` opens the first turn at seat 0. */
    method FirstTurn(ghost pile: seq<Card>)
      requires Wf() && currentPlayer == null && turn == 0 && |players| >= 2 && HandsNonEmpty()
      requires deck.cards == pile && |pile| > 0
      modifies this`state, this`players, this`currentPlayer, this`turn, this`firstCard, deck, discard
      modifies players`skipped, players`hasPlayed, players`hasDrawn, players`uno
      ensures Valid() && Begun() && turn == 1 && players == old(players) && currentPlayer == players[0]
      ensures Hands() == old(Hands())
      ensures deck.cards == pile[..|pile| - 1]
      ensures discard.cards == old(discard.cards) + [pile[|pile| - 1]]
      ensures firstCard <==> old(firstCard) && discard.GetCurrentCard().kind == Unknown
    {
      assert !SomeHandEmpty() && Next() == players[0];
      NextTurn();
    }

    /**
     * After `i` passes of the loop of `start`, dealing from the pile `D` to the
     * hands `H`: the first `i` seats have each taken their seven cards.
     */
    ghost predicate DealtUpTo(i: nat, D: seq<Card>, H: seq<seq<Card>>)
      reads this`players, HandSeq()
    {
      && |H| == |players| && i <= |players| && 7 * |players| <= |D|
      && forall j :: 0 <= j < |players| ==>
           players[j].hand.cards == if j < i then H[j] + Basics.Reverse(D[|D| - 7 * (j + 1)..|D| - 7 * j]) else H[j]
    }

    /**
     * The state the loop of `start` keeps: the same two piles, the draw pile short of
     * the `7 * i` cards dealt so far, and those cards in the first `i` hands.
     */
    ghost predicate Dealing(i: nat, D: seq<Card>, H: seq<seq<Card>>, dk: Deck, ds: Deck, dc: seq<Card>)
      reads this`players, this`deck, this`discard, this`handSeat, deck, discard, HandSeq()
    {
      && Wf() && deck == dk && discard == ds && discard.cards == dc
      && DealtUpTo(i, D, H) && deck.cards == D[..|D| - 7 * i]
    }

    /** The loop of `start`: seven cards to every player, seat by seat, from the top of the draw pile. */
    method DealHands()
      requires Wf() && 7 * |players| <= |deck.cards|
      modifies this`deck, this`discard, deck, discard, HandSet()
      ensures Wf() && deck == old(deck) && discard == old(discard) && discard.cards == old(discard.cards)
      ensures firstCard == old(firstCard) && currentPlayer == old(currentPlayer) && turn == old(turn)
      ensures deck.cards == old(deck.cards)[..old(|deck.cards|) - 7 * |players|]
      ensures Hands() == DealtHands(old(Hands()), old(deck.cards)) && HandsNonEmpty()
    {
      ghost var D := deck.cards;
      ghost var H := Hands();
      for i := 0 to |players|
        invariant firstCard == old(firstCard) && currentPlayer == old(currentPlayer) && turn == old(turn)
        invariant Dealing(i, D, H, old(deck), old(discard), old(discard.cards))
      {
        DealSeat(i, D, H, old(deck), old(discard), old(discard.cards));
      }
      DealtAll(D, H);
    }

    /** One pass of the loop of `start`. */
    method DealSeat(i: nat, ghost D: seq<Card>, ghost H: seq<seq<Card>>, ghost dk: Deck, ghost ds: Deck, ghost dc: seq<Card>)
      requires i < |players| && Dealing(i, D, H, dk, ds, dc)
      modifies this`deck, this`discard, deck, discard, players[i].hand
      ensures Dealing(i + 1, D, H, dk, ds, dc)
    {
      var L := |D|;
      assert D[..L - 7 * i][L - 7 * i - 7..] == D[L - 7 * (i + 1)..L - 7 * i];
      assert D[..L - 7 * i][..L - 7 * i - 7] == D[..L - 7 * (i + 1)];
      DealSeven(i);
    }

    /** Once every seat has been dealt, the hands are `DealtHands` and none is empty. */
    lemma DealtAll(D: seq<Card>, H: seq<seq<Card>>)
      requires DealtUpTo(|players|, D, H)
      ensures Hands() == DealtHands(H, D) && HandsNonEmpty()
    {
      var X := Hands();
      var L := |D|;
      assert forall j :: 0 <= j < |X| ==> X[j] == H[j] + Basics.Reverse(D[L - 7 * (j + 1)..L - 7 * j]);
      DealtHandsAre(X, H, D);
      DealtHandsSizes(H, D);
    }

    /** The player at seat `j` is dealt seven cards from a draw pile that holds them. */
    method DealSeven(j: nat)
      requires Wf() && j < |players| && 7 <= |deck.cards|
      modifies this`deck, this`discard, deck, discard, players[j].hand
      ensures Wf() && deck == old(deck) && discard == old(discard) && discard.cards == old(discard.cards)
      ensures deck.cards == old(deck.cards)[..old(|deck.cards|) - 7]
      ensures players[j].hand.cards == old(players[j].hand.cards) + Basics.Reverse(old(deck.cards)[old(|deck.cards|) - 7..])
      ensures forall i :: 0 <= i < |players| && i != j ==> players[i].hand.cards == old(players[i].hand.cards)
    {
      Deal(players[j], 7);
    }

    // --- addPlayer / removePlayer -------------------------------------------------

    /**
     * `addPlayer`. A player with the nick, user and host of one already seated is
     * turned away and nothing changes; otherwise the player takes the last seat and
     * the game waits for `start`. The source then calls `start` once ten players
     * are seated, but without a nick: `start` only lets a seated player start the
     * game, so the call never starts it.
     */
    method AddPlayer(p: Player) returns (added: bool)
      requires Valid() && (state == Stopped || state == Waiting)
      requires p.hand !in handSeat && p.hand != deck && p.hand != discard
      modifies this`players, this`handSeat, this`state, this`currentPlayer, this`turn, this`firstCard, this`deck, this`discard
      modifies deck, discard, HandSet(), p.hand, players`skipped, players`hasPlayed, players`hasDrawn, players`uno
      modifies p`skipped, p`hasPlayed, p`hasDrawn, p`uno
      ensures added <==> !old(HasIdentity(p.nick, p.user, p.hostname))
      ensures !added ==> unchanged(this)
      ensures unchanged(old(players)) && unchanged(p)
      ensures added ==> players == old(players) + [p] && state == Waiting
      ensures Valid() && currentPlayer == old(currentPlayer) && turn == old(turn)
      ensures deck == old(deck) && discard == old(discard) && unchanged(deck, discard) && unchanged(HandSet())
    {
      if HasIdentity(p.nick, p.user, p.hostname) {
        return false;
      }
      TakeSeat(p);
      if state == Waiting && |players| == 10 {
        StartUnnamed();
      }
      return true;
    }

    /** The `start` that `addPlayer` calls when the table is full, on no nick: it refuses, and nothing changes. */
    method StartUnnamed()
      requires Valid() && state == Waiting
      modifies this`state, this`players, this`currentPlayer, this`turn, this`firstCard, this`deck, this`discard
      modifies deck, discard, HandSet(), players`skipped, players`hasPlayed, players`hasDrawn, players`uno
      ensures unchanged(this) && unchanged(players) && unchanged(deck, discard) && unchanged(HandSet())
    {
      var started := Start(None);
    }

    /** The seating change of `addPlayer`: the player sits down last, and the game waits. */
    method TakeSeat(p: Player)
      requires Valid() && (state == Stopped || state == Waiting)
      requires p.hand !in handSeat && p.hand != deck && p.hand != discard
      modifies this`players, this`handSeat, this`state
      ensures players == old(players) + [p] && state == Waiting && Valid()
    {
      players := players + [p];
      handSeat := handSeat[p.hand := |players| - 1];
      state := Waiting;
    }

    /**
     * `removePlayer`. A nick nobody at the table has is refused and nothing
     * changes. Otherwise the player's cards go back into the draw pile, which is
     * shuffled, and the player leaves their seat. When it was their turn the next
     * turn begins at once: with the departed player gone the scan of `nextPlayer`
     * starts at seat 0, and with one player left the game is over. Otherwise the
     * game stops once fewer than two players are left in a game under way, or
     * nobody is left at all. The departed player's hand keeps its cards, as in the
     * source.
     */
    method RemovePlayer(nick: string) returns (removed: bool)
      requires Valid()
      modifies this`players, this`handSeat, this`state, this`currentPlayer, this`turn, this`firstCard
      modifies deck, players`skipped, players`hasPlayed, players`hasDrawn, players`uno
      ensures removed <==> old(NickIndex(Some(nick))) >= 0
      ensures !removed ==> unchanged(this) && unchanged(deck) && unchanged(players)
      ensures Valid() && deck == old(deck) && discard == old(discard) && discard.cards == old(discard.cards)
      ensures removed ==> forall x :: x in players ==> x in old(players) && x != old(players[NickIndex(Some(nick))])
      ensures removed ==>
        var p := old(players[NickIndex(Some(nick))]);
        var rest := old(players[..NickIndex(Some(nick))] + players[NickIndex(Some(nick)) + 1..]);
        && multiset(deck.cards) == old(multiset(deck.cards) + multiset(p.hand.cards))
        && (old(currentPlayer) == p ==>
             if |rest| == 1 then state == Finished && players == []
             else Begun() && players == rest && currentPlayer == rest[0] && turn == old(turn) + 1)
        && (old(currentPlayer) != p ==>
             if |rest| == 0 || (|rest| == 1 && old(state) == Playable) then state == Finished && players == []
             else players == rest && state == old(state) && currentPlayer == old(currentPlayer) && turn == old(turn) && unchanged(players))
    {
      var k := NickIndex(Some(nick));
      if k < 0 {
        return false;
      }
      Leave(k);
      return true;
    }

    /** `removePlayer` for the player at seat `k`. */
    method Leave(k: nat)
      requires Valid() && k < |players|
      modifies this`players, this`handSeat, this`state, this`currentPlayer, this`turn, this`firstCard
      modifies deck, players`skipped, players`hasPlayed, players`hasDrawn, players`uno
      ensures Valid() && deck == old(deck) && discard == old(discard) && discard.cards == old(discard.cards)
      ensures forall x :: x in players ==> x in old(players) && x != old(players[k])
      ensures
        var p := old(players[k]);
        var rest := old(players[..k] + players[k + 1..]);
        && multiset(deck.cards) == old(multiset(deck.cards) + multiset(p.hand.cards))
        && (old(currentPlayer) == p ==>
             if |rest| == 1 then state == Finished && players == []
             else Begun() && players == rest && currentPlayer == rest[0] && turn == old(turn) + 1)
        && (old(currentPlayer) != p ==>
             if |rest| == 0 || (|rest| == 1 && old(state) == Playable) then state == Finished && players == []
             else players == rest && state == old(state) && currentPlayer == old(currentPlayer) && turn == old(turn) && unchanged(players))
    {
      var p := players[k];
      ReturnHand(p);
      Unseat(k);
      AfterLeave(p);
    }

    /**
     * The state right after the player `p` has left: the piles and the remaining
     * hands are as between commands, and in a game under way the turn is held
     * either by a player still at the table or by `p`, who has just left.
     */
    ghost predicate Departed(p: Player)
      reads this, players`skipped, discard, HandSeq()
    {
      && Wf() && p !in players
      && (turn > 0 ==> |discard.cards| > 0)
      && state != Started && state != TurnEnd && state != Finished
      && (state == Waiting || state == Stopped ==> currentPlayer == null && turn == 0)
      && (state == Playable ==>
           && (currentPlayer in players || currentPlayer == p) && turn > 0 && NoneSkippedNow() && HandsNonEmpty()
           && |players| >= 1)
    }

    /** The end of `removePlayer`: the next turn when the departed player held it, or a stop. */
    method AfterLeave(p: Player)
      requires Departed(p)
      modifies this`players, this`state, this`currentPlayer, this`turn, this`firstCard
      modifies players`skipped, players`hasPlayed, players`hasDrawn, players`uno
      ensures Valid() && deck == old(deck) && discard == old(discard)
      ensures deck.cards == old(deck.cards) && discard.cards == old(discard.cards)
      ensures players == old(players) || players == []
      ensures old(currentPlayer) == p ==>
        if old(|players|) == 1 then state == Finished && players == []
        else Begun() && players == old(players) && currentPlayer == old(players[0]) && turn == old(turn) + 1
      ensures old(currentPlayer) != p ==>
        if old(|players|) == 0 || (old(|players|) == 1 && old(state) == Playable) then state == Finished && players == []
        else players == old(players) && state == old(state) && currentPlayer == old(currentPlayer) && turn == old(turn) && unchanged(players)
    {
      if currentPlayer != null && currentPlayer == p {
        NextOfDeparted();
        NextTurn();
      } else if |players| < 2 && state != Finished && state != Stopped && state != Waiting {
        Stop();
      } else if |players| == 0 {
        Stop();
      }
    }

    /** The loop of `removePlayer`: the player's cards go on top of the draw pile, which is then shuffled. */
    method ReturnHand(p: Player)
      requires Wf() && p in players
      modifies deck
      ensures multiset(deck.cards) == old(multiset(deck.cards) + multiset(p.hand.cards))
    {
      var cards := p.hand.cards;
      for i := 0 to |cards|
        invariant deck.cards == old(deck.cards) + cards[..i]
      {
        deck.AddCard(cards[i]);
        assert cards[..i + 1] == cards[..i] + [cards[i]];
      }
      assert cards[..|cards|] == cards;
      deck.Shuffle();
    }

    /** The splice of `removePlayer`: the player at seat `k` leaves, the later seats move up one. */
    method Unseat(k: nat)
      requires Wf() && k < |players|
      modifies this`players, this`handSeat
      ensures players == old(players[..k] + players[k + 1..]) && Wf()
      ensures forall x :: x in players <==> x in old(players) && x != old(players[k])
    {
      ghost var h := players[k].hand;
      ghost var old_players := players;
      PlayersDistinct();
      NoDupsIffDistinct(players);
      SpliceNoDups(players, k);
      players := players[..k] + players[k + 1..];
      handSeat := map d | d in handSeat && d != h :: if handSeat[d] > k then handSeat[d] - 1 else handSeat[d];
      forall i | 0 <= i < |players|
        ensures players[i].hand in handSeat && handSeat[players[i].hand] == i
      {
        var j := if i < k then i else i + 1;
        assert players[i] == old_players[j];
      }
    }

    /** Once the current player has left a table where nobody is skipped, `nextPlayer` names seat 0. */
    lemma NextOfDeparted()
      requires Seated() && currentPlayer != null && currentPlayer !in players && |players| >= 1 && NoneSkippedNow()
      ensures Next() == players[0]
    {
      NextWhenCurrentLeft(Skips());
    }

    /**
     * `findAndRemoveIfPlaying`, the response to a player leaving the channel: when
     * somebody at the table has the nick, `removePlayer` is called with it.
     */
    method FindAndRemoveIfPlaying(nick: string) returns (removed: bool)
      requires Valid()
      modifies this`players, this`handSeat, this`state, this`currentPlayer, this`turn, this`firstCard
      modifies deck, players`skipped, players`hasPlayed, players`hasDrawn, players`uno
      ensures removed <==> nick in old(Nicks())
      ensures !removed ==> unchanged(this) && unchanged(deck) && unchanged(players)
      ensures Valid() && deck == old(deck) && discard == old(discard) && discard.cards == old(discard.cards)
      ensures removed ==> forall x :: x in players ==> x in old(players) && x != old(players[IndexOf(Nicks(), nick)])
      ensures removed ==>
        var k := old(IndexOf(Nicks(), nick));
        var p := old(players[k]);
        var rest := old(players[..k] + players[k + 1..]);
        && multiset(deck.cards) == old(multiset(deck.cards) + multiset(p.hand.cards))
        && (old(currentPlayer) == p ==>
             if |rest| == 1 then state == Finished && players == []
             else Begun() && players == rest && currentPlayer == rest[0] && turn == old(turn) + 1)
        && (old(currentPlayer) != p ==>
             if |rest| == 0 || (|rest| == 1 && old(state) == Playable) then state == Finished && players == []
             else players == rest && state == old(state) && currentPlayer == old(currentPlayer) && turn == old(turn) && unchanged(players))
    {
      var k := NickIndex(Some(nick));
      if k < 0 {
        return false;
      }
      removed := RemovePlayer(players[k].nick);
    }

    // --- idled --------------------------------------------------------------------

    /**
     * `idled`: the current player let the turn clock run out. Their idle count
     * goes up by one. Below the limit they draw a card on the idle path of `draw`,
     * which ends their turn, and at the limit the first player with their nick is
     * removed from the game. Unless the game is now over (`stop` has deleted the
     * seating), `endTurn` is then called once more.
     */
    method Idled()
      requires Valid() && state == Playable
      modifies this, deck, discard, HandSet()
      modifies players`skipped, players`hasPlayed, players`hasDrawn, players`uno, players`challengeable, currentPlayer`idleTurns
      ensures Valid()
      ensures forall q :: q in old(players) && q != old(currentPlayer) ==> q.idleTurns == old(q.idleTurns)
      ensures var p := old(currentPlayer);
        old(currentPlayer.idleTurns) + 1 >= maxIdleTurns || old(p.hasDrawn) ==> ChallengesKept(old(players), p)
      ensures var p := old(currentPlayer);
        old(currentPlayer.idleTurns) + 1 < maxIdleTurns && !old(p.hasDrawn) ==> forall j :: 0 <= j < |players| ==> !players[j].challengeable
      ensures var p := old(currentPlayer);
        old(currentPlayer.idleTurns) + 1 < maxIdleTurns && old(p.hasDrawn) ==> MarkedAtEnd(p)
      ensures var p := old(currentPlayer); var k := old(IndexOf(Nicks(), currentPlayer.nick));
        old(currentPlayer.idleTurns) + 1 >= maxIdleTurns ==>
        0 <= k && p.challengeable == old(p.challengeable || (players[k] != p && |players| > 2 && (p.hasPlayed || p.hasDrawn) && !p.uno && |p.hand.cards| == 1))
      ensures var p := old(currentPlayer); var n := old(currentPlayer.idleTurns) + 1;
        && (n < maxIdleTurns ==>
             && state == Playable && players == old(players) && currentPlayer == old(players[NextSeat()])
             && turn == old(turn) + 1
             && (!old(p.hasDrawn) ==>
                   && p.idleTurns == n && |p.hand.cards| == old(|p.hand.cards|) + 1 && p.hand.cards[..old(|p.hand.cards|)] == old(p.hand.cards)
                   && DrewOne(old(deck.cards), old(discard.cards), deck.cards, discard.cards, p.hand.cards[old(|p.hand.cards|)]))
             && (old(p.hasDrawn) ==>
                   p.idleTurns == 0 && p.hand.cards == old(p.hand.cards) && deck.cards == old(deck.cards) && discard.cards == old(discard.cards)))
        && var k := old(IndexOf(Nicks(), currentPlayer.nick));
        && (n >= maxIdleTurns ==>
             && 0 <= k
             && discard.cards == old(discard.cards) && multiset(deck.cards) == old(multiset(deck.cards) + multiset(players[k].hand.cards))
             && LeftAtLimit(old(players[k]), old(players[..k] + players[k + 1..]), old(players[k]) == p, old(turn),
                            p, old(p.hasPlayed || p.hasDrawn), n))
    {
      if currentPlayer.idleTurns + 1 < maxIdleTurns {
        IdleBelowLimit();
      } else {
        IdleAtLimit();
      }
    }

    /**
     * `idled` for a player whose bumped idle count stays below the limit. When the
     * player has not drawn yet, `draw` draws for them and ends the turn, keeping
     * their idle count, and the second `endTurn` does nothing. When the player had
     * already drawn, `draw` refuses, and the second `endTurn` ends the turn and, as
     * it is not on the idle path, resets their idle count to zero.
     */
    method IdleBelowLimit()
      requires Valid() && state == Playable && currentPlayer.idleTurns + 1 < maxIdleTurns
      modifies this, deck, discard, HandSet()
      modifies players`skipped, players`hasPlayed, players`hasDrawn, players`uno, players`challengeable, currentPlayer`idleTurns
      ensures Valid() && state == Playable && players == old(players) && currentPlayer == old(players[NextSeat()])
      ensures turn == old(turn) + 1
      ensures var p := old(currentPlayer); var n := old(currentPlayer.idleTurns) + 1;
        && (!old(p.hasDrawn) ==>
              && p.idleTurns == n && |p.hand.cards| == old(|p.hand.cards|) + 1 && p.hand.cards[..old(|p.hand.cards|)] == old(p.hand.cards)
              && DrewOne(old(deck.cards), old(discard.cards), deck.cards, discard.cards, p.hand.cards[old(|p.hand.cards|)]))
        && (old(p.hasDrawn) ==>
              p.idleTurns == 0 && p.hand.cards == old(p.hand.cards) && deck.cards == old(deck.cards) && discard.cards == old(discard.cards))
      ensures !old(currentPlayer.hasDrawn) ==> forall j :: 0 <= j < |players| ==> !players[j].challengeable
      ensures old(currentPlayer.hasDrawn) ==> ChallengesKept(old(players), old(currentPlayer)) && MarkedAtEnd(old(currentPlayer))
    {
      BumpIdle();
      assert forall q :: q in players ==> q.challengeable == old(q.challengeable);
      assert currentPlayer.uno == old(currentPlayer.uno) && currentPlayer.hand.cards == old(currentPlayer.hand.cards);
      assert deck.cards == old(deck.cards) && discard.cards == old(discard.cards);
      if currentPlayer.hasDrawn {
        IdleDrawRefused();
      } else {
        IdleDrawTaken();
      }
    }

    /** `idled` for a player whose bumped idle count reaches the limit. */
    method IdleAtLimit()
      requires Valid() && state == Playable && currentPlayer.idleTurns + 1 >= maxIdleTurns
      modifies this, deck, discard, HandSet()
      modifies players`skipped, players`hasPlayed, players`hasDrawn, players`uno
      modifies currentPlayer`challengeable, currentPlayer`idleTurns
      ensures Valid()
      ensures var k := old(IndexOf(Nicks(), currentPlayer.nick));
        && 0 <= k
        && discard.cards == old(discard.cards) && multiset(deck.cards) == old(multiset(deck.cards) + multiset(players[k].hand.cards))
        && LeftAtLimit(old(players[k]), old(players[..k] + players[k + 1..]), old(players[k] == currentPlayer), old(turn),
                       old(currentPlayer), old(currentPlayer.hasPlayed || currentPlayer.hasDrawn), old(currentPlayer.idleTurns) + 1)
      ensures var p := old(currentPlayer); var k := old(IndexOf(Nicks(), currentPlayer.nick));
        0 <= k && p.challengeable == old(p.challengeable || (players[k] != p && |players| > 2 && (p.hasPlayed || p.hasDrawn) && !p.uno && |p.hand.cards| == 1))
    {
      var p := currentPlayer;
      ghost var k := NickIndex(Some(p.nick));
      assert players[Seat()].nick == p.nick;
      assert 0 <= k && k == IndexOf(Nicks(), p.nick);
      ghost var q := players[k];
      ghost var rest := players[..k] + players[k + 1..];
      assert |rest| == |players| - 1;
      ghost var held := q == currentPlayer;
      ghost var t, acted, n := turn, p.hasPlayed || p.hasDrawn, p.idleTurns + 1;
      IdleBump(p.nick, k, q, rest, held, t, p, acted, n);
    }

    /**
     * One tick of `turnTimer`, `elapsed` milliseconds into the turn: the alarm for
     * the current player's budget, and `idled` when the time is up.
     */
    method TurnTick(elapsed: int) returns (a: Alarm)
      requires Valid() && state == Playable
      modifies this, deck, discard, HandSet()
      modifies players`skipped, players`hasPlayed, players`hasDrawn, players`uno, players`challengeable, currentPlayer`idleTurns
      ensures a == TurnAlarm(elapsed, turnMinutes, old(currentPlayer.idleTurns), idleRoundTimerDecrement)
      ensures Valid()
      ensures a != TimeUp ==> unchanged(this) && unchanged(players) && unchanged(deck, discard) && unchanged(HandSet())
      ensures a == TimeUp ==> var p := old(currentPlayer); var n := old(currentPlayer.idleTurns) + 1;
        && (n < maxIdleTurns ==>
             && state == Playable && players == old(players) && currentPlayer == old(players[NextSeat()])
             && turn == old(turn) + 1
             && (!old(p.hasDrawn) ==>
                   && p.idleTurns == n && |p.hand.cards| == old(|p.hand.cards|) + 1 && p.hand.cards[..old(|p.hand.cards|)] == old(p.hand.cards)
                   && DrewOne(old(deck.cards), old(discard.cards), deck.cards, discard.cards, p.hand.cards[old(|p.hand.cards|)]))
             && (old(p.hasDrawn) ==>
                   p.idleTurns == 0 && p.hand.cards == old(p.hand.cards) && deck.cards == old(deck.cards) && discard.cards == old(discard.cards)))
        && var k := old(IndexOf(Nicks(), currentPlayer.nick));
        && (n >= maxIdleTurns ==>
             && 0 <= k
             && discard.cards == old(discard.cards) && multiset(deck.cards) == old(multiset(deck.cards) + multiset(players[k].hand.cards))
             && LeftAtLimit(old(players[k]), old(players[..k] + players[k + 1..]), old(players[k]) == p, old(turn),
                            p, old(p.hasPlayed || p.hasDrawn), n))
      ensures a == TimeUp ==> forall q :: q in old(players) && q != old(currentPlayer) ==> q.idleTurns == old(q.idleTurns)
      ensures var p := old(currentPlayer);
        a == TimeUp && (old(currentPlayer.idleTurns) + 1 >= maxIdleTurns || old(p.hasDrawn)) ==> ChallengesKept(old(players), p)
      ensures var p := old(currentPlayer);
        a == TimeUp && old(currentPlayer.idleTurns) + 1 < maxIdleTurns && !old(p.hasDrawn) ==>
        forall j :: 0 <= j < |players| ==> !players[j].challengeable
      ensures var p := old(currentPlayer);
        a == TimeUp && old(currentPlayer.idleTurns) + 1 < maxIdleTurns && old(p.hasDrawn) ==> MarkedAtEnd(p)
      ensures var p := old(currentPlayer); var k := old(IndexOf(Nicks(), currentPlayer.nick));
        a == TimeUp && old(currentPlayer.idleTurns) + 1 >= maxIdleTurns ==>
        0 <= k && p.challengeable == old(p.challengeable || (players[k] != p && |players| > 2 && (p.hasPlayed || p.hasDrawn) && !p.uno && |p.hand.cards| == 1))
    {
      a := TurnAlarm(elapsed, turnMinutes, currentPlayer.idleTurns, idleRoundTimerDecrement);
      if a == TimeUp {
        Idled();
      }
    }

    /** The idle count of the current player goes up by one; nothing else a turn depends on changes. */
    method BumpIdle()
      requires Valid() && state == Playable
      modifies currentPlayer`idleTurns
      ensures currentPlayer.idleTurns == old(currentPlayer.idleTurns) + 1
      ensures Valid() && Nicks() == old(Nicks())
    {
      currentPlayer.idleTurns := currentPlayer.idleTurns + 1;
    }

    /** `IdleBelowLimit` for a player who has not drawn yet: `draw` draws and ends the turn. */
    method IdleDrawTaken()
      requires Valid() && state == Playable && !currentPlayer.hasDrawn
      modifies this, deck, discard, HandSet()
      modifies players`skipped, players`hasPlayed, players`hasDrawn, players`uno, players`challengeable, currentPlayer`idleTurns
      ensures Valid() && state == Playable && players == old(players) && currentPlayer == old(players[NextSeat()])
      ensures turn == old(turn) + 1
      ensures var p := old(currentPlayer); var n := old(|currentPlayer.hand.cards|);
        && p.idleTurns == old(p.idleTurns) && |p.hand.cards| == n + 1 && p.hand.cards[..n] == old(p.hand.cards)
        && DrewOne(old(deck.cards), old(discard.cards), deck.cards, discard.cards, p.hand.cards[n])
      ensures forall j :: 0 <= j < |players| ==> !players[j].challengeable
    {
      var p := currentPlayer;
      IdleDrawn(p.nick);
      assert !currentPlayer.hasPlayed && !currentPlayer.hasDrawn;
      if state != Finished {
        EndIdleTurn(players);
      }
    }

    /** The `draw` of `idled` for the current player `nick`, who has not drawn: it draws and ends the turn. */
    method IdleDrawn(nick: string)
      requires Valid() && state == Playable && !currentPlayer.hasDrawn && currentPlayer.nick == nick
      modifies this, deck, discard, HandSet()
      modifies players`skipped, players`hasPlayed, players`hasDrawn, players`uno, players`challengeable, currentPlayer`idleTurns
      ensures Valid() && Begun() && players == old(players) && currentPlayer == old(players[NextSeat()])
      ensures turn == old(turn) + 1
      ensures var p := old(currentPlayer); var n := old(|currentPlayer.hand.cards|);
        && p.idleTurns == old(p.idleTurns) && |p.hand.cards| == n + 1 && p.hand.cards[..n] == old(p.hand.cards)
        && DrewOne(old(deck.cards), old(discard.cards), deck.cards, discard.cards, p.hand.cards[n])
      ensures forall j :: 0 <= j < |players| ==> !players[j].challengeable
    {
      var drew := Draw(nick, true);
    }

    /**
     * `IdleBelowLimit` for a player who has drawn: `draw` refuses on its second check,
     * before it changes anything (it only sends a private notice), so the second
     * `endTurn` is all that acts, and it ends the turn.
     */
    method IdleDrawRefused()
      requires Valid() && state == Playable && currentPlayer.hasDrawn
      modifies this`state, this`players, this`currentPlayer, this`turn, this`firstCard
      modifies players`skipped, players`hasPlayed, players`hasDrawn, players`uno
      modifies currentPlayer`challengeable, currentPlayer`idleTurns
      ensures Valid() && state == Playable && players == old(players) && currentPlayer == old(players[NextSeat()])
      ensures turn == old(turn) + 1
      ensures var p := old(currentPlayer); p.idleTurns == 0 && p.hand.cards == old(p.hand.cards)
      ensures deck.cards == old(deck.cards) && discard.cards == old(discard.cards)
      ensures ChallengesKept(old(players), old(currentPlayer)) && MarkedAtEnd(old(currentPlayer))
    {
      if state != Finished {
        EndIdleTurn(players);
      }
    }

    /**
     * `idled` at the idle limit: the idle count goes up, then the player leaves
     * as `IdleRemoveSeat` says; `k` is the seat of the first player `q` with the
     * nick, `rest` the seating without them, and `held`, `t`, `cur`, `acted` and
     * `n` what `LeftAtLimit` compares against, taken before the count went up.
     */
    method IdleBump(nick: string, ghost k: int, ghost q: Player, ghost rest: seq<Player>,
                    ghost held: bool, ghost t: int, ghost cur: Player, ghost acted: bool, ghost n: int)
      requires Valid() && state == Playable && nick == currentPlayer.nick
      requires k == NickIndex(Some(nick)) && 0 <= k && q == players[k] && rest == players[..k] + players[k + 1..]
      requires held == (q == currentPlayer) && t == turn && cur == currentPlayer
      requires acted == (cur.hasPlayed || cur.hasDrawn) && n == cur.idleTurns + 1
      modifies this`players, this`handSeat, this`state, this`currentPlayer, this`turn, this`firstCard
      modifies deck, players`skipped, players`hasPlayed, players`hasDrawn, players`uno
      modifies currentPlayer`challengeable, currentPlayer`idleTurns
      ensures Valid()
      ensures LeftAtLimit(q, rest, held, t, cur, acted, n)
      ensures discard.cards == old(discard.cards) && multiset(deck.cards) == old(multiset(deck.cards) + multiset(q.hand.cards))
      ensures cur.challengeable == old(cur.challengeable || (!held && |rest| > 1 && acted && !cur.uno && |cur.hand.cards| == 1))
    {
      BumpIdle();
      assert cur.challengeable == old(cur.challengeable) && cur.uno == old(cur.uno) && cur.hand.cards == old(cur.hand.cards);
      assert k == NickIndex(Some(nick)) && q == players[k] && rest == players[..k] + players[k + 1..];
      assert held == (q == currentPlayer) && t == turn && cur == currentPlayer;
      assert acted == (cur.hasPlayed || cur.hasDrawn) && n == cur.idleTurns;
      IdleRemoveSeat(nick, k, q, rest, held, t, cur, acted, n);
    }

    /**
     * `idled` at the idle limit once the idle count is up: `removePlayer` with the
     * current player's nick, then, unless the game is over, the second `endTurn`.
     */
    method IdleRemoveSeat(nick: string, ghost k: int, ghost q: Player, ghost rest: seq<Player>,
                          ghost held: bool, ghost t: int, ghost cur: Player, ghost acted: bool, ghost n: int)
      requires Valid() && state == Playable && nick == currentPlayer.nick
      requires k == NickIndex(Some(nick)) && 0 <= k && q == players[k] && rest == players[..k] + players[k + 1..]
      requires held == (q == currentPlayer) && t == turn && cur == currentPlayer
      requires acted == (cur.hasPlayed || cur.hasDrawn) && n == cur.idleTurns
      modifies this`players, this`handSeat, this`state, this`currentPlayer, this`turn, this`firstCard
      modifies deck, players`skipped, players`hasPlayed, players`hasDrawn, players`uno
      modifies currentPlayer`challengeable, currentPlayer`idleTurns
      ensures Valid()
      ensures LeftAtLimit(q, rest, held, t, cur, acted, n)
      ensures discard.cards == old(discard.cards) && multiset(deck.cards) == old(multiset(deck.cards) + multiset(q.hand.cards))
      ensures cur.challengeable == old(cur.challengeable || (!held && |rest| > 1 && acted && !cur.uno && |cur.hand.cards| == 1))
    {
      ghost var seats := players;
      IdleLeave(nick, k, q, rest, held, t, cur, acted, n);
      EndIdleAfterLeaving(seats, q, rest, held, t, cur, acted, n);
    }

    /** The `removePlayer` of `idled` at the limit, once the idle count is up. */
    method IdleLeave(nick: string, ghost k: int, ghost q: Player, ghost rest: seq<Player>,
                     ghost held: bool, ghost t: int, ghost cur: Player, ghost acted: bool, ghost n: int)
      requires Valid() && state == Playable && nick == currentPlayer.nick
      requires k == NickIndex(Some(nick)) && 0 <= k && q == players[k] && rest == players[..k] + players[k + 1..]
      requires held == (q == currentPlayer) && t == turn && cur == currentPlayer
      requires acted == (cur.hasPlayed || cur.hasDrawn) && n == cur.idleTurns
      modifies this`players, this`handSeat, this`state, this`currentPlayer, this`turn, this`firstCard
      modifies deck, players`skipped, players`hasPlayed, players`hasDrawn, players`uno
      ensures Valid() && IdleLeft(q, rest, held, t, cur, acted, n) && forall x :: x in players ==> x in old(players)
      ensures !held && |rest| > 1 ==> unchanged(cur, cur.hand)
      ensures discard.cards == old(discard.cards) && multiset(deck.cards) == old(multiset(deck.cards) + multiset(q.hand.cards))
      ensures forall x :: x in old(players) ==> x.challengeable == old(x.challengeable) && x.idleTurns == old(x.idleTurns)
    {
      var removed := RemovePlayer(nick);
    }

    /**
     * The state `removePlayer` leaves behind in `idled` at the limit, in the terms of
     * `LeftAtLimit`: when another player with the idle player's nick has left,
     * `cur` still holds the turn with their flags and idle count as they were.
     */
    ghost predicate IdleLeft(p: Player, rest: seq<Player>, held: bool, turn0: int, cur: Player, acted: bool, n: int)
      reads this, players`skipped, players`hasPlayed, players`hasDrawn, players`uno, HandSeq()
      reads cur`hasPlayed, cur`hasDrawn, cur`idleTurns
    {
      && p !in players
      && (held ==>
           if |rest| == 1 then state == Finished && players == []
           else Begun() && players == rest && currentPlayer == rest[0] && turn == turn0 + 1)
      && (!held ==>
           if |rest| <= 1 then state == Finished && players == []
           else
             && state == Playable && players == rest && currentPlayer == cur && turn == turn0
             && cur.idleTurns == n && (cur.hasPlayed || cur.hasDrawn) == acted)
    }

    /** The second `endTurn` of `idled` at the limit, once `removePlayer` has run. */
    method EndIdleAfterLeaving(ghost seats: seq<Player>, ghost p: Player, ghost rest: seq<Player>, ghost held: bool,
                               ghost turn0: int, ghost cur: Player, ghost acted: bool, ghost n: int)
      requires Valid() && (forall x :: x in players ==> x in seats) && IdleLeft(p, rest, held, turn0, cur, acted, n)
      modifies this`state, this`players, this`currentPlayer, this`turn, this`firstCard
      modifies seats`skipped, seats`hasPlayed, seats`hasDrawn, seats`uno
      modifies (if state == Playable && (currentPlayer.hasPlayed || currentPlayer.hasDrawn) then {currentPlayer} else {})`challengeable
      modifies (if state == Playable && (currentPlayer.hasPlayed || currentPlayer.hasDrawn) then {currentPlayer} else {})`idleTurns
      ensures deck.cards == old(deck.cards) && discard.cards == old(discard.cards)
      ensures Valid() && LeftAtLimit(p, rest, held, turn0, cur, acted, n)
      ensures cur.challengeable == old(cur.challengeable || (!held && |rest| > 1 && acted && !cur.uno && |cur.hand.cards| == 1))
    {
      if !held && |rest| > 1 {
        PlayersDistinct();
        NoDupsIffDistinct(players);
        IndexOfDistinct(players, Seat());
      } else {
        assert state != Playable || Begun();
      }
      EndIdleUnlessOver(seats);
      if held || |rest| <= 1 {
        assert unchanged(seats);
      }
    }

    /**
     * The outcome of `idled` at the limit, where `p` is the first player with the
     * idle player `cur`'s nick, `rest` the seating without `p`, `acted` tells
     * whether `cur` had played or drawn this turn and `n` is their bumped idle
     * count. `p` has left. When `p` held the turn (`held`), either the game is
     * over, as only one player was left, or the first of `rest` holds the next
     * turn. When another player with the same nick left instead, the game is over
     * if `cur` is the only one left; otherwise `cur` keeps the turn and the idle
     * count unless they had played or drawn, in which case the second `endTurn`
     * passes the turn to the player after them and clears their idle count.
     */
    ghost predicate LeftAtLimit(p: Player, rest: seq<Player>, held: bool, turn0: int, cur: Player, acted: bool, n: int)
      reads this, players`skipped, players`hasPlayed, players`hasDrawn, players`uno, HandSeq(), cur`idleTurns
    {
      && p !in players
      && (held ==>
           if |rest| == 1 then state == Finished && players == []
           else Begun() && players == rest && currentPlayer == rest[0] && turn == turn0 + 1)
      && (!held ==>
           if |rest| <= 1 then state == Finished && players == []
           else
             && state == Playable && players == rest
             && (!acted ==> currentPlayer == cur && turn == turn0 && cur.idleTurns == n)
             && (acted ==> currentPlayer == rest[Beyond(IndexOf(rest, cur), 0, |rest|)] && turn == turn0 + 1 && cur.idleTurns == 0))
    }

    /** The second `endTurn` of `idled`, called unless the game is over. */
    method EndIdleUnlessOver(ghost seats: seq<Player>)
      requires Valid() && forall x :: x in players ==> x in seats
      modifies this`state, this`players, this`currentPlayer, this`turn, this`firstCard
      modifies seats`skipped, seats`hasPlayed, seats`hasDrawn, seats`uno
      modifies (if state == Playable && (currentPlayer.hasPlayed || currentPlayer.hasDrawn) then {currentPlayer} else {})`challengeable
      modifies (if state == Playable && (currentPlayer.hasPlayed || currentPlayer.hasDrawn) then {currentPlayer} else {})`idleTurns
      ensures Valid() && players == old(players)
      ensures old(state) != Playable ==> unchanged(this) && unchanged(seats)
      ensures old(Begun()) ==> unchanged(this) && Begun() && unchanged(seats)
      ensures old(state) == Playable && !old(currentPlayer.hasPlayed || currentPlayer.hasDrawn) ==>
        unchanged(this) && unchanged(players) && unchanged(seats)
      ensures old(state) == Playable && old(currentPlayer.hasPlayed || currentPlayer.hasDrawn) ==>
        && state == Playable && currentPlayer == old(players[NextSeat()])
        && turn == old(turn) + 1 && old(currentPlayer).idleTurns == 0 && MarkedAtEnd(old(currentPlayer))
    {
      if state == Playable {
        assert forall i :: 0 <= i < |players| ==> players[i] in seats;
        EndIdleTurn(seats);
      }
    }

    /**
     * The `endTurn` that closes `idled`, on no nick and off the idle path: it
     * does nothing unless the current player has played or drawn, and otherwise
     * ends the turn and resets their idle count to zero. `endTurn` returns at its
     * second check, before it changes anything, when the player has neither played
     * nor drawn; the model makes that check before the call, so that the frame can
     * name the player whose flags may change.
     */
    method EndIdleTurn(ghost seats: seq<Player>)
      requires Valid() && state == Playable && forall i :: 0 <= i < |players| ==> players[i] in seats
      modifies this`state, this`players, this`currentPlayer, this`turn, this`firstCard
      modifies seats`skipped, seats`hasPlayed, seats`hasDrawn, seats`uno
      modifies (if currentPlayer.hasPlayed || currentPlayer.hasDrawn then {currentPlayer} else {})`challengeable
      modifies (if currentPlayer.hasPlayed || currentPlayer.hasDrawn then {currentPlayer} else {})`idleTurns
      ensures Valid() && deck.cards == old(deck.cards) && discard.cards == old(discard.cards)
      ensures !old(currentPlayer.hasPlayed || currentPlayer.hasDrawn) ==>
        unchanged(this) && unchanged(players) && unchanged(seats) && (old(Begun()) ==> Begun())
      ensures old(currentPlayer.hasPlayed || currentPlayer.hasDrawn) ==>
        && state == Playable && players == old(players) && currentPlayer == old(players[NextSeat()])
        && turn == old(turn) + 1 && old(currentPlayer).idleTurns == 0 && MarkedAtEnd(old(currentPlayer))
    {
      if currentPlayer.hasPlayed || currentPlayer.hasDrawn {
        assert currentPlayer in seats;
        NextOfNoneSkipped();
        var ended := EndTurn(None, false);
      }
    }
  }
}
