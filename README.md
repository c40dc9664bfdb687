# Uno rule engine — a Dafny model

This project models the rule engine of butlerbot's IRC Uno game: the cards and
their playability rule, the decks (draw pile, discard pile, hands), the player
record, the game object with its turn order, card effects, `play`, `draw`,
`uno`, `challenge`, `start`, joining and leaving, the idle clock, and the chat
commands that pass a player's words on to the game.

The model follows the source's own form:

- `Basics` (basics.dfy): sequence helpers — reversal, `without` and `indexOf`.
- `Text` (text.dfy): decimal text of numbers and ASCII upper-casing.
- `Cards` (cards.dfy): pure functions for the card attributes, `isPlayable` and
  the text of `toString`. It also holds a small `Card` class, because playing a
  wild card changes the card's colour in place.
- `Decks` (deck.dfy): a `Deck` class whose methods change its `cards` sequence.
  The last element is the top of the pile.
- `Players` (player.dfy): the `Player` class with its hand and turn flags.
- `TurnOrder` (turn_order.dfy): the answer of `nextPlayer`, stated over seat
  numbers and skip flags.
- `TurnTimer` (turn_timer.dfy): the thresholds of `turnTimer`.
- `Games` (game.dfy):
  - the `Game` class holds every operation of the game object;
  - each of the card effects of `onPlay` is a method of the game, because each
    one changes the game;
  - the checks of `play` are also stated on values (`PlayVerdict`).
- `Callbacks` (callbacks.dfy): which object the timer and IRC callbacks run
  with as `this`, and whether they reach the game (see Findings).
- `Controller` (controller.dfy): the `Uno` class, with one method per chat
  command. Each command reaches the game only in the states the source allows.

Two invariants run through the model:

- `Game.Valid()` holds between commands. It says:
  - the seating has no repeated player;
  - every player has their own hand, and no hand is the draw pile or the
    discard pile;
  - in a game under way, the turn holder is seated, every hand holds cards and
    the discard pile is not empty.
- `Controller.Uno.Valid()` says that `Valid()` holds for the current game.

The main results are these:

- `Game.NextPlayer` computes `TurnOrder.NextPick`. The lemmas about `NextPick`
  show three things:
  - it picks the first player after the current one who is not skipped;
  - it finds nobody exactly when every other player is skipped;
  - it behaves as the rules say with nobody skipped, with the next player
    skipped, and after the current player has left.
- `Game.Play` proves the following about a card it accepts:
  - it returns exactly the verdict `Judge` gives;
  - the card leaves the hand and becomes the top of the discard pile;
  - a wild card takes the named colour;
  - the next player's hand gains two cards for a draw-two and four for a wild
    draw-four (none for the first card of the game), and every other hand is
    unchanged;
  - exactly the player who ended on one card without declaring "uno" becomes
    challengeable;
  - the game ends exactly when the hand is empty;
  - otherwise the turn goes to the seat that `SeatAfterPlay` names (next seat,
    skipped seat, or reversed order) and the turn counter goes up by one.
- `Game.Start` deals seven cards to every player in seat order from the top of
  the pile (`DealtHands`), turns up the next card and gives the turn to seat 0.
- `Game.RemovePlayer` returns the departed player's cards to the draw pile. It
  then passes the turn on or stops the game, following the source's branches.
- `Game.Idled` draws for the idle player, or removes them at the idle limit. In
  both cases it follows the source's second call to `endTurn`.

## Model

| member | source | states |
|---|---|---|
| Basics.ReverseLength | app/models/card.js:83 | reversing the seating (`Array.prototype.reverse`, used by the Reverse card) keeps its length |
| Basics.ReverseAt | app/models/card.js:70-84 | position i of the reversed seating holds the player from position n-1-i |
| Basics.ReverseMultiset | app/models/card.js:70-84 | reversing the seating keeps exactly the same players, with the same multiplicities |
| Basics.ReverseInvolution | app/models/card.js:70-84 | reversing twice restores the original seating |
| Basics.ReverseNoDups | app/models/card.js:70-84 | reversing a seating without repeated players gives one without repeated players, with the same members |
| Basics.Without | app/controllers/deck.js:26-30 | `_.without` removes every occurrence of the card and nothing else: the card is absent and every other card's count is unchanged |
| Basics.WithoutSingle | app/controllers/deck.js:26-30 | removing a card held once shortens the pile by exactly one |
| Basics.WithoutAbsent | app/controllers/deck.js:26-30 | removing a card that is not in the pile leaves the pile as it was |
| Basics.IndexOf | app/models/game.js:559 | `indexOf` gives the first position holding the value, and -1 exactly when the value is absent |
| Basics.IndexOfDistinct | app/models/game.js:559 | in a seating without repeats, `indexOf` of a seated player is that player's own seat |
| Basics.SpliceNoDups | app/models/game.js:559 | `splice(k, 1)` on a seating without repeats leaves one without repeats that holds everyone except the removed player |
| Text.DecimalRoundTrip | app/models/game.js:368 | reading back the decimal text of an index (`parseInt(.., 10)`) gives the index |
| Text.IntToStringInjective | app/models/card.js:118-163 | distinct card values print as distinct texts |
| Text.Upper | app/models/game.js:400-402 | `toUpperCase` keeps the length; each lower-case ASCII letter becomes its capital, 32 code points down, and every other character is kept |
| Text.UpperIdempotent | app/models/game.js:400-402 | upper-casing a colour name twice gives the same text as once, so a colour already in capitals is read unchanged |
| Text.DecimalValue | app/models/game.js:368 | `parseInt(.., 10)` of a digit token: a token of n digits denotes a number below 10^n |
| Cards.Playable | app/models/card.js:35-49 | `isPlayable` yields no answer (`undefined`) exactly for a top card of unknown type, and a wild card is never refused |
| Cards.PlayableAgreesWithRule | app/models/card.js:35-49 | on well-formed cards, the dispatch on the top card's type matches the stated rule: a wild card or wild top, the same colour, the same number, or the same action type |
| Cards.PlayableReflexive | app/models/card.js:35-49 | every well-formed card can be played on itself |
| Cards.PlayableSymmetric | app/models/card.js:35-49 | on well-formed cards, playability does not depend on which of the two is on top |
| Cards.ParseColor | app/models/game.js:400-409 | a colour argument is accepted only if it is one of YELLOW, GREEN, BLUE or RED after upper-casing (never WILD), and the accepted colour's name is the upper-cased argument |
| Cards.ParseColorName | app/models/game.js:27 | every non-wild colour is accepted under its own name |
| Cards.Label | app/models/card.js:118-147 | the text after the colour is empty exactly for an unknown type; an action or wild card's name starts with a capital letter, and a non-negative number prints as digits |
| Cards.ToText | app/models/card.js:118-147 | `toString`'s plain text is empty exactly for an unknown type |
| Cards.TextEndsWithLabel | app/models/card.js:118-147 | every card's text ends with its label |
| Cards.TextInitial | app/models/card.js:118-163 | a card's text starts with the initial of its colour, or with "Wi" for an unrecoloured wild card |
| Cards.LabelInjective | app/models/card.js:118-163 | two well-formed cards with equal labels have the same type and value |
| Cards.TextInjective | app/models/card.js:118-163 | two well-formed cards with the same `toString` text are the same card face |
| Cards.Card.constructor | app/models/card.js:4-8 | a new card has exactly the given type, colour and value |
| Cards.Views | app/controllers/deck.js:51-53 | the faces of a pile are the faces of its cards in order |
| Decks.Deck.constructor | app/controllers/deck.js:6-16 | a full deck holds one fresh, distinct card per entry of the composition, in order; any other deck is empty |
| Decks.Deck.Shuffle | app/controllers/deck.js:18-20 | shuffling keeps exactly the same cards |
| Decks.Deck.AddCard | app/controllers/deck.js:22-24 | the card goes on top of the pile and everything below it is unchanged |
| Decks.Deck.RemoveCard | app/controllers/deck.js:26-30 | without a card, the result is null and the pile is unchanged; otherwise the card is returned and every occurrence of it is removed |
| Decks.Deck.PickCard | app/controllers/deck.js:39-43 | the card at the index is returned and taken out of the pile, and the pile shrinks |
| Decks.Deck.Deal | app/controllers/deck.js:45-47 | the top card is popped and the rest of the pile is unchanged; an empty pile yields null |
| Decks.Deck.CheckPlayable | app/controllers/deck.js:32-34 | `isPlayable` of the card at the index on the top card: no answer exactly when the top card's type is unknown, and never a refusal for a wild-coloured card |
| Decks.Deck.GetCard | app/controllers/deck.js:35-37 | the card returned is one of the pile |
| Decks.Deck.GetCardIndexOf | app/controllers/deck.js:35-37 | in a pile without repeats, `indexOf` finds the card `getCard` returns back at its index |
| Decks.Deck.NumCards | app/controllers/deck.js:54-56 | the number of cards is zero exactly when there is no top card |
| Decks.Deck.GetCurrentCard | app/controllers/deck.js:48-50 | the top card, and null exactly when the pile is empty |
| Players.Player.constructor | app/models/player.js:4-17 | a new player has the given nick, user and host, zero points, zero idle turns, an empty hand and every flag cleared |
| TurnOrder.Beyond | app/models/game.js:143-145 | the seat reached by stepping round the table stays within the table |
| TurnOrder.BeyondIsMod | app/models/game.js:133 | that seat is the source's `(i + 1) % n` arithmetic |
| TurnOrder.BeyondStep | app/models/game.js:145 | one more step of the loop is `(i + 1) % n` of the previous seat |
| TurnOrder.FirstFrom | app/models/game.js:142-150 | the scan returns the first unskipped offset in the range and has passed only skipped seats; if it finds none, every seat in the range is skipped |
| TurnOrder.NextPick | app/models/game.js:126-151 | with no current player the pick is seat 0; a picked seat is never skipped and never the current seat; the current player keeps the turn exactly at a two-seat table whose other seat is skipped |
| TurnOrder.BeyondNotCurrent | app/models/game.js:142-150 | the loop visits every seat except the current one before it comes back to the current seat |
| TurnOrder.BeyondReaches | app/models/game.js:142-150 | every other seat is reached within one round |
| TurnOrder.NobodyIffAllOthersSkipped | app/models/game.js:142-151 | with three or more seats, `nextPlayer` finds nobody exactly when every other player is skipped |
| TurnOrder.PickIsFirstUnskipped | app/models/game.js:142-150 | with three or more seats, the pick is the first unskipped seat after the current one |
| TurnOrder.NextWhenNoneSkipped | app/models/game.js:126-151 | with nobody skipped, the turn passes to the next seat |
| TurnOrder.NextWhenNextSkipped | app/models/game.js:131-150 | with only the next seat skipped, the turn passes over it; at a two-seat table it comes back to the current player |
| TurnOrder.NextWhenCurrentLeft | app/models/game.js:142-150 | once the current player has left (`indexOf` is -1), with nobody skipped the turn goes to seat 0 |
| TurnOrder.ReversedSuccessor | app/models/card.js:70-84 | after the seating is reversed, the seat after a player holds the player who sat before them |
| TurnTimer.TurnSeconds | app/models/game.js:157-163 | the clock shows `max(60, 60 * turnMinutes - idleTurns * decrement)` seconds: never under a minute, and never under the reduced budget |
| TurnTimer.BudgetShrinks | app/models/game.js:201-209 | a player who has idled more often never gets a longer turn |
| TurnTimer.Classify | app/models/game.js:169-184 | one tick ends the turn exactly when the time is spent; it warns exactly when at most 10 seconds, 20 to 30 seconds, or 50 to 60 seconds remain |
| TurnTimer.WarningsAtMostOnce | app/models/game.js:169-184 | on the ten-second interval each warning fires at most once per turn |
| TurnTimer.TimeUpTick | app/models/game.js:169-170 | the first tick that ends the turn comes less than ten seconds after the budget is spent, and no earlier tick ends it |
| Games.PlayVerdict | app/models/game.js:370-414 | the checks of `play` run in the source's order: the player exists, it is their turn, the index is numeric, the index is in range, the card is playable, a wild card has a colour, the colour is valid, a player who drew plays the drawn card; a card is accepted exactly when every check passes, at the given index |
| Games.AcceptIffAllChecks | app/models/game.js:370-414 | a card is accepted exactly when the conjunction of every check holds |
| Games.AcceptedWildHasColor | app/models/game.js:395-409 | an accepted wild card always comes with a valid non-wild colour |
| Games.SeatAfterPlay | app/models/card.js:51-116 | the seat that gets the turn after a card is played stays within the table |
| Games.SkipAtTwoReplays | app/models/card.js:56-116 | a skipping card gives the turn straight back exactly at a two-player table |
| Games.NoSecondTurnAtBigTable | app/models/card.js:51-116 | with three or more players, nobody plays twice in a row, whatever the card |
| Games.NicksOf | app/models/game.js:595-597 | the nicks of the seating, seat by seat |
| Games.IdentitiesOf | app/models/game.js:535-539 | the (nick, user, host) triples of the seating, seat by seat |
| Games.ChallengeFlagsOf | app/models/game.js:508 | the challengeable flags of the seating, seat by seat |
| Games.DealtHandsSizes | app/models/game.js:333-335 | dealing seven to every seat keeps the number of hands and adds seven cards to each |
| Games.DealtNothing | app/models/game.js:107-124 | dealing no card is exactly leaving both piles as they were, in both directions |
| Games.DealtOne | app/models/game.js:108-123 | a single card dealt from a draw pile with cards is its top card, and the draw pile loses exactly that card |
| Games.DealtOneRecycled | app/models/game.js:109-122 | a single card dealt from an empty draw pile comes from the turned-over discard pile, which keeps only its top card, and the card with the new draw pile make up exactly the old discard pile |
| Games.DealtOneDrew | app/models/game.js:107-124 | dealing one card is `DrewOne`, the single-card draw of `draw` |
| Games.GetPlayerMissesSeated | app/models/game.js:595-597 | the lookup as written misses every seated nick, while `_.find` finds the nick's first seat |
| Games.Game.constructor | app/models/game.js:16-64 | a new game is stopped, with no players, turn 0, the first-card flag set and an empty discard pile; the shuffled draw pile holds exactly the composition's faces, one distinct card each |
| Games.Game.PlayersDistinct | app/models/game.js:542 | no player repeats in the seating |
| Games.Game.Seat | app/models/game.js:132 | the current player's seat (`indexOf`) |
| Games.Game.NickIndex | app/models/game.js:595-597 | `_.find` by nick: the first seat with that nick, and -1 exactly when nobody has it |
| Games.Game.HasIdentity | app/models/game.js:535-541 | someone seated has exactly this nick, user and host |
| Games.Game.SomeHandEmpty | app/models/game.js:215-217 | a winner found by the search means some hand is empty |
| Games.Game.SomeHandEmptyIff | app/models/game.js:215-217 | the winner search finds a player exactly when some hand is empty |
| Games.Game.ChallengeableIndex | app/models/game.js:508 | the first challengeable player's seat, and -1 exactly when nobody is challengeable |
| Games.Game.Judge | app/models/game.js:366-414 | the verdict of `play`'s checks on the game's live state: "no such player" exactly when the nick is not seated, "not your turn" exactly when it is someone else's turn, and any accepted index lies within the hand |
| Games.Game.NextOfNoneSkipped | app/models/game.js:126-151 | with nobody skipped, the next player sits in the next seat |
| Games.Game.NextOfNextSkipped | app/models/game.js:131-150 | with only the next player skipped, the turn goes to the seat after them; at two players it stays with the current player |
| Games.Game.Scan | app/models/game.js:142-150 | the loop of `nextPlayer` returns the player at the first unskipped seat after the current one |
| Games.Game.NextPlayer | app/models/game.js:126-151 | `nextPlayer` returns exactly the player that `NextPick` names |
| Games.Game.SetPlayer | app/models/game.js:153-155 | the current player becomes the one `nextPlayer` names |
| Games.Game.Recycle | app/models/game.js:109-114 | the discard pile becomes the draw pile, with the same cards; a fresh discard pile holds the old top card |
| Games.Game.DrawOne | app/models/game.js:107-124 | a deal of one card adds a card on top of the hand and keeps the rest. With cards on the draw pile, the card is its top card, the draw pile loses it and the discard pile is as it was. With the draw pile empty, the old discard pile becomes the draw pile, a new discard pile holds only its top card, and the new draw pile with the card taken make up exactly the cards of the old discard pile. The top of the discard pile stays the same |
| Games.Game.DrawStep | app/models/game.js:108-123 | one more card dealt keeps the state `Drawing` describes: the hand grows by one, taken from the top of the draw pile while it lasts, and once it has run out the discard pile holds only its old top card |
| Games.Game.Deal | app/models/game.js:107-124 | dealing `number` cards adds `number` cards on top of the hand and keeps the rest; the top of the discard pile stays the same; the cards taken and the new piles are as `Dealt` describes: the top `number` cards of the draw pile, last first, while it lasts; otherwise all of it, then cards of the turned-over discard pile, which keeps only its top card |
| Games.Game.DealTo | app/models/game.js:107-124 | dealing to one seat leaves every other hand unchanged; the cards the hand gained and the new piles are as `Dealt` describes against the old piles |
| Games.Game.DrawTop | app/models/game.js:108-123 | one pass of `deal`'s loop with cards on the draw pile: the hand takes its top card and the piles stay the same objects, keeping `Drawing` |
| Games.Game.DrawTurningOver | app/models/game.js:108-123 | one pass of `deal`'s loop with the draw pile empty: the discard pile becomes the draw pile, a fresh discard pile is made, and `Drawing` still holds |
| Games.Game.TakeFromDeck | app/models/game.js:116-122 | while the draw pile lasts, the card taken is its top one and the hand goes on taking the pile in reverse |
| Games.Game.TurnOverFirst | app/models/game.js:109-121 | the first card taken after the draw pile runs out, together with the new draw pile, makes up exactly the old discard pile |
| Games.Game.TurnOverLater | app/models/game.js:109-122 | every later card taken, and the draw pile, still come from the turned-over discard pile, and make it up exactly until it runs out |
| Games.Game.NumberEffect | app/models/card.js:51-54 | a number card only clears the first-card flag |
| Games.Game.SkipEffect | app/models/card.js:86-95 | a skip marks the next player as the only skipped player, unless it is the first card; no hand changes |
| Games.Game.DrawTwoEffect | app/models/card.js:56-68 | a draw-two deals two cards to the next player and skips them, unless it is the first card; every other hand is unchanged; the cards dealt and the piles are as `Dealt` describes, and nothing is dealt when the card is suppressed |
| Games.Game.ReverseEffect | app/models/card.js:70-84 | a reverse turns the seating round at three or more players and skips the other player at two, unless it is the first card; no hand changes |
| Games.Game.ReverseAtBigTable | app/models/card.js:70-84 | at three or more players, unless it is the first card, the seating becomes its reversal and nobody is skipped; no hand changes |
| Games.Game.WildEffect | app/models/card.js:97-101 | a wild card only clears the first-card flag |
| Games.Game.WildDrawFourEffect | app/models/card.js:103-116 | a wild draw-four deals four cards to the next player and skips them, unless it is the first card; every other hand is unchanged; the cards dealt and the piles are as `Dealt` describes, and nothing is dealt when the card is suppressed |
| Games.Game.SkipNext | app/models/card.js:86-95 | the next player becomes the only skipped player |
| Games.Game.Penalize | app/models/card.js:60-66 | a draw-two or wild draw-four that is not suppressed: the next player draws the card's `Penalty` on top of their hand and is the only one skipped; the seating is kept and every other hand is unchanged; the cards drawn and the new piles are as `Dealt` describes |
| Games.Game.DealNext | app/models/card.js:62-63 | the player `nextPlayer` names draws the given number of cards on top of their hand, which with the new piles are as `Dealt` describes; every other hand, the seating and the discard top stay as they were |
| Games.Game.SkipOver | app/models/card.js:91-94 | a skip that is not suppressed: the next player is the only one skipped; the seating and every hand are kept |
| Games.Game.TurnRound | app/models/card.js:70-84 | the seating becomes its reversal |
| Games.Game.SeatMirrored | app/models/card.js:70-84 | after the reversal, the current player sits at the mirrored seat |
| Games.Game.OnPlay | app/models/card.js:10-33 | `onPlay` dispatches on the type of the card: the seating is reversed exactly when `Reverses` holds; the next player is the only one skipped when `SkipsNext` holds, otherwise nobody is; the next player's hand gains `Penalty` cards (two for a draw-two, four for a wild draw-four, none when suppressed) on top of the cards it held, and every other hand is unchanged; those cards and the new piles are as `Dealt` describes against the old piles (`DealtAt`), so with no penalty the piles are untouched; an unknown type does nothing |
| Games.Game.NextAfterPlay | app/models/game.js:126-151 | after a card's effect, `nextPlayer` names the player at `SeatAfterPlay` in the seating before the card |
| Games.Game.NextAfterReverse | app/models/card.js:70-84 | after a reverse at three or more players, the next player is the one who sat before the current player |
| Games.Game.NextAfterForward | app/models/card.js:51-116 | after any other effect, the next player is at the next seat, or at the seat after it when that player is skipped |
| Games.Game.Stop | app/models/game.js:66-96 | the game is finished and its seating is deleted |
| Games.Game.StoppedIsValid | app/models/game.js:66-96 | a stopped game still satisfies the invariant |
| Games.Game.ClearFlags | app/models/game.js:239-244 | every player's skipped, played, drawn and uno flags are cleared |
| Games.Game.NextTurn | app/models/game.js:211-261 | with a hand emptied or one player left, the game stops; otherwise the turn passes to `nextPlayer`'s pick, the counter goes up by one, the first turn turns up the top of the draw pile, flags are cleared, and a first card keeps its effect pending exactly when its type is unknown |
| Games.Game.EndTurn | app/models/game.js:287-315 | a turn ends exactly when the nick (if any) is the current player's and they have played or drawn; otherwise nothing changes; a player left holding one card without "uno" becomes challengeable; a player not idling has their idle count reset; then the next turn runs |
| Games.Game.End | app/models/game.js:287-315 | the `end` command: the turn ends exactly when the nick is the current player's and they have played or drawn; otherwise nothing changes; the piles are kept; the player becomes challengeable exactly when left on one card without "uno" (or stays so) and has their idle count reset, and the turn passes to the next seat; only that player's challenge flag and idle count may change, so every other player keeps both |
| Games.Game.CloseTurn | app/models/game.js:301-314 | the effects of ending the turn, once its checks have passed |
| Games.Game.MarkEnd | app/models/game.js:307-313 | the challengeable flag and the idle count as `endTurn` sets them |
| Games.Game.BeginTurn | app/models/game.js:230-251 | the turn passes to `nextPlayer`'s pick and the counter goes up by one; on the first turn the top of the draw pile is turned up |
| Games.Game.BeginFirstTurn | app/models/game.js:230-251 | on turn 0, the top of the draw pile moves onto the discard pile and the turn counter becomes 1 |
| Games.Game.BeginLaterTurn | app/models/game.js:230-251 | on later turns, the piles stay as they were |
| Games.Game.OpenFirstTurn | app/models/game.js:233-251 | the card turned up on turn 0 is the old top of the draw pile |
| Games.Game.OpenTurn | app/models/game.js:237-251 | the counter goes up by one and the flags are cleared |
| Games.Game.TurnUp | app/models/game.js:233-235 | the top of the draw pile moves onto the discard pile |
| Games.Game.PlayFirstCard | app/models/game.js:248-251 | the first card's effect is applied; the flag stays set exactly when the type is unknown |
| Games.Game.Play | app/models/game.js:366-452 | the verdict is `Judge`'s; a refused card changes nothing, card colours included; an accepted card leaves the hand and tops the discard pile; a wild card takes the named colour and every other held card keeps its colour; the next player's hand gains the card's `Penalty` on top of what it held and every other hand is unchanged; the piles stand to the old draw pile and the old discard pile with the card on top as `Dealt` describes for the cards that player gained (`DealtAt`): with no penalty (`DealtNothing`) the draw pile is as it was and the discard pile is the old one plus the card; the player's idle count is reset and only theirs may change; exactly the player ending on one card without "uno" becomes challengeable; the game ends exactly when the hand is empty; otherwise the turn goes to the player at `SeatAfterPlay` in the seating before the card |
| Games.Game.PlayAccepted | app/models/game.js:416-451 | `play` once every check has passed: the card leaves the hand and tops the discard pile, a wild card takes the named colour and every other held card keeps its colour, the next player's hand gains the card's `Penalty` and every other hand is unchanged, the piles stand to the old draw pile and the old discard pile plus the card as `Dealt` describes for the cards gained, the challenge flags are set, only the player's idle count may change and it is reset, and the game ends or the turn passes to `SeatAfterPlay` in the seating before the card |
| Games.Game.PlayThrough | app/models/game.js:416-451 | the same outcome, piles included, from any state in which a turn is under way; only the player's idle count may change |
| Games.Game.Settle | app/models/game.js:446-451 | after the card's effect: the hasPlayed flag, the challenge flags and `endTurn`; the hands and piles the effect left, `Dealt` against the piles before, still stand |
| Games.Game.AfterPlay | app/models/game.js:446-451 | the game finishes exactly when the player has no cards left |
| Games.Game.PutDown | app/models/game.js:416-442 | the same as `PlayOut`, with the player's uno flag unchanged |
| Games.Game.PlayOut | app/models/game.js:416-442 | the card moves from the hand to the top of the discard pile; its effect on the seating and the skip flags is as `OnPlay` states; the next player's hand gains the card's `Penalty` and every other hand is unchanged; the cards gained and the piles are as `Dealt` describes against the old draw pile and the old discard pile plus the card; a wild card takes the chosen colour |
| Games.Game.TakeEffect | app/models/game.js:421-442 | `onPlay` with its whole effect as `OnPlay` states, the cards dealt and the piles as `Dealt` describes included, then the wild recolouring; the top of the discard pile and the player's hand stay as they were |
| Games.Game.Recolor | app/models/game.js:423-442 | a wild-coloured card takes the chosen colour, any other card keeps its colour, and the effect the card left behind, hands and piles included, still stands |
| Games.Game.Discard | app/models/game.js:416-417 | `pickCard` followed by `addCard`: the card tops the discard pile, and the player's hand is the only hand that changes |
| Games.Game.FinishPlay | app/models/game.js:446-451 | `endTurn` after a play, keeping the piles |
| Games.Game.MarkPlayed | app/models/game.js:446-450 | the player has played and nobody is challengeable |
| Games.Game.ClearChallenges | app/models/game.js:448-450 | nobody is challengeable |
| Games.Game.Draw | app/models/game.js:454-486 | a player draws exactly when it is their turn and they have not drawn yet, and otherwise nothing changes; the card goes on top of their hand, every other hand is unchanged, and nobody is challengeable; the card and the piles are as `DrewOne` describes: the top of the draw pile, or, with the draw pile empty, a card of the turned-over discard pile; the turn ends exactly when drawing idly or when the drawn card is not playable, and only the drawer's idle count may change (reset unless idle); when the turn is kept, only the drawer's drawn flag and the challenge flags have changed: every skipped, played and uno flag and every idle count is as it was |
| Games.Game.DrawAccepted | app/models/game.js:465-485 | `draw` once its checks have passed, with `Draw`'s outcome, the card and the piles as `DrewOne` describes: when the turn is kept, no skipped, played or uno flag and no idle count has changed |
| Games.Game.TakeCard | app/models/game.js:465-470 | one card is dealt to the current player, who has now drawn, and nobody is challengeable; the card and the piles are as `DrewOne` describes; every other hand is unchanged and no other skipped, played, drawn or uno flag and no idle count changes |
| Games.Game.MarkDrawn | app/models/game.js:466-470 | the drawn flag is set and nobody is challengeable |
| Games.Game.AfterDraw | app/models/game.js:478-485 | the turn ends on the idle path, or when the drawn card is not playable, and then only the drawer's idle count may change (reset unless idle); otherwise the player keeps the card and the turn, and nothing changes |
| Games.Game.PassAfterDraw | app/models/game.js:480-485 | ending the turn after a draw gives the turn to the next seat |
| Games.Game.Uno | app/models/game.js:488-499 | the current player declares "uno" exactly when they hold two cards, and otherwise nothing changes; with no card, or a card `play` refuses, only their uno flag changes: every other field of theirs, every other player, the piles, the hands and the card colours are as they were; an accepted card is played with `play`'s whole outcome, the piles as `Dealt` describes against the old discard pile plus the card (only the player's idle count may change, every other held card keeps its colour), except that nobody is left challengeable |
| Games.Game.DeclareUno | app/models/game.js:495 | the uno flag is set |
| Games.Game.UnoPlay | app/models/game.js:495-497 | declaring, then playing the given card: the verdict is `Judge`'s; a refused card changes only the player's uno flag, as in `Uno`; an accepted one has `play`'s outcome, piles included, with nobody challengeable, and only the player's idle count may change |
| Games.Game.DeclareAndPlay | app/models/game.js:495-497 | the flag is set and the accepted card played with `play`'s outcome, the piles as `Dealt` describes against the old discard pile plus the card; nobody is challengeable afterwards; every other held card keeps its colour and only the player's idle count may change |
| Games.Game.Challenge | app/models/game.js:501-524 | a challenge is heard exactly when `MayChallenge` holds, and otherwise nothing changes; the first challengeable player draws two cards, or the challenger does when nobody is challengeable; the two cards and the new piles are as `Dealt` describes; the challenger is marked; every other hand, the turn and the seating are unchanged |
| Games.Game.ChallengeAccepted | app/models/game.js:508-523 | the loser draws two cards, which with the new piles are as `Dealt` describes, and the challenger is marked |
| Games.Game.PenalizeSeat | app/models/game.js:516-520 | the player at the seat draws two cards, which with the new piles are as `Dealt` describes, and every other hand is unchanged |
| Games.Game.MarkChallenged | app/models/game.js:523 | only the challenger's hasChallenged flag changes |
| Games.Game.Start | app/models/game.js:317-342 | a game starts exactly when a seated player asks and at least two players are seated, and otherwise nothing changes; every hand receives seven cards from the top of the pile in seat order (`DealtHands`); the next card is turned up and seat 0 holds turn 1 |
| Games.Game.StartAccepted | app/models/game.js:331-341 | the dealing and the first turn, once the checks have passed |
| Games.Game.OpenGame | app/models/game.js:341 | the first `nextTurn` gives the turn to seat 0 and turns up the top card |
| Games.Game.FirstTurn | app/models/game.js:211-261 | the first `nextTurn` on a dealt table |
| Games.Game.DealHands | app/models/game.js:333-335 | every seat in order receives the next seven cards from the top of the pile |
| Games.Game.DealSeat | app/models/game.js:333-335 | one more seat has been dealt its seven cards |
| Games.Game.DealtAll | app/models/game.js:333-335 | once every seat has been dealt, the hands are `DealtHands` and none is empty |
| Games.Game.DealSeven | app/models/game.js:334 | one seat receives the top seven cards, drawn one by one, and every other hand is unchanged |
| Games.Game.AddPlayer | app/models/game.js:534-546 | a player is added exactly when nobody seated has their identity, and otherwise nothing changes; the player sits last and the game waits; every seated player, the new player's own fields, the piles and every hand are unchanged, and the turn and its holder are kept |
| Games.Game.TakeSeat | app/models/game.js:542-543 | the player sits down last and the state becomes waiting |
| Games.Game.RemovePlayer | app/models/game.js:548-575 | a player is removed exactly when their nick is seated, and otherwise nothing changes, players included; their cards return to the draw pile; when they held the turn it passes to seat 0 of the remaining seating, or the game ends if one player is left; otherwise the game stops if nobody is left, or if one player is left in a game under way, and else every remaining player is unchanged; the discard pile is kept and no challenge flag or idle count changes |
| Games.Game.Leave | app/models/game.js:553-574 | the removal of the player at a given seat |
| Games.Game.AfterLeave | app/models/game.js:561-574 | the three branches after the seat is vacated |
| Games.Game.ReturnHand | app/models/game.js:554-556 | the draw pile gains exactly the departed player's cards |
| Games.Game.Unseat | app/models/game.js:559 | the seating loses exactly that seat |
| Games.Game.NextOfDeparted | app/models/game.js:142-150 | once the turn holder has left, with nobody skipped, the next player sits at seat 0 |
| Games.Game.FindAndRemoveIfPlaying | app/models/game.js:599-604 | a player is removed exactly when their nick is seated, and otherwise nothing changes, players included; the first player with the nick leaves and their cards join the draw pile; then the turn passes to seat 0 or the game ends, as in `removePlayer`; no challenge flag or idle count changes |
| Games.Game.Idled | app/models/game.js:263-285 | the idle count goes up by one, and nobody else's idle count changes. Below the limit, a player who had not drawn draws on the idle path, the card and the piles as `DrewOne` describes, the turn passes to the next seat and every challenge flag is cleared; a player who had already drawn keeps their hand, the piles are untouched, every other challenge flag is kept and the second `endTurn` resets their count and marks them challengeable when left on one card without "uno". At the limit, the first player with the nick is removed and their cards join the draw pile, the discard pile untouched: when that is the idle player the turn passes on; when it is an earlier player with the same nick, the idle player keeps the turn, or passes it on if they had played or drawn; every other challenge flag is kept and the idle player's is set exactly as that `endTurn` sets it |
| Games.Game.IdleBelowLimit | app/models/game.js:267-269 | below the limit, the outcome of the idle draw: without an earlier draw the card and the piles are as `DrewOne` describes and every challenge flag is cleared; after one, the hand and the piles are untouched, the other flags are kept and the idle player's is set as `endTurn` sets it |
| Games.Game.IdleAtLimit | app/models/game.js:270-280 | at the limit, the first player with the nick leaves the table and their cards join the draw pile, the discard pile untouched; every other challenge flag is kept, and the idle player's is set only when the second `endTurn` ends their turn on one card without "uno" |
| Games.Game.IdleDrawTaken | app/models/game.js:269-284 | a player who had not drawn draws one card, as `DrewOne` describes, and keeps their idle count; the turn passes on and nobody is challengeable |
| Games.Game.IdleDrawn | app/models/game.js:268 | the `draw` of `idled` for a player who had not drawn: one card, as `DrewOne` describes, goes on top of their hand, their idle count is kept, the turn passes to the next seat and nobody is challengeable |
| Games.Game.IdleDrawRefused | app/models/game.js:269-284 | a player who had already drawn is refused the draw, their hand and the piles are untouched, and the second `endTurn` resets their idle count and sets their challenge flag as `endTurn` does; every other challenge flag is kept |
| Games.Game.IdleBump | app/models/game.js:264-284 | at the limit, the bumped idle count and then the departure leave the table as `LeftAtLimit` describes against the state before the bump, with the departing player's cards added to the draw pile; the idle player's challenge flag is set only when the second `endTurn` ends their turn on one card without "uno" |
| Games.Game.IdleRemoveSeat | app/models/game.js:279-284 | once the idle count is up, `removePlayer` and, unless the game is over, the second `endTurn` leave the table as `LeftAtLimit` describes: the player is gone and their cards join the draw pile, and who holds the turn depends on whether it was theirs and whether they had acted; only the remaining idle player's challenge flag may change, as `endTurn` sets it |
| Games.Game.IdleLeave | app/models/game.js:280 | the `removePlayer` of `idled` at the limit: the table is as `IdleLeft` describes, the departing player's cards join the draw pile, the discard pile is untouched, and no challenge flag or idle count changes |
| Games.Game.EndIdleAfterLeaving | app/models/game.js:282-284 | after `removePlayer` has left the state `IdleLeft` describes, the second `endTurn` keeps the game valid, leaves the piles alone and brings it to `LeftAtLimit`: a player who had acted ends the turn, has their idle count reset and is marked challengeable when left on one card without "uno" |
| Games.Game.EndIdleUnlessOver | app/models/game.js:282-284 | the second `endTurn`, unless the seating was deleted; a finished game, a freshly begun turn and a player who has not acted are left unchanged |
| Games.Game.EndIdleTurn | app/models/game.js:283 | `endTurn` without a nick: it ends the turn exactly when the player has played or drawn, and only then may that player's challenge flag and idle count change; otherwise nothing changes |
| Games.Game.TurnTick | app/models/game.js:157-185 | one tick of the clock gives `TurnAlarm` on the current player's idle count; any other alarm changes nothing; "time is up" has `idled`'s outcome: a draw (the card and piles as `DrewOne` describes) and the next turn below the limit, a removal at the limit with the leaver's cards added to the draw pile, with nobody else's idle count changed and the challenge flags as `Idled` states |
| Games.Game.BumpIdle | app/models/game.js:264 | the idle count goes up by one, and the game stays valid with the same nicks at the same seats |
| Callbacks.Run | app/models/game.js:606-619 | a callback body's `this.` accesses run in order: it reaches its game operation exactly when no access dereferences or calls a member the receiver lacks, and otherwise throws at the line of the first such access |
| Callbacks.UnboundCallbacksThrow | app/models/game.js:58-63 | registered as bare references (as at lines 58-63 and 260), every callback throws a TypeError before reaching the game: the start timeout at line 100, the turn timer at line 160, the part, kick and quit listeners at lines 608, 613 and 618, and the nick listener at line 624 |
| Callbacks.BoundCallbacksReachGame | app/models/game.js:157-185 | bound to the game, every callback reaches its operation: the turn timer reaches the clock check that `TurnTick` models, and exactly the part, kick and quit listeners reach the removal that `FindAndRemoveIfPlaying` models |
| Controller.Arg | app/controllers/uno.js:79-80 | the argument at a position when there is one, and none otherwise |
| Controller.Seat | app/controllers/uno.js:52-53 | a new player is seated exactly when nobody has their identity; they sit last with their nick |
| Controller.Uno.constructor | app/controllers/uno.js:8-10 | the handler starts without a game and with the given options |
| Controller.Uno.GameState | app/controllers/uno.js:13 | the current game's state, and none exactly when there is no game |
| Controller.Uno.CardsCommand | app/controllers/uno.js:12-16 | the player's hand is shown exactly when a game is under way and the nick is seated |
| Controller.Uno.PlayCommand | app/controllers/uno.js:77-81 | only a game under way judges the play, on the first two words; otherwise nothing changes: the handler, the game, its piles, hands, held cards and players are as they were |
| Controller.Uno.DrawCommand | app/controllers/uno.js:23-26 | only a game under way hears the draw, which succeeds exactly when it is the player's turn and they have not drawn yet; otherwise the handler and everything the game holds are unchanged |
| Controller.Uno.EndCommand | app/controllers/uno.js:28-31 | only a game under way hears `end`, which succeeds exactly when it is the player's turn and they have played or drawn; otherwise the handler and everything the game holds are unchanged |
| Controller.Uno.ChallengeCommand | app/controllers/uno.js:18-21 | only a game under way hears the challenge, which is heard exactly when `MayChallenge` holds; otherwise the handler and everything the game holds are unchanged |
| Controller.Uno.UnoCommand | app/controllers/uno.js:83-87 | only a game under way hears "uno", which is declared exactly when it is the player's turn and they hold two cards; otherwise the handler and everything the game holds are unchanged |
| Controller.Uno.Join | app/controllers/uno.js:33-54 | `join` is refused exactly while a game is between its start and its end, and then the game and everything it holds are unchanged; a new game is built when there is none or it is finished; the player is seated exactly when their identity is new |
| Controller.Uno.Quit | app/controllers/uno.js:56-59 | `quit` reaches any game that is not finished, and removes the player exactly when their nick is seated; otherwise the handler and everything the game holds are unchanged |
| Controller.Uno.StartCommand | app/controllers/uno.js:66-69 | `start` reaches only a waiting game; it starts it exactly when a seated player asks and two or more are seated, and the game is then under way at turn 1; otherwise the handler and everything the game holds are unchanged |
| Controller.Uno.StopCommand | app/controllers/uno.js:71-75 | `stop` finishes the game exactly when a game that is not finished exists and a seated player asks; otherwise the handler and everything the game holds are unchanged |

## Left out

- Messages to the channel and to players, IRC colour codes, the topic, and the
  listeners for part, kick, quit and nick changes are not modelled beyond how
  they reach the game (Callbacks). As registered they throw first (see
  Findings); the removal a bound listener would make is `findAndRemoveIfPlaying`.
  The nick listener's renaming is not modelled.
- Timers are not modelled: the ten-second interval, the start timeout
  (`startTimeoutFunction`) and the clearing of intervals on stop. `TurnTick` and
  `TurnAlarm` take the elapsed milliseconds as a parameter, and `TurnTick`
  models a tick of `turnTimer` as if it were bound to the game (see Findings).
- Shuffling is modelled as an arbitrary permutation of the same cards. The
  source's random order is not modelled.
- The deck composition file is not modelled. The constructor takes the list of
  card faces as a parameter.
- The game options `turnMinutes`, `idleRoundTimerDecrement` and `maxIdleTurns`
  are constructor parameters. The point limit, scores (`score` and
  `showScores`), `status`, `wiki`, the unused `playCard`, and the 200-character
  chunking of `showCards` are not modelled.
- Command arguments arrive already split into words. The source splits them
  with a regular expression, which is not modelled.
- The transient STARTED state that `start` sets is not modelled. `nextTurn`
  overwrites it before anything reads it.
- Stop: the model sets the state to Finished and empties the seating. The deck
  and discard piles are kept, where the source deletes them along with the
  players.
- Games.PlayVerdict: the index check accepts only tokens made of decimal
  digits. The source tests with `isNaN` (game.js:380), which also lets through
  signs, hex, binary and octal literals, exponents, "Infinity" and blanks, and
  then uses the `parseInt(.., 10)` of line 368. The model parts from the
  source on these tokens:
  - "-1" is refused here as not numeric, where the source refuses it as a bad
    index (line 385).
  - "0x1", "0b1" and "0o7" are refused here, where `parseInt` reads the leading
    "0" and the source plays card 0; "1e2" likewise plays card 1.
  - "Infinity" is refused here as not numeric. In the source `parseInt` gives
    NaN, both comparisons of line 385 are false, and `this.cards[NaN]` is
    `undefined`, so `checkPlayable` (game.js:390, deck.js:33) throws a
    TypeError instead of answering.
  Tokens made of word characters ("Infinity", "0x1", "0b1", "0o7", "1e2")
  reach `play` through the channel command, whose arguments are the matches of
  `/(\w+)\s?/gi` (uno.js:79). "-1" and blank tokens reach it only when `play` is
  called directly.
- Games.Game.NextPlayer requires that the current player is still seated or
  that the scan finds someone. Where the source's loop would never return for
  a departed current player with every player skipped, the model does not go.
- Games.Game.Deal and Games.Game.DrawOne require cards in the draw pile or the
  discard pile. Games.Game.Start, and Controller.Uno.StartCommand that passes
  `start` on, require enough cards for seven per hand plus the card turned up.
  The source would push `undefined` onto the hand instead.
- Recycling: the old top card stays on the new discard pile and also goes into
  the new draw pile, so the card is held twice, as in the source. The model
  states exactly this (`Dealt`, `DrewOne`): the new draw pile and the cards
  taken from it make up the old discard pile, while the new discard pile still
  holds its top card. No conservation of the total number of cards is claimed
  across a recycle.
- Challenge: `challengeablePlayer = false` resets only a local variable, so the
  challengeable flag is not cleared by a successful challenge. `hasChallenged`
  is never cleared. Both are modelled as written.
- Games.Game.Challenge: the source spells the challenge flag `challengable`
  in player.js and in `endTurn` (game.js:308), the only place that sets it, and
  `challengeable` in `play` and `draw` (game.js:449, 469), which only ever
  assign it false, and in `challenge` (game.js:508). As written, then, no
  player is ever found challengeable: every challenge fails and the challenger
  draws two cards. The model has one flag, read and written by `play`, `draw`,
  `endTurn` and `challenge`, so a challenge against a player whose turn ended
  on one card without "uno" succeeds and that player draws instead.
- AddPlayer: at ten players the source calls `start` without a nick, and
  `start` refuses a caller who is not seated. The game therefore does not start
  by itself, and the model does the same.
- Idled: the second `endTurn` after an idle draw is modelled as written. It
  does nothing after the draw has ended the turn. For a player who had already
  drawn, it ends the turn and resets their idle count. `draw` refuses such a
  player before changing anything, so IdleDrawRefused does not call Draw; and
  EndIdleTurn makes `endTurn`'s "played or drawn" check itself before calling
  EndTurn. Neither changes the outcome.
- Duplicate nicks: a lookup by nick finds the first seated player with that
  nick, as `_.find` does.
- Upper: models `toUpperCase` on ASCII letters only. JavaScript's version is
  Unicode-aware and can change the length (`ß` becomes `SS`); the colour names
  it is applied to are ASCII.
- TurnTimer.WarningsAtMostOnce and TurnTimer.TimeUpTick assume the ticks come
  exactly 10000 ms apart. The source measures elapsed time with `Date`, whose
  drift is not modelled.
- Points and hostnames are stored on the player but play no part in the rules
  modelled here.

## Findings

| source | as written | input that shows it | evidently intended | confidence | as-written member | corrected member |
|---|---|---|---|---|---|---|
| app/models/game.js:595-597 | `getPlayer` evaluates `_.find(this.players, search)` but has no `return`, so it yields `undefined` for every search | seating [A, B] and `getPlayer({ nick: "A" })`: yields `undefined`, so `play`, `challenge`, `start`, `stop` and `removePlayer` refuse every seated player, addPlayer's duplicate check (game.js:535) never refuses, `cards` (uno.js:12-16) shows nothing and `findAndRemoveIfPlaying` (game.js:600) removes nobody; the model's AddPlayer/HasIdentity, CardsCommand and FindAndRemoveIfPlaying use the corrected lookup | return the first player matching the search | not executed | Games.GetPlayerMissesSeated | Games.Game.NickIndex |
| app/models/game.js:58-63 | `setTimeout(this.startTimeoutFunction, …)`, `setInterval(this.turnTimer, …)` (line 260) and `this.client.addListener(…, this.playerPartHandler)` and the like pass the methods unbound, so `this` inside them is the Timeout object or the IRC client | the turn timer's first tick: `this.currentPlayer.idleTurns` (line 160) throws a TypeError, so `idled` (line 171) is never reached; a part, kick or quit event: `this.findAndRemoveIfPlaying` (lines 608, 613, 618) is not a function; the start timeout: `this.say` (line 100) is not a function, so `stop` is never called | the callbacks bound to the game (`this.turnTimer.bind(this)` or an arrow function), reaching the clock check and the removal that Games.Game.TurnTick and Games.Game.FindAndRemoveIfPlaying model | not executed | Callbacks.UnboundCallbacksThrow | Callbacks.BoundCallbacksReachGame |
