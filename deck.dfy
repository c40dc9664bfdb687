// A pile of cards: the draw pile, the discard pile and every player's hand are
// decks. The last element of `cards` is the top of the pile.

module Decks {
  import opened Basics
  import opened Cards

  class Deck {
    var cards: seq<Card>

    /**
     * A full deck holds one new card per entry of the composition, in that order;
     * any other deck starts empty. The composition file itself is not part of
     * this model and is passed in.
     */
    constructor (deck: bool, composition: seq<Face>)
      ensures deck ==> |cards| == |composition|
      ensures deck ==> forall i :: 0 <= i < |cards| ==> fresh(cards[i]) && cards[i].View() == composition[i]
      ensures deck ==> Distinct(cards)
      ensures !deck ==> cards == []
    {
      var made: seq<Card> := [];
      if deck {
        for i := 0 to |composition|
          invariant |made| == i
          invariant forall j :: 0 <= j < i ==> fresh(made[j]) && made[j].View() == composition[j]
          invariant Distinct(made)
        {
          var c := new Card(composition[i]);
          made := made + [c];
        }
      }
      cards := made;
    }

    /** Two rounds of an arbitrary permutation: the same cards, in some order. */
    method Shuffle()
      modifies this`cards
      ensures multiset(cards) == multiset(old(cards))
    {
      var once: seq<Card> :| multiset(once) == multiset(cards);
      var twice: seq<Card> :| multiset(twice) == multiset(once);
      cards := twice;
    }

    /** Puts a card on top. */
    method AddCard(card: Card)
      modifies this`cards
      ensures cards == old(cards) + [card]
      ensures |cards| == old(|cards|) + 1 && GetCurrentCard() == card
    {
      cards := cards + [card];
    }

    /**
     * Takes every occurrence of `card` out of the pile, keeping the order of the
     * rest, and returns it; without a card (`null`, the source's `undefined`) it
     * returns `null` (the source's `false`) and changes nothing.
     */
    method RemoveCard(card: Card?) returns (r: Card?)
      modifies this`cards
      ensures card == null ==> r == null && cards == old(cards)
      ensures card != null ==> r == card && var c: Card := card; cards == Without(old(cards), c)
    {
      if card == null {
        return null;
      }
      var c: Card := card;
      cards := Without(cards, c);
      return c;
    }

    /** `cards[index].isPlayable(top)`: the playability of one card of the pile. */
    function CheckPlayable(index: nat, top: Card): (r: Option<bool>)
      requires index < |cards|
      reads this, cards[index], top
      ensures r.None? <==> top.kind == Unknown
      ensures cards[index].color == Color.Wild ==> r != Some(false)
    {
      Playable(cards[index].View(), top.View())
    }

    /** The card at `index`: a card of the pile. */
    function GetCard(index: nat): (c: Card)
      requires index < |cards|
      reads this
      ensures c in cards
    {
      cards[index]
    }

    /** In a pile without repeats, `indexOf` finds the card at `index` back at `index`. */
    lemma GetCardIndexOf(index: nat)
      requires index < |cards| && Distinct(cards)
      ensures IndexOf(cards, GetCard(index)) == index
    {
      var r := IndexOf(cards, cards[index]);
      assert cards[r] == cards[index];
    }

    /** Takes the card at `index` out of the pile and returns it. */
    method PickCard(index: nat) returns (card: Card)
      requires index < |cards|
      modifies this`cards
      ensures card == old(cards[index])
      ensures cards == Without(old(cards), card)
      ensures card !in cards && |cards| < old(|cards|)
    {
      card := cards[index];
      var removed := RemoveCard(card);
      assert multiset(old(cards))[card] > 0;
    }

    /** Pops the top card; an empty pile yields `null` and stays empty. */
    method Deal() returns (card: Card?)
      modifies this`cards
      ensures old(cards) == [] ==> card == null && cards == []
      ensures old(cards) != [] ==> card == old(cards[|cards| - 1]) && cards == old(cards[..|cards| - 1])
      ensures old(cards) != [] ==> old(cards) == cards + [card]
    {
      if cards == [] {
        return null;
      }
      card := cards[|cards| - 1];
      cards := cards[..|cards| - 1];
    }

    /** The top card, or `null` for an empty pile. */
    function GetCurrentCard(): (top: Card?)
      reads this
      ensures cards == [] <==> top == null
      ensures cards != [] ==> top == cards[|cards| - 1]
    {
      if cards == [] then null else cards[|cards| - 1]
    }

    /** The number of cards: zero exactly when there is no top card. */
    function NumCards(): (n: nat)
      reads this
      ensures n == 0 <==> GetCurrentCard() == null
      ensures n == |multiset(cards)|
    {
      |cards|
    }
  }

  /**
   * A shuffle of a freshly made full deck holds one card per entry of the
   * composition, in some order, and no card twice.
   */
  lemma ShuffledDeck(made: seq<Card>, shuffled: seq<Card>, composition: seq<Face>)
    requires |made| == |composition| && (forall i :: 0 <= i < |made| ==> made[i].View() == composition[i])
    requires Distinct(made) && multiset(shuffled) == multiset(made)
    ensures |shuffled| == |composition| && multiset(Views(shuffled)) == multiset(composition) && Distinct(shuffled)
  {
    assert Views(made) == composition;
    assert |shuffled| == |multiset(shuffled)| == |multiset(made)| == |made|;
    ViewsPermutation(made, shuffled);
    PermutationDistinct(made, shuffled);
  }
}
