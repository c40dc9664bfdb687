// The Uno card: its kind, colour and face value, the playability rule
// (`isPlayable`), the plain text of `toString`, and the card object whose colour
// is reassigned when a wild card is played. The special effects of `onPlay`
// change the game and are therefore methods of the game (see game.dfy).

module Cards {
  import opened Basics
  import opened Text

  /** The card type; `Unknown` stands for any type outside the six the rules name. */
  datatype Kind = Number | Skip | Reverse | DrawTwo | Wild | WildDrawFour | Unknown

  /** The card colour; `Wild` is the colour of a wild card that has not been recoloured. */
  datatype Color = Yellow | Green | Blue | Red | Wild

  /** The three attributes of a card; `value` is absent for cards without a number. */
  datatype Face = Face(kind: Kind, color: Color, value: Option<int>)

  predicate IsWildKind(k: Kind)
  {
    k == Kind.Wild || k == WildDrawFour
  }

  predicate IsActionKind(k: Kind)
  {
    k == Skip || k == Reverse || k == DrawTwo
  }

  /**
   * A card as a standard deck holds it: only number cards carry a value, and only
   * wild cards may have the wild colour (a played wild card keeps its new colour).
   */
  predicate WellFormed(f: Face)
  {
    && (f.kind == Number <==> f.value.Some?)
    && (f.color == Color.Wild ==> IsWildKind(f.kind))
  }

  /**
   * The playability test `card.isPlayable(top)`, dispatching on the kind of the top
   * card exactly as the source does; `None` is the `undefined` an unknown top kind yields.
   */
  function Playable(card: Face, top: Face): (r: Option<bool>)
    ensures r.None? <==> top.kind == Unknown
    ensures card.color == Color.Wild ==> r != Some(false)
  {
    match top.kind
    case Wild | WildDrawFour =>
      Some(card.color == Color.Wild || top.color == Color.Wild || card.color == top.color)
    case Number =>
      Some(card.color == Color.Wild || card.color == top.color || card.value == top.value)
    case Skip | Reverse | DrawTwo =>
      Some(card.color == Color.Wild || card.color == top.color || card.kind == top.kind)
    case Unknown => None
  }

  /**
   * The Uno matching rule stated directly, independently of the dispatch: a wild
   * card or a wild top allows anything, equal colours match, equal numbers match,
   * and equal action kinds match whatever their colour.
   */
  predicate PlayableByRule(card: Face, top: Face)
  {
    || card.color == Color.Wild
    || top.color == Color.Wild
    || card.color == top.color
    || (card.kind == Number && top.kind == Number && card.value == top.value)
    || (IsActionKind(card.kind) && card.kind == top.kind)
  }

  /** On well-formed cards the dispatching test and the stated rule agree. */
  lemma PlayableAgreesWithRule(card: Face, top: Face)
    requires WellFormed(card) && WellFormed(top) && top.kind != Unknown
    ensures Playable(card, top) == Some(PlayableByRule(card, top))
  {
  }

  /** Every well-formed card can be played on itself. */
  lemma PlayableReflexive(card: Face)
    requires WellFormed(card) && card.kind != Unknown
    ensures Playable(card, card) == Some(true)
  {
  }

  /** On well-formed cards playability does not depend on which card is on top. */
  lemma PlayableSymmetric(a: Face, b: Face)
    requires WellFormed(a) && WellFormed(b) && a.kind != Unknown && b.kind != Unknown
    ensures Playable(a, b) == Playable(b, a)
  {
    PlayableAgreesWithRule(a, b);
    PlayableAgreesWithRule(b, a);
  }

  /** The colour as the source spells it. */
  function ColorName(c: Color): (s: string)
    ensures |s| > 0
  {
    match c
    case Yellow => "YELLOW"
    case Green => "GREEN"
    case Blue => "BLUE"
    case Red => "RED"
    case Wild => "WILD"
  }

  /**
   * The colour a player names when playing a wild card: the upper-cased argument
   * must be one of the four colours of the game (never the wild colour).
   */
  function ParseColor(s: string): (r: Option<Color>)
    ensures r != Some(Color.Wild)
    ensures r.Some? ==> ColorName(r.value) == Upper(s)
  {
    var u := Upper(s);
    if u == "YELLOW" then Some(Yellow)
    else if u == "GREEN" then Some(Green)
    else if u == "BLUE" then Some(Blue)
    else if u == "RED" then Some(Red)
    else None
  }

  /** Every colour but the wild one is accepted under its own name, in any letter case. */
  lemma ParseColorName(c: Color)
    requires c != Color.Wild
    ensures ParseColor(ColorName(c)) == Some(c)
  {
    UpperIdempotent(ColorName(c));
    assert Upper(ColorName(c)) == ColorName(c);
  }

  /** The text after the colour: the value, or the name of the kind; empty only for an unknown kind. */
  function Label(f: Face): (r: string)
    ensures r == "" <==> f.kind == Unknown
    ensures f.kind != Number && f.kind != Unknown ==> 'A' <= r[0] <= 'Z'
    ensures f.kind == Number && f.value.Some? && f.value.value >= 0 ==> IsDigits(r)
  {
    match f.kind
    case Number => if f.value.Some? then IntToString(f.value.value) else "undefined"
    case Skip => "Skip"
    case Reverse => "Reverse"
    case DrawTwo => "Draw Two"
    case Wild => "Wild"
    case WildDrawFour => "Wild Draw Four"
    case Unknown => ""
  }

  /**
   * The plain text of `toString`: the colour, a space and the label, except that a
   * wild card still wearing the wild colour shows its label alone (the IRC colour
   * codes around the text are not modelled).
   */
  function ToText(f: Face): (r: string)
    ensures r == "" <==> f.kind == Unknown
  {
    if f.kind == Unknown then ""
    else if IsWildKind(f.kind) && f.color == Color.Wild then Label(f)
    else ColorName(f.color) + " " + Label(f)
  }

  /** A card's text ends with its label. */
  lemma TextEndsWithLabel(f: Face)
    ensures |Label(f)| <= |ToText(f)| && ToText(f)[|ToText(f)| - |Label(f)|..] == Label(f)
  {
    if f.kind != Unknown && !(IsWildKind(f.kind) && f.color == Color.Wild) {
      var prefix := ColorName(f.color) + " ";
      assert ToText(f) == prefix + Label(f);
      assert (prefix + Label(f))[|prefix|..] == Label(f);
    }
  }

  /** Well-formed cards that are not wild-coloured start their text with the colour's initial. */
  lemma TextInitial(f: Face)
    requires WellFormed(f) && f.kind != Unknown
    ensures |ToText(f)| > 0
    ensures f.color != Color.Wild ==> ToText(f)[0] == ColorName(f.color)[0]
    ensures f.color == Color.Wild ==> ToText(f)[..2] == "Wi"
  {
  }

  /** Equal labels of well-formed cards mean equal kind and equal value. */
  lemma LabelInjective(f: Face, g: Face)
    requires WellFormed(f) && WellFormed(g) && f.kind != Unknown && g.kind != Unknown
    requires Label(f) == Label(g)
    ensures f.kind == g.kind && f.value == g.value
  {
    if f.kind == Number && g.kind == Number {
      IntToStringInjective(f.value.value, g.value.value);
    }
  }

  /** Two well-formed cards with the same text are the same card face. */
  lemma TextInjective(f: Face, g: Face)
    requires WellFormed(f) && WellFormed(g) && f.kind != Unknown && g.kind != Unknown
    requires ToText(f) == ToText(g)
    ensures f == g
  {
    TextInitial(f);
    TextInitial(g);
    var t := ToText(f);
    assert f.color == g.color;
    if f.color == Color.Wild {
      LabelInjective(f, g);
    } else {
      var k := |ColorName(f.color)| + 1;
      assert t[k..] == Label(f);
      assert ToText(g)[k..] == Label(g);
      LabelInjective(f, g);
    }
  }

  /**
   * A card. Its kind and value never change; its colour does, once, when a wild
   * card is played and takes the colour its player names.
   */
  class Card {
    const kind: Kind
    var color: Color
    const value: Option<int>

    constructor (face: Face)
      ensures View() == face
    {
      kind := face.kind;
      color := face.color;
      value := face.value;
    }

    /** The card's current attributes. */
    function View(): Face
      reads this
    {
      Face(kind, color, value)
    }
  }

  /** The faces of a pile of cards, in order. */
  function Views(s: seq<Card>): (r: seq<Face>)
    reads s
    ensures |r| == |s| && forall j :: 0 <= j < |s| ==> r[j] == s[j].View()
  {
    if s == [] then [] else Views(s[..|s| - 1]) + [s[|s| - 1].View()]
  }

  /** The faces of two piles laid one on the other. */
  lemma ViewsAppend(a: seq<Card>, b: seq<Card>)
    ensures Views(a + b) == Views(a) + Views(b)
  {
    var l, r := Views(a + b), Views(a) + Views(b);
    forall j | 0 <= j < |l|
      ensures l[j] == r[j]
    {
      if j < |a| {
        assert (a + b)[j] == a[j];
      } else {
        assert (a + b)[j] == b[j - |a|];
      }
    }
  }

  /** Taking one card out of a pile takes its face out of the pile's faces. */
  lemma ViewsWithout(a: seq<Card>, x: Card, b: seq<Card>)
    ensures multiset(Views(a + [x] + b)) == multiset(Views(a + b)) + multiset{x.View()}
  {
    var v, ma, mb := x.View(), multiset(Views(a)), multiset(Views(b));
    assert Views([x]) == [v];
    ViewsAppend(a, [x]);
    ViewsAppend(a + [x], b);
    ViewsAppend(a, b);
    assert multiset(Views(a + [x] + b)) == ma + multiset{v} + mb;
    UnionSwap(ma, mb, multiset{v});
  }

  /** Two piles with the same cards still hold the same cards once one card is taken from each. */
  lemma PileWithout(init: seq<Card>, x: Card, a: seq<Card>, b: seq<Card>)
    requires multiset(init + [x]) == multiset(a + [x] + b)
    ensures multiset(init) == multiset(a + b)
  {
    assert multiset(init + [x]) == multiset(init) + multiset{x};
    assert multiset(a + [x] + b) == multiset(a) + multiset{x} + multiset(b);
    assert multiset(a + b) == multiset(a) + multiset(b);
    assert multiset(init) == multiset(init + [x]) - multiset{x};
    assert multiset(a + b) == multiset(a + [x] + b) - multiset{x};
  }

  /** The faces of two piles holding the same cards are the same faces. */
  lemma {:induction false} ViewsPermutation(s: seq<Card>, t: seq<Card>)
    requires multiset(s) == multiset(t)
    ensures multiset(Views(s)) == multiset(Views(t))
    decreases |s|
  {
    if s == [] {
      assert |t| == |multiset(t)| == 0;
      assert t == [];
    } else {
      var init, x := s[..|s| - 1], s[|s| - 1];
      assert s == init + [x];
      assert x in multiset(t);
      var i :| 0 <= i < |t| && t[i] == x;
      var a, b := t[..i], t[i + 1..];
      assert t == a + [x] + b;
      PileWithout(init, x, a, b);
      ViewsPermutation(init, a + b);
      ViewsWithout(init, x, []);
      ViewsWithout(a, x, b);
      assert init + [x] + [] == s && init + [] == init;
    }
  }
}
