/** A round of the card game War (Games/War.swift, with the parts of Models/Deck.swift, Player.swift and
    TournamentPlayer.swift that it uses). */
module War {
  import opened Wrappers

  datatype Suit = Clubs | Diamonds | Hearts | Spades

  type Rank = r: nat | 2 <= r <= 14 witness 2

  datatype Card = Card(suit: Suit, rank: Rank)

  type Id = nat

  datatype Player = Player(cards: seq<Card>, eliminated: bool, lastPlayedCard: Option<Card>)

  type Players = map<Id, Player>

  const CARDS_NEEDED_FOR_WAR: nat := 2

  // Card.Suit compares by raw value.
  function SuitOrder(s: Suit): nat {
    match s
    case Clubs => 0
    case Diamonds => 1
    case Hearts => 2
    case Spades => 3
  }

  ghost predicate Distinct(ids: seq<Id>) {
    forall i, j :: 0 <= i < j < |ids| ==> ids[i] != ids[j]
  }

  // `order` lists the players once each, by id.
  ghost predicate Lists(order: seq<Id>, players: Players) {
    Distinct(order) && forall id :: id in order <==> id in players
  }

  ghost function Hands(order: seq<Id>, players: Players): multiset<Card>
    requires forall id :: id in order ==> id in players
  {
    if order == [] then multiset{}
    else Hands(order[1..], players) + multiset(players[order[0]].cards)
  }

  lemma {:induction false} HandsUnchanged(order: seq<Id>, players: Players, id: Id, p: Player)
    requires (forall o :: o in order ==> o in players) && id !in order
    ensures Hands(order, players[id := p]) == Hands(order, players)
  {
    if order != [] {
      assert order[0] in order;
      HandsUnchanged(order[1..], players, id, p);
    }
  }

  // Changing one hand changes the whole by as much.
  lemma {:induction false} HandsUpdated(order: seq<Id>, players: Players, id: Id, p: Player)
    requires Distinct(order) && (forall o :: o in order ==> o in players) && id in order
    ensures Hands(order, players[id := p]) + multiset(players[id].cards)
         == Hands(order, players) + multiset(p.cards)
  {
    var rest := order[1..];
    assert order == [order[0]] + rest;
    assert order[0] !in rest;
    if id == order[0] {
      HandsUnchanged(rest, players, id, p);
    } else {
      HandsUpdated(rest, players, id, p);
      var (a, b, h) := (Hands(rest, players[id := p]), Hands(rest, players), multiset(players[order[0]].cards));
      assert Hands(order, players[id := p]) == a + h && Hands(order, players) == b + h;
      SwapLast(a, h, multiset(players[id].cards));
      SwapLast(b, h, multiset(p.cards));
    }
  }

  lemma SwapLast(a: multiset<Card>, b: multiset<Card>, c: multiset<Card>)
    ensures a + b + c == a + c + b
  {
  }

  // Whoever is out holds no cards.
  ghost predicate OutHoldNothing(players: Players) {
    forall id :: id in players && players[id].eliminated ==> players[id].cards == []
  }

  // The same players, and nothing has happened to those not in `ids`.
  ghost predicate OnlyChanges(before: Players, after: Players, ids: seq<Id>) {
    && before.Keys == after.Keys
    && forall id :: id in before && id !in ids ==> after[id] == before[id]
  }

  // The holders of a highest card: distinct players that are still in.
  ghost predicate Holders(players: Players, holders: seq<Id>) {
    && holders != [] && Distinct(holders)
    && forall id :: id in holders ==> id in players && !players[id].eliminated
  }

  // ----- Comparing cards

  // Who may win: in the round, still in, and with a card.
  predicate Eligible(players: Players, roundCards: map<Id, seq<Card>>, id: Id) {
    id in roundCards && id in players && !players[id].eliminated && roundCards[id] != []
  }

  function FinalRank(roundCards: map<Id, seq<Card>>, id: Id): Rank
    requires id in roundCards && roundCards[id] != []
  {
    roundCards[id][|roundCards[id]| - 1].rank
  }

  // No player still in ends with a higher card.
  ghost predicate HoldsHighest(players: Players, roundCards: map<Id, seq<Card>>, id: Id) {
    && Eligible(players, roundCards, id)
    && forall o :: Eligible(players, roundCards, o) ==> FinalRank(roundCards, o) <= FinalRank(roundCards, id)
  }

  method DetermineHighestRank(cards: seq<Card>) returns (highest: Rank)
    requires cards != []
    ensures forall c :: c in cards ==> c.rank <= highest
    ensures exists c :: c in cards && c.rank == highest
  {
    highest := 2;
    for i: nat := 0 to |cards|
      invariant forall j :: 0 <= j < i ==> cards[j].rank <= highest
      invariant highest == 2 || exists j :: 0 <= j < i && cards[j].rank == highest
    {
      if highest < cards[i].rank {
        highest := cards[i].rank;
      }
    }
    assert highest == 2 ==> cards[0].rank == highest;
  }

  /** The players whose final card has the highest rank of all final cards of players still in.  A dictionary is walked
      in no particular order, so neither are the holders listed in one. */
  method DetermineHighCardHolders(players: Players, roundCards: map<Id, seq<Card>>) returns (holders: seq<Id>)
    requires forall id :: id in roundCards ==> id in players && (!players[id].eliminated ==> roundCards[id] != [])
    requires exists id :: Eligible(players, roundCards, id)
    ensures Holders(players, holders)
    ensures forall id :: id in holders <==> HoldsHighest(players, roundCards, id)
  {
    var cards: seq<Card> := [];
    var todo := roundCards.Keys;
    while todo != {}
      invariant todo <= roundCards.Keys
      invariant forall id :: id in roundCards.Keys - todo && Eligible(players, roundCards, id) ==>
                  roundCards[id][|roundCards[id]| - 1] in cards
      invariant forall c :: c in cards ==>
                  exists id :: Eligible(players, roundCards, id) && roundCards[id][|roundCards[id]| - 1] == c
    {
      var id :| id in todo;
      todo := todo - {id};
      if !players[id].eliminated {
        assert Eligible(players, roundCards, id);
        cards := cards + [roundCards[id][|roundCards[id]| - 1]];
      }
    }
    var highest := DetermineHighestRank(cards);
    holders := [];
    todo := roundCards.Keys;
    while todo != {}
      invariant todo <= roundCards.Keys && Distinct(holders)
      invariant forall id :: id in holders <==>
                  id in roundCards.Keys - todo && Eligible(players, roundCards, id) && FinalRank(roundCards, id) == highest
    {
      var id :| id in todo;
      todo := todo - {id};
      if !players[id].eliminated && roundCards[id][|roundCards[id]| - 1].rank == highest {
        holders := holders + [id];
      }
    }
    var best :| best in cards && best.rank == highest;
    var winner :| Eligible(players, roundCards, winner) && roundCards[winner][|roundCards[winner]| - 1] == best;
    assert winner in holders;
  }

  // The suit comparison after a draw.
  method DetermineHighSuitHolders(players: Players, lastCards: map<Id, Card>) returns (holders: seq<Id>)
    ensures Distinct(holders)
    ensures forall id :: id in holders <==> id in lastCards && SuitNotBeaten(players, lastCards, id)
  {
    holders := [];
    var todo := lastCards.Keys;
    while todo != {}
      invariant todo <= lastCards.Keys && Distinct(holders)
      invariant forall id :: id in holders <==> id in lastCards.Keys - todo && SuitNotBeaten(players, lastCards, id)
    {
      var id :| id in todo;
      todo := todo - {id};
      assert id !in holders;
      var isHighCardHolder := true;
      var others := lastCards.Keys;
      while others != {}
        invariant others <= lastCards.Keys
        invariant isHighCardHolder <==> forall o :: o in lastCards.Keys - others ==> !Beats(players, lastCards, o, id)
      {
        var o :| o in others;
        others := others - {o};
        if id != o && id in players && !players[id].eliminated && SuitOrder(lastCards[id].suit) < SuitOrder(lastCards[o].suit) {
          isHighCardHolder := false;
          assert Beats(players, lastCards, o, id);
        }
      }
      if isHighCardHolder {
        holders := holders + [id];
      }
    }
  }

  // The comparison only looks at players who are still in.
  predicate Beats(players: Players, lastCards: map<Id, Card>, o: Id, id: Id)
    requires o in lastCards && id in lastCards
  {
    id != o && id in players && !players[id].eliminated && SuitOrder(lastCards[id].suit) < SuitOrder(lastCards[o].suit)
  }

  ghost predicate SuitNotBeaten(players: Players, lastCards: map<Id, Card>, id: Id)
    requires id in lastCards
  {
    forall o :: o in lastCards ==> !Beats(players, lastCards, o, id)
  }

  // ----- What happens to one player

  // The player afterwards, the cards that leave the hand, and the cards shown for comparison, if any.
  datatype Step = Step(after: Player, drawn: seq<Card>, shown: Option<seq<Card>>)

  // Deck.drawCards(drawAmount:from:): all that is left when there is not enough.
  function Drawn(amount: nat, hand: seq<Card>): seq<Card> {
    if amount <= |hand| then hand[..amount] else hand
  }

  // A round: the top card, or out.
  function PlaceStep(p: Player): Step {
    if p.eliminated then Step(p, [], None)
    else if p.cards == [] then Step(p.(eliminated := true), [], None)
    else Step(Player(p.cards[1..], false, Some(p.cards[0])), [p.cards[0]], Some([p.cards[0]]))
  }

  // A war: two cards, or out with all that is left.
  function WarStep(p: Player): Step {
    var cards := Drawn(CARDS_NEEDED_FOR_WAR, p.cards);
    Step(Player(p.cards[|cards|..], p.eliminated || |cards| < CARDS_NEEDED_FOR_WAR,
                if cards == [] then p.lastPlayedCard else Some(cards[|cards| - 1])),
         cards, Some(cards))
  }

  // A war of players with too few cards: one card, or out.
  function LimitedStep(p: Player): Step {
    if p.eliminated then Step(p, [], None)
    else if p.cards == [] then Step(p.(eliminated := true), [], None)
    else Step(Player(p.cards[1..], false, Some(p.cards[0])), [p.cards[0]], Some([p.cards[0]]))
  }

  // The players in `ids` have taken their step.
  ghost predicate Stepped(before: Players, players: Players, shown: map<Id, seq<Card>>, ids: seq<Id>,
                          step: Player -> Step) {
    && players.Keys == before.Keys
    && (forall id :: id in before ==> players[id] == if id in ids then step(before[id]).after else before[id])
    && (forall id :: id in shown <==> id in ids && id in before && step(before[id]).shown.Some?)
    && forall id :: id in shown ==> shown[id] == step(before[id]).shown.value
  }

  // A step moves cards from the hand and leaves nothing with a player who is out.
  ghost predicate Fair(p: Player, s: Step) {
    s.drawn + s.after.cards == p.cards && (s.after.eliminated ==> s.after.cards == [] || s.after == p)
  }

  // One more player takes the step.
  lemma SteppedSnoc(order: seq<Id>, before: Players, players: Players, shown: map<Id, seq<Card>>, ids: seq<Id>,
                    step: Player -> Step, id: Id, pile: seq<Card>)
    requires Stepped(before, players, shown, ids, step) && id in before && id !in ids
    requires Lists(order, players) && OutHoldNothing(players) && Fair(before[id], step(before[id]))
    ensures id in players && players[id] == before[id]
    ensures var s := step(before[id]);
            var players' := players[id := s.after];
            && Stepped(before, players', if s.shown.Some? then shown[id := s.shown.value] else shown, ids + [id], step)
            && Lists(order, players') && OutHoldNothing(players')
            && Hands(order, players') + multiset(pile + s.drawn) == Hands(order, players) + multiset(pile)
  {
    hide Hands;
    Moved(order, players, id, step(before[id]).after, pile, step(before[id]).drawn);
  }

  // Moving cards out of a hand and onto a pile keeps all cards.
  lemma Moved(order: seq<Id>, players: Players, id: Id, p: Player, pile: seq<Card>, drawn: seq<Card>)
    requires Lists(order, players) && id in players && drawn + p.cards == players[id].cards
    ensures Lists(order, players[id := p])
    ensures Hands(order, players[id := p]) + multiset(pile + drawn) == Hands(order, players) + multiset(pile)
  {
    HandsUpdated(order, players, id, p);
    var (a, b) := (Hands(order, players[id := p]), Hands(order, players));
    assert multiset(players[id].cards) == multiset(drawn) + multiset(p.cards) by {
      assert multiset(drawn + p.cards) == multiset(drawn) + multiset(p.cards);
    }
    Cancel(a, b, multiset(drawn), multiset(p.cards));
    assert multiset(pile + drawn) == multiset(pile) + multiset(drawn);
    assert a + (multiset(pile) + multiset(drawn)) == (a + multiset(drawn)) + multiset(pile);
  }

  lemma Cancel(a: multiset<Card>, b: multiset<Card>, c: multiset<Card>, d: multiset<Card>)
    requires a + (c + d) == b + d
    ensures a + c == b
  {
    forall x
      ensures (a + c)[x] == b[x]
    {
      assert (a + (c + d))[x] == (b + d)[x];
    }
  }

  class War {
    const order: seq<Id>
    var players: Players
    var deck: seq<Card>
    var roundWinner: Option<Id>
    var gameover: bool

    ghost predicate Ok()
      reads this
    {
      Lists(order, players) && OutHoldNothing(players)
    }

    ghost function Held(): multiset<Card>
      reads this
      requires Lists(order, players)
    {
      Hands(order, players)
    }

    constructor (order: seq<Id>, players: Players, deck: seq<Card>)
      requires Lists(order, players) && OutHoldNothing(players)
      ensures Ok() && this.players == players && this.deck == deck && this.order == order
    {
      this.order, this.players, this.deck := order, players, deck;
      roundWinner, gameover := None, false;
    }

    /** Every player still in puts down a card; whoever has none is out. */
    method PlaceCards() returns (roundCards: map<Id, seq<Card>>, cards: seq<Card>)
      requires Ok()
      modifies `players
      ensures Ok() && Held() + multiset(cards) == old(Held())
      ensures Stepped(old(players), players, roundCards, order, PlaceStep)
      ensures cards == Tops(order, old(players))
    {
      hide Hands, Stepped, OutHoldNothing, Distinct, Lists, Tops;
      ListsAll(order, players);
      roundCards, cards := map[], [];
      NoTops(players);
      ghost var before := players;
      NobodyStepped(players, PlaceStep);
      for i: nat := 0 to |order|
        modifies `players
        invariant Ok() && Held() + multiset(cards) == Hands(order, before)
        invariant Stepped(before, players, roundCards, order[..i], PlaceStep)
        invariant cards == Tops(order[..i], before)
      {
        var id := order[i];
        TopsStep(order, before, i);
        ListedOnce(order, before, i);
        SteppedSnoc(order, before, players, roundCards, order[..i], PlaceStep, id, cards);
        var player := players[id];
        if !player.eliminated {
          if |player.cards| > 0 {
            var card := player.cards[0];
            roundCards := roundCards[id := [card]];
            cards := cards + [card];
            players := players[id := Player(player.cards[1..], false, Some(card))];
          } else {
            players := players[id := player.(eliminated := true)];
            assert cards + [] == cards;
          }
        } else {
          assert cards + [] == cards && players[id := player] == players;
        }
      }
      assert order[..|order|] == order;
    }

    /** Takes two cards from every holder; who cannot give two is out and gives what is left. */
    method GotoWar(holders: seq<Id>, prize: seq<Card>)
      returns (noSuccessfulDraws: bool, prizeCards: seq<Card>, participants: map<Id, seq<Card>>)
      requires Ok() && Holders(players, holders)
      modifies `players
      ensures Ok() && Held() + multiset(prizeCards) == old(Held()) + multiset(prize)
      ensures Stepped(old(players), players, participants, holders, WarStep)
      ensures prize <= prizeCards
      ensures noSuccessfulDraws <==> forall id :: id in holders ==> |old(players)[id].cards| < CARDS_NEEDED_FOR_WAR
      ensures |prizeCards| >= |prize| && (!noSuccessfulDraws ==> |prizeCards| > |prize|)
    {
      hide Hands, Stepped, OutHoldNothing;
      noSuccessfulDraws, prizeCards, participants := true, prize, map[];
      ghost var before := players;
      NobodyStepped(players, WarStep);
      for i: nat := 0 to |holders|
        modifies `players
        invariant Ok() && Held() + multiset(prizeCards) == Hands(order, before) + multiset(prize)
        invariant Stepped(before, players, participants, holders[..i], WarStep)
        invariant prize <= prizeCards
        invariant noSuccessfulDraws <==> forall k :: 0 <= k < i ==> |before[holders[k]].cards| < CARDS_NEEDED_FOR_WAR
        invariant |prizeCards| >= |prize| && (!noSuccessfulDraws ==> |prizeCards| > |prize|)
      {
        var id := holders[i];
        HolderOnce(holders, before, i);
        SteppedSnoc(order, before, players, participants, holders[..i], WarStep, id, prizeCards);
        var player := players[id];
        if CARDS_NEEDED_FOR_WAR <= |player.cards| {
          var cards := player.cards[..CARDS_NEEDED_FOR_WAR];
          player := Player(player.cards[CARDS_NEEDED_FOR_WAR..], player.eliminated, Some(cards[|cards| - 1]));
          participants := participants[id := cards];
          noSuccessfulDraws := false;
        } else {
          var cardsDrawn := player.cards;
          participants := participants[id := cardsDrawn];
          var last := if cardsDrawn == [] then player.lastPlayedCard else Some(cardsDrawn[|cardsDrawn| - 1]);
          player := Player([], true, last);
        }
        players := players[id := player];
        prizeCards := prizeCards + participants[id];
      }
      assert holders[..|holders|] == holders;
    }

    /** Takes one card from every holder; who has none is out. */
    method LimitedWar(holders: seq<Id>, prize: seq<Card>)
      returns (noSuccessfulDraws: bool, prizeCards: seq<Card>, participants: map<Id, seq<Card>>)
      requires Ok() && Holders(players, holders)
      modifies `players
      ensures Ok() && Held() + multiset(prizeCards) == old(Held()) + multiset(prize)
      ensures Stepped(old(players), players, participants, holders, LimitedStep)
      ensures prize <= prizeCards
      ensures noSuccessfulDraws <==> forall id :: id in holders ==> old(players)[id].cards == []
      ensures |prizeCards| >= |prize| && (!noSuccessfulDraws ==> |prizeCards| > |prize|)
    {
      hide Hands, Stepped, OutHoldNothing;
      noSuccessfulDraws, prizeCards, participants := true, prize, map[];
      ghost var before := players;
      NobodyStepped(players, LimitedStep);
      for i: nat := 0 to |holders|
        modifies `players
        invariant Ok() && Held() + multiset(prizeCards) == Hands(order, before) + multiset(prize)
        invariant Stepped(before, players, participants, holders[..i], LimitedStep)
        invariant prize <= prizeCards
        invariant noSuccessfulDraws <==> forall k :: 0 <= k < i ==> before[holders[k]].cards == []
        invariant |prizeCards| >= |prize| && (!noSuccessfulDraws ==> |prizeCards| > |prize|)
      {
        var id := holders[i];
        HolderOnce(holders, before, i);
        SteppedSnoc(order, before, players, participants, holders[..i], LimitedStep, id, prizeCards);
        var player := players[id];
        if |player.cards| > 0 {
          var card := player.cards[0];
          participants := participants[id := [card]];
          players := players[id := Player(player.cards[1..], player.eliminated, Some(card))];
          noSuccessfulDraws := false;
          prizeCards := prizeCards + participants[id];
        } else {
          players := players[id := player.(eliminated := true)];
          assert prizeCards + [] == prizeCards;
        }
      }
      assert holders[..|holders|] == holders;
    }

    /** A war for the prize among the holders of equal cards, nested until one wins or nobody has a card left.  Each
        nested war has taken at least one more card from the holders' hands. */
    method FightWar(holders: seq<Id>, prize: seq<Card>) returns (result: WarResult, prizeCards: seq<Card>)
      requires Ok() && Holders(players, holders) && HavePlayed(players, holders)
      modifies `players, `roundWinner
      ensures Ok() && OnlyChanges(old(players), players, holders)
      ensures result.Won? ==> Held() == old(Held()) + multiset(prize) && roundWinner == Some(result.winner)
      ensures result.Won? ==> result.winner in holders && result.winner in players && !players[result.winner].eliminated
      ensures prize <= prizeCards
      ensures result.Won? ==> TookPrize(old(players), players, result.winner, prizeCards)
      ensures result.Draw? ==> Held() + multiset(prizeCards) == old(Held()) + multiset(prize) && roundWinner == None
      ensures result.Draw? ==> AllOut(players, result.ids) && HavePlayed(players, result.ids) && Distinct(result.ids)
      ensures result.Draw? ==> result.ids != [] && (|holders| > 1 ==> |result.ids| > 1)
      ensures result.Draw? ==> forall id :: id in result.ids ==> id in holders
      ensures NoCards(old(players), holders) ==> result == Draw(holders)
      ensures AllOut(players, holders) <==> WarUndecided(old(players), holders)
      decreases |Held()|
    {
      hide Hands, Stepped, OutHoldNothing, Distinct, HoldsHighest, Lists, WarTaken, Eligible, HavePlayed, Gave, WarUndecided, TookPrize, OnlyDrawn;
      ghost var before := players;
      ListsAll(order, players);
      var noSuccessfulDraws, enoughCards, more, participants, given := TakeWar(holders, prize);
      prizeCards := more;
      if noSuccessfulDraws {
        roundWinner := None;
        TakenChanges(before, players, participants, holders);
        NoCardsUndecided(before, holders);
        return Draw(holders), prizeCards;
      }
      ListsAll(order, players);
      FewerCards(Hands(order, before), Hands(order, players), prize, prizeCards);
      TakenChanges(before, players, participants, holders);
      var next := DetermineHighCardHolders(players, participants);
      Narrowed(before, players, participants, holders, next);
      ghost var taken := players;
      if |next| == 1 {
        WinPrize(next[0], prizeCards, enoughCards);
        result := Won(next[0]);
        Takes(before, taken, players, next[0], prizeCards);
      } else {
        result, prizeCards := FightWar(next, prizeCards);
        if result.Won? {
          TakesLater(before, taken, players, result.winner, prizeCards);
        }
      }
      WarAllOutExactlyWhen(before, taken, players, participants, holders, next, given);
      ChangesCompose(before, players, holders);
    }

    // The draws of one war, complete or limited.
    method TakeWar(holders: seq<Id>, prize: seq<Card>)
      returns (noSuccessfulDraws: bool, enoughCards: bool, prizeCards: seq<Card>, participants: map<Id, seq<Card>>,
               ghost given: nat)
      requires Ok() && Holders(players, holders) && HavePlayed(players, holders)
      modifies `players
      ensures Ok() && Held() + multiset(prizeCards) == old(Held()) + multiset(prize)
      ensures WarTaken(old(players), players, participants, holders) && OnlyDrawn(old(players), players)
      ensures noSuccessfulDraws <==> NoCards(old(players), holders)
      ensures noSuccessfulDraws ==> AllOut(players, holders)
      ensures prize <= prizeCards
      ensures !noSuccessfulDraws ==> |prizeCards| > |prize| && exists id :: Eligible(players, participants, id)
      ensures !noSuccessfulDraws ==> Gave(old(players), players, participants, Ids(holders), given)
      ensures !noSuccessfulDraws ==> WarOf(old(players), holders, given)
    {
      hide Hands, Stepped, OutHoldNothing, Distinct, Lists, WarTaken, Eligible, Gave, OnlyDrawn, IsLeft;
      ghost var before := players;
      ListsAll(order, players);
      enoughCards := false;
      for i: nat := 0 to |holders|
        modifies {}
        invariant !enoughCards && forall k :: 0 <= k < i ==> |players[holders[k]].cards| < CARDS_NEEDED_FOR_WAR
      {
        if |players[holders[i]].cards| >= CARDS_NEEDED_FOR_WAR {
          enoughCards := true;
          break;
        }
      }
      if enoughCards {
        noSuccessfulDraws, prizeCards, participants := GotoWar(holders, prize);
        AfterWar(before, players, participants, holders);
        WarOnlyDraws(before, players, participants, holders);
        given := CARDS_NEEDED_FOR_WAR;
      } else {
        noSuccessfulDraws, prizeCards, participants := LimitedWar(holders, prize);
        AfterLimitedWar(before, players, participants, holders);
        LimitedWarOnlyDraws(before, players, participants, holders);
        given := 1;
      }
    }

    method WinPrize(winner: Id, prizeCards: seq<Card>, enoughCards: bool)
      requires Ok() && winner in players && !players[winner].eliminated
      modifies `players, `roundWinner
      ensures Ok() && Held() == old(Held()) + multiset(prizeCards) && roundWinner == Some(winner)
      ensures var p := old(players)[winner];
              players == old(players)[winner := p.(cards := p.cards + prizeCards)]
      ensures winner in players && !players[winner].eliminated && OnlyChanges(old(players), players, [winner])
    {
      hide Hands, OutHoldNothing;
      var player := players[winner];
      GiveCards(order, players, winner, prizeCards, false);
      players := players[winner := player.(cards := player.cards + prizeCards)];
      roundWinner := Some(winner);
      // A limited war leaves its winner in, but the source makes sure of it.
      assert players[winner := players[winner].(eliminated := false)] == players;
      if !enoughCards {
        players := players[winner := players[winner].(eliminated := false)];
      }
    }

    /** Deals the deck to the players still in, one card each in turn, until a draw finds it empty.  With nobody in, no
        draw is ever tried: the source then goes round for ever, which `finished` tells. */
    method DealCards() returns (finished: bool)
      requires Ok() && players != map[]
      modifies `players, `deck
      ensures Ok() && Held() + multiset(deck) == old(Held() + multiset(deck)) && SameStanding(old(players), players)
      ensures finished <==> SomebodyIn(players)
      ensures finished ==> deck == [] && DealtInTurn(old(players), players, InOf(order, old(players)), old(deck))
      ensures !finished ==> players == old(players) && deck == old(deck)
    {
      hide Hands, OutHoldNothing, Distinct, OneEach, Dealt, DealtInTurn, InOf;
      ghost var before, all, stock := players, Held() + multiset(deck), deck;
      ghost var ids := InOf(order, players);
      var anyoneIn := false;
      for i: nat := 0 to |order|
        modifies {}
        invariant anyoneIn <==> exists k :: 0 <= k < i && !players[order[k]].eliminated
      {
        anyoneIn := anyoneIn || !players[order[i]].eliminated;
      }
      InOfExactly(order, players);
      if !anyoneIn {
        return false;
      }
      SomebodyListed(order, players);
      NothingDealt(players, ids, deck);
      ghost var dealt: nat := 0;
      while true
        modifies `players, `deck
        invariant Ok() && Held() + multiset(deck) == all && SameStanding(before, players)
        invariant dealt % |ids| == 0 && dealt <= |stock| && deck == stock[dealt..]
        invariant Dealt(before, players, ids, stock[..dealt])
        decreases |deck|
      {
        ghost var players0 := players;
        SameInOf(order, before, players);
        var empty := DealAround();
        DealtAround(before, players0, players, ids, stock, dealt);
        if empty {
          DealtAll(before, players, ids, stock);
          assert forall id :: id in players ==> players[id].eliminated == before[id].eliminated;
          return true;
        }
        NextTurn(dealt, |ids|);
        dealt := dealt + |ids|;
      }
    }

    // One time round the table; `empty` when a draw found no card.
    method DealAround() returns (empty: bool)
      requires Ok()
      modifies `players, `deck
      ensures Ok() && Held() + multiset(deck) == old(Held() + multiset(deck)) && SameStanding(old(players), players)
      ensures OneEach(old(players), players, InOf(order, old(players)), old(deck))
      ensures empty <==> |old(deck)| < |InOf(order, old(players))|
      ensures deck == if empty then [] else old(deck)[|InOf(order, old(players))|..]
    {
      hide Hands, OutHoldNothing, Distinct, InOf;
      ghost var before, all, stock := players, Held() + multiset(deck), deck;
      ghost var ids := InOf(order, players);
      ghost var n: nat := 0;
      NobodyYet(order, players, stock);
      for i: nat := 0 to |order|
        modifies `players, `deck
        invariant Ok() && Held() + multiset(deck) == all && SameStanding(before, players)
        invariant n == |InOf(order[..i], before)| <= |ids| && n <= |stock| && deck == stock[n..]
        invariant OneEach(before, players, ids, stock[..n])
      {
        var id := order[i];
        var player := players[id];
        NextIn(order, before, i);
        if !player.eliminated {
          if deck == [] {
            assert stock[..n] == stock;
            return true;
          }
          var card := deck[0];
          GiveCards(order, players, id, [card], false);
          assert multiset(deck) == multiset([card]) + multiset(deck[1..]) by {
            assert deck == [card] + deck[1..];
          }
          OneMore(before, players, ids, stock, n);
          deck := deck[1..];
          players := players[id := player.(cards := player.cards + [card])];
          n := n + 1;
        }
      }
      assert order[..|order|] == order;
      OneEachOf(before, players, ids, stock);
      return false;
    }

    // Setting deckCards only takes effect on an empty deck.
    method SetDeckCards(cards: seq<Card>)
      modifies `deck
      ensures deck == if old(deck) == [] then cards else old(deck)
    {
      if deck == [] {
        deck := cards;
      }
    }

    method UpdateGameStatus()
      requires Lists(order, players)
      modifies `gameover
      ensures gameover == (old(gameover) || |InOf(order, players)| == 1 || |InOf(order, players)| == 0 == |order|)
    {
      var numNotEliminated := 0;
      for i: nat := 0 to |order|
        modifies {}
        invariant numNotEliminated == |InOf(order[..i], players)| <= 1
      {
        InOfStep(order, players, i);
        if !players[order[i]].eliminated {
          numNotEliminated := numNotEliminated + 1;
        }
        if numNotEliminated > 1 {
          InOfGrows(order, players, i + 1);
          return;
        }
      }
      assert order[..|order|] == order;
      if numNotEliminated == 1 || numNotEliminated == |order| {
        gameover := true;
      }
    }

    /** A round.  Whenever it ends, the cards in the hands and in the deck are those that were there before, except that
        a draw would lose the prize if there were still cards in the deck to be dealt; and whoever is out holds nothing.
        It does not end exactly for the hands that NeverEnds describes: the draw puts everyone out, and nobody is left
        to deal the prize to. */
    method StartRound() returns (finished: bool, ghost lost: multiset<Card>)
      requires Ok() && exists id :: id in players && !players[id].eliminated && players[id].cards != []
      modifies `players, `deck, `roundWinner, `gameover
      ensures Ok() && players.Keys == old(players.Keys)
      ensures Held() + multiset(deck) + lost == old(Held() + multiset(deck))
      ensures old(deck) == [] ==> lost == multiset{}
      ensures roundWinner.Some? ==> roundWinner.value in players && !players[roundWinner.value].eliminated
      ensures finished <==> SomebodyIn(players)
      ensures !finished <==> NeverEnds(old(players))
      ensures finished && old(deck) == [] ==> deck == []
      ensures forall w: Id :: SoleHighest(old(players), w) ==>
                roundWinner == Some(w) && deck == old(deck) && TookRound(old(players), players, order, w)
    {
      hide Hands, OutHoldNothing, Stepped, HoldsHighest, Eligible, Distinct, Lists, HavePlayed, NeverEnds, WarUndecided, Gave, SoleHighest, TookRound, Tops, TookPrize;
      lost := multiset{};
      ghost var before := players;
      ListsAll(order, players);
      var roundCards, cards := PlaceCards();
      AfterPlacing(before, players, roundCards, order);
      var holders := DetermineHighCardHolders(players, roundCards);
      PlacedGave(before, players, roundCards, order);
      ListsAll(order, players);
      ghost var placed := players;
      SoleHolder(before, players, roundCards, order, holders);
      if |holders| == 1 {
        WinPrize(holders[0], cards, true);
        TakesRound(before, placed, roundCards, order, holders[0], cards);
        RoundEndsExactlyWhen(before, placed, players, roundCards, holders);
      } else {
        PlacedHavePlayed(players, roundCards, holders);
        var result, prize := FightWar(holders, cards);
        RoundEndsExactlyWhen(before, placed, players, roundCards, holders);
        if result.Draw? {
          finished, lost := AfterDraw(result.ids, prize);
          if !finished {
            return;
          }
        }
      }
      UpdateGameStatus();
      finished := true;
    }

    // The end of a round that ended in a draw.
    method AfterDraw(ids: seq<Id>, cards: seq<Card>) returns (finished: bool, ghost lost: multiset<Card>)
      requires Ok() && players != map[] && |ids| > 1 && Distinct(ids) && AllOut(players, ids) && HavePlayed(players, ids)
      modifies `players, `deck
      ensures Ok() && SameStanding(old(players), players)
      ensures Held() + multiset(deck) + lost == old(Held() + multiset(deck)) + multiset(cards)
      ensures old(deck) == [] ==> lost == multiset{}
      ensures finished ==> deck == []
      ensures finished <==> SomebodyIn(players)
    {
      hide Hands, OutHoldNothing, Distinct, Lists;
      var lastCards: map<Id, Card> := map[];
      for i: nat := 0 to |ids|
        modifies {}
        invariant forall id :: id in lastCards <==> id in ids[..i]
      {
        assert ids[i] in ids && ids[..i + 1] == ids[..i] + [ids[i]];
        if players[ids[i]].lastPlayedCard.Some? {
          lastCards := lastCards[ids[i] := players[ids[i]].lastPlayedCard.value];
        }
      }
      assert ids[..|ids|] == ids;
      var holders := DetermineHighSuitHolders(players, lastCards);
      SuitsDecideNothing(players, lastCards, ids, holders);
      // There is never a sole holder of the highest suit, so the source's branch for one is not taken.
      assert |holders| > 1;
      lost := if deck == [] then multiset{} else multiset(cards);
      ListsAll(order, players);
      SetDeckCards(cards);
      finished := DealCards();
    }
  }

  /** The suits of the last cards decide no draw: they are compared only for players who are still in, and a draw has
      put all of its players out, so everyone in it counts as a holder of the highest suit. */
  lemma SuitsDecideNothing(players: Players, lastCards: map<Id, Card>, ids: seq<Id>, holders: seq<Id>)
    requires |ids| > 1 && Distinct(ids) && AllOut(players, ids) && forall id :: id in lastCards <==> id in ids
    requires forall id :: id in holders <==> id in lastCards && SuitNotBeaten(players, lastCards, id)
    ensures forall id :: id in holders <==> id in ids
    ensures |holders| > 1
  {
    assert forall id :: id in ids ==> SuitNotBeaten(players, lastCards, id);
    assert ids[0] in holders && ids[1] in holders && ids[0] != ids[1];
  }

  lemma AfterPlacing(before: Players, players: Players, roundCards: map<Id, seq<Card>>, order: seq<Id>)
    requires Stepped(before, players, roundCards, order, PlaceStep) && forall id :: id in before ==> id in order
    ensures before.Keys == players.Keys
    ensures forall id :: id in roundCards ==>
              id in players && !players[id].eliminated && roundCards[id] != [] && players[id].lastPlayedCard.Some?
    ensures forall id :: id in before && !before[id].eliminated && before[id].cards != [] ==>
              Eligible(players, roundCards, id)
  {
  }

  // ----- Who takes the cards

  // The cards put down in a round, in the order of the table.
  function Tops(ids: seq<Id>, players: Players): seq<Card> {
    if ids == [] then []
    else
      var last := ids[|ids| - 1];
      Tops(ids[..|ids| - 1], players) + if CanPlay(players, last) then [players[last].cards[0]] else []
  }

  lemma NoTops(players: Players)
    ensures Tops([], players) == []
  {
  }

  lemma TopsStep(ids: seq<Id>, players: Players, i: nat)
    requires i < |ids|
    ensures Tops(ids[..i + 1], players)
         == Tops(ids[..i], players) + if CanPlay(players, ids[i]) then [players[ids[i]].cards[0]] else []
  {
    assert ids[..i + 1][..i] == ids[..i];
  }

  ghost function PlayingBefore(ids: seq<Id>, players: Players, i: nat): set<nat>
    requires i <= |ids|
  {
    set j: nat | j < i && CanPlay(players, ids[j])
  }

  /** Behind the cards of those who play before, at the place their number gives, lies the card of the next who does,
      and there are no other cards. */
  lemma {:induction false} TopsAt(ids: seq<Id>, players: Players, i: nat)
    requires i < |ids| && CanPlay(players, ids[i])
    ensures |Tops(ids, players)| == |PlayingBefore(ids, players, |ids|)|
    ensures |PlayingBefore(ids, players, i)| < |Tops(ids, players)|
    ensures Tops(ids, players)[|PlayingBefore(ids, players, i)|] == players[ids[i]].cards[0]
  {
    TopsCount(ids, players, i);
    TopsCount(ids, players, |ids|);
    TopsStep(ids, players, i);
    TopsPrefix(ids, players, i + 1);
    assert ids[..|ids|] == ids;
  }

  lemma {:induction false} TopsCount(ids: seq<Id>, players: Players, i: nat)
    requires i <= |ids|
    ensures |Tops(ids[..i], players)| == |PlayingBefore(ids, players, i)|
    decreases i
  {
    if i > 0 {
      TopsCount(ids, players, i - 1);
      TopsStep(ids, players, i - 1);
      var s := PlayingBefore(ids, players, i - 1);
      assert PlayingBefore(ids, players, i) == if CanPlay(players, ids[i - 1]) then s + {i - 1} else s;
    }
  }

  lemma {:induction false} TopsPrefix(ids: seq<Id>, players: Players, i: nat)
    requires i <= |ids|
    ensures Tops(ids[..i], players) <= Tops(ids, players)
    decreases |ids| - i
  {
    if i < |ids| {
      TopsStep(ids, players, i);
      TopsPrefix(ids, players, i + 1);
    } else {
      assert ids[..i] == ids;
    }
  }

  // One top card outranks all others.
  ghost predicate SoleHighest(players: Players, w: Id) {
    && CanPlay(players, w)
    && forall id :: id != w && CanPlay(players, id) ==> players[id].cards[0].rank < players[w].cards[0].rank
  }

  // Everybody has lost the top card, or has gone out for want of one, and the winner has all of them, under the rest
  // of the hand.
  ghost predicate TookRound(before: Players, after: Players, order: seq<Id>, w: Id) {
    && after.Keys == before.Keys
    && forall id :: id in before ==>
         && (before[id].eliminated ==> after[id] == before[id])
         && (!before[id].eliminated ==> after[id].eliminated == (before[id].cards == []))
         && (CanPlay(before, id) ==>
               && after[id].lastPlayedCard == Some(before[id].cards[0])
               && after[id].cards == before[id].cards[1..] + if id == w then Tops(order, before) else [])
  }

  lemma SoleHolder(before: Players, placed: Players, roundCards: map<Id, seq<Card>>, order: seq<Id>, holders: seq<Id>)
    requires Stepped(before, placed, roundCards, order, PlaceStep) && forall id :: id in before ==> id in order
    requires holders != [] && Distinct(holders) && forall id :: id in holders <==> HoldsHighest(placed, roundCards, id)
    ensures forall w: Id :: SoleHighest(before, w) ==> holders == [w]
  {
    assert |holders| > 1 ==> holders[0] != holders[1];
    forall w: Id | SoleHighest(before, w)
      ensures holders == [w]
    {
      assert Eligible(placed, roundCards, w) && FinalRank(roundCards, w) == before[w].cards[0].rank;
      forall i | 0 <= i < |holders|
        ensures holders[i] == w
      {
        assert holders[i] in holders;
        assert CanPlay(before, holders[i]) && FinalRank(roundCards, holders[i]) == before[holders[i]].cards[0].rank;
      }
    }
  }

  lemma TakesRound(before: Players, placed: Players, roundCards: map<Id, seq<Card>>, order: seq<Id>, w: Id,
                   cards: seq<Card>)
    requires Stepped(before, placed, roundCards, order, PlaceStep) && forall id :: id in before ==> id in order
    requires w in placed && cards == Tops(order, before)
    ensures CanPlay(before, w) ==>
              TookRound(before, placed[w := placed[w].(cards := placed[w].cards + cards)], order, w)
  {
    hide Tops;
  }

  // What is left of a hand from which cards were drawn.
  ghost predicate IsLeft(hand: seq<Card>, rest: seq<Card>) {
    |rest| <= |hand| && rest == hand[|hand| - |rest|..]
  }

  ghost predicate OnlyDrawn(before: Players, after: Players) {
    forall id :: id in before && id in after ==> IsLeft(before[id].cards, after[id].cards)
  }

  lemma WarOnlyDraws(before: Players, players: Players, shown: map<Id, seq<Card>>, ids: seq<Id>)
    requires Stepped(before, players, shown, ids, WarStep)
    ensures OnlyDrawn(before, players)
  {
  }

  lemma LimitedWarOnlyDraws(before: Players, players: Players, shown: map<Id, seq<Card>>, ids: seq<Id>)
    requires Stepped(before, players, shown, ids, LimitedStep)
    ensures OnlyDrawn(before, players)
  {
  }

  // The winner of a war keeps what was not drawn and gets the whole prize under it.
  ghost predicate TookPrize(before: Players, after: Players, winner: Id, prize: seq<Card>) {
    && winner in before && winner in after
    && |prize| <= |after[winner].cards|
    && var rest := |after[winner].cards| - |prize|;
       after[winner].cards[rest..] == prize && IsLeft(before[winner].cards, after[winner].cards[..rest])
  }

  lemma Takes(before: Players, taken: Players, after: Players, winner: Id, prize: seq<Card>)
    requires OnlyDrawn(before, taken) && winner in taken && winner in before
    requires after == taken[winner := taken[winner].(cards := taken[winner].cards + prize)]
    ensures TookPrize(before, after, winner, prize)
  {
  }

  lemma TakesLater(before: Players, taken: Players, after: Players, winner: Id, prize: seq<Card>)
    requires OnlyDrawn(before, taken) && winner in before && TookPrize(taken, after, winner, prize)
    ensures TookPrize(before, after, winner, prize)
  {
  }

  // ----- When nobody is left

  // Every hand of k cards or more has given k, of which the last was compared; the others are out.
  ghost predicate Gave(before: Players, after: Players, participants: map<Id, seq<Card>>, who: set<Id>, k: nat)
    requires who <= before.Keys
  {
    && k > 0 && before.Keys == after.Keys && participants.Keys <= who
    && (forall id :: id in who && |before[id].cards| < k ==> after[id].eliminated)
    && forall id :: id in who && |before[id].cards| >= k ==>
         && Eligible(after, participants, id)
         && FinalRank(participants, id) == before[id].cards[k - 1].rank
         && after[id].cards == before[id].cards[k..]
  }

  // The hands that could give k cards.
  ghost function Able(before: Players, who: set<Id>, k: nat): set<Id>
    requires who <= before.Keys
  {
    set id | id in who && |before[id].cards| >= k
  }

  // What is left of the longest hand, and of the places compared, once k cards are gone.
  ghost predicate MovesOn(k: nat, first: nat, longest: nat) {
    && 0 < k <= longest
    && ((k == 1 && first == 0) || (k == 2 && first == 1) || (k == 1 && first == 1 && longest == 1))
  }

  lemma ComparedMovesOn(k: nat, first: nat, longest: nat)
    requires MovesOn(k, first, longest)
    ensures forall c: nat :: c < k ==> (Compared(c, first, longest) <==> c == k - 1)
    ensures forall c: nat :: c >= k ==> (Compared(c, first, longest) <==> Compared(c - k, 1, longest - k))
  {
  }

  lemma LongestMovesOn(before: Players, after: Players, participants: map<Id, seq<Card>>, who: set<Id>, k: nat, longest: nat)
    requires who <= before.Keys && Gave(before, after, participants, who, k) && k <= longest
    requires IsLongest(before, who, longest)
    ensures IsLongest(after, Able(before, who, k), longest - k)
    ensures TwoLast(before, who, longest) <==> TwoLast(after, Able(before, who, k), longest - k)
  {
    hide Eligible, FinalRank;
    var rest := Able(before, who, k);
    var last :| last in who && |before[last].cards| == longest;
    assert last in rest && |after[last].cards| == longest - k;
    if TwoLast(before, who, longest) {
      var a, b :| a in who && b in who && a != b && |before[a].cards| == |before[b].cards| == longest;
      assert a in rest && b in rest && |after[a].cards| == |after[b].cards| == longest - k;
    }
  }

  lemma AbleStay(before: Players, after: Players, participants: map<Id, seq<Card>>, who: set<Id>, k: nat)
    requires who <= before.Keys && Gave(before, after, participants, who, k)
    ensures Able(before, who, k) <= after.Keys
  {
  }

  lemma RanksMoveOn(before: Players, after: Players, participants: map<Id, seq<Card>>, who: set<Id>, k: nat, c: nat)
    requires who <= before.Keys && Gave(before, after, participants, who, k)
    ensures SameRankAt(before, who, c + k) <==> SameRankAt(after, Able(before, who, k), c)
  {
    hide Eligible, FinalRank;
    var rest := Able(before, who, k);
    assert forall id :: id in rest ==> |after[id].cards| == |before[id].cards| - k;
    assert forall id :: id in rest && c < |after[id].cards| ==> after[id].cards[c] == before[id].cards[c + k];
    assert forall id :: id in who && c + k < |before[id].cards| ==> id in rest;
  }

  // After one comparison the question is the same for the hands that are left.
  lemma UndecidedMovesOn(before: Players, after: Players, participants: map<Id, seq<Card>>, who: set<Id>,
                         k: nat, first: nat, longest: nat)
    requires who <= before.Keys && Gave(before, after, participants, who, k)
    requires IsLongest(before, who, longest) && MovesOn(k, first, longest)
    ensures IsLongest(after, Able(before, who, k), longest - k)
    ensures NeverDecided(before, who, first, longest)
       <==> SameRankAt(before, who, k - 1) && NeverDecided(after, Able(before, who, k), 1, longest - k)
  {
    hide Gave, SameRankAt, Compared, IsLongest, TwoLast, Able;
    ComparedMovesOn(k, first, longest);
    AbleStay(before, after, participants, who, k);
    LongestMovesOn(before, after, participants, who, k, longest);
    forall c: nat
      ensures SameRankAt(before, who, c + k) <==> SameRankAt(after, Able(before, who, k), c)
    {
      RanksMoveOn(before, after, participants, who, k, c);
    }
    var rest := Able(before, who, k);
    if NeverDecided(before, who, first, longest) {
      assert Compared(k - 1, first, longest);
      forall c: nat | Compared(c, 1, longest - k)
        ensures SameRankAt(after, rest, c)
      {
        assert Compared(c + k, first, longest);
      }
    }
    if SameRankAt(before, who, k - 1) && NeverDecided(after, rest, 1, longest - k) {
      forall c: nat | Compared(c, first, longest)
        ensures SameRankAt(before, who, c)
      {
        if c >= k {
          assert SameRankAt(after, rest, c - k);
          assert c - k + k == c;
        }
      }
    }
  }

  // Those who showed the highest card, when all who showed one showed the same.
  lemma AllShowHighest(before: Players, after: Players, participants: map<Id, seq<Card>>, who: set<Id>, next: seq<Id>, k: nat)
    requires who <= before.Keys && Gave(before, after, participants, who, k) && SameRankAt(before, who, k - 1)
    requires forall id :: id in next <==> HoldsHighest(after, participants, id)
    ensures Ids(next) == Able(before, who, k)
  {
    hide FinalRank;
    forall id
      ensures id in next <==> id in Able(before, who, k)
    {
      if id in Able(before, who, k) {
        assert Eligible(after, participants, id);
      }
    }
  }

  // When two showed different ranks, the lower one stays in without going on.
  lemma SomeoneStays(before: Players, after: Players, participants: map<Id, seq<Card>>, who: set<Id>, next: seq<Id>, k: nat)
    returns (lower: Id)
    requires who <= before.Keys && Gave(before, after, participants, who, k) && !SameRankAt(before, who, k - 1)
    requires forall id :: id in next <==> HoldsHighest(after, participants, id)
    ensures lower in who && lower !in next && lower in after && !after[lower].eliminated
  {
    hide FinalRank;
    var x, y :| x in who && y in who && k - 1 < |before[x].cards| && k - 1 < |before[y].cards|
                && before[x].cards[k - 1].rank != before[y].cards[k - 1].rank;
    lower := if before[x].cards[k - 1].rank < before[y].cards[k - 1].rank then x else y;
    assert Eligible(after, participants, x) && Eligible(after, participants, y);
  }

  lemma LongestIsUnique(players: Players, who: set<Id>, m: nat, n: nat)
    requires who <= players.Keys && IsLongest(players, who, m) && IsLongest(players, who, n)
    ensures m == n
  {
  }

  lemma {:induction false} LongestHand(players: Players, who: set<Id>) returns (longest: nat)
    requires who <= players.Keys && who != {}
    ensures IsLongest(players, who, longest)
    decreases who
  {
    var id :| id in who;
    if who == {id} {
      longest := |players[id].cards|;
    } else {
      var others := who - {id};
      var n := LongestHand(players, others);
      var last :| last in others && |players[last].cards| == n;
      longest := if n < |players[id].cards| then |players[id].cards| else n;
      assert last in who;
    }
  }

  lemma WarUndecidedIs(players: Players, holders: seq<Id>, longest: nat)
    requires forall id :: id in holders ==> id in players
    requires IsLongest(players, Ids(holders), longest)
    requires (|holders| > 1 && Distinct(holders)) || !NoCards(players, holders)
    ensures WarUndecided(players, holders) <==> NeverDecided(players, Ids(holders), 1, longest)
  {
    hide SameRankAt;
    if NoCards(players, holders) {
      assert holders[0] in Ids(holders) && holders[1] in Ids(holders) && holders[0] != holders[1];
      assert forall id :: id in Ids(holders) ==> players[id].cards == [];
    } else if n :| IsLongest(players, Ids(holders), n) && NeverDecided(players, Ids(holders), 1, n) {
      LongestIsUnique(players, Ids(holders), n, longest);
    }
  }

  /** All who took part are out in the end if and only if no comparison, this one or a later one, sets anybody apart. */
  lemma AllOutExactlyWhen(before: Players, after: Players, final: Players, participants: map<Id, seq<Card>>, who: set<Id>,
                          next: seq<Id>, k: nat, first: nat, longest: nat)
    requires who <= before.Keys && Gave(before, after, participants, who, k)
    requires IsLongest(before, who, longest) && MovesOn(k, first, longest)
    requires next != [] && Distinct(next) && forall id :: id in next <==> HoldsHighest(after, participants, id)
    requires OnlyChanges(after, final, next) && forall id :: id in next ==> id in final
    requires |next| == 1 ==> !final[next[0]].eliminated
    requires |next| > 1 ==> (AllOut(final, next) <==> WarUndecided(after, next))
    ensures (forall id :: id in who ==> id in final && final[id].eliminated) <==> NeverDecided(before, who, first, longest)
  {
    hide SameRankAt, IsLongest, HoldsHighest, Eligible, WarUndecided, NeverDecided;
    UndecidedMovesOn(before, after, participants, who, k, first, longest);
    var rest := Able(before, who, k);
    if SameRankAt(before, who, k - 1) {
      AllShowHighest(before, after, participants, who, next, k);
      assert forall id :: id in who && id !in rest ==> final[id].eliminated;
      assert next[0] in rest;
      if |next| == 1 {
        assert !TwoLast(after, rest, longest - k) by {
          assert forall id :: id in rest ==> id in next;
        }
        NotTwoDecides(after, rest, 1, longest - k);
      } else {
        WarUndecidedIs(after, next, longest - k);
        assert forall id :: id in rest <==> id in next;
      }
    } else {
      var lower := SomeoneStays(before, after, participants, who, next, k);
      assert final[lower] == after[lower];
    }
  }

  // A complete war when somebody has two cards; otherwise a limited one among hands of one card and none.
  ghost predicate WarOf(before: Players, holders: seq<Id>, given: nat)
    requires forall id :: id in holders ==> id in before
  {
    && (exists id :: id in holders && |before[id].cards| >= given)
    && (given == CARDS_NEEDED_FOR_WAR || (given == 1 && forall id :: id in holders ==> |before[id].cards| <= 1))
  }

  lemma NoCardsUndecided(players: Players, holders: seq<Id>)
    requires NoCards(players, holders) && forall id :: id in holders ==> id in players
    ensures WarUndecided(players, holders)
  {
  }

  lemma WarAllOutExactlyWhen(before: Players, after: Players, final: Players, participants: map<Id, seq<Card>>,
                             holders: seq<Id>, next: seq<Id>, given: nat)
    requires Holders(before, holders) && WarOf(before, holders, given)
    requires Gave(before, after, participants, Ids(holders), given)
    requires next != [] && Distinct(next) && forall id :: id in next <==> HoldsHighest(after, participants, id)
    requires OnlyChanges(after, final, next) && forall id :: id in next ==> id in final
    requires |next| == 1 ==> !final[next[0]].eliminated
    requires |next| > 1 ==> (AllOut(final, next) <==> WarUndecided(after, next))
    ensures AllOut(final, holders) <==> WarUndecided(before, holders)
  {
    hide Gave, HoldsHighest, WarUndecided, NeverDecided, Distinct, OnlyChanges;
    assert holders[0] in Ids(holders);
    var longest := LongestHand(before, Ids(holders));
    AllOutExactlyWhen(before, after, final, participants, Ids(holders), next, given, 1, longest);
    WarUndecidedIs(before, holders, longest);
    assert AllOut(final, holders) <==> forall id :: id in Ids(holders) ==> id in final && final[id].eliminated;
  }

  lemma PlacedGave(before: Players, players: Players, roundCards: map<Id, seq<Card>>, order: seq<Id>)
    requires Stepped(before, players, roundCards, order, PlaceStep) && forall id :: id in before ==> id in order
    ensures Gave(before, players, roundCards, Playing(before), 1)
    ensures forall id :: id in players && id !in Playing(before) ==> players[id].eliminated
  {
  }

  /** After a round somebody is in unless its hands are ones for which it never ends. */
  lemma RoundEndsExactlyWhen(before: Players, placed: Players, final: Players, roundCards: map<Id, seq<Card>>, holders: seq<Id>)
    requires Gave(before, placed, roundCards, Playing(before), 1)
    requires forall id :: id in placed && id !in Playing(before) ==> placed[id].eliminated
    requires holders != [] && Distinct(holders) && forall id :: id in holders <==> HoldsHighest(placed, roundCards, id)
    requires OnlyChanges(placed, final, holders) && forall id :: id in holders ==> id in final
    requires |holders| == 1 ==> !final[holders[0]].eliminated
    requires |holders| > 1 ==> (AllOut(final, holders) <==> WarUndecided(placed, holders))
    ensures SomebodyIn(final) <==> !NeverEnds(before)
  {
    hide WarUndecided, NeverDecided, Distinct, IsLongest;
    var who := Playing(before);
    assert holders[0] in who;
    var longest := LongestHand(before, who);
    assert longest > 0 by {
      SomeCards(before, holders[0], longest);
    }
    AllOutExactlyWhen(before, placed, final, roundCards, who, holders, 1, 0, longest);
    if n :| IsLongest(before, who, n) && NeverDecided(before, who, 0, n) {
      LongestIsUnique(before, who, n, longest);
    }
    assert forall id :: id in holders ==> id in who;
    assert forall id :: id in final && id !in who ==> final[id].eliminated;
  }

  lemma SomeCards(players: Players, id: Id, longest: nat)
    requires id in Playing(players) && IsLongest(players, Playing(players), longest)
    ensures longest > 0
  {
  }

  /** Two players with one card each of the same rank never end their round. */
  lemma TwoEqualCards(a: Id, b: Id, c: Card, d: Card)
    requires a != b && c.rank == d.rank
    ensures NeverEnds(map[a := Player([c], false, None), b := Player([d], false, None)])
  {
    var players := map[a := Player([c], false, None), b := Player([d], false, None)];
    assert a in Playing(players) && b in Playing(players);
    assert |players[a].cards| == |players[b].cards| == 1;
    assert IsLongest(players, Playing(players), 1);
  }

  lemma NotTwoDecides(players: Players, who: set<Id>, first: nat, longest: nat)
    requires who <= players.Keys && !TwoLast(players, who, longest)
    ensures !NeverDecided(players, who, first, longest)
  {
    hide TwoLast;
  }
  lemma PlacedHavePlayed(players: Players, roundCards: map<Id, seq<Card>>, holders: seq<Id>)
    requires forall id :: id in roundCards ==> id in players && players[id].lastPlayedCard.Some?
    requires forall id :: id in holders <==> HoldsHighest(players, roundCards, id)
    ensures HavePlayed(players, holders)
  {
    assert forall id :: id in holders ==> Eligible(players, roundCards, id);
  }

  // The players still in, in order.
  function InOf(order: seq<Id>, players: Players): seq<Id>
    requires forall id :: id in order ==> id in players
  {
    if order == [] then []
    else
      var last := order[|order| - 1];
      InOf(order[..|order| - 1], players) + if players[last].eliminated then [] else [last]
  }

  lemma InOfStep(order: seq<Id>, players: Players, i: nat)
    requires (forall id :: id in order ==> id in players) && i < |order|
    ensures InOf(order[..i + 1], players) == InOf(order[..i], players) + if players[order[i]].eliminated then [] else [order[i]]
  {
    assert order[..i + 1][..i] == order[..i];
  }

  lemma {:induction false} InOfGrows(order: seq<Id>, players: Players, i: nat)
    requires (forall id :: id in order ==> id in players) && i <= |order|
    ensures |InOf(order[..i], players)| <= |InOf(order, players)|
    decreases |order|
  {
    if i < |order| {
      var n := |order| - 1;
      assert order[..n][..i] == order[..i];
      InOfGrows(order[..n], players, i);
    } else {
      assert order[..i] == order;
    }
  }

  /** InOf lists the players still in, in the order they sit. */
  lemma {:induction false} InOfExactly(order: seq<Id>, players: Players)
    requires forall id :: id in order ==> id in players
    ensures forall id :: id in InOf(order, players) <==> id in order && !players[id].eliminated
    decreases |order|
  {
    if order != [] {
      var n := |order| - 1;
      InOfExactly(order[..n], players);
      assert order == order[..n] + [order[n]];
    }
  }

  lemma {:induction false} InOfInOrder(order: seq<Id>, players: Players, i: nat, j: nat)
    requires Distinct(order) && (forall id :: id in order ==> id in players) && i < j < |order|
    requires !players[order[i]].eliminated && !players[order[j]].eliminated
    ensures Distinct(InOf(order, players))
    ensures exists k, l :: 0 <= k < l < |InOf(order, players)| && InOf(order, players)[k] == order[i]
                           && InOf(order, players)[l] == order[j]
  {
    hide Distinct, InOf;
    InOfDistinct(order, players);
    var before, ids := InOf(order[..j], players), InOf(order, players);
    InOfExactly(order[..j], players);
    assert order[..j][i] in before;
    var k :| 0 <= k < |before| && before[k] == order[i];
    InOfStep(order, players, j);
    InOfPrefix(order, players, j + 1);
    assert before + [order[j]] <= ids;
    assert ids[k] == (before + [order[j]])[k] && ids[|before|] == (before + [order[j]])[|before|];
  }

  lemma {:induction false} InOfDistinct(order: seq<Id>, players: Players)
    requires Distinct(order) && forall id :: id in order ==> id in players
    ensures Distinct(InOf(order, players))
    decreases |order|
  {
    if order != [] {
      InOfDistinct(order[..|order| - 1], players);
      InOfExactly(order[..|order| - 1], players);
    }
  }

  lemma {:induction false} SameInOf(order: seq<Id>, before: Players, players: Players)
    requires SameStanding(before, players) && forall id :: id in order ==> id in before
    ensures InOf(order, players) == InOf(order, before)
    decreases |order|
  {
    if order != [] {
      SameInOf(order[..|order| - 1], before, players);
      assert order[|order| - 1] in order;
    }
  }

  // The next player at the table is the next one still in, unless out.
  lemma {:induction false} NextIn(order: seq<Id>, players: Players, i: nat)
    requires Lists(order, players) && i < |order|
    ensures var n := |InOf(order[..i], players)|;
            if players[order[i]].eliminated then |InOf(order[..i + 1], players)| == n
            else && |InOf(order[..i + 1], players)| == n + 1 && n < |InOf(order, players)|
                 && InOf(order, players)[n] == order[i] && Distinct(InOf(order, players))
    ensures |InOf(order[..i + 1], players)| <= |InOf(order, players)|
  {
    InOfStep(order, players, i);
    InOfPrefix(order, players, i + 1);
    InOfDistinct(order, players);
  }

  lemma {:induction false} InOfPrefix(order: seq<Id>, players: Players, i: nat)
    requires (forall id :: id in order ==> id in players) && i <= |order|
    ensures InOf(order[..i], players) <= InOf(order, players)
    decreases |order|
  {
    if i < |order| {
      var n := |order| - 1;
      assert order[..n][..i] == order[..i];
      InOfPrefix(order[..n], players, i);
    } else {
      assert order[..i] == order;
    }
  }

  lemma SomebodyListed(order: seq<Id>, players: Players)
    requires Lists(order, players) && exists k :: 0 <= k < |order| && !players[order[k]].eliminated
    ensures InOf(order, players) != [] && Distinct(InOf(order, players))
    ensures forall id :: id in InOf(order, players) ==> id in players
  {
    InOfExactly(order, players);
    InOfDistinct(order, players);
    var k :| 0 <= k < |order| && !players[order[k]].eliminated;
    assert order[k] in InOf(order, players);
  }

  // ----- Who gets which card

  // The number of the card that comes to the k-th of n players in turn i.
  function CardNumber(k: nat, n: nat, i: nat): nat {
    k + i * n
  }

  // What a hand has got: the cards k, k + n, k + 2n and so on of the stock, in that order, and no other.
  ghost predicate EveryNth(hand: seq<Card>, hand': seq<Card>, stock: seq<Card>, k: nat, n: nat) {
    && hand <= hand'
    && (forall i: nat :: CardNumber(k, n, i) < |stock| <==> |hand| + i < |hand'|)
    && forall i: nat :: CardNumber(k, n, i) < |stock| ==> hand'[|hand| + i] == stock[CardNumber(k, n, i)]
  }

  // The k-th of the players has got every n-th card from the k-th on; nothing else has happened.
  ghost predicate DealtInTurn(before: Players, after: Players, ids: seq<Id>, stock: seq<Card>) {
    && OnlyChanges(before, after, ids)
    && forall k :: 0 <= k < |ids| ==>
         && ids[k] in before && after[ids[k]] == before[ids[k]].(cards := after[ids[k]].cards)
         && EveryNth(before[ids[k]].cards, after[ids[k]].cards, stock, k, |ids|)
  }

  // The k-th of the players has got card k; nothing else has happened.
  ghost predicate OneEach(before: Players, after: Players, ids: seq<Id>, stock: seq<Card>) {
    && OnlyChanges(before, after, ids)
    && forall k :: 0 <= k < |ids| ==>
         && ids[k] in before
         && after[ids[k]] == if k < |stock| then before[ids[k]].(cards := before[ids[k]].cards + [stock[k]])
                             else before[ids[k]]
  }

  lemma NobodyYet(order: seq<Id>, players: Players, stock: seq<Card>)
    requires Lists(order, players)
    ensures InOf(order[..0], players) == [] && OneEach(players, players, InOf(order, players), stock[..0])
  {
    InOfExactly(order, players);
  }

  lemma OneMore(before: Players, players: Players, ids: seq<Id>, stock: seq<Card>, n: nat)
    requires Distinct(ids) && n < |ids| && n < |stock| && OneEach(before, players, ids, stock[..n])
    ensures OneEach(before, players[ids[n] := players[ids[n]].(cards := players[ids[n]].cards + [stock[n]])], ids,
                    stock[..n + 1])
  {
    assert forall k :: 0 <= k < n ==> stock[..n][k] == stock[..n + 1][k];
  }

  lemma OneEachOf(before: Players, players: Players, ids: seq<Id>, stock: seq<Card>)
    requires |ids| <= |stock| && OneEach(before, players, ids, stock[..|ids|])
    ensures OneEach(before, players, ids, stock)
  {
    assert forall k :: 0 <= k < |ids| ==> stock[..|ids|][k] == stock[k];
  }

  // The cards whose number leaves k when divided by n.
  function Nth(stock: seq<Card>, k: nat, n: nat): seq<Card>
    requires k < n
  {
    if stock == [] then []
    else
      var m := |stock| - 1;
      Nth(stock[..m], k, n) + if m % n == k then [stock[m]] else []
  }

  ghost predicate Dealt(before: Players, after: Players, ids: seq<Id>, stock: seq<Card>) {
    && OnlyChanges(before, after, ids)
    && forall k :: 0 <= k < |ids| ==>
         && ids[k] in before
         && after[ids[k]] == before[ids[k]].(cards := before[ids[k]].cards + Nth(stock, k, |ids|))
  }

  lemma NothingDealt(players: Players, ids: seq<Id>, stock: seq<Card>)
    requires forall id :: id in ids ==> id in players
    ensures Dealt(players, players, ids, stock[..0])
  {
    forall k | 0 <= k < |ids|
      ensures players[ids[k]].cards + Nth(stock[..0], k, |ids|) == players[ids[k]].cards
    {
    }
  }

  lemma NextTurn(dealt: nat, n: nat)
    requires n > 0 && dealt % n == 0
    ensures (dealt + n) % n == 0
  {
    var q := dealt / n;
    assert dealt == n * q + dealt % n;
    assert dealt + n == (q + 1) * n + 0;
    Remainder(q + 1, n, 0);
  }

  lemma WithinTurn(dealt: nat, n: nat, r: nat)
    requires r < n && dealt % n == 0
    ensures (dealt + r) % n == r
  {
    var q := dealt / n;
    assert dealt == n * q + dealt % n;
    assert dealt + r == q * n + r;
    Remainder(q, n, r);
  }

  lemma NthSnoc(stock: seq<Card>, m: nat, k: nat, n: nat)
    requires k < n && m < |stock|
    ensures Nth(stock[..m + 1], k, n) == Nth(stock[..m], k, n) + if m % n == k then [stock[m]] else []
  {
    assert stock[..m + 1][..m] == stock[..m];
  }

  // In one turn, a player gets the card that waits for them, if it is there.
  lemma {:induction false} NthTurn(stock: seq<Card>, k: nat, n: nat, dealt: nat, j: nat)
    requires k < n && j <= n && dealt + j <= |stock| && dealt % n == 0
    ensures Nth(stock[..dealt + j], k, n) == Nth(stock[..dealt], k, n) + if k < j then [stock[dealt + k]] else []
    decreases j
  {
    hide Nth;
    if j > 0 {
      NthTurn(stock, k, n, dealt, j - 1);
      WithinTurn(dealt, n, j - 1);
      NthSnoc(stock, dealt + (j - 1), k, n);
    }
  }

  lemma Remainder(q: nat, n: nat, r: nat)
    requires r < n
    ensures (q * n + r) % n == r && (q * n + r) / n == q
  {
    var m := q * n + r;
    var d := m / n - q;
    assert d * n == r - m % n;
    assert d >= 1 ==> d * n >= n;
    assert d <= -1 ==> (-d) * n >= n;
  }

  lemma DealtAround(before: Players, players: Players, players': Players, ids: seq<Id>, stock: seq<Card>, dealt: nat)
    requires dealt <= |stock| && (ids != [] ==> dealt % |ids| == 0) && Dealt(before, players, ids, stock[..dealt])
    requires OneEach(players, players', ids, stock[dealt..])
    ensures Dealt(before, players', ids, stock[..if dealt + |ids| <= |stock| then dealt + |ids| else |stock|])
  {
    hide Nth;
    var n := |ids|;
    var end := if dealt + n <= |stock| then dealt + n else |stock|;
    forall k | 0 <= k < n
      ensures players'[ids[k]] == before[ids[k]].(cards := before[ids[k]].cards + Nth(stock[..end], k, n))
    {
      NthTurn(stock, k, n, dealt, end - dealt);
      var hand, sofar := before[ids[k]].cards, Nth(stock[..dealt], k, n);
      if k < end - dealt {
        assert hand + sofar + [stock[dealt + k]] == hand + (sofar + [stock[dealt + k]]);
      }
    }
  }

  lemma TurnOf(m: nat, n: nat, k: nat)
    requires k < n && m % n == k
    ensures CardNumber(k, n, m / n) == m
    ensures m / n > 0 ==> CardNumber(k, n, m / n - 1) < m
  {
    var q := m / n;
    assert m == q * n + k;
    if q > 0 {
      assert q * n == (q - 1) * n + n;
    }
  }

  lemma NotTurn(m: nat, n: nat, k: nat, i: nat)
    requires k < n && m % n != k
    ensures CardNumber(k, n, i) != m
  {
    Remainder(i, n, k);
  }

  lemma {:induction false} NthExactly(stock: seq<Card>, k: nat, n: nat, i: nat)
    requires k < n
    ensures CardNumber(k, n, i) < |stock| <==> i < |Nth(stock, k, n)|
    ensures CardNumber(k, n, i) < |stock| ==> Nth(stock, k, n)[i] == stock[CardNumber(k, n, i)]
    decreases |stock|
  {
    hide CardNumber;
    if stock == [] {
      return;
    }
    var m := |stock| - 1;
    NthExactly(stock[..m], k, n, i);
    if m % n == k {
      var q := m / n;
      TurnOf(m, n, k);
      NthExactly(stock[..m], k, n, q);
      if q > 0 {
        NthExactly(stock[..m], k, n, q - 1);
      }
      if i > q {
        Ahead(k, n, i, q);
      }
    } else {
      NotTurn(m, n, k, i);
    }
  }

  lemma {:induction false} Ahead(k: nat, n: nat, i: nat, q: nat)
    requires n > 0 && i > q
    ensures CardNumber(k, n, i) > CardNumber(k, n, q)
    decreases i
  {
    assert i * n == (i - 1) * n + n;
    if i - 1 > q {
      Ahead(k, n, i - 1, q);
    }
  }

  lemma DealtAll(before: Players, after: Players, ids: seq<Id>, stock: seq<Card>)
    requires Dealt(before, after, ids, stock[..|stock|])
    ensures DealtInTurn(before, after, ids, stock)
  {
    hide Nth, CardNumber;
    assert stock[..|stock|] == stock;
    forall k | 0 <= k < |ids|
      ensures EveryNth(before[ids[k]].cards, after[ids[k]].cards, stock, k, |ids|)
    {
      forall i: nat
        ensures CardNumber(k, |ids|, i) < |stock| <==> i < |Nth(stock, k, |ids|)|
        ensures CardNumber(k, |ids|, i) < |stock| ==> Nth(stock, k, |ids|)[i] == stock[CardNumber(k, |ids|, i)]
      {
        NthExactly(stock, k, |ids|, i);
      }
    }
  }

  // Nobody has gone out or come back in.
  ghost predicate SameStanding(before: Players, after: Players) {
    before.Keys == after.Keys && forall id :: id in before ==> after[id].eliminated == before[id].eliminated
  }

  datatype WarResult = Won(winner: Id) | Draw(ids: seq<Id>)

  ghost predicate HavePlayed(players: Players, ids: seq<Id>) {
    forall id :: id in ids ==> id in players && players[id].lastPlayedCard.Some?
  }

  ghost predicate NoCards(players: Players, ids: seq<Id>) {
    forall id :: id in ids && id in players ==> players[id].cards == []
  }

  ghost predicate SomebodyIn(players: Players) {
    exists id :: id in players && !players[id].eliminated
  }

  predicate CanPlay(players: Players, id: Id) {
    id in players && !players[id].eliminated && players[id].cards != []
  }

  ghost function Playing(players: Players): set<Id> {
    set id | id in players && CanPlay(players, id)
  }

  ghost function Ids(holders: seq<Id>): set<Id> {
    set id | id in holders
  }

  // The cards at place c of the hands are compared: with one card between two comparisons from the first one on, but
  // the last card of the longest hand always.
  ghost predicate Compared(c: nat, first: nat, longest: nat) {
    c < longest && (c % 2 == first || c == longest - 1)
  }

  ghost predicate SameRankAt(players: Players, who: set<Id>, c: nat)
    requires who <= players.Keys
  {
    forall x, y :: x in who && y in who && c < |players[x].cards| && c < |players[y].cards| ==>
      players[x].cards[c].rank == players[y].cards[c].rank
  }

  ghost predicate IsLongest(players: Players, who: set<Id>, longest: nat)
    requires who <= players.Keys
  {
    && (forall id :: id in who ==> |players[id].cards| <= longest)
    && exists id :: id in who && |players[id].cards| == longest
  }

  // At least two players have the longest hand.
  ghost predicate TwoLast(players: Players, who: set<Id>, longest: nat)
    requires who <= players.Keys
  {
    exists a, b :: a in who && b in who && a != b && |players[a].cards| == |players[b].cards| == longest
  }

  // Two players at least get to the last comparison, and no comparison sets anybody apart.
  ghost predicate NeverDecided(players: Players, who: set<Id>, first: nat, longest: nat)
    requires who <= players.Keys
  {
    TwoLast(players, who, longest) && forall c: nat :: Compared(c, first, longest) ==> SameRankAt(players, who, c)
  }

  /** The round goes on for ever: among the players with cards two at least have the longest hand, and at every place
      of it where cards are compared, 0, 2, 4 and so on and its last one, all hands that long show the same rank. */
  ghost predicate NeverEnds(players: Players) {
    exists longest :: IsLongest(players, Playing(players), longest) && NeverDecided(players, Playing(players), 0, longest)
  }

  // Likewise for a war, which has one card between comparisons from the start; with no cards left it ends in a draw.
  ghost predicate WarUndecided(players: Players, holders: seq<Id>)
    requires forall id :: id in holders ==> id in players
  {
    NoCards(players, holders)
    || exists longest :: IsLongest(players, Ids(holders), longest) && NeverDecided(players, Ids(holders), 1, longest)
  }

  ghost predicate AllOut(players: Players, ids: seq<Id>) {
    forall id :: id in ids ==> id in players && players[id].eliminated
  }

  lemma ListsAll(order: seq<Id>, players: Players)
    requires Lists(order, players)
    ensures forall id :: id in order <==> id in players
  {
  }

  lemma TakenChanges(before: Players, players: Players, participants: map<Id, seq<Card>>, holders: seq<Id>)
    requires WarTaken(before, players, participants, holders)
    ensures OnlyChanges(before, players, holders) && HavePlayed(players, holders)
    ensures forall id :: id in participants ==> id in players && (!players[id].eliminated ==> participants[id] != [])
  {
  }

  lemma ChangesCompose(before: Players, after: Players, ids: seq<Id>)
    requires OnlyChanges(before, after, ids)
    ensures before.Keys == after.Keys
  {
  }

  // What a finished step of a war means for its holders.
  ghost predicate WarTaken(before: Players, players: Players, participants: map<Id, seq<Card>>, holders: seq<Id>) {
    && OnlyChanges(before, players, holders) && HavePlayed(players, holders)
    && (forall id :: id in participants ==> id in holders && id in players)
    && forall id :: id in participants && !players[id].eliminated ==> participants[id] != []
  }

  lemma AfterWar(before: Players, players: Players, participants: map<Id, seq<Card>>, holders: seq<Id>)
    requires Holders(before, holders) && HavePlayed(before, holders)
    requires Stepped(before, players, participants, holders, WarStep)
    ensures WarTaken(before, players, participants, holders)
    ensures forall id :: id in holders && |before[id].cards| >= CARDS_NEEDED_FOR_WAR ==> Eligible(players, participants, id)
    ensures Gave(before, players, participants, Ids(holders), CARDS_NEEDED_FOR_WAR)
  {
    hide Distinct;
  }

  lemma AfterLimitedWar(before: Players, players: Players, participants: map<Id, seq<Card>>, holders: seq<Id>)
    requires Holders(before, holders) && HavePlayed(before, holders)
    requires Stepped(before, players, participants, holders, LimitedStep)
    ensures WarTaken(before, players, participants, holders)
    ensures forall id :: id in holders && before[id].cards != [] ==> Eligible(players, participants, id)
    ensures forall id :: id in holders && before[id].cards == [] ==> id in players && players[id].eliminated
    ensures Gave(before, players, participants, Ids(holders), 1)
  {
    hide Distinct;
  }

  // The cards of a war came out of hands.
  lemma FewerCards(before: multiset<Card>, after: multiset<Card>, prize: seq<Card>, more: seq<Card>)
    requires after + multiset(more) == before + multiset(prize) && |more| > |prize|
    ensures |after| < |before|
  {
    assert |after + multiset(more)| == |after| + |multiset(more)|;
    assert |before + multiset(prize)| == |before| + |multiset(prize)|;
    CountOfSeq(more);
    CountOfSeq(prize);
  }

  lemma {:induction false} CountOfSeq(cards: seq<Card>)
    ensures |multiset(cards)| == |cards|
  {
    if cards != [] {
      assert cards == [cards[0]] + cards[1..];
      assert multiset(cards) == multiset{cards[0]} + multiset(cards[1..]);
      CountOfSeq(cards[1..]);
    }
  }

  // The next holders are among the last ones.
  lemma Narrowed(before: Players, players: Players, participants: map<Id, seq<Card>>, holders: seq<Id>, next: seq<Id>)
    requires WarTaken(before, players, participants, holders)
    requires forall id :: id in next <==> HoldsHighest(players, participants, id)
    ensures forall id :: id in next ==> id in holders
    ensures HavePlayed(players, next)
  {
    assert forall id :: id in next ==> Eligible(players, participants, id);
  }

  // Adding cards to the hand of a player who is (back) in.
  lemma GiveCards(order: seq<Id>, players: Players, id: Id, cards: seq<Card>, out: bool)
    requires Lists(order, players) && OutHoldNothing(players) && id in players && !out
    ensures var players' := players[id := players[id].(cards := players[id].cards + cards, eliminated := out)];
            && Lists(order, players') && OutHoldNothing(players')
            && Hands(order, players') == Hands(order, players) + multiset(cards)
  {
    hide Hands;
    var p := players[id].(cards := players[id].cards + cards, eliminated := out);
    HandsUpdated(order, players, id, p);
    assert multiset(players[id].cards + cards) == multiset(players[id].cards) + multiset(cards);
    CancelLeft(Hands(order, players[id := p]), Hands(order, players), multiset(players[id].cards), multiset(cards));
  }

  lemma CancelLeft(a: multiset<Card>, b: multiset<Card>, c: multiset<Card>, d: multiset<Card>)
    requires a + c == b + (c + d)
    ensures a == b + d
  {
    forall x
      ensures a[x] == (b + d)[x]
    {
      assert (a + c)[x] == (b + (c + d))[x];
    }
  }

  lemma HolderOnce(holders: seq<Id>, players: Players, i: nat)
    requires Holders(players, holders) && i < |holders|
    ensures holders[i] in players && !players[holders[i]].eliminated
    ensures holders[i] !in holders[..i] && holders[..i + 1] == holders[..i] + [holders[i]]
  {
  }

  lemma NobodyStepped(players: Players, step: Player -> Step)
    ensures Stepped(players, players, map[], [], step)
  {
  }

  lemma ListedOnce(order: seq<Id>, players: Players, i: nat)
    requires Lists(order, players) && i < |order|
    ensures order[i] in players && order[i] !in order[..i] && order[..i + 1] == order[..i] + [order[i]]
  {
  }
}
