/** The Game component: its state hooks become the fields of a class and its
    handlers methods that update them. Each method is proved to perform the
    matching transition of module Rules. */
module Game {
  import opened Cards
  import opened GameUtils
  import Rules

  class Game {
    var players: seq<Player>
    var turn: int
    var stack: seq<Card>
    var hand: Hand
    var selected: seq<Card>
    var winner: int

    /** The component's state as a value. */
    function State(): Rules.GameState
      reads this
    {
      Rules.GameState(players, turn, stack, hand, selected, winner)
    }

    predicate Valid()
      reads this
    {
      Rules.Valid(State())
    }

    /** The initial state: the dealt seats, the turn with the seat holding an
        Ace of Spades, an empty pile and claim, no selection and no winner.
        keys are the shuffle's sort keys and draws the random numbers behind
        the seats' bluff probabilities. */
    constructor (decks: nat, keys: seq<int>, draws: seq<real>)
      requires |keys| == 52 * decks
      requires |draws| == 4 && forall i :: 0 <= i < 4 ==> 0.0 <= draws[i] < 1.0
      ensures Valid()
      ensures forall i :: 0 <= i < 4 ==> players[i].cards == SeatShare(Shuffle(Deck(decks), keys), i)
                                          && players[i].state == Play
      ensures turn == -1 <==> forall i :: 0 <= i < 4 ==> !HasAceOfSpades(players[i].cards)
      ensures turn >= 0 ==> forall i :: 0 <= i < turn ==> !HasAceOfSpades(players[i].cards)
      ensures decks >= 1 ==> 0 <= turn < 4 && HasAceOfSpades(players[turn].cards)
      ensures State() == Rules.Initial(players, turn)
      ensures Rules.InPlay(State()) == multiset(Deck(decks)) && Rules.Unique(State())
    {
      var ps := CreatePlayers(decks, keys, draws);
      var start := FindStart(ps);
      players := ps;
      turn := start;
      stack := [];
      hand := StartHand;
      selected := [];
      winner := -1;
      new;
      assert State() == Rules.Initial(ps, start);
      Rules.InitialDeal(decks, keys, ps, start);
      if decks >= 1 {
        AceOfSpadesDealt(decks, keys, ps);
      }
    }

    method NextTurn()
      requires Valid()
      modifies this
      ensures Valid()
      ensures State() == Rules.NextTurn(old(State()))
    {
      turn := (turn + 1) % 4;
    }

    method StartNewHand()
      requires Valid()
      modifies this
      ensures Valid()
      ensures State() == Rules.StartNewHand(old(State()))
    {
      players := Rules.AllPlay(players);
      stack := [];
      turn := hand.lastTurn;
      hand := hand.(rank := None, cards := []);
    }

    method PassCurrentTurn()
      requires Valid() && 0 <= turn < 4
      modifies this
      ensures Valid()
      ensures State() == Rules.PassCurrentTurn(old(State()))
    {
      players := players[turn := players[turn].(state := Pass)];
    }

    /** Lays `c` from the seat to move as the new claim. */
    method Lay(c: Choice)
      requires Valid() && 0 <= turn < 4 && c.cards != [] && c.rank.Some?
      modifies this
      ensures Valid()
      ensures State() == Rules.Lay(old(State()), c)
    {
      players := players[turn := players[turn].(cards := Rules.Without(players[turn].cards, c.cards))];
      stack := stack + hand.cards;
      hand := Hand(c.rank, c.cards, turn);
    }

    method PlayCPU(d: Rules.Draws)
      requires Valid() && 0 <= turn < 4 && Rules.Fits(d, players[turn].cards, hand)
      modifies this
      ensures Valid()
      ensures State() == Rules.PlayCPU(old(State()), d)
    {
      var choice := Rules.CpuChoice(players[turn].cards, hand, d);
      if choice.cards == [] {
        PassCurrentTurn();
      } else {
        Lay(choice);
      }
    }

    method PlayTurn(d: Rules.Draws)
      requires Valid() && 0 <= turn < 4 && Rules.PlayEnabled(State()) && Rules.CpuReady(State(), d)
      modifies this
      ensures Valid()
      ensures State() == Rules.PlayTurn(old(State()), d)
    {
      if players[turn].state == Pass {
        NextTurn();
        return;
      }
      if turn == 0 {
        Lay(Rules.HumanChoice(State()));
        NextTurn();
      } else if Rules.ShouldReveal(State(), d) {
        Reveal();
      } else {
        PlayCPU(d);
        NextTurn();
      }
    }

    method Reveal()
      requires Valid() && 0 <= turn < 4
      modifies this
      ensures Valid()
      ensures State() == Rules.Reveal(old(State()))
    {
      var pile := stack + hand.cards;
      var ps := Rules.AllPlay(players);
      if Rules.Truthful(hand) {
        players := ps[turn := ps[turn].(cards := ps[turn].cards + pile)];
        turn := hand.lastTurn;
      } else {
        players := ps[hand.lastTurn := ps[hand.lastTurn].(cards := ps[hand.lastTurn].cards + pile)];
      }
      hand := hand.(rank := None, cards := []);
      stack := [];
      selected := [];
    }

    method PassTurn()
      requires Valid() && 0 <= turn < 4
      modifies this
      ensures Valid()
      ensures State() == Rules.PassTurn(old(State()))
    {
      PassCurrentTurn();
      NextTurn();
    }

    method Reset()
      requires Valid()
      modifies this
      ensures Valid()
      ensures State() == old(State()).(selected := [])
    {
      selected := [];
    }

    method AddToSelected(index: nat)
      requires Valid() && index < |players[0].cards|
      modifies this
      ensures Valid()
      ensures State() == Rules.AddToSelected(old(State()), index)
    {
      var card := players[0].cards[index];
      selected := Rules.Toggle(selected, card);
    }

    method CheckWinner()
      requires Valid()
      modifies this
      ensures Valid()
      ensures State() == Rules.CheckWinner(old(State()))
    {
      if Rules.SomeEmpty(players) {
        winner := hand.lastTurn;
      }
    }

    /** The effect that runs after a render in which the turn changed. */
    method Effect()
      requires Valid()
      modifies this
      ensures Valid()
      ensures State() == Rules.Effect(old(State()))
    {
      if Rules.AllPass(players) {
        var before := turn;
        StartNewHand();
        if turn != before {
          CheckWinner();
        }
      } else {
        CheckWinner();
      }
    }

    /** One user action: its handler, then the effect when the turn changed. */
    method Act(a: Rules.Action, d: Rules.Draws)
      requires Valid() && Rules.Enabled(State(), a, d)
      modifies this
      ensures Valid()
      ensures State() == Rules.Step(old(State()), a, d)
    {
      var before := turn;
      match a {
        case PlayTurnAction => PlayTurn(d);
        case RevealAction => Reveal();
        case PassAction => PassTurn();
        case ResetAction => Reset();
        case SelectAction(i) => AddToSelected(i);
      }
      if turn != before {
        Effect();
      }
    }
  }
}
