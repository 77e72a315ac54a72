/** The game's state transitions as functions on a snapshot of the component's
    state. The class in module Game performs them field by field and is
    proved against these functions; the lemmas here state what the
    transitions preserve. */
module Rules {
  import opened Cards
  import opened GameUtils

  /** The component's state: the four seats, whose turn it is, the face-down
      pile under the active claim, the active claim, the human player's
      selected cards and the winning seat (-1 while there is none). */
  datatype GameState = GameState(players: seq<Player>, turn: int, stack: seq<Card>, hand: Hand,
                                 selected: seq<Card>, winner: int)

  /** The random outcomes behind one move: whether the computer bluffs, how
      many cards a bluff takes (pick), which of them names the claim
      (cardIndex), whether a first claim names a random rank (randomKey) and
      which (keyIndex), how many cards an honest follow-up plays (size), and
      whether the computer challenges (challenge). */
  datatype Draws = Draws(lie: bool, pick: nat, cardIndex: nat, randomKey: bool, keyIndex: nat,
                         size: nat, challenge: bool)

  /** What the user can do: the four buttons and a click on a card. */
  datatype Action = PlayTurnAction | RevealAction | PassAction | ResetAction | SelectAction(index: nat)

  /** The shape every reachable state has. */
  predicate Valid(s: GameState)
  {
    && |s.players| == 4
    && -1 <= s.turn < 4
    && -1 <= s.hand.lastTurn < 4
    && -1 <= s.winner < 4
    && (s.hand.cards == [] <==> s.hand.rank == None)
    && (s.hand.cards != [] ==> 0 <= s.hand.lastTurn)
    && (s.stack != [] ==> s.hand.cards != [])
    && (0 <= s.winner ==> 0 <= s.hand.lastTurn)
  }

  // ---------------------------------------------------------------------------
  // Counting the cards in play

  /** The cards held by the four seats. */
  function Seats(ps: seq<Player>): multiset<Card>
    requires |ps| == 4
  {
    multiset(ps[0].cards) + multiset(ps[1].cards) + multiset(ps[2].cards) + multiset(ps[3].cards)
  }

  /** Every card in play: the seats' hands, the pile and the active claim. */
  function InPlay(s: GameState): multiset<Card>
    requires |s.players| == 4
  {
    Seats(s.players) + multiset(s.stack) + multiset(s.hand.cards)
  }

  /** No card is in play twice. */
  predicate Unique(s: GameState)
    requires |s.players| == 4
  {
    forall c | c in InPlay(s) :: InPlay(s)[c] <= 1
  }

  /** The human's selection is duplicate-free and taken from seat 0's hand. */
  predicate SelectionHeld(s: GameState)
    requires |s.players| == 4
  {
    Distinct(s.selected) && forall c | c in s.selected :: c in s.players[0].cards
  }

  /** Changing one seat's cards changes the seats' total by the difference. */
  lemma SeatsUpdate(ps: seq<Player>, i: nat, cards: seq<Card>)
    requires |ps| == 4 && i < 4
    ensures Seats(ps[i := ps[i].(cards := cards)]) + multiset(ps[i].cards) == Seats(ps) + multiset(cards)
  {
    var qs := ps[i := ps[i].(cards := cards)];
    if i == 0 {
      assert qs[1] == ps[1] && qs[2] == ps[2] && qs[3] == ps[3];
    } else if i == 1 {
      assert qs[0] == ps[0] && qs[2] == ps[2] && qs[3] == ps[3];
    } else if i == 2 {
      assert qs[0] == ps[0] && qs[1] == ps[1] && qs[3] == ps[3];
    } else {
      assert qs[0] == ps[0] && qs[1] == ps[1] && qs[2] == ps[2];
    }
  }

  // ---------------------------------------------------------------------------
  // Seat states

  /** Every seat back in state Play, cards untouched. */
  function AllPlay(ps: seq<Player>): (qs: seq<Player>)
    ensures |qs| == |ps|
    ensures forall i :: 0 <= i < |ps| ==> qs[i].state == Play && qs[i].cards == ps[i].cards
                                          && qs[i].lie == ps[i].lie
  {
    seq(|ps|, i requires 0 <= i < |ps| => ps[i].(state := Play))
  }

  /** players.every(p => p.state === "PASS"): every seat has passed. */
  predicate AllPass(ps: seq<Player>)
    ensures AllPass(ps) <==> forall p | p in ps :: p.state == Pass
  {
    forall i :: 0 <= i < |ps| ==> ps[i].state == Pass
  }

  /** players.find(p => p.cards.length === 0) finds a seat: some hand is empty. */
  predicate SomeEmpty(ps: seq<Player>)
    ensures SomeEmpty(ps) <==> exists p | p in ps :: p.cards == []
  {
    exists i :: 0 <= i < |ps| && ps[i].cards == []
  }

  lemma SeatsAllPlay(ps: seq<Player>)
    requires |ps| == 4
    ensures Seats(AllPlay(ps)) == Seats(ps)
  {
    var qs := AllPlay(ps);
    assert qs[0].cards == ps[0].cards && qs[1].cards == ps[1].cards;
    assert qs[2].cards == ps[2].cards && qs[3].cards == ps[3].cards;
  }

  // ---------------------------------------------------------------------------
  // Removing played cards and toggling the selection

  /** The cards of `cards` that are not in `played`, in order (Array.filter
      with includes). */
  function Without(cards: seq<Card>, played: seq<Card>): (rest: seq<Card>)
    ensures forall c :: multiset(rest)[c] == if c in played then 0 else multiset(cards)[c]
  {
    if cards == [] then []
    else
      var init, last := cards[..|cards| - 1], cards[|cards| - 1];
      SplitLast(cards);
      Without(init, played) + (if last in played then [] else [last])
  }

  lemma WithoutMember(cards: seq<Card>, played: seq<Card>, c: Card)
    ensures c in Without(cards, played) <==> c in cards && c !in played
  {
    assert c in Without(cards, played) <==> multiset(Without(cards, played))[c] > 0;
    assert c in cards <==> multiset(cards)[c] > 0;
  }

  /** Playing cards out of a hand without duplicates moves exactly those
      cards: what is left plus what is played is the old hand. */
  lemma WithoutPlayed(cards: seq<Card>, played: seq<Card>)
    requires multiset(played) <= multiset(cards)
    requires forall c :: multiset(cards)[c] <= 1
    ensures multiset(Without(cards, played)) + multiset(played) == multiset(cards)
  {
    forall c ensures (multiset(Without(cards, played)) + multiset(played))[c] == multiset(cards)[c] {
      if c in played {
        assert multiset(played)[c] >= 1;
      } else {
        assert multiset(played)[c] == 0;
      }
    }
  }

  /** A selection held in a duplicate-free hand is a sub-multiset of it. */
  lemma HeldSelection(cards: seq<Card>, sel: seq<Card>)
    requires Distinct(sel) && forall c | c in sel :: c in cards
    ensures multiset(sel) <= multiset(cards)
  {
    forall c | c in multiset(sel) ensures multiset(sel)[c] <= multiset(cards)[c] {
      DistinctOnce(sel, c);
      assert c in cards;
    }
  }

  lemma DistinctOnce<T>(s: seq<T>, x: T)
    requires Distinct(s)
    ensures multiset(s)[x] <= 1
  {
    if s != [] {
      var init, last := s[..|s| - 1], s[|s| - 1];
      SplitLast(s);
      assert Distinct(init);
      DistinctOnce(init, x);
      if last == x {
        assert x !in init by {
          forall k | 0 <= k < |init| ensures init[k] != x {
            assert s[k] != s[|s| - 1];
          }
        }
      }
    }
  }

  /** addToSelected: a click on a card adds it to the selection, or removes it
      when it is already selected. */
  function Toggle(sel: seq<Card>, card: Card): (r: seq<Card>)
    ensures multiset(r)[card] == if card in sel then 0 else multiset(sel)[card] + 1
    ensures forall c | c != card :: multiset(r)[c] == multiset(sel)[c]
  {
    if card in sel then Without(sel, [card]) else sel + [card]
  }

  /** A click flips the clicked card's membership and leaves every other
      card's alone; the selection stays free of duplicates. */
  lemma ToggleFlips(sel: seq<Card>, card: Card)
    ensures card in Toggle(sel, card) <==> card !in sel
    ensures forall c | c != card :: c in Toggle(sel, card) <==> c in sel
    ensures Distinct(sel) ==> Distinct(Toggle(sel, card))
  {
    WithoutMember(sel, [card], card);
    forall c | c != card ensures c in Toggle(sel, card) <==> c in sel {
      WithoutMember(sel, [card], c);
    }
    if Distinct(sel) {
      if card in sel {
        WithoutDistinct(sel, [card]);
      } else {
        AppendDistinct(sel, card);
      }
    }
  }

  lemma WithoutDistinct(cards: seq<Card>, played: seq<Card>)
    requires Distinct(cards)
    ensures Distinct(Without(cards, played))
  {
    var rest := Without(cards, played);
    forall c ensures multiset(rest)[c] <= 1 {
      DistinctOnce(cards, c);
    }
    OnceDistinct(rest);
  }

  lemma {:induction false} OnceDistinct<T>(s: seq<T>)
    requires forall x :: multiset(s)[x] <= 1
    ensures Distinct(s)
  {
    if s != [] {
      var init, last := s[..|s| - 1], s[|s| - 1];
      SplitLast(s);
      assert forall x :: multiset(init)[x] <= multiset(s)[x];
      OnceDistinct(init);
      assert multiset(init)[last] == 0;
      AppendDistinct(init, last);
    }
  }

  lemma AppendDistinct<T>(s: seq<T>, x: T)
    requires Distinct(s) && x !in s
    ensures Distinct(s + [x])
  {
  }

  /** Clicking an unselected card twice restores the selection. */
  lemma ToggleTwice(sel: seq<Card>, card: Card)
    requires card !in sel
    ensures Toggle(Toggle(sel, card), card) == sel
  {
    var t := sel + [card];
    assert card in t;
    WithoutSnoc(sel, card);
  }

  lemma WithoutSnoc(sel: seq<Card>, card: Card)
    requires card !in sel
    ensures Without(sel + [card], [card]) == sel
  {
    SplitLast(sel + [card]);
    assert (sel + [card])[..|sel|] == sel;
    WithoutNone(sel, [card]);
  }

  lemma {:induction false} WithoutNone(cards: seq<Card>, played: seq<Card>)
    requires forall c | c in cards :: c !in played
    ensures Without(cards, played) == cards
  {
    if cards != [] {
      SplitLast(cards);
      WithoutNone(cards[..|cards| - 1], played);
    }
  }

  // ---------------------------------------------------------------------------
  // The transitions

  /** nextTurn: the turn moves to the next seat, wrapping from 3 to 0. */
  function NextTurn(s: GameState): (t: GameState)
    requires Valid(s)
    ensures Valid(t) && 0 <= t.turn < 4
    ensures t.turn == if s.turn == 3 then 0 else s.turn + 1
    ensures t == s.(turn := t.turn)
  {
    s.(turn := (s.turn + 1) % 4)
  }

  /** startNewHand: everyone plays again, the pile and the claim are
      discarded and the seat that made the last claim leads. */
  function StartNewHand(s: GameState): (t: GameState)
    requires Valid(s)
    ensures Valid(t)
  {
    s.(players := AllPlay(s.players), stack := [], turn := s.hand.lastTurn,
       hand := s.hand.(rank := None, cards := []))
  }

  /** passCurrentTurn: the seat to move is marked Pass. */
  function PassCurrentTurn(s: GameState): (t: GameState)
    requires Valid(s) && 0 <= s.turn < 4
    ensures Valid(t)
    ensures t.players[s.turn].state == Pass && t.players[s.turn].cards == s.players[s.turn].cards
    ensures forall i :: 0 <= i < 4 && i != s.turn ==> t.players[i] == s.players[i]
    ensures t == s.(players := t.players)
  {
    s.(players := s.players[s.turn := s.players[s.turn].(state := Pass)])
  }

  /** The draws fit the hand and claim the computer decides on: a first claim
      needs a card to play, and the indices drawn stay in range. */
  predicate Fits(d: Draws, cards: seq<Card>, claim: Hand)
  {
    if claim.cards == [] then
      && |cards| > 0
      && (d.lie ==> 1 <= d.pick <= 4 && d.cardIndex < Min(d.pick, |cards|))
      && (!d.lie && d.randomKey ==> d.keyIndex < |KeyOrder(cards)|)
    else
      && (d.lie ==> d.pick <= 4)
      && ((!d.lie && claim.rank.Some? && |OfRank(cards, claim.rank.value)| > 0)
            ==> d.size < |OfRank(cards, claim.rank.value)|)
  }

  /** The computer's move: a first claim on an empty pile, else a follow-up
      of the active claim's rank. */
  function CpuChoice(cards: seq<Card>, claim: Hand, d: Draws): (r: Choice)
    requires Fits(d, cards, claim)
    ensures multiset(r.cards) <= multiset(cards)
    ensures claim.cards == [] ==> r.rank.Some? && r.cards != []
    ensures claim.cards != [] ==> r.rank == claim.rank
    ensures !d.lie ==> forall c | c in r.cards :: r.rank == Some(c.rank)
  {
    if claim.cards == [] then ChooseFirstHand(cards, d.lie, d.pick, d.cardIndex, d.randomKey, d.keyIndex)
    else ChooseCards(cards, claim.rank, d.lie, d.pick, d.size)
  }

  /** The seat to move lays `c` as the new claim: the cards leave its hand,
      the old claim joins the pile and the claim records the seat. */
  function Lay(s: GameState, c: Choice): (t: GameState)
    requires Valid(s) && 0 <= s.turn < 4 && c.cards != [] && c.rank.Some?
    ensures Valid(t)
    ensures forall x :: x in t.players[s.turn].cards <==> x in s.players[s.turn].cards && x !in c.cards
    ensures forall i :: 0 <= i < 4 && i != s.turn ==> t.players[i] == s.players[i]
    ensures t.hand == Hand(c.rank, c.cards, s.turn) && t.stack == s.stack + s.hand.cards
    ensures t.turn == s.turn && t.selected == s.selected && t.winner == s.winner
  {
    var seat := s.players[s.turn];
    forall x ensures x in Without(seat.cards, c.cards) <==> x in seat.cards && x !in c.cards {
      WithoutMember(seat.cards, c.cards, x);
    }
    s.(players := s.players[s.turn := seat.(cards := Without(seat.cards, c.cards))],
       stack := s.stack + s.hand.cards,
       hand := Hand(c.rank, c.cards, s.turn))
  }

  /** playCPU: the computer passes when its choice is empty and otherwise
      lays it. */
  function PlayCPU(s: GameState, d: Draws): (t: GameState)
    requires Valid(s) && 0 <= s.turn < 4 && Fits(d, s.players[s.turn].cards, s.hand)
    ensures Valid(t)
    ensures forall i :: 0 <= i < 4 && i != s.turn ==> t.players[i] == s.players[i]
    ensures t.turn == s.turn && t.selected == s.selected && t.winner == s.winner
    ensures var ch := CpuChoice(s.players[s.turn].cards, s.hand, d);
            ch.cards == [] ==> t.stack == s.stack && t.hand == s.hand
                               && t.players[s.turn] == s.players[s.turn].(state := Pass)
    ensures var ch := CpuChoice(s.players[s.turn].cards, s.hand, d);
            ch.cards != [] ==> t.hand == Hand(ch.rank, ch.cards, s.turn) && t.stack == s.stack + s.hand.cards
                               && forall x :: x in t.players[s.turn].cards <==> x in s.players[s.turn].cards && x !in ch.cards
    ensures s.hand.cards == [] ==> t.hand.cards != [] && t.hand.lastTurn == s.turn
  {
    var choice := CpuChoice(s.players[s.turn].cards, s.hand, d);
    if choice.cards == [] then PassCurrentTurn(s) else Lay(s, choice)
  }

  /** Every card of a claim has the claimed rank: the claim is empty, or
      grouping its cards by the claimed rank keeps them all. */
  predicate Truthful(h: Hand)
    ensures Truthful(h) <==> h.cards == [] || (h.rank.Some? && OfRank(h.cards, h.rank.value) == h.cards)
  {
    if h.rank.Some? then
      OfRankAll(h.cards, h.rank.value);
      forall c | c in h.cards :: h.rank == Some(c.rank)
    else
      assert h.cards != [] ==> h.cards[0] in h.cards;
      forall c | c in h.cards :: h.rank == Some(c.rank)
  }

  /** The challenge handler: all seats play again and the pile and the
      claim go to the seat that was wrong: the challenger (the seat to move)
      when the claim was true, and it then hands the turn to the claimant;
      otherwise the claimant, and the challenger keeps the turn. The
      selection is cleared. */
  function Reveal(s: GameState): (t: GameState)
    requires Valid(s) && 0 <= s.turn < 4
    ensures Valid(t)
  {
    var pile := s.stack + s.hand.cards;
    var ps := AllPlay(s.players);
    var cleared := s.hand.(rank := None, cards := []);
    if Truthful(s.hand) then
      s.(players := ps[s.turn := ps[s.turn].(cards := ps[s.turn].cards + pile)],
         hand := cleared, stack := [], turn := s.hand.lastTurn, selected := [])
    else
      var liar := s.hand.lastTurn;
      s.(players := ps[liar := ps[liar].(cards := ps[liar].cards + pile)],
         hand := cleared, stack := [], selected := [])
  }

  /** Whether the computer to move challenges the active claim. */
  predicate ShouldReveal(s: GameState, d: Draws)
    ensures ShouldReveal(s, d) ==> s.hand.cards != [] && s.hand.lastTurn != s.turn
  {
    s.hand.cards != [] && s.hand.lastTurn != s.turn && d.challenge
  }

  /** The Play button is disabled while it is the human's turn and nothing
      is selected. */
  predicate PlayEnabled(s: GameState)
    ensures s.turn != 0 ==> PlayEnabled(s)
    ensures s.turn == 0 ==> (PlayEnabled(s) <==> s.selected != [])
  {
    !(s.turn == 0 && s.selected == [])
  }

  /** The draws fit whatever the computer to move will decide. */
  predicate CpuReady(s: GameState, d: Draws)
    requires Valid(s) && 0 <= s.turn < 4
  {
    (s.turn != 0 && s.players[s.turn].state == Play && !ShouldReveal(s, d))
      ==> Fits(d, s.players[s.turn].cards, s.hand)
  }

  /** The human's claim: the selection, for the active rank or, on an empty
      pile, for the rank of the first selected card. */
  function HumanChoice(s: GameState): (c: Choice)
    requires s.selected != []
    ensures c.rank.Some? && c.cards == s.selected
    ensures s.hand.rank.Some? ==> c.rank == s.hand.rank
    ensures s.hand.rank.None? ==> c.rank == Some(s.selected[0].rank)
  {
    Choice(if s.hand.rank == None then Some(s.selected[0].rank) else s.hand.rank, s.selected)
  }

  /** playTurn: a passed seat is skipped; the human lays the selection; a
      computer challenges or plays and the turn moves on. */
  function PlayTurn(s: GameState, d: Draws): (t: GameState)
    requires Valid(s) && 0 <= s.turn < 4 && PlayEnabled(s) && CpuReady(s, d)
    ensures Valid(t)
  {
    if s.players[s.turn].state == Pass then NextTurn(s)
    else if s.turn == 0 then NextTurn(Lay(s, HumanChoice(s)))
    else if ShouldReveal(s, d) then Reveal(s)
    else NextTurn(PlayCPU(s, d))
  }

  /** pass: the seat to move passes and the turn moves on. */
  function PassTurn(s: GameState): (t: GameState)
    requires Valid(s) && 0 <= s.turn < 4
    ensures Valid(t)
  {
    NextTurn(PassCurrentTurn(s))
  }

  /** addToSelected: toggles seat 0's card at `index` in the selection. */
  function AddToSelected(s: GameState, index: nat): (t: GameState)
    requires Valid(s) && index < |s.players[0].cards|
    ensures Valid(t)
  {
    s.(selected := Toggle(s.selected, s.players[0].cards[index]))
  }

  /** The winner check of the effect: when some seat has no cards left, the
      seat of the last claim is recorded as the winner. */
  function CheckWinner(s: GameState): (t: GameState)
    requires Valid(s)
    ensures Valid(t)
  {
    if SomeEmpty(s.players) then s.(winner := s.hand.lastTurn) else s
  }

  /** The effect that runs whenever the turn changes: when every seat has
      passed a new hand starts, and the effect then runs once more if that
      moved the turn; otherwise the winner check. */
  function Effect(s: GameState): (t: GameState)
    requires Valid(s)
    ensures Valid(t)
    ensures forall i :: 0 <= i < 4 ==> t.players[i].cards == s.players[i].cards
    ensures t.selected == s.selected
    ensures 0 <= s.winner ==> 0 <= t.winner
  {
    if AllPass(s.players) then
      var n := StartNewHand(s);
      if n.turn != s.turn then CheckWinner(n) else n
    else CheckWinner(s)
  }

  /** Whether the user may take the action: the Play button needs a
      selection on the human's turn, the other controls the human's turn. */
  predicate Enabled(s: GameState, a: Action, d: Draws)
    requires Valid(s)
    ensures Enabled(s, a, d) && !a.PlayTurnAction? ==> s.turn == 0
    ensures Enabled(s, a, d) && a.ResetAction? ==> PlayEnabled(s)
  {
    match a
    case PlayTurnAction => 0 <= s.turn < 4 && PlayEnabled(s) && CpuReady(s, d)
    case RevealAction => s.turn == 0
    case PassAction => s.turn == 0
    case ResetAction => s.turn == 0 && s.selected != []
    case SelectAction(i) => s.turn == 0 && i < |s.players[0].cards|
  }

  /** The handler of the action. */
  function Apply(s: GameState, a: Action, d: Draws): (t: GameState)
    requires Valid(s) && Enabled(s, a, d)
    ensures Valid(t)
  {
    match a
    case PlayTurnAction => PlayTurn(s, d)
    case RevealAction => Reveal(s)
    case PassAction => PassTurn(s)
    case ResetAction => s.(selected := [])
    case SelectAction(i) => AddToSelected(s, i)
  }

  /** One user action followed by the effect when the turn changed. */
  function Step(s: GameState, a: Action, d: Draws): (t: GameState)
    requires Valid(s) && Enabled(s, a, d)
    ensures Valid(t)
    ensures 0 <= s.winner ==> 0 <= t.winner
  {
    var u := Apply(s, a, d);
    if u.turn != s.turn then Effect(u) else u
  }

  // ---------------------------------------------------------------------------
  // What the transitions preserve

  lemma SeatsState(ps: seq<Player>, i: nat, st: PlayState)
    requires |ps| == 4 && i < 4
    ensures Seats(ps[i := ps[i].(state := st)]) == Seats(ps)
  {
    var qs := ps[i := ps[i].(state := st)];
    assert qs[0].cards == ps[0].cards && qs[1].cards == ps[1].cards;
    assert qs[2].cards == ps[2].cards && qs[3].cards == ps[3].cards;
  }

  lemma SeatHeld(ps: seq<Player>, i: nat)
    requires |ps| == 4 && i < 4
    ensures multiset(ps[i].cards) <= Seats(ps)
  {
  }

  lemma CancelBoth<T>(a: multiset<T>, b: multiset<T>, c: multiset<T>)
    requires a + c == b + c
    ensures a == b
  {
    forall x ensures a[x] == b[x] {
      assert (a + c)[x] == (b + c)[x];
    }
  }

  /** Seat i lays `played` out of its duplicate-free hand: the seats lose
      exactly the played cards. */
  lemma LayCards(ps: seq<Player>, i: nat, played: seq<Card>)
    requires |ps| == 4 && i < 4
    requires multiset(played) <= multiset(ps[i].cards)
    requires forall c :: multiset(ps[i].cards)[c] <= 1
    ensures Seats(ps[i := ps[i].(cards := Without(ps[i].cards, played))]) + multiset(played) == Seats(ps)
  {
    var held := ps[i].cards;
    var rest := Without(held, played);
    var after := Seats(ps[i := ps[i].(cards := rest)]);
    SeatsUpdate(ps, i, rest);
    WithoutPlayed(held, played);
    assert after + multiset(held) == Seats(ps) + multiset(rest);
    assert after + multiset(played) + multiset(rest) == Seats(ps) + multiset(rest);
    CancelBoth(after + multiset(played), Seats(ps), multiset(rest));
  }

  /** Seat i takes the pile: the seats gain exactly the pile's cards. */
  lemma TakePile(ps: seq<Player>, i: nat, pile: seq<Card>)
    requires |ps| == 4 && i < 4
    ensures Seats(ps[i := ps[i].(cards := ps[i].cards + pile)]) == Seats(ps) + multiset(pile)
  {
    SeatsUpdate(ps, i, ps[i].cards + pile);
  }

  lemma UniqueHand(s: GameState, i: nat)
    requires |s.players| == 4 && i < 4 && Unique(s)
    ensures forall c :: multiset(s.players[i].cards)[c] <= 1
  {
    forall c ensures multiset(s.players[i].cards)[c] <= 1 {
      SeatHeld(s.players, i);
      if c in multiset(s.players[i].cards) {
        assert c in InPlay(s);
      }
    }
  }

  /** Laying cards out of a duplicate-free hand loses no card and gains
      none. */
  lemma LayConserves(s: GameState, c: Choice)
    requires Valid(s) && 0 <= s.turn < 4 && c.cards != [] && c.rank.Some?
    requires multiset(c.cards) <= multiset(s.players[s.turn].cards)
    requires forall x :: multiset(s.players[s.turn].cards)[x] <= 1
    ensures InPlay(Lay(s, c)) == InPlay(s)
  {
    LayCards(s.players, s.turn, c.cards);
  }

  /** A computer move keeps every card in play exactly once: a pass changes
      no cards, a play moves the chosen cards from the seat to the claim and
      the old claim to the pile. */
  lemma PlayCPUConserves(s: GameState, d: Draws)
    requires Valid(s) && 0 <= s.turn < 4 && Fits(d, s.players[s.turn].cards, s.hand)
    requires Unique(s)
    ensures InPlay(PlayCPU(s, d)) == InPlay(s)
  {
    var choice := CpuChoice(s.players[s.turn].cards, s.hand, d);
    if choice.cards == [] {
      SeatsState(s.players, s.turn, Pass);
    } else {
      UniqueHand(s, s.turn);
      LayConserves(s, choice);
    }
  }

  /** A human move with a selection taken from seat 0's hand keeps every
      card in play exactly once. */
  lemma HumanPlayConserves(s: GameState, d: Draws)
    requires Valid(s) && s.turn == 0 && s.selected != [] && s.players[0].state == Play
    requires Unique(s) && SelectionHeld(s)
    ensures InPlay(PlayTurn(s, d)) == InPlay(s)
  {
    UniqueHand(s, 0);
    HeldSelection(s.players[0].cards, s.selected);
    LayConserves(s, HumanChoice(s));
  }

  /** A challenge moves the pile and the claim to one seat and loses no card. */
  lemma RevealConserves(s: GameState)
    requires Valid(s) && 0 <= s.turn < 4
    ensures InPlay(Reveal(s)) == InPlay(s)
  {
    var ps := AllPlay(s.players);
    SeatsAllPlay(s.players);
    var loser := if Truthful(s.hand) then s.turn else s.hand.lastTurn;
    TakePile(ps, loser, s.stack + s.hand.cards);
  }

  /** A new hand discards exactly the pile and the claim. */
  lemma StartNewHandDiscards(s: GameState)
    requires Valid(s)
    ensures InPlay(StartNewHand(s)) + multiset(s.stack) + multiset(s.hand.cards) == InPlay(s)
  {
    SeatsAllPlay(s.players);
  }

  /** The seat that was wrong takes the pile and the claim, every other seat
      keeps its cards, and all seats play again: the challenger when the
      claim was true, who then hands the turn to the claimant; otherwise the
      claimant, and the challenger keeps the turn. */
  lemma RevealPenalty(s: GameState)
    requires Valid(s) && 0 <= s.turn < 4
    ensures var t := Reveal(s);
            var loser := if Truthful(s.hand) then s.turn else s.hand.lastTurn;
            && 0 <= loser < 4
            && t.players[loser].cards == s.players[loser].cards + s.stack + s.hand.cards
            && (forall i :: 0 <= i < 4 && i != loser ==> t.players[i].cards == s.players[i].cards)
            && (forall i :: 0 <= i < 4 ==> t.players[i].state == Play)
            && t.turn == (if Truthful(s.hand) then s.hand.lastTurn else s.turn)
            && t.stack == [] && t.hand.cards == [] && t.selected == []
  {
    if !Truthful(s.hand) {
      assert s.hand.cards != [];
    }
  }

  /** A computer that does not bluff either passes, leaving the claim as it
      was, or makes a true claim of its own. */
  lemma HonestClaim(s: GameState, d: Draws)
    requires Valid(s) && 0 <= s.turn < 4 && Fits(d, s.players[s.turn].cards, s.hand)
    requires !d.lie
    ensures var t := PlayCPU(s, d);
            t.hand == s.hand || (t.hand.lastTurn == s.turn && Truthful(t.hand))
  {
    var choice := CpuChoice(s.players[s.turn].cards, s.hand, d);
    assert forall c | c in choice.cards :: choice.rank == Some(c.rank);
  }

  /** When every seat has passed, the effect starts a new hand led by the
      last claimant, with no pile and every seat playing. */
  lemma AllPassNewHand(s: GameState)
    requires Valid(s) && AllPass(s.players)
    ensures var t := Effect(s);
            && t.stack == [] && t.hand.cards == [] && t.hand.rank == None
            && t.turn == s.hand.lastTurn
            && (forall i :: 0 <= i < 4 ==> t.players[i].state == Play && t.players[i].cards == s.players[i].cards)
  {
  }

  /** The state the component starts in: the dealt seats, the given turn,
      no pile, no claim, no selection and no winner. */
  function Initial(ps: seq<Player>, turn: int): (s: GameState)
    requires |ps| == 4 && -1 <= turn < 4
    ensures Valid(s)
  {
    GameState(ps, turn, [], StartHand, [], -1)
  }

  /** The deal puts every card of the decks in play exactly once. */
  lemma InitialDeal(decks: nat, keys: seq<int>, ps: seq<Player>, turn: int)
    requires |keys| == 52 * decks && |ps| == 4 && -1 <= turn < 4
    requires forall i :: 0 <= i < 4 ==> ps[i].cards == SeatShare(Shuffle(Deck(decks), keys), i)
    ensures InPlay(Initial(ps, turn)) == multiset(Deck(decks))
    ensures Unique(Initial(ps, turn))
  {
    var deck := Shuffle(Deck(decks), keys);
    QuarterDeck(decks);
    SharesCover(deck);
    DeckDistinct(decks);
    forall c ensures Seats(ps)[c] <= 1 {
      DistinctOnce(Deck(decks), c);
    }
  }

  /** Losing cards never duplicates one. */
  lemma FewerUnique(s: GameState, t: GameState)
    requires |s.players| == 4 && |t.players| == 4
    requires InPlay(t) <= InPlay(s) && Unique(s)
    ensures Unique(t)
  {
  }

  /** Every handler moves cards without losing or duplicating any, provided
      the human plays a selection taken from its own hand. */
  lemma ApplyConserves(s: GameState, a: Action, d: Draws)
    requires Valid(s) && Enabled(s, a, d) && Unique(s)
    requires (a == PlayTurnAction && s.turn == 0) ==> SelectionHeld(s)
    ensures InPlay(Apply(s, a, d)) == InPlay(s)
  {
    match a
    case PlayTurnAction =>
      if s.players[s.turn].state == Pass {
      } else if s.turn == 0 {
        HumanPlayConserves(s, d);
      } else if ShouldReveal(s, d) {
        RevealConserves(s);
      } else {
        PlayCPUConserves(s, d);
      }
    case RevealAction => RevealConserves(s);
    case PassAction => SeatsState(s.players, s.turn, Pass);
    case ResetAction =>
    case SelectAction(i) =>
  }

  lemma SeatsSame(ps: seq<Player>, qs: seq<Player>)
    requires |ps| == 4 && |qs| == 4
    requires forall i :: 0 <= i < 4 ==> ps[i].cards == qs[i].cards
    ensures Seats(ps) == Seats(qs)
  {
    assert ps[0].cards == qs[0].cards && ps[1].cards == qs[1].cards;
    assert ps[2].cards == qs[2].cards && ps[3].cards == qs[3].cards;
  }

  /** The effect only ever discards cards: the pile and the claim when a new
      hand starts. */
  lemma EffectDiscards(s: GameState)
    requires Valid(s)
    ensures InPlay(Effect(s)) <= InPlay(s)
  {
    var t := Effect(s);
    SeatsSame(s.players, t.players);
    if AllPass(s.players) {
      assert t.stack == [] && t.hand.cards == [];
    } else {
      assert t.stack == s.stack && t.hand == s.hand.(lastTurn := t.hand.lastTurn);
    }
  }

  /** Along any sequence of moves no card is created and none is in play
      twice, as long as every human play lays cards from seat 0's hand. */
  lemma StepConserves(s: GameState, a: Action, d: Draws)
    requires Valid(s) && Enabled(s, a, d) && Unique(s)
    requires (a == PlayTurnAction && s.turn == 0) ==> SelectionHeld(s)
    ensures InPlay(Step(s, a, d)) <= InPlay(s)
    ensures Unique(Step(s, a, d))
  {
    ApplyConserves(s, a, d);
    var u := Apply(s, a, d);
    if u.turn != s.turn {
      EffectDiscards(u);
    }
    FewerUnique(s, Step(s, a, d));
  }

  /** Every action other than a human play keeps the selection a
      duplicate-free part of seat 0's hand. */
  lemma SelectionKept(s: GameState, a: Action, d: Draws)
    requires Valid(s) && Enabled(s, a, d) && SelectionHeld(s)
    requires !(a == PlayTurnAction && s.turn == 0 && s.players[0].state == Play)
    ensures SelectionHeld(Step(s, a, d))
  {
    var u := Apply(s, a, d);
    assert SelectionHeld(u) by {
      match a
      case SelectAction(i) =>
        ToggleFlips(s.selected, s.players[0].cards[i]);
      case PlayTurnAction =>
        if s.players[s.turn].state == Play && s.turn != 0 && !ShouldReveal(s, d) {
          assert u.players[0] == s.players[0];
        }
      case _ =>
    }
  }

  /** A seat that has passed is skipped: only the turn moves on. */
  lemma PassedSeatSkipped(s: GameState, d: Draws)
    requires Valid(s) && 0 <= s.turn < 4 && PlayEnabled(s) && CpuReady(s, d)
    requires s.players[s.turn].state == Pass
    ensures PlayTurn(s, d) == s.(turn := (s.turn + 1) % 4)
  {
  }

  /** The human's play: the selection leaves seat 0's hand and becomes the
      claim, for the active rank or else the first selected card's rank; the
      old claim joins the pile and seat 1 moves next. */
  lemma HumanPlayMoves(s: GameState, d: Draws)
    requires Valid(s) && s.turn == 0 && s.selected != [] && s.players[0].state == Play
    ensures var t := PlayTurn(s, d);
            && (forall c :: c in t.players[0].cards <==> c in s.players[0].cards && c !in s.selected)
            && (forall i :: 1 <= i < 4 ==> t.players[i] == s.players[i])
            && t.stack == s.stack + s.hand.cards
            && t.hand.cards == s.selected && t.hand.lastTurn == 0
            && t.hand.rank == (if s.hand.rank.None? then Some(s.selected[0].rank) else s.hand.rank)
            && t.turn == 1
  {
    var c := HumanChoice(s);
    var l := Lay(s, c);
    assert PlayTurn(s, d) == NextTurn(l);
  }

  /** A computer seat challenges only a claim with cards that another seat
      made; otherwise it plays and the turn moves on. */
  lemma CpuChallengesOnlyClaims(s: GameState, d: Draws)
    requires Valid(s) && 1 <= s.turn < 4 && CpuReady(s, d) && s.players[s.turn].state == Play
    requires s.hand.cards == [] || s.hand.lastTurn == s.turn
    ensures PlayTurn(s, d) == NextTurn(PlayCPU(s, d))
  {
  }

  /** The winner check: after a turn change that does not end a hand, the
      last claimant is recorded as winner exactly when some seat has no
      cards; otherwise the winner stays. */
  lemma EffectWinner(s: GameState)
    requires Valid(s) && !AllPass(s.players)
    ensures SomeEmpty(s.players) ==> Effect(s).winner == s.hand.lastTurn
    ensures !SomeEmpty(s.players) ==> Effect(s) == s
  {
  }
}
