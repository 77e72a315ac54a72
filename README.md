# Cheat: a verified model of the rules engine

This project models the rules engine of a four-player bluffing card game
("Cheat"). Players take turns laying cards face down and claiming a rank.
Any player may challenge the last claim, and whoever was wrong takes the
pile. The model has two parts:

- **Card and decision helpers** (`src/game/game-utils.ts`), in
  `cards.dfy` and `game_utils.dfy`:
  - building the multi-deck card list;
  - shuffling by sort keys;
  - grouping a hand by rank;
  - dealing four hands;
  - finding the seat holding the Ace of Spades;
  - the two computer heuristics (`chooseFirstHand`, `chooseCards`).
- **The game component's state machine** (`src/game/index.tsx`):
  - `rules.dfy` states every handler as a function on a snapshot of the
    state (`Rules.GameState`) and proves what the handlers preserve.
  - `game.dfy` holds class `Game.Game`. Its fields are the component's state
    hooks (`players`, `turn`, `stack`, `hand`, `selected`, `winner`), and it
    has one method per handler. Each method is proved to move the fields
    exactly as the matching function in `Rules` says; `Reset`, which only
    empties the selection, states that one-field update directly.

How the source's constructs are represented:

- **Cards** are compared by object identity in the source. Each `Card` here
  carries an `id`: its position in the list `makeCards` builds. Two cards of
  the same suit and rank from different decks therefore stay distinct.
- **Randomness** is passed in as parameters:
  - the `Math.random()` calls become the fields of `Rules.Draws`: the bluff
    coin, the prefix length `pick`, the indices, the random-key coin, the
    follow-up size and the challenge coin;
  - the shuffle's sort keys are a `seq<int>`;
  - the four random numbers behind the bluff probabilities are `seq<real>`.
- **Preact updates** are modelled as follows:
  - `setX(prev => …)` applies to the state as it is when the handler runs;
  - plain `setX(v)` uses the values the handler read;
  - `nextTurn` comes last;
  - this gives the same result as applying the handler's updates in order.
- **The `[turn]` effect** (`src/game/index.tsx:184-194`) is the explicit
  method `Game.Game.Effect`. `Game.Game.Act` runs a handler and then the
  effect whenever `turn` changed.
  - When every seat has passed, the effect starts a new hand, and that
    changes `turn` again.
  - So the effect runs a second time, which is the winner check.
  - On mount the effect changes nothing: no seat has passed, and with at
    least one deck no seat is empty.
- **The UI's disabled buttons** are preconditions (`Rules.Enabled`):
  - Play is disabled on seat 0's turn with an empty selection.
  - Reveal, Pass and the card clicks need seat 0's turn.
  - Reset needs seat 0's turn and a non-empty selection.
  - Code paths that would crash in the source are preconditions:
    - `players[-1]` after `turn` became -1;
    - `cards[…]` of an empty prefix;
    - a first claim by a computer seat with no cards. The honest branch
      reads `groups[sorted[0]]`, which is `undefined` for an empty hand, so
      `toPlayHand.cards.length` (`src/game/index.tsx:61`) throws
      (`Rules.Fits` requires a non-empty hand for any first claim);
    - a dealing loop that throws when it reaches `players[4]`.

Points of the code's behaviour worth spelling out, all modelled as written:

- **Reveal** (`src/game/index.tsx:117-157`).
  - A true claim sends the pile and the claim to the challenger, the seat
    whose turn it is (`newPlayers[turn]`), and the turn goes to the claimant.
  - A false claim sends them to the claimant (`hand.lastTurn`), and the turn
    stays.
  - The in-game rules text (`src/rules/index.tsx:38-41`) states the same
    outcome.
- **Dealing** (`src/game/game-utils.ts:67-71`). Every seat gets `floor(n / 4)`
  consecutive cards. `n = 52 * decks` is always a multiple of 4.
- **Bluff probability** (`src/game/index.tsx:59`). `chooseFirstHand` is called
  with the seat's `lie` value. The coin it decides is a parameter here.
- **Challenges** (`src/game/index.tsx:241`). The Reveal button is enabled on
  seat 0's turn whatever the claim. Only the computer's challenge needs a
  non-empty claim made by another seat (`Rules.ShouldReveal`).
  - A human challenge of an empty claim is "true" vacuously.
  - It sets `turn` to the claim's `lastTurn`, which may be -1.
- **Winner** (`src/game/index.tsx:190-193`). The winner check can run more than
  once. It records `lastTurn` each time some hand is empty. Once a winner is
  recorded it is never reset to -1.

## Model

| member | source | states |
|---|---|---|
| Cards.RankIndex | src/game/game-utils.ts:4-18 | every rank is one of the thirteen in the list, at the index the function returns |
| Cards.SuitIndex | src/game/game-utils.ts:3 | every suit is one of the four in the list C, S, D, H, at the index the function returns |
| GameUtils.Prefix | src/game/game-utils.ts:27-37 | the first n cards built are, position by position, the card the nested loops make at that position |
| GameUtils.MakeCards | src/game/game-utils.ts:27-37 | the nested loops push exactly the ordered multi-deck: deck, then suit C,S,D,H, then rank A..K |
| GameUtils.DeckLayout | src/game/game-utils.ts:27-37 | position 52·i + 13·s + c holds suit s and rank c, for every deck i |
| GameUtils.CardAtFace | src/game/game-utils.ts:27-37 | the card at position k has suit s and rank r exactly when k mod 52 is the index of (s, r) |
| GameUtils.DeckFaceCount | src/game/game-utils.ts:27-37 | each (suit, rank) pair occurs exactly `decks` times |
| GameUtils.DeckDistinct | src/game/game-utils.ts:27-37 | no card object occurs twice in the built list |
| GameUtils.InsertBySorted | src/game/game-utils.ts:42 | inserting into a key-sorted list keeps it sorted and adds only the new element |
| GameUtils.InsertBy | src/game/game-utils.ts:42 | inserting one element lengthens the list by one and adds exactly that element to its multiset |
| GameUtils.SortBy | src/game/game-utils.ts:42 | the sort returns a permutation of its input, sorted by key |
| GameUtils.ValuesPermutation | src/game/game-utils.ts:41-43 | undecorating two permutations of decorated pairs gives permutations of the values |
| GameUtils.Shuffle | src/game/game-utils.ts:39-44 | shuffle returns a permutation of its input, of the same length, and leaves the input value unchanged |
| GameUtils.OfRank | src/game/game-utils.ts:46-55 | a rank's group holds exactly the hand's cards of that rank, each taken from the hand |
| GameUtils.OfRankAll | src/game/game-utils.ts:46-55 | a hand is its own group of rank r exactly when every card in it has rank r |
| GameUtils.Push | src/game/game-utils.ts:48-52 | one reduce step appends the card to its rank's group, creating the group when missing, and leaves every other group as it was |
| GameUtils.GroupedSnoc | src/game/game-utils.ts:47-53 | one reduce step pushes the card onto its rank's group, creating the group when absent, and leaves other groups alone |
| GameUtils.GroupCardsByType | src/game/game-utils.ts:46-55 | the reduce loop yields one group per rank held, each the hand's cards of that rank in hand order |
| GameUtils.GroupsPartition | src/game/game-utils.ts:46-55 | a rank has a group exactly when the hand holds a card of it; each card is in its rank's group only; no group is empty |
| GameUtils.GroupSizesTotal | src/game/game-utils.ts:46-55 | the group sizes add up to the hand size |
| GameUtils.KeyOrder | src/game/game-utils.ts:97 | Object.keys lists each held rank exactly once and no other |
| GameUtils.PickRandomCards | src/game/game-utils.ts:57-60 | the result is a prefix of the hand of length min(pick, hand size), at most num |
| GameUtils.SizeKey | src/game/game-utils.ts:98 | the comparator's key: a rank sorts no later than another exactly when its group is at least as large |
| GameUtils.FirstKeyIsLargest | src/game/game-utils.ts:98 | after the sort by decreasing group size, no group is larger than the first key's |
| GameUtils.SortedKeys | src/game/game-utils.ts:96-102 | a non-empty hand has at least one key, every sorted key names a group, and the first names a largest group |
| GameUtils.ChooseFirstHand | src/game/game-utils.ts:88-104 | a non-empty play of cards from the hand; a bluff is a prefix of length min(pick, size) claiming the rank of one of its cards; an honest play is the whole group of the claimed rank, a largest group unless the random key was drawn |
| GameUtils.ChooseCards | src/game/game-utils.ts:106-119 | the claimed rank is kept; the cards come from the hand; a bluff is a prefix; an honest play is a proper prefix of the rank's group, all of that rank, and empty when the rank is null or not held |
| GameUtils.SeatShare | src/game/game-utils.ts:67-71 | each seat's share has floor(n / 4) cards |
| GameUtils.SharesCover | src/game/game-utils.ts:67-71 | the four seats' hands, concatenated in seat order, are exactly the deck, hence also equal to it as a multiset |
| GameUtils.NewSeat | src/game/game-utils.ts:64-66 | a new seat has no cards, plays, and bluffs with probability in [0.05, 0.55) |
| GameUtils.DealShares | src/game/game-utils.ts:67-72 | the loop gives seat i exactly the i-th quarter slice and changes nothing else about the seat |
| GameUtils.CreatePlayers | src/game/game-utils.ts:62-74 | four seats, all playing, bluff probability in [0.05, 0.55), seat i holding the i-th quarter of the shuffled deck |
| GameUtils.InShare | src/game/game-utils.ts:67-71 | every card of the deck is dealt to some seat |
| GameUtils.HasAceOfSpades | src/game/game-utils.ts:78-80 | the `find` succeeds: some position of the hand holds the Ace of Spades |
| GameUtils.FindStart | src/game/game-utils.ts:76-86 | the lowest seat holding an Ace of Spades, and -1 exactly when none does |
| GameUtils.AceOfSpadesDealt | src/game/game-utils.ts:62-86 | with at least one deck some seat holds an Ace of Spades, so findStart does not return -1 |
| Rules.Without | src/game/index.tsx:68-70 | `filter(c => !played.includes(c))` keeps each card's count, except that played cards disappear |
| Rules.WithoutMember | src/game/index.tsx:68-70 | a card remains exactly when it was held and not played |
| Rules.WithoutPlayed | src/game/index.tsx:62-73 | for a hand without duplicates, what remains plus what was played is the old hand |
| Rules.Toggle | src/game/index.tsx:172-177 | a click sets the clicked card's count in the selection to zero when it was selected and adds one copy otherwise; every other card's count stays |
| Rules.ToggleFlips | src/game/index.tsx:170-178 | a click flips the clicked card's membership in the selection, leaves every other card's, and keeps the selection duplicate-free |
| Rules.ToggleTwice | src/game/index.tsx:170-178 | clicking an unselected card twice restores the selection |
| Rules.NextTurn | src/game/index.tsx:36 | the turn moves to the next seat modulo 4; nothing else changes |
| Rules.StartNewHand | src/game/index.tsx:38-45 | the new hand is a well-formed state |
| Rules.StartNewHandDiscards | src/game/index.tsx:38-45 | starting a new hand discards exactly the pile and the claim: no card returns to a seat |
| Rules.PassCurrentTurn | src/game/index.tsx:47-53 | only the seat to move changes, to Pass, keeping its cards |
| Rules.CpuChoice | src/game/index.tsx:56-60 | the computer's play comes from its hand; a first claim is non-empty with a rank; a follow-up keeps the claimed rank; an honest play is all of the claimed rank |
| Rules.Lay | src/game/index.tsx:62-76 | the cards leave only the seat to move, the old claim joins the pile, the new claim records the seat |
| Rules.PlayCPU | src/game/index.tsx:55-77 | when the computer's choice is empty the seat passes and pile and claim stay; otherwise the chosen cards leave the seat's hand, become the claim under the seat's number and the old claim joins the pile; a first claim always lays cards; other seats, turn, selection and winner stay |
| Rules.ShouldReveal | src/game/index.tsx:103-104 | the computer only challenges a non-empty claim made by another seat |
| Rules.Truthful | src/game/index.tsx:117 | a claim is true exactly when it is empty or all its cards form the group of the claimed rank |
| Rules.PlayEnabled | src/game/index.tsx:34 | the Play button is enabled on a computer's turn, and on the human's turn exactly when something is selected |
| Rules.Enabled | src/game/index.tsx:228-258 | every control but Play needs the human's turn, and Reset is disabled whenever Play is |
| Rules.AllPlay | src/game/index.tsx:40 | every seat is set back to Play, keeping its cards and bluff probability |
| Rules.PlayCPUConserves | src/game/index.tsx:55-77 | with no card in play twice, a computer move loses and gains no card |
| Rules.HonestClaim | src/game/index.tsx:56-60 | a computer that does not bluff either passes, leaving the claim as it was, or makes a true claim |
| Rules.HumanChoice | src/game/index.tsx:85-88 | the human's claim is the selection, with the active rank, or the first selected card's rank when none is active |
| Rules.HumanPlayMoves | src/game/index.tsx:84-101 | the selection leaves seat 0 only, the old claim joins the pile, the claim has the right rank and lastTurn 0, and seat 1 moves next |
| Rules.HumanPlayConserves | src/game/index.tsx:84-101 | with the selection taken from seat 0's hand, the human's play loses and gains no card |
| Rules.PlayTurn | src/game/index.tsx:79-112 | every outcome of playTurn is a well-formed state |
| Rules.PassedSeatSkipped | src/game/index.tsx:80-83 | on a passed seat, playTurn only moves the turn on |
| Rules.CpuChallengesOnlyClaims | src/game/index.tsx:102-111 | a computer seat does not challenge an empty claim or its own claim; it plays and the turn moves on |
| Rules.Reveal | src/game/index.tsx:114-159 | a reveal leaves a well-formed state |
| Rules.RevealPenalty | src/game/index.tsx:117-157 | the challenger takes pile and claim after a true claim and hands the turn to the claimant; otherwise the claimant takes them and the turn stays; other seats keep their cards; all seats play; selection cleared |
| Rules.RevealConserves | src/game/index.tsx:117-157 | a reveal loses and gains no card |
| Rules.PassTurn | src/game/index.tsx:161-164 | pass leaves a well-formed state |
| Rules.AddToSelected | src/game/index.tsx:170-178 | a click leaves a well-formed state |
| Rules.CheckWinner | src/game/index.tsx:190-193 | the winner check leaves a well-formed state |
| Rules.Effect | src/game/index.tsx:184-194 | the effect changes no seat's cards and not the selection, and never clears a recorded winner |
| Rules.AllPass | src/game/index.tsx:185 | every seat has passed, stated over the seats themselves as `every` does; it selects the new-hand branch of the effect (Rules.AllPassNewHand) |
| Rules.SomeEmpty | src/game/index.tsx:190 | `find` succeeds: some seat's hand is empty; it decides the winner (Rules.EffectWinner) |
| Rules.AllPassNewHand | src/game/index.tsx:184-188 | when all seats have passed, the pile and claim are cleared, all seats play with their cards, and the last claimant leads |
| Rules.EffectWinner | src/game/index.tsx:190-193 | without an all-pass, the last claimant is recorded as winner when some hand is empty, and nothing changes otherwise |
| Rules.EffectDiscards | src/game/index.tsx:184-194 | the effect only removes cards from play |
| Rules.Apply | src/game/index.tsx:232-258 | each enabled handler leaves a well-formed state |
| Rules.ApplyConserves | src/game/index.tsx:232-258 | each handler loses and gains no card, provided a human play lays cards from seat 0's hand |
| Rules.Step | src/game/index.tsx:184-194 | a step leaves a well-formed state and never clears a recorded winner |
| Rules.StepConserves | src/game/index.tsx:184-194 | a step never adds a card to play and never puts one in play twice |
| Rules.SelectionKept | src/game/index.tsx:170-178 | every step but a human play keeps the selection a duplicate-free part of seat 0's hand |
| Cards.StartHand | src/game/index.tsx:11-15 | the inactive claim: no rank, no cards, last turn -1 |
| Rules.Initial | src/game/index.tsx:25-30 | the initial state is well-formed |
| Rules.InitialDeal | src/game/index.tsx:25-26 | the cards in play at the start are exactly the built decks, each card once |
| Game.Game.constructor | src/game/index.tsx:25-30 | the seats are dealt, the turn is the first seat holding an Ace of Spades (-1 exactly when no seat holds one), the pile and claim are empty, and every card of the decks is in play once |
| Game.Game.NextTurn | src/game/index.tsx:36 | performs Rules.NextTurn on the fields |
| Game.Game.StartNewHand | src/game/index.tsx:38-45 | performs Rules.StartNewHand on the fields |
| Game.Game.PassCurrentTurn | src/game/index.tsx:47-53 | performs Rules.PassCurrentTurn on the fields |
| Game.Game.Lay | src/game/index.tsx:62-76 | performs Rules.Lay on the fields |
| Game.Game.PlayCPU | src/game/index.tsx:55-77 | performs Rules.PlayCPU on the fields |
| Game.Game.PlayTurn | src/game/index.tsx:79-112 | performs Rules.PlayTurn on the fields |
| Game.Game.Reveal | src/game/index.tsx:114-159 | performs Rules.Reveal on the fields |
| Game.Game.PassTurn | src/game/index.tsx:161-164 | performs Rules.PassTurn on the fields |
| Game.Game.Reset | src/game/index.tsx:166-168 | empties the selection and changes nothing else |
| Game.Game.AddToSelected | src/game/index.tsx:170-178 | performs Rules.AddToSelected on the fields |
| Game.Game.CheckWinner | src/game/index.tsx:190-193 | performs Rules.CheckWinner on the fields |
| Game.Game.Effect | src/game/index.tsx:184-194 | performs Rules.Effect on the fields |
| Game.Game.Act | src/game/index.tsx:184-194 | a handler followed by the effect on a turn change performs Rules.Step |

## Left out

- Rendering: all of the JSX and styling (`src/game/index.tsx:196-330`) and `IMAGES` are not modelled. The rules screen, the deck-count input and view switching (`src/app.tsx`) are not part of this model.
- `endGame`/`handleEnd` are left out: they only call back into the application.
- The `revealHand` flag only controls rendering, so it is left out.
- Reveal timing: the 2-second `delay` and the `async` suspension in `reveal` are left out. A reveal is one atomic step. During the wait the buttons stay enabled, which is a concurrency concern.
- Random numbers and floating point:
  - `Math.random` is not modelled. Its outcomes are parameters (`Rules.Draws`, shuffle keys, bluff draws), so no probability or distribution is stated, including the thresholds 0.5 and 0.67 and the shuffle's uniformity.
  - `lie` is an exact real, not a double.
- Object.keys ordering is computed (integer-like ranks ascending, then A, J, Q, K by first appearance) rather than proved against a JavaScript engine.
- Aliasing:
  - `passCurrentTurn` writes `state` into a player object that the previous state shares.
  - `reveal` writes `cards` into a fresh copy.
  - Seats are values here, so shared-object effects are not modelled. Nothing in the component reads an old state afterwards.
- Rules.HumanPlayConserves: card conservation for a human play needs the selection to be duplicate-free and held in seat 0's hand. The source does not clear `selectedCards` after a human play (`src/game/index.tsx:84-101`), so a second play with the stale selection would put the same cards in play twice.
- Rules.StepConserves: stated under the same condition on the selection. Rules.SelectionKept shows every other action keeps that condition.
- GameUtils.SortBy: stability (elements with equal keys keep their order, as `Array.prototype.sort` guarantees) is not stated; the contract is a sorted permutation.
- Rules.ToggleTwice: only for a card that was not selected. Removing a selected card and adding it back moves it to the end of the selection, so for a selected card only membership is restored (Rules.ToggleFlips).
- GameUtils.CreatePlayers is stated only for decks of 52·d cards, which is all the source builds. For a deck whose size is not a multiple of 4, the source's dealing loop (`src/game/game-utils.ts:69-71`) throws when it reaches `players[4]`, which is undefined.
