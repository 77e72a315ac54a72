/** Card and decision helpers: building, shuffling and dealing the cards,
    finding the first seat, grouping a hand by rank and the two
    computer-player heuristics. Every random draw of the game's code is a
    parameter here. */
module GameUtils {
  import opened Cards

  function Min(a: int, b: int): int { if a < b then a else b }

  // ---------------------------------------------------------------------------
  // Building the cards

  /** The card at position k of the unshuffled list: one 52-card deck after the
      other, each made of the suits Clubs, Spades, Diamonds, Hearts, each suit
      made of the ranks Ace to King. */
  function CardAt(k: nat): Card
  {
    var f := k % 52;
    Card(k, Suits[f / 13], Ranks[f % 13])
  }

  /** The first n cards of the unshuffled list. */
  function Prefix(n: nat): (cards: seq<Card>)
    ensures |cards| == n && forall k :: 0 <= k < n ==> cards[k] == CardAt(k)
  {
    if n == 0 then [] else Prefix(n - 1) + [CardAt(n - 1)]
  }

  /** The unshuffled list of `decks` decks. */
  function Deck(decks: nat): seq<Card>
  {
    Prefix(52 * decks)
  }

  /** Position of a suit and rank inside one deck. */
  function FaceIndex(s: Suit, r: Rank): nat
  {
    13 * SuitIndex(s) + RankIndex(r)
  }

  lemma CardAtPosition(i: nat, s: nat, c: nat)
    requires s < 4 && c < 13
    ensures CardAt(52 * i + 13 * s + c) == Card(52 * i + 13 * s + c, Suits[s], Ranks[c])
  {
    var n := 52 * i + 13 * s + c;
    assert n % 52 == 13 * s + c;
    assert (13 * s + c) / 13 == s && (13 * s + c) % 13 == c;
  }

  lemma SuitIndexOf(a: nat)
    requires a < 4
    ensures SuitIndex(Suits[a]) == a
  {
    if a == 0 {} else if a == 1 {} else if a == 2 {} else {}
  }

  lemma RankIndexOf(a: nat)
    requires a < 13
    ensures RankIndex(Ranks[a]) == a
  {
    if a < 4 {
      if a == 0 {} else if a == 1 {} else if a == 2 {} else {}
    } else if a < 8 {
      if a == 4 {} else if a == 5 {} else if a == 6 {} else {}
    } else if a < 11 {
      if a == 8 {} else if a == 9 {} else {}
    } else {
      if a == 11 {} else {}
    }
  }

  /** The card at position k has suit s and rank r exactly when k lies at
      s and r's place inside its deck. */
  lemma CardAtFace(k: nat, s: Suit, r: Rank)
    ensures (CardAt(k).suit == s && CardAt(k).rank == r) <==> k % 52 == FaceIndex(s, r)
  {
    var a, b := FaceOf(k);
    SuitIndexOf(a);
    RankIndexOf(b);
  }

  /** The position k % 52 inside a deck splits into a suit index a and a rank
      index b, and the card at k has those. */
  lemma FaceOf(k: nat) returns (a: nat, b: nat)
    ensures a < 4 && b < 13 && k % 52 == 13 * a + b
    ensures CardAt(k).suit == Suits[a] && CardAt(k).rank == Ranks[b]
  {
    var f := k % 52;
    a, b := f / 13, f % 13;
  }

  /** makeCards: the three nested loops push one card per deck, suit and rank. */
  method MakeCards(decks: nat) returns (arr: seq<Card>)
    ensures arr == Deck(decks)
  {
    arr := [];
    var i := 0;
    while i < decks
      invariant 0 <= i <= decks
      invariant |arr| == 52 * i
      invariant forall k :: 0 <= k < |arr| ==> arr[k] == CardAt(k)
    {
      var s := 0;
      while s < 4
        invariant 0 <= s <= 4
        invariant |arr| == 52 * i + 13 * s
        invariant forall k :: 0 <= k < |arr| ==> arr[k] == CardAt(k)
      {
        var c := 0;
        while c < 13
          invariant 0 <= c <= 13
          invariant |arr| == 52 * i + 13 * s + c
          invariant forall k :: 0 <= k < |arr| ==> arr[k] == CardAt(k)
        {
          CardAtPosition(i, s, c);
          arr := arr + [Card(|arr|, Suits[s], Ranks[c])];
          c := c + 1;
        }
        s := s + 1;
      }
      i := i + 1;
    }
  }

  /** Deck order: deck i, suit s, rank c sits at 52i + 13s + c. */
  lemma DeckLayout(decks: nat, i: nat, s: nat, c: nat)
    requires i < decks && s < 4 && c < 13
    ensures 52 * i + 13 * s + c < |Deck(decks)|
    ensures Deck(decks)[52 * i + 13 * s + c] == Card(52 * i + 13 * s + c, Suits[s], Ranks[c])
  {
    CardAtPosition(i, s, c);
  }

  lemma DivMod52(n: int, q: int, m: int)
    requires n == 52 * q + m && 0 <= m < 52
    ensures n / 52 == q && n % 52 == m
  {
  }

  lemma PrefixInit(n: nat)
    requires n > 0
    ensures Prefix(n)[..n - 1] == Prefix(n - 1) && Prefix(n)[n - 1] == CardAt(n - 1)
  {
  }

  lemma {:induction false} PrefixOccurrences(n: nat, s: Suit, r: Rank)
    ensures Occurrences(Prefix(n), s, r) == Below(n, FaceIndex(s, r))
  {
    if n > 0 {
      var m := n - 1;
      PrefixInit(n);
      PrefixOccurrences(m, s, r);
      CardAtFace(m, s, r);
      BelowStep(m, FaceIndex(s, r));
    }
  }

  /** How many of the positions 0 .. n-1 sit at place `face` of their deck. */
  function Below(n: nat, face: nat): nat
  {
    n / 52 + (if n % 52 > face then 1 else 0)
  }

  lemma BelowStep(m: nat, face: nat)
    requires face < 52
    ensures Below(m + 1, face) == Below(m, face) + (if m % 52 == face then 1 else 0)
  {
    var q, rem := m / 52, m % 52;
    if rem == 51 {
      DivMod52(m + 1, q + 1, 0);
    } else {
      DivMod52(m + 1, q, rem + 1);
    }
  }

  /** Every suit and rank occurs exactly `decks` times in the unshuffled list. */
  lemma DeckFaceCount(decks: nat, s: Suit, r: Rank)
    ensures Occurrences(Deck(decks), s, r) == decks
  {
    PrefixOccurrences(52 * decks, s, r);
    DivMod52(52 * decks, decks, 0);
    assert Below(52 * decks, FaceIndex(s, r)) == decks;
  }

  /** Card ids are the positions in the unshuffled list, so no card occurs twice. */
  lemma DeckDistinct(decks: nat)
    ensures Distinct(Deck(decks))
  {
    forall i, j | 0 <= i < j < |Deck(decks)|
      ensures Deck(decks)[i] != Deck(decks)[j]
    {
      assert Deck(decks)[i].id == i && Deck(decks)[j].id == j;
    }
  }

  // ---------------------------------------------------------------------------
  // Sorting by an integer key

  predicate SortedBy<T>(s: seq<T>, key: T -> int)
  {
    forall i, j :: 0 <= i < j < |s| ==> key(s[i]) <= key(s[j])
  }

  lemma HeadIsLeast<T>(s: seq<T>, key: T -> int)
    requires |s| > 0 && SortedBy(s, key)
    ensures forall y | y in s :: key(s[0]) <= key(y)
  {
    forall y | y in s ensures key(s[0]) <= key(y) {
      var k :| 0 <= k < |s| && s[k] == y;
    }
  }

  /** Inserts x after every element whose key is not greater than x's. */
  function InsertBy<T>(x: T, s: seq<T>, key: T -> int): (r: seq<T>)
    ensures |r| == |s| + 1 && multiset(r) == multiset(s) + multiset{x}
  {
    if s == [] || key(x) < key(s[0]) then
      [x] + s
    else
      assert s == [s[0]] + s[1..];
      [s[0]] + InsertBy(x, s[1..], key)
  }

  /** Inserting into a sorted sequence keeps it sorted. */
  lemma {:induction false} InsertBySorted<T>(x: T, s: seq<T>, key: T -> int)
    requires SortedBy(s, key)
    ensures forall y | y in InsertBy(x, s, key) :: y == x || y in s
    ensures SortedBy(InsertBy(x, s, key), key)
  {
    if s != [] && key(s[0]) <= key(x) {
      var rest := InsertBy(x, s[1..], key);
      InsertBySorted(x, s[1..], key);
      HeadIsLeast(s, key);
      assert forall j | 0 <= j < |rest| :: key(s[0]) <= key(rest[j]) by {
        forall j | 0 <= j < |rest| ensures key(s[0]) <= key(rest[j]) {
          assert rest[j] in rest;
        }
      }
    }
  }

  /** An insertion sort: the result is a permutation of s ordered by key. */
  function SortBy<T>(s: seq<T>, key: T -> int): (r: seq<T>)
    ensures |r| == |s| && multiset(r) == multiset(s)
    ensures SortedBy(r, key)
  {
    if s == [] then []
    else
      var sorted := SortBy(s[..|s| - 1], key);
      InsertBySorted(s[|s| - 1], sorted, key);
      assert s == s[..|s| - 1] + [s[|s| - 1]];
      InsertBy(s[|s| - 1], sorted, key)
  }

  function Values<T>(ps: seq<(T, int)>): seq<T>
  {
    seq(|ps|, i requires 0 <= i < |ps| => ps[i].0)
  }

  function Zip<T>(vs: seq<T>, ks: seq<int>): seq<(T, int)>
    requires |vs| == |ks|
  {
    seq(|vs|, i requires 0 <= i < |vs| => (vs[i], ks[i]))
  }

  lemma RemoveAt<U>(qs: seq<U>, j: nat)
    requires j < |qs|
    ensures multiset(qs) == multiset(qs[..j] + qs[j + 1..]) + multiset{qs[j]}
  {
    assert qs == qs[..j] + [qs[j]] + qs[j + 1..];
  }
  lemma IndexOf<U>(qs: seq<U>, x: U) returns (j: nat)
    requires x in multiset(qs)
    ensures j < |qs| && qs[j] == x
  {
    assert x in qs;
    j :| 0 <= j < |qs| && qs[j] == x;
  }

  lemma DropFirst<U>(qs: seq<U>)
    requires |qs| > 0
    ensures qs[..0] + qs[1..] == qs[1..]
  {
  }

  lemma Cancel<U>(a: multiset<U>, b: multiset<U>, x: U)
    requires a + multiset{x} == b + multiset{x}
    ensures a == b
  {
    forall z ensures a[z] == b[z] {
      assert (a + multiset{x})[z] == (b + multiset{x})[z];
    }
  }
  lemma ValuesRemoveAt<T>(qs: seq<(T, int)>, j: nat)
    requires j < |qs|
    ensures multiset(Values(qs)) == multiset(Values(qs[..j] + qs[j + 1..])) + multiset{qs[j].0}
  {
    RemoveAt(Values(qs), j);
    assert Values(qs)[..j] + Values(qs)[j + 1..] == Values(qs[..j] + qs[j + 1..]);
  }
  /** Permuting the (value, key) pairs permutes the values. */
  lemma {:induction false} ValuesPermutation<T>(ps: seq<(T, int)>, qs: seq<(T, int)>)
    requires multiset(ps) == multiset(qs)
    ensures multiset(Values(ps)) == multiset(Values(qs))
    decreases |ps|
  {
    if ps == [] {
      NoneLeft(qs);
    } else {
      var p := ps[0];
      var j := IndexOf(qs, p);
      var rest := qs[..j] + qs[j + 1..];
      assert multiset(ps[1..]) == multiset(rest) by {
        RemoveAt(qs, j);
        RemoveAt(ps, 0);
        DropFirst(ps);
        Cancel(multiset(ps[1..]), multiset(rest), p);
      }
      ValuesPermutation(ps[1..], rest);
      assert multiset(Values(ps)) == multiset(Values(ps[1..])) + multiset{p.0} by {
        ValuesRemoveAt(ps, 0);
        DropFirst(ps);
      }
      assert multiset(Values(qs)) == multiset(Values(rest)) + multiset{p.0} by {
        ValuesRemoveAt(qs, j);
      }
    }
  }

  lemma NoneLeft<U>(qs: seq<U>)
    requires multiset(qs) == multiset{}
    ensures qs == []
  {
    assert |qs| == |multiset(qs)|;
  }

  /** shuffle: decorate each element with its random key, sort by the key,
      undecorate. The input is a value, so it is not modified. */
  function Shuffle<T>(arr: seq<T>, keys: seq<int>): (r: seq<T>)
    requires |keys| == |arr|
    ensures |r| == |arr| && multiset(r) == multiset(arr)
  {
    var decorated := Zip(arr, keys);
    var sorted := SortBy(decorated, (p: (T, int)) => p.1);
    assert Values(decorated) == arr;
    ValuesPermutation(sorted, decorated);
    Values(sorted)
  }

  // ---------------------------------------------------------------------------
  // Grouping a hand by rank

  /** The cards of `deck` with rank r, in the order of `deck`. */
  function OfRank(deck: seq<Card>, r: Rank): (g: seq<Card>)
    ensures forall c :: c in g <==> c in deck && c.rank == r
    ensures multiset(g) <= multiset(deck)
  {
    if deck == [] then []
    else
      var init, last := deck[..|deck| - 1], deck[|deck| - 1];
      assert deck == init + [last];
      OfRank(init, r) + (if last.rank == r then [last] else [])
  }

  /** A hand is its own group of rank r exactly when every card has rank r. */
  lemma {:induction false} OfRankAll(deck: seq<Card>, r: Rank)
    ensures OfRank(deck, r) == deck <==> forall c | c in deck :: c.rank == r
  {
    if deck != [] {
      var init, last := deck[..|deck| - 1], deck[|deck| - 1];
      assert deck == init + [last];
      OfRankAll(init, r);
    }
  }

  function RanksOf(deck: seq<Card>): set<Rank>
  {
    set c | c in deck :: c.rank
  }

  /** The groups built by groupCardsByType: one entry per rank held. */
  function Grouped(deck: seq<Card>): map<Rank, seq<Card>>
  {
    map r | r in RanksOf(deck) :: OfRank(deck, r)
  }

  /** Each card of the hand is in exactly one group, its rank's, and every
      group is non-empty and holds only cards of its rank. */
  lemma GroupsPartition(deck: seq<Card>)
    ensures forall r :: r in Grouped(deck) <==> exists c :: c in deck && c.rank == r
    ensures forall r, c | r in Grouped(deck) :: c in Grouped(deck)[r] <==> c in deck && c.rank == r
    ensures forall r | r in Grouped(deck) :: Grouped(deck)[r] != []
  {
    forall r | r in Grouped(deck) ensures Grouped(deck)[r] != [] {
      var c :| c in deck && c.rank == r;
      assert c in Grouped(deck)[r];
    }
  }

  lemma OfRankSnoc(deck: seq<Card>, c: Card, r: Rank)
    ensures OfRank(deck + [c], r) == OfRank(deck, r) + (if c.rank == r then [c] else [])
  {
    assert (deck + [c])[..|deck|] == deck;
  }

  lemma {:induction false} OfRankEmpty(deck: seq<Card>, r: Rank)
    requires r !in RanksOf(deck)
    ensures OfRank(deck, r) == []
  {
    if deck != [] {
      var init, last := deck[..|deck| - 1], deck[|deck| - 1];
      assert deck == init + [last];
      assert RanksOf(init) <= RanksOf(deck);
      assert last.rank in RanksOf(deck);
      OfRankEmpty(init, r);
    }
  }

  /** One step of the reduce in groupCardsByType: the card joins the end of
      its rank's group, which is created when missing; other groups stay. */
  function Push(groups: map<Rank, seq<Card>>, card: Card): (g: map<Rank, seq<Card>>)
    ensures g.Keys == groups.Keys + {card.rank}
    ensures g[card.rank] == (if card.rank in groups then groups[card.rank] else []) + [card]
    ensures forall r | r in groups && r != card.rank :: g[r] == groups[r]
  {
    if card.rank in groups then groups[card.rank := groups[card.rank] + [card]]
    else groups[card.rank := [card]]
  }

  lemma RanksOfSnoc(deck: seq<Card>, c: Card)
    ensures RanksOf(deck + [c]) == RanksOf(deck) + {c.rank}
  {
    forall r | r in RanksOf(deck + [c]) ensures r in RanksOf(deck) + {c.rank} {
      var d :| d in deck + [c] && d.rank == r;
      if d != c { assert d in deck; }
    }
    forall r | r in RanksOf(deck) ensures r in RanksOf(deck + [c]) {
      var d :| d in deck && d.rank == r;
      assert d in deck + [c];
    }
    assert c in deck + [c];
  }
  lemma GroupedSnocAt(deck: seq<Card>, c: Card, r: Rank)
    requires r in RanksOf(deck) + {c.rank}
    ensures r in Push(Grouped(deck), c)
    ensures OfRank(deck + [c], r) == Push(Grouped(deck), c)[r]
  {
    var g := Grouped(deck);
    OfRankSnoc(deck, c, r);
    if r == c.rank && r !in RanksOf(deck) {
      OfRankEmpty(deck, r);
    }
  }

  lemma GroupedSnoc(deck: seq<Card>, c: Card)
    ensures Grouped(deck + [c]) == Push(Grouped(deck), c)
  {
    var g', h := Grouped(deck + [c]), Push(Grouped(deck), c);
    RanksOfSnoc(deck, c);
    assert h.Keys == RanksOf(deck) + {c.rank};
    forall r | r in g' ensures r in h && g'[r] == h[r] {
      GroupedSnocAt(deck, c, r);
    }
  }

  lemma TakeOneMore<T>(s: seq<T>, i: nat)
    requires i < |s|
    ensures s[..i + 1] == s[..i] + [s[i]]
  {
  }

  /** groupCardsByType: the reduce pushes each card onto its rank's group. */
  method GroupCardsByType(deck: seq<Card>) returns (groups: map<Rank, seq<Card>>)
    ensures groups == Grouped(deck)
  {
    groups := map[];
    var i := 0;
    while i < |deck|
      invariant 0 <= i <= |deck|
      invariant groups == Grouped(deck[..i])
    {
      var card := deck[i];
      TakeOneMore(deck, i);
      GroupedSnoc(deck[..i], card);
      if card.rank in groups {
        groups := groups[card.rank := groups[card.rank] + [card]];
      } else {
        groups := groups[card.rank := [card]];
      }
      i := i + 1;
    }
    assert deck[..i] == deck;
  }

  /** Sum of the sizes of the groups of the ranks rs. */
  function GroupSizes(deck: seq<Card>, rs: seq<Rank>): nat
  {
    if rs == [] then 0 else |OfRank(deck, rs[0])| + GroupSizes(deck, rs[1..])
  }

  lemma {:induction false} GroupSizesSnoc(deck: seq<Card>, c: Card, rs: seq<Rank>)
    requires Distinct(rs)
    ensures GroupSizes(deck + [c], rs) == GroupSizes(deck, rs) + (if c.rank in rs then 1 else 0)
  {
    if rs != [] {
      OfRankSnoc(deck, c, rs[0]);
      assert Distinct(rs[1..]);
      GroupSizesSnoc(deck, c, rs[1..]);
      assert c.rank in rs <==> c.rank == rs[0] || c.rank in rs[1..];
      assert c.rank == rs[0] ==> c.rank !in rs[1..];
    }
  }

  lemma RanksDistinct()
    ensures Distinct(Ranks)
  {
    forall i, j | 0 <= i < j < |Ranks| ensures Ranks[i] != Ranks[j] {
      RankIndexOf(i);
      RankIndexOf(j);
    }
  }

  lemma SplitLast<T>(s: seq<T>)
    requires |s| > 0
    ensures s == s[..|s| - 1] + [s[|s| - 1]]
  {
  }

  lemma GroupSizesEmpty(rs: seq<Rank>)
    ensures GroupSizes([], rs) == 0
  {
  }

  /** Each card lands in exactly one group: the group sizes add up to the hand size. */
  lemma {:induction false} GroupSizesTotal(deck: seq<Card>)
    ensures GroupSizes(deck, Ranks) == |deck|
  {
    if deck == [] {
      GroupSizesEmpty(Ranks);
    } else {
      var init, last := deck[..|deck| - 1], deck[|deck| - 1];
      SplitLast(deck);
      GroupSizesTotal(init);
      RanksDistinct();
      GroupSizesSnoc(init, last, Ranks);
      assert Ranks[RankIndex(last.rank)] == last.rank;
    }
  }

  // ---------------------------------------------------------------------------
  // The order of Object.keys over the groups

  const NumericRanks: seq<Rank> := [Two, Three, Four, Five, Six, Seven, Eight, Nine, Ten]

  /** Ranks whose name is an array index ("2" to "10"). */
  predicate IsNumeric(r: Rank)
  {
    r != Ace && r != Jack && r != Queen && r != King
  }

  /** The ranks of rs held in deck, in the order of rs. */
  function HeldRanks(deck: seq<Card>, rs: seq<Rank>): (h: seq<Rank>)
    ensures forall r :: r in h <==> r in rs && r in RanksOf(deck)
    ensures Distinct(rs) ==> Distinct(h)
  {
    if rs == [] then []
    else
      var rest := HeldRanks(deck, rs[1..]);
      assert Distinct(rs) ==> Distinct(rs[1..]) && rs[0] !in rs[1..];
      if rs[0] in RanksOf(deck) then [rs[0]] + rest else rest
  }

  /** The ranks held in deck, each once, in the order of their first card. */
  function FirstSeen(deck: seq<Card>): (seen: seq<Rank>)
    ensures forall r :: r in seen <==> r in RanksOf(deck)
    ensures Distinct(seen)
  {
    if deck == [] then []
    else
      var init, last := deck[..|deck| - 1], deck[|deck| - 1];
      assert deck == init + [last];
      var p := FirstSeen(init);
      if last.rank in p then p else p + [last.rank]
  }

  function Letters(rs: seq<Rank>): (l: seq<Rank>)
    ensures forall r :: r in l <==> r in rs && !IsNumeric(r)
    ensures Distinct(rs) ==> Distinct(l)
  {
    if rs == [] then []
    else
      var rest := Letters(rs[1..]);
      assert Distinct(rs) ==> Distinct(rs[1..]) && rs[0] !in rs[1..];
      if IsNumeric(rs[0]) then rest else [rs[0]] + rest
  }

  lemma NumericRanksComplete(r: Rank)
    requires IsNumeric(r)
    ensures r in NumericRanks
  {
    match r
    case Ace =>
    case Two => assert NumericRanks[0] == r;
    case Three => assert NumericRanks[1] == r;
    case Four => assert NumericRanks[2] == r;
    case Five => assert NumericRanks[3] == r;
    case Six => assert NumericRanks[4] == r;
    case Seven => assert NumericRanks[5] == r;
    case Eight => assert NumericRanks[6] == r;
    case Nine => assert NumericRanks[7] == r;
    case Ten => assert NumericRanks[8] == r;
    case Jack =>
    case Queen =>
    case King =>
  }

  lemma DistinctConcat<T>(a: seq<T>, b: seq<T>)
    requires Distinct(a) && Distinct(b)
    requires forall x | x in a :: x !in b
    ensures Distinct(a + b)
  {
    forall i, j | 0 <= i < j < |a + b| ensures (a + b)[i] != (a + b)[j] {
      if i < |a| && j >= |a| {
        assert (a + b)[i] in a && (a + b)[j] in b;
      }
    }
  }

  /** Object.keys of the groups: integer-like keys ascending, then the other
      keys in insertion order, which is the order of their first card. */
  function KeyOrder(deck: seq<Card>): (keys: seq<Rank>)
    ensures forall r :: r in keys <==> r in RanksOf(deck)
    ensures Distinct(keys)
  {
    var numeric := HeldRanks(deck, NumericRanks);
    var letters := Letters(FirstSeen(deck));
    assert forall r | IsNumeric(r) :: r in NumericRanks by {
      forall r | IsNumeric(r) ensures r in NumericRanks {
        NumericRanksComplete(r);
      }
    }
    assert Distinct(NumericRanks);
    DistinctConcat(numeric, letters);
    numeric + letters
  }

  // ---------------------------------------------------------------------------
  // The computer-player heuristics

  /** A play: the claimed rank (None for the source's null) and the cards. */
  datatype Choice = Choice(rank: Option<Rank>, cards: seq<Card>)

  /** pickRandomCards: the first `pick` cards, where pick = ceil(random * num). */
  function PickRandomCards(deck: seq<Card>, num: nat, pick: nat): (cards: seq<Card>)
    requires pick <= num
    ensures cards <= deck
    ensures |cards| == Min(pick, |deck|) && |cards| <= num
  {
    deck[..Min(pick, |deck|)]
  }

  lemma PrefixSubMultiset(deck: seq<Card>, k: nat)
    requires k <= |deck|
    ensures multiset(deck[..k]) <= multiset(deck)
  {
    assert deck == deck[..k] + deck[k..];
  }

  /** Key of a rank in the sort of chooseFirstHand: larger groups first. */
  function SizeKey(deck: seq<Card>): (key: Rank -> int)
    ensures forall r, q :: key(r) <= key(q) <==> |OfRank(deck, q)| <= |OfRank(deck, r)|
  {
    r => -|OfRank(deck, r)|
  }

  /** The largest group's rank comes first after sorting the keys. */
  lemma FirstKeyIsLargest(deck: seq<Card>, sorted: seq<Rank>, q: Rank)
    requires |sorted| > 0 && SortedBy(sorted, SizeKey(deck))
    requires multiset(sorted) == multiset(KeyOrder(deck))
    ensures |OfRank(deck, q)| <= |OfRank(deck, sorted[0])|
  {
    if q in Grouped(deck) {
      assert q in multiset(sorted);
      var j :| 0 <= j < |sorted| && sorted[j] == q;
      assert j == 0 || SizeKey(deck)(sorted[0]) <= SizeKey(deck)(sorted[j]);
    } else {
      OfRankEmpty(deck, q);
    }
  }

  /** The rank keys of a non-empty hand, sorted by decreasing group size:
      there is at least one, each names a group, and the first names a
      largest group. */
  lemma SortedKeys(deck: seq<Card>)
    requires |deck| > 0
    ensures |SortBy(KeyOrder(deck), SizeKey(deck))| == |KeyOrder(deck)| > 0
    ensures forall k | k in SortBy(KeyOrder(deck), SizeKey(deck)) :: k in Grouped(deck)
    ensures forall q :: |OfRank(deck, q)| <= |OfRank(deck, SortBy(KeyOrder(deck), SizeKey(deck))[0])|
  {
    var keys := SortBy(KeyOrder(deck), SizeKey(deck));
    assert deck[0].rank in KeyOrder(deck);
    assert deck[0].rank in multiset(keys);
    forall k | k in keys ensures k in Grouped(deck) {
      assert k in multiset(KeyOrder(deck));
    }
    forall q ensures |OfRank(deck, q)| <= |OfRank(deck, keys[0])| {
      FirstKeyIsLargest(deck, keys, q);
    }
  }

  /** chooseFirstHand, used when no claim is active. On a bluff (shouldLie)
      it lays the first `pick` cards and claims the rank of the one at
      cardIndex; otherwise it sorts the group keys by decreasing size (in
      place, so `keys` and `sorted` are one array) and lays the whole group of
      the first key, or of the key at keyIndex when randomKey is drawn. */
  function ChooseFirstHand(deck: seq<Card>, shouldLie: bool, pick: nat, cardIndex: nat,
                           randomKey: bool, keyIndex: nat): (r: Choice)
    requires |deck| > 0
    requires shouldLie ==> 1 <= pick <= 4 && cardIndex < Min(pick, |deck|)
    requires !shouldLie && randomKey ==> keyIndex < |KeyOrder(deck)|
    ensures r.rank.Some? && |r.cards| > 0
    ensures multiset(r.cards) <= multiset(deck)
    ensures shouldLie ==> r.cards <= deck && |r.cards| == Min(pick, |deck|)
                          && exists c :: c in r.cards && r.rank == Some(c.rank)
    ensures !shouldLie ==> r.cards == OfRank(deck, r.rank.value)
    ensures !shouldLie && !randomKey ==> forall q :: |OfRank(deck, q)| <= |r.cards|
  {
    if shouldLie then
      var cards := PickRandomCards(deck, 4, pick);
      var card := cards[cardIndex];
      PrefixSubMultiset(deck, |cards|);
      Choice(Some(card.rank), cards)
    else
      var groups := Grouped(deck);
      var keys := SortBy(KeyOrder(deck), SizeKey(deck));
      SortedKeys(deck);
      var randomRank := if randomKey then keys[keyIndex] else keys[0];
      assert randomRank in keys;
      Choice(Some(randomRank), groups[randomRank])
  }

  /** chooseCards, used when a claim of rank `rank` is active. On a bluff it
      lays the first `pick` cards; otherwise the first `size` cards of the
      claimed rank's group, where size = floor(random * group size), or
      nothing when no such group exists. The claimed rank is kept. */
  function ChooseCards(deck: seq<Card>, rank: Option<Rank>, shouldLie: bool, pick: nat, size: nat): (r: Choice)
    requires shouldLie ==> pick <= 4
    requires !shouldLie && rank.Some? && |OfRank(deck, rank.value)| > 0
             ==> size < |OfRank(deck, rank.value)|
    ensures r.rank == rank
    ensures multiset(r.cards) <= multiset(deck)
    ensures shouldLie ==> r.cards <= deck && |r.cards| == Min(pick, |deck|)
    ensures !shouldLie ==> forall c :: c in r.cards ==> Some(c.rank) == rank
    ensures !shouldLie && rank.Some? ==>
              r.cards <= OfRank(deck, rank.value)
              && (r.cards == [] || |r.cards| < |OfRank(deck, rank.value)|)
    ensures !shouldLie && (rank.None? || OfRank(deck, rank.value) == []) ==> r.cards == []
  {
    if shouldLie then
      var cards := PickRandomCards(deck, 4, pick);
      PrefixSubMultiset(deck, |cards|);
      Choice(rank, cards)
    else
      var groups := Grouped(deck);
      if rank.Some? && rank.value in groups then
        var group := groups[rank.value];
        PrefixSubMultiset(group, size);
        assert forall c | c in group[..size] :: c in group;
        Choice(rank, group[..size])
      else
        assert rank.Some? ==> OfRank(deck, rank.value) == [] by {
          if rank.Some? {
            OfRankEmpty(deck, rank.value);
          }
        }
        Choice(rank, [])
  }

  // ---------------------------------------------------------------------------
  // Dealing and the first seat

  /** The cards createPlayers deals to `seat`: the seat-th of four equal
      consecutive slices of the shuffled deck. */
  function SeatShare(deck: seq<Card>, seat: nat): (share: seq<Card>)
    requires seat < 4
    ensures |share| == |deck| / 4
  {
    var m := |deck| / 4;
    assert seat * m + m <= 4 * m <= |deck|;
    deck[seat * m..seat * m + m]
  }

  /** The four shares together are the whole deck. */
  lemma SharesCover(deck: seq<Card>)
    requires |deck| % 4 == 0
    ensures SeatShare(deck, 0) + SeatShare(deck, 1) + SeatShare(deck, 2) + SeatShare(deck, 3) == deck
    ensures multiset(SeatShare(deck, 0)) + multiset(SeatShare(deck, 1)) + multiset(SeatShare(deck, 2))
              + multiset(SeatShare(deck, 3)) == multiset(deck)
  {
    var m := |deck| / 4;
    assert |deck| == 4 * m;
    QuarterSlices(deck, m);
    ShareIs(deck, m, 0, 0, m);
    ShareIs(deck, m, 1, m, 2 * m);
    ShareIs(deck, m, 2, 2 * m, 3 * m);
    ShareIs(deck, m, 3, 3 * m, 4 * m);
    assert deck == deck[0..m] + deck[m..2 * m] + deck[2 * m..3 * m] + deck[3 * m..4 * m];
  }

  lemma ShareIs(deck: seq<Card>, m: nat, seat: nat, lo: nat, hi: nat)
    requires |deck| == 4 * m && seat < 4 && lo == seat * m && hi == lo + m
    ensures hi <= |deck| && SeatShare(deck, seat) == deck[lo..hi]
  {
    DivMod4(|deck|, m);
  }

  lemma QuarterSlices<T>(s: seq<T>, m: nat)
    requires |s| == 4 * m
    ensures multiset(s[0..m]) + multiset(s[m..2 * m]) + multiset(s[2 * m..3 * m]) + multiset(s[3 * m..4 * m])
              == multiset(s)
  {
    var h, t := s[..2 * m], s[2 * m..];
    assert s == h + t;
    assert h == s[0..m] + s[m..2 * m];
    assert t == s[2 * m..3 * m] + s[3 * m..4 * m];
  }

  /** A seat before dealing: no cards, state Play, bluff probability
      (0.1 + draw) / 2 for a random draw in [0, 1). */
  function NewSeat(draw: real): (p: Player)
    requires 0.0 <= draw < 1.0
    ensures p.cards == [] && p.state == Play && 0.05 <= p.lie < 0.55
  {
    Player([], Play, (0.1 + draw) / 2.0)
  }

  /** createPlayers: shuffles the cards of `decks` decks with the given sort
      keys and deals floor(n / 4) consecutive cards to each of four seats,
      which all start in state Play. draws[i] is the random number behind seat
      i's bluff probability (0.1 + draws[i]) / 2. */
  method CreatePlayers(decks: nat, keys: seq<int>, draws: seq<real>) returns (players: seq<Player>)
    requires |keys| == 52 * decks
    requires |draws| == 4 && forall i :: 0 <= i < 4 ==> 0.0 <= draws[i] < 1.0
    ensures |players| == 4
    ensures forall i :: 0 <= i < 4 ==> players[i].state == Play && 0.05 <= players[i].lie < 0.55
    ensures forall i :: 0 <= i < 4 ==> players[i].cards == SeatShare(Shuffle(Deck(decks), keys), i)
  {
    var deck := MakeCards(decks);
    deck := Shuffle(deck, keys);
    QuarterDeck(decks);
    var seats := [NewSeat(draws[0]), NewSeat(draws[1]), NewSeat(draws[2]), NewSeat(draws[3])];
    players := DealShares(deck, seats);
  }

  /** A multi-deck splits into four equal quarters of 13 cards per deck. */
  lemma QuarterDeck(decks: nat)
    ensures |Deck(decks)| == 4 * (13 * decks)
    ensures |Deck(decks)| % 4 == 0 && |Deck(decks)| / 4 == 13 * decks
  {
    var m := 13 * decks;
    assert |Deck(decks)| == 4 * m;
    DivMod4(4 * m, m);
  }

  lemma DivMod4(n: int, q: int)
    requires n == 4 * q
    ensures n % 4 == 0 && n / 4 == q
  {
  }

  /** The dealing loop of createPlayers: seat i receives the slice
      [j, j + end) of the deck, where j steps by end = floor(n / 4). */
  method DealShares(deck: seq<Card>, seats: seq<Player>) returns (players: seq<Player>)
    requires |seats| == 4 && |deck| % 4 == 0
    requires forall k :: 0 <= k < 4 ==> seats[k].cards == []
    ensures |players| == 4
    ensures forall k :: 0 <= k < 4 ==> players[k] == seats[k].(cards := SeatShare(deck, k))
  {
    players := seats;
    var end := |deck| / 4;
    assert |deck| == 4 * end;
    var i, j := 0, 0;
    while j < |deck|
      invariant 0 <= i <= 4 && j == i * end && j <= |deck|
      invariant |players| == 4
      invariant forall k :: 0 <= k < i ==> players[k] == seats[k].(cards := SeatShare(deck, k))
      invariant forall k :: i <= k < 4 ==> players[k] == seats[k]
      decreases |deck| - j
    {
      LoopSeat(i, end);
      assert deck[j..j + end] == SeatShare(deck, i);
      players := players[i := players[i].(cards := deck[j..j + end])];
      i := i + 1;
      j := j + end;
    }
    if |deck| == 0 {
      assert forall k :: 0 <= k < 4 ==> SeatShare(deck, k) == [];
    } else {
      LoopSeat(i, end);
      assert i == 4;
    }
  }

  /** The arithmetic of createPlayers' loop: j = i * end stays below 4 * end
      exactly while i < 4. */
  lemma LoopSeat(i: nat, end: nat)
    requires end > 0
    ensures i * end < 4 * end <==> i < 4
    ensures i * end + end == (i + 1) * end
  {
    if i >= 4 {
      assert i * end == 4 * end + (i - 4) * end;
    }
  }

  /** cards.find(c => c.suit === "S" && c.card === "A") finds a card. */
  predicate HasAceOfSpades(cards: seq<Card>)
    ensures HasAceOfSpades(cards) <==> exists i :: 0 <= i < |cards| && cards[i].suit == Spades && cards[i].rank == Ace
  {
    exists c :: c in cards && c.suit == Spades && c.rank == Ace
  }

  /** findStart: the lowest seat holding an Ace of Spades, or -1 when none does. */
  method FindStart(players: seq<Player>) returns (seat: int)
    ensures -1 <= seat < |players|
    ensures seat == -1 <==> forall i :: 0 <= i < |players| ==> !HasAceOfSpades(players[i].cards)
    ensures seat >= 0 ==> HasAceOfSpades(players[seat].cards)
                          && forall i :: 0 <= i < seat ==> !HasAceOfSpades(players[i].cards)
  {
    var i := 0;
    while i < |players|
      invariant 0 <= i <= |players|
      invariant forall k :: 0 <= k < i ==> !HasAceOfSpades(players[k].cards)
    {
      if HasAceOfSpades(players[i].cards) {
        return i;
      }
      i := i + 1;
    }
    return -1;
  }

  /** Every card of a deck that splits into quarters lands in the share of
      some seat. */
  lemma InShare(deck: seq<Card>, j: nat) returns (seat: nat)
    requires |deck| % 4 == 0 && j < |deck|
    ensures seat < 4 && deck[j] in SeatShare(deck, seat)
  {
    var m := |deck| / 4;
    seat := j / m;
    assert seat * m <= j < seat * m + m;
    LoopSeat(seat, m);
    assert deck[j] == SeatShare(deck, seat)[j - seat * m];
  }

  /** The first deck's Ace of Spades, at position 13 of the unshuffled list. */
  lemma AceOfSpadesIn(decks: nat) returns (ace: Card)
    requires decks >= 1
    ensures ace in Deck(decks) && ace.suit == Spades && ace.rank == Ace
  {
    ace := CardAt(13);
    assert ace == Deck(decks)[13];
  }

  /** With at least one deck, some seat is dealt an Ace of Spades, so
      findStart does not return -1. */
  lemma AceOfSpadesDealt(decks: nat, keys: seq<int>, players: seq<Player>)
    requires decks >= 1 && |keys| == 52 * decks && |players| == 4
    requires forall i :: 0 <= i < 4 ==> players[i].cards == SeatShare(Shuffle(Deck(decks), keys), i)
    ensures exists i :: 0 <= i < 4 && HasAceOfSpades(players[i].cards)
  {
    var deck := Shuffle(Deck(decks), keys);
    var ace := AceOfSpadesIn(decks);
    assert ace in multiset(Deck(decks));
    assert ace in multiset(deck);
    var j :| 0 <= j < |deck| && deck[j] == ace;
    QuarterDeck(decks);
    var seat := InShare(deck, j);
    assert HasAceOfSpades(players[seat].cards);
  }
}
