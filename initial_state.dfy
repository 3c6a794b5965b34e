/** Deck building and the opening game record: the 40-card random deck, the
    imported (saved) deck, the Fisher-Yates shuffle, the 5-card opening hand and
    `initialGameState`. `Math.random` is replaced by supplied draw sequences:
    `picks[k]` is the catalog index of the k-th pushed card and `swaps[i]` is the
    index j (0 <= j <= i) the shuffle exchanges with position i. */
module InitialState {
  import opened CardTypes
  import opened CardText
  import opened Zones
  import Catalog

  const DeckSize: nat := 40
  const OpeningHand: nat := 5
  const StartHp: int := 2000
  const StartSpecialCardHp: int := 20
  const StartEnergy: int := 0
  const StartMaxEnergy: int := 10

  /** Draws for `Math.floor(Math.random() * cards.length)`, one per pushed card. */
  predicate ValidPicks(picks: seq<nat>, catalogSize: nat) {
    |picks| == DeckSize && forall k :: 0 <= k < |picks| ==> picks[k] < catalogSize
  }

  /** Draws for `Math.floor(Math.random() * (i + 1))`, indexed by the loop's `i`. */
  predicate ValidSwaps(swaps: seq<nat>, n: nat) {
    |swaps| == n && forall i :: 0 <= i < n ==> swaps[i] <= i
  }

  /** The supplied random draws for one deck. */
  datatype Randomness = Randomness(picks: seq<nat>, swaps: seq<nat>)

  /** The cards the push loop collects. */
  function Picked(cards: seq<Card>, picks: seq<nat>): (r: seq<Card>)
    requires forall k :: 0 <= k < |picks| ==> picks[k] < |cards|
    ensures |r| == |picks| && forall k :: 0 <= k < |picks| ==> r[k] == cards[picks[k]]
  {
    seq(|picks|, k requires 0 <= k < |picks| => cards[picks[k]])
  }

  /** `cs.map((card, index) => ({ ...card, id: `${card.id}${sep}${index}` }))`. */
  function WithInstanceIds(cs: seq<Card>, sep: string): (r: seq<Card>)
    ensures |r| == |cs|
    ensures forall k :: 0 <= k < |cs| ==> r[k] == cs[k].(id := Tag(cs[k].id, sep, k))
  {
    seq(|cs|, k requires 0 <= k < |cs| => cs[k].(id := Tag(cs[k].id, sep, k)))
  }

  /** A separator ending in '-' gives pairwise distinct instance ids: the text after the
      last '-' is the position. */
  lemma InstanceIdsDistinct(cs: seq<Card>, sep: string)
    requires |sep| > 0 && sep[|sep| - 1] == '-'
    ensures DistinctIds(WithInstanceIds(cs, sep))
  {
    var r := WithInstanceIds(cs, sep);
    forall i, j | 0 <= i < j < |r|
      ensures r[i].id != r[j].id
    {
      if r[i].id == r[j].id {
        TagPosition(cs[i].id, cs[j].id, sep, i, j);
      }
    }
  }

  function Swap(s: seq<Card>, i: nat, j: nat): (r: seq<Card>)
    requires i < |s| && j < |s|
    ensures |r| == |s|
  {
    s[i := s[j]][j := s[i]]
  }

  /** A swap keeps the cards and, with them, distinct ids. */
  lemma SwapKeeps(s: seq<Card>, i: nat, j: nat)
    requires i < |s| && j < |s|
    ensures multiset(Swap(s, i, j)) == multiset(s)
    ensures DistinctIds(s) ==> DistinctIds(Swap(s, i, j))
  {
    var r := Swap(s, i, j);
    if DistinctIds(s) {
      forall a, b | 0 <= a < b < |r| ensures r[a].id != r[b].id {
        var a' := if a == i then j else if a == j then i else a;
        var b' := if b == i then j else if b == j then i else b;
        assert r[a] == s[a'] && r[b] == s[b'] && a' != b';
      }
    }
  }

  /** The Fisher-Yates passes for positions i, i - 1, ..., 1. */
  function ShuffleFrom(s: seq<Card>, swaps: seq<nat>, i: int): (r: seq<Card>)
    requires ValidSwaps(swaps, |s|) && i < |s|
    ensures |r| == |s|
    decreases i
  {
    if i <= 0 then s else ShuffleFrom(Swap(s, i, swaps[i]), swaps, i - 1)
  }

  /** The passes only reorder: same cards, and distinct ids stay distinct. */
  lemma {:induction false} ShuffleFromKeeps(s: seq<Card>, swaps: seq<nat>, i: int)
    requires ValidSwaps(swaps, |s|) && i < |s|
    ensures multiset(ShuffleFrom(s, swaps, i)) == multiset(s)
    ensures DistinctIds(s) ==> DistinctIds(ShuffleFrom(s, swaps, i))
    decreases i
  {
    if i > 0 {
      SwapKeeps(s, i, swaps[i]);
      ShuffleFromKeeps(Swap(s, i, swaps[i]), swaps, i - 1);
    }
  }

  /** The whole shuffle: every position from the last one down to 1. */
  function Shuffle(s: seq<Card>, swaps: seq<nat>): (r: seq<Card>)
    requires ValidSwaps(swaps, |s|)
    ensures |r| == |s| && multiset(r) == multiset(s)
    ensures DistinctIds(s) ==> DistinctIds(r)
  {
    ShuffleFromKeeps(s, swaps, |s| - 1);
    ShuffleFrom(s, swaps, |s| - 1)
  }

  /** The in-place Fisher-Yates loop. */
  method ShuffleInPlace(a: array<Card>, swaps: seq<nat>)
    requires ValidSwaps(swaps, a.Length)
    modifies a
    ensures a[..] == Shuffle(old(a[..]), swaps)
  {
    var i := a.Length - 1;
    while i > 0
      invariant -1 <= i < a.Length
      invariant ShuffleFrom(a[..], swaps, i) == Shuffle(old(a[..]), swaps)
    {
      var j := swaps[i];
      ghost var before := a[..];
      ShuffleStep(before, swaps, i);
      var t := a[i];
      a[i] := a[j];
      a[j] := t;
      assert a[..] == before[i := before[j]][j := before[i]];
      i := i - 1;
    }
  }

  /** One round of the loop: swapping positions `i` and `swaps[i]`, then shuffling below `i`. */
  lemma ShuffleStep(s: seq<Card>, swaps: seq<nat>, i: int)
    requires ValidSwaps(swaps, |s|) && 0 < i < |s|
    ensures ShuffleFrom(s, swaps, i) == ShuffleFrom(s[i := s[swaps[i]]][swaps[i] := s[i]], swaps, i - 1)
  {
  }

  /** A deck card is a catalog entry with only its id replaced. */
  ghost predicate CopyOf(c: Card, cards: seq<Card>) {
    exists i :: 0 <= i < |cards| && c.(id := cards[i].id) == cards[i]
  }

  /** Every card of a shuffled tagged deck is a copy of the card it was tagged from. */
  lemma ShuffledCopies(cards: seq<Card>, picks: seq<nat>, sep: string, deck: seq<Card>)
    requires forall k :: 0 <= k < |picks| ==> picks[k] < |cards|
    requires multiset(deck) == multiset(WithInstanceIds(Picked(cards, picks), sep))
    ensures forall k :: 0 <= k < |deck| ==> CopyOf(deck[k], cards)
  {
    var tagged := WithInstanceIds(Picked(cards, picks), sep);
    forall k | 0 <= k < |deck| ensures CopyOf(deck[k], cards) {
      assert deck[k] in multiset(tagged);
      var m :| 0 <= m < |tagged| && tagged[m] == deck[k];
      assert deck[k].(id := cards[picks[m]].id) == cards[picks[m]];
    }
  }

  /** `createRandomDeck(cards)`: push 40 catalog picks, give each the id `${id}-${index}`,
      then shuffle in place. */
  method CreateRandomDeck(cards: seq<Card>, rng: Randomness) returns (deck: seq<Card>)
    requires ValidPicks(rng.picks, |cards|) && ValidSwaps(rng.swaps, DeckSize)
    ensures deck == Shuffle(WithInstanceIds(Picked(cards, rng.picks), "-"), rng.swaps)
    ensures |deck| == DeckSize
    ensures multiset(deck) == multiset(WithInstanceIds(Picked(cards, rng.picks), "-"))
    ensures forall k :: 0 <= k < |deck| ==> CopyOf(deck[k], cards)
    ensures DistinctIds(deck)
  {
    var picked: seq<Card> := [];
    while |picked| < DeckSize
      invariant |picked| <= DeckSize
      invariant picked == Picked(cards, rng.picks[..|picked|])
    {
      picked := picked + [cards[rng.picks[|picked|]]];
    }
    assert rng.picks[..|picked|] == rng.picks;
    var tagged := WithInstanceIds(picked, "-");
    var a := new Card[|tagged|](k requires 0 <= k < |tagged| => tagged[k]);
    assert a[..] == tagged;
    ShuffleInPlace(a, rng.swaps);
    deck := a[..];
    ShuffledCopies(cards, rng.picks, "-", deck);
    InstanceIdsDistinct(picked, "-");
  }

  /** The saved-deck branch: ids `${id}-instance-${index}` and the same in-place shuffle;
      the deck keeps the saved length. */
  method CreateImportedDeck(saved: seq<Card>, swaps: seq<nat>) returns (deck: seq<Card>)
    requires ValidSwaps(swaps, |saved|)
    ensures deck == Shuffle(WithInstanceIds(saved, "-instance-"), swaps)
    ensures |deck| == |saved|
    ensures multiset(deck) == multiset(WithInstanceIds(saved, "-instance-"))
    ensures DistinctIds(deck)
  {
    var tagged := WithInstanceIds(saved, "-instance-");
    var a := new Card[|tagged|](k requires 0 <= k < |tagged| => tagged[k]);
    assert a[..] == tagged;
    ShuffleInPlace(a, swaps);
    deck := a[..];
    InstanceIdsDistinct(saved, "-instance-");
  }

  /** A saved deck is used when it is present and non-empty (storage and JSON parsing are
      outside the model: an absent or unparsable entry is `None`). */
  predicate UsesSavedDeck(saved: Option<seq<Card>>) {
    saved.Some? && |saved.value| > 0
  }

  predicate RandomnessFits(saved: Option<seq<Card>>, rng: Randomness) {
    if UsesSavedDeck(saved) then ValidSwaps(rng.swaps, |saved.value|)
    else ValidPicks(rng.picks, |Catalog.AllCardsData|) && ValidSwaps(rng.swaps, DeckSize)
  }

  /** The human player's deck: the saved deck when there is one, else a random deck. */
  method BuildPlayerDeck(saved: Option<seq<Card>>, rng: Randomness) returns (deck: seq<Card>)
    requires RandomnessFits(saved, rng)
    ensures UsesSavedDeck(saved) ==> deck == Shuffle(WithInstanceIds(saved.value, "-instance-"), rng.swaps)
    ensures UsesSavedDeck(saved) ==> |deck| == |saved.value|
    ensures !UsesSavedDeck(saved) ==> deck == Shuffle(WithInstanceIds(Picked(Catalog.AllCardsData, rng.picks), "-"), rng.swaps)
    ensures !UsesSavedDeck(saved) ==> |deck| == DeckSize
    ensures |deck| > 0 && DistinctIds(deck)
  {
    if UsesSavedDeck(saved) {
      deck := CreateImportedDeck(saved.value, rng.swaps);
    } else {
      Catalog.CatalogShape();
      deck := CreateRandomDeck(Catalog.AllCardsData, rng);
    }
  }

  /** A player's opening record around the given deck and hand. */
  function StartingPlayer(deck: seq<Card>, hand: seq<Card>): PlayerState {
    PlayerState(StartHp, StartSpecialCardHp, StartEnergy, StartMaxEnergy, deck, hand, [], EmptyField())
  }

  function OpeningCount(n: nat): (m: nat)
    ensures m <= n && m <= OpeningHand && (m == n || m == OpeningHand)
  {
    if n < OpeningHand then n else OpeningHand
  }

  /** `createInitialPlayerState(fullDeck)`: five `shift`/`push` steps move the first
      min(5, |deck|) cards, in order, into the hand. */
  method CreateInitialPlayerState(fullDeck: seq<Card>) returns (p: PlayerState)
    ensures p == StartingPlayer(fullDeck[OpeningCount(|fullDeck|)..], fullDeck[..OpeningCount(|fullDeck|)])
    ensures p.hand + p.deck == fullDeck
  {
    var hand: seq<Card> := [];
    var deck := fullDeck;
    for i := 0 to OpeningHand
      invariant hand + deck == fullDeck
      invariant |hand| == if i < |fullDeck| then i else |fullDeck|
    {
      if |deck| > 0 {
        var drawnCard := deck[0];
        assert (hand + [drawnCard]) + deck[1..] == hand + deck;
        deck := deck[1..];
        hand := hand + [drawnCard];
      }
    }
    assert |hand| == OpeningCount(|fullDeck|);
    assert (hand + deck)[..|hand|] == hand && (hand + deck)[|hand|..] == deck;
    p := StartingPlayer(deck, hand);
  }

  /** `initialGameState`: player 1 from the saved or random deck, player 2 from a random
      deck; player 1 moves first, turn 1, Draw phase. */
  method InitialGameState(saved: Option<seq<Card>>, playerRng: Randomness, opponentRng: Randomness)
    returns (g: GameState)
    requires RandomnessFits(saved, playerRng)
    requires RandomnessFits(None, opponentRng)
    ensures g.currentPlayer == Player1 && g.turn == 1 && g.phase == Draw
    ensures g.player1.hand + g.player1.deck == Shuffle(
              if UsesSavedDeck(saved) then WithInstanceIds(saved.value, "-instance-")
              else WithInstanceIds(Picked(Catalog.AllCardsData, playerRng.picks), "-"), playerRng.swaps)
    ensures g.player2.hand + g.player2.deck == Shuffle(WithInstanceIds(Picked(Catalog.AllCardsData, opponentRng.picks), "-"), opponentRng.swaps)
    ensures |g.player2.hand| == OpeningHand && |g.player2.deck| == DeckSize - OpeningHand
    ensures DistinctIds(g.player1.hand + g.player1.deck) && DistinctIds(g.player2.hand + g.player2.deck)
    ensures 0 < |g.player1.hand| <= OpeningHand
    ensures g.player1 == StartingPlayer(g.player1.deck, g.player1.hand)
    ensures g.player2 == StartingPlayer(g.player2.deck, g.player2.hand)
  {
    var playerDeck := BuildPlayerDeck(saved, playerRng);
    var opponentDeck := BuildPlayerDeck(None, opponentRng);
    var p1 := CreateInitialPlayerState(playerDeck);
    var p2 := CreateInitialPlayerState(opponentDeck);
    g := GameState(p1, p2, Player1, 1, Draw);
  }
}
