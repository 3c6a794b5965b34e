/** The rules `GameBoard` applies: the phase machine, end of turn, the per-turn reset,
    the win check, and the human player's actions (play, move, attack, spells, the
    discard choice). The component's state is gathered in `Board`; the UI selection
    that leads up to an action (selected hand index, selected attacker, the card being
    moved) arrives as the action's parameters. An `alert` or a silent `return` becomes
    `Refused`. */
module GameBoard {
  import opened CardTypes
  import opened CardText
  import opened Zones
  import GameActions

  /** `gameState` plus the component state the rules read and write: `gameOver`,
      `attackedMonsterIds`, `movedMonstersThisTurnIds`, `summonedThisTurnIds`,
      `attackBuffs`, `spellBeingCast` and `cardsToDiscard`. */
  datatype Board = Board(
    game: GameState,
    winner: Option<PlayerId>,
    attacked: seq<string>,
    moved: set<string>,
    summoned: seq<string>,
    buffs: map<string, int>,
    casting: Option<Card>,
    discards: seq<Card>)

  datatype Reason =
    | GameIsOver | NotPlayerOnesTurn | WrongPhase | NoCardThere | NotAMonster | NotASpell
    | InsufficientEnergy | SlotOccupied | SummonedThisTurn | AlreadyMoved | MoveTargetNotEmpty
    | AlreadyAttacked | FrontRowGuarded | NoAttackStats | TargetHasNoHp | TargetRequired
    | InsufficientHand | CannotDiscardSpellItself | DiscardPending

  datatype Outcome = Done(board: Board) | Refused(reason: Reason)

  /** A field of three slots and energy between zero and the maximum. */
  predicate SoundPlayer(p: PlayerState) {
    p.field.WellFormed() && 0 <= p.currentEnergy <= p.maxEnergy
  }

  /** Both players are sound, and a discard spell waiting for its choice is still affordable:
      its confirmation pays the cost without checking the energy again. */
  predicate Sound(b: Board) {
    SoundPlayer(b.game.player1) && SoundPlayer(b.game.player2) &&
    (b.casting.Some? ==> b.game.player1.currentEnergy >= b.casting.value.cost)
  }

  function WithHuman(b: Board, p: PlayerState): Board {
    b.(game := b.game.(player1 := p))
  }

  function WithDefender(b: Board, p: PlayerState): Board {
    b.(game := b.game.(player2 := p))
  }

  /** The guard every human handler starts with: the game is running and it is player 1's turn. */
  function HumanTurnGuard(b: Board): (r: Option<Reason>)
    ensures r.None? <==> b.winner.None? && b.game.currentPlayer == Player1
    ensures r == Some(GameIsOver) <==> b.winner.Some?
  {
    if b.winner.Some? then Some(GameIsOver)
    else if b.game.currentPlayer != Player1 then Some(NotPlayerOnesTurn)
    else None
  }

  // ---------------------------------------------------------------- drawing

  /** One draw: the head of the deck, when there is one, goes to the end of the hand. */
  function DrawOne(p: PlayerState): (r: PlayerState)
    ensures r.hand + r.deck == p.hand + p.deck
    ensures |r.hand| == if |p.deck| > 0 then |p.hand| + 1 else |p.hand|
    ensures r.(hand := p.hand, deck := p.deck) == p
  {
    if |p.deck| > 0 then p.(deck := p.deck[1..], hand := p.hand + [p.deck[0]]) else p
  }

  /** `n` draws, each skipped when the deck is empty. */
  function DrawUpTo(p: PlayerState, n: nat): (r: PlayerState)
    ensures r.hand + r.deck == p.hand + p.deck
    ensures |r.hand| == |p.hand| + GameActions.Min(n, |p.deck|)
    ensures r.(hand := p.hand, deck := p.deck) == p
    decreases n
  {
    if n == 0 then p else DrawUpTo(DrawOne(p), n - 1)
  }

  /** The drawing loop `for (i = 0; i < n; i++) if (deck.length > 0) { ... }`. */
  method DrawCards(p: PlayerState, n: nat) returns (r: PlayerState)
    ensures r == DrawUpTo(p, n)
  {
    r := p;
    for i := 0 to n
      invariant DrawUpTo(r, n - i) == DrawUpTo(p, n)
    {
      if |r.deck| > 0 {
        var drawnCard := r.deck[0];
        r := r.(deck := r.deck[1..]);
        r := r.(hand := r.hand + [drawnCard]);
      }
    }
  }

  /** Drawing only moves cards from the deck to the hand, so a player's ids are kept. */
  lemma DrawKeepsIds(p: PlayerState, n: nat)
    ensures PlayerIds(DrawUpTo(p, n)) == PlayerIds(p)
  {
    var r := DrawUpTo(p, n);
    SplitIds(r.hand, r.deck, p.hand, p.deck);
    var d, h := multiset(Ids(p.deck)), multiset(Ids(p.hand));
    var d', h' := multiset(Ids(r.deck)), multiset(Ids(r.hand));
    var g, f := multiset(Ids(p.graveyard)), FieldIds(p.field);
    assert h' + d' == h + d;
    SwapFirstTwo(d', h', g, f);
    SwapFirstTwo(d, h, g, f);
  }

  /** Proof step: multiset union commutes in the first two of four parts. */
  lemma SwapFirstTwo(a: multiset<string>, b: multiset<string>, c: multiset<string>, d: multiset<string>)
    ensures a + b + c + d == (b + a) + c + d
  {
    assert a + b == b + a;
  }

  // ------------------------------------------------------------ phase machine

  /** The energy regeneration of the Draw step: +1 only while below the maximum. */
  function Regenerate(p: PlayerState): (r: PlayerState)
    ensures p.currentEnergy <= r.currentEnergy <= p.currentEnergy + 1
    ensures r.currentEnergy > p.currentEnergy <==> p.currentEnergy < p.maxEnergy
    ensures p.currentEnergy <= p.maxEnergy ==> r.currentEnergy <= r.maxEnergy
    ensures r.(currentEnergy := p.currentEnergy) == p
  {
    if p.currentEnergy < p.maxEnergy then p.(currentEnergy := p.currentEnergy + 1) else p
  }

  /** The Draw -> Play step of `handleNextPhase` for the current player. */
  function DrawStep(g: GameState): (r: GameState)
    ensures r.phase == Play && r.currentPlayer == g.currentPlayer && r.turn == g.turn
    ensures r.Player(g.currentPlayer) == Regenerate(DrawOne(g.Player(g.currentPlayer)))
    ensures r.Player(g.currentPlayer.Other()) == g.Player(g.currentPlayer.Other())
  {
    var p := g.Player(g.currentPlayer);
    g.WithPlayer(g.currentPlayer, Regenerate(DrawOne(p))).(phase := Play)
  }

  /** The hand-over to the other player's Draw phase with the turn counter advanced. */
  function SwitchTurn(g: GameState): (r: GameState)
    ensures r.currentPlayer == g.currentPlayer.Other() && r.turn == g.turn + 1 && r.phase == Draw
    ensures r.player1 == g.player1 && r.player2 == g.player2
  {
    g.(turn := g.turn + 1, currentPlayer := g.currentPlayer.Other(), phase := Draw)
  }

  /** `handleNextPhase`: Draw -> Play (with draw and regeneration), Play -> Attack,
      Attack -> the other player's Draw; nothing once the game is over. */
  function NextPhase(b: Board): (r: Board)
    ensures b.winner.Some? ==> r == b
    ensures r.(game := b.game) == b
    ensures Sound(b) ==> Sound(r)
  {
    if b.winner.Some? then b
    else
      match b.game.phase
      case Draw => b.(game := DrawStep(b.game))
      case Play => b.(game := b.game.(phase := Attack))
      case Attack => b.(game := SwitchTurn(b.game))
  }

  /** A phase step only moves a card from deck to hand: both players keep their ids. */
  lemma NextPhaseKeepsIds(b: Board)
    ensures PlayerIds(NextPhase(b).game.player1) == PlayerIds(b.game.player1)
    ensures PlayerIds(NextPhase(b).game.player2) == PlayerIds(b.game.player2)
  {
    if b.winner.None? && b.game.phase == Draw {
      var p := b.game.Player(b.game.currentPlayer);
      DrawKeepsIds(p, 1);
      assert DrawUpTo(p, 1) == DrawOne(p);
      var q := Regenerate(DrawOne(p));
      assert PlayerIds(q) == PlayerIds(p);
      var g := NextPhase(b).game;
      assert g == DrawStep(b.game);
      if b.game.currentPlayer == Player1 {
        assert g.player1 == q && g.player2 == b.game.player2;
      } else {
        assert g.player2 == q && g.player1 == b.game.player1;
      }
    }
  }

  /** `handleEndTurn`: from any phase, the other player's Draw phase of the next turn. */
  function EndTurn(b: Board): (r: Board)
    ensures b.winner.Some? ==> r == b
    ensures b.winner.None? ==> r.game == SwitchTurn(b.game)
    ensures r.(game := b.game) == b
  {
    if b.winner.Some? then b else b.(game := SwitchTurn(b.game))
  }

  /** Three phase steps from a Draw phase hand the game to the other player's Draw phase
      of the next turn, after exactly one draw and one regeneration for the mover. */
  lemma PhaseCycle(b: Board)
    requires b.winner.None? && b.game.phase == Draw
    ensures var r := NextPhase(NextPhase(NextPhase(b)));
      r.game.phase == Draw && r.game.currentPlayer == b.game.currentPlayer.Other() &&
      r.game.turn == b.game.turn + 1 &&
      r.game.Player(b.game.currentPlayer) == Regenerate(DrawOne(b.game.Player(b.game.currentPlayer))) &&
      r.game.Player(b.game.currentPlayer.Other()) == b.game.Player(b.game.currentPlayer.Other())
  {
    var g1 := DrawStep(b.game);
    var b1 := b.(game := g1);
    assert NextPhase(b) == b1;
    var b2 := b1.(game := g1.(phase := Attack));
    assert NextPhase(b1) == b2;
    var b3 := b2.(game := SwitchTurn(b2.game));
    assert NextPhase(b2) == b3;
  }

  /** In the Attack phase the phase button and the end-turn button do the same thing,
      and ending the turn never draws or spends anything. */
  lemma EndTurnIsAttackStep(b: Board)
    requires b.game.phase == Attack
    ensures NextPhase(b) == EndTurn(b)
  {
  }

  /** The Draw step's energy is min(energy + 1, maxEnergy) whenever energy starts within the maximum. */
  lemma DrawStepEnergy(g: GameState)
    requires g.Player(g.currentPlayer).currentEnergy <= g.Player(g.currentPlayer).maxEnergy
    ensures DrawStep(g).Player(g.currentPlayer).currentEnergy
      == GameActions.Min(g.Player(g.currentPlayer).currentEnergy + 1, g.Player(g.currentPlayer).maxEnergy)
  {
  }

  // -------------------------------------------------------------- turn reset

  function ClearEffectFlag(s: Slot): Slot {
    match s
    case None => None
    case Some(c) => Some(c.(hasUsedEffectThisTurn := false))
  }

  function ResetRow(row: seq<Slot>): (r: seq<Slot>)
    ensures |r| == |row| && forall k :: 0 <= k < |row| ==> r[k] == ClearEffectFlag(row[k])
  {
    seq(|row|, k requires 0 <= k < |row| => ClearEffectFlag(row[k]))
  }

  /** Both rows with every card's effect flag cleared. */
  function ResetField(f: Field): (r: Field)
    ensures f.WellFormed() ==> r.WellFormed()
    ensures forall p :: f.ValidPos(p) ==> r.ValidPos(p) && (r.At(p).None? <==> f.At(p).None?)
    ensures forall p :: f.ValidPos(p) && f.At(p).Some? ==>
      r.ValidPos(p) && r.At(p) == Some(f.At(p).value.(hasUsedEffectThisTurn := false))
  {
    Field(ResetRow(f.frontRow), ResetRow(f.backRow))
  }

  /** The effect on `[turn]`: clear the effect flags on both fields and the per-turn
      records (attacked, moved, summoned, buffs). */
  function TurnReset(b: Board): (r: Board)
    ensures r.attacked == [] && r.moved == {} && r.summoned == [] && r.buffs == map[]
    ensures r.game.player1 == b.game.player1.(field := r.game.player1.field)
    ensures r.game.player2 == b.game.player2.(field := r.game.player2.field)
    ensures r.game.player1.field == ResetField(b.game.player1.field)
    ensures r.game.player2.field == ResetField(b.game.player2.field)
    ensures r.game.currentPlayer == b.game.currentPlayer && r.game.turn == b.game.turn && r.game.phase == b.game.phase
    ensures r.winner == b.winner && r.casting == b.casting && r.discards == b.discards
    ensures Sound(b) ==> Sound(r)
  {
    var p1, p2 := b.game.player1, b.game.player2;
    b.(game := b.game.(player1 := p1.(field := ResetField(p1.field)),
                       player2 := p2.(field := ResetField(p2.field))),
       attacked := [], moved := {}, summoned := [], buffs := map[])
  }

  /** Resetting twice is resetting once. */
  lemma TurnResetIdempotent(b: Board)
    ensures TurnReset(TurnReset(b)) == TurnReset(b)
  {
    var f1, f2 := b.game.player1.field, b.game.player2.field;
    forall row: seq<Slot> ensures ResetRow(ResetRow(row)) == ResetRow(row) {
      assert forall k :: 0 <= k < |row| ==> ClearEffectFlag(ClearEffectFlag(row[k])) == ClearEffectFlag(row[k]);
    }
    assert ResetField(ResetField(f1)) == ResetField(f1);
    assert ResetField(ResetField(f2)) == ResetField(f2);
  }

  lemma {:induction false} ResetRowIds(row: seq<Slot>)
    ensures RowIds(ResetRow(row)) == RowIds(row)
  {
    if |row| > 0 {
      assert ResetRow(row)[1..] == ResetRow(row[1..]);
      ResetRowIds(row[1..]);
    }
  }

  /** The reset touches only flags: every player keeps the ids it owns. */
  lemma TurnResetKeepsIds(b: Board)
    ensures PlayerIds(TurnReset(b).game.player1) == PlayerIds(b.game.player1)
    ensures PlayerIds(TurnReset(b).game.player2) == PlayerIds(b.game.player2)
  {
    ResetRowIds(b.game.player1.field.frontRow);
    ResetRowIds(b.game.player1.field.backRow);
    ResetRowIds(b.game.player2.field.frontRow);
    ResetRowIds(b.game.player2.field.backRow);
  }

  // --------------------------------------------------------------- win check

  /** The game-over rule: player 1's special card at or below zero means player 2 wins,
      checked first; otherwise player 2's at or below zero means player 1 wins. */
  function Verdict(g: GameState): (w: Option<PlayerId>)
    ensures w == Some(Player2) <==> g.player1.specialCardHp <= 0
    ensures w == Some(Player1) <==> g.player1.specialCardHp > 0 && g.player2.specialCardHp <= 0
    ensures w.None? <==> g.player1.specialCardHp > 0 && g.player2.specialCardHp > 0
  {
    if g.player1.specialCardHp <= 0 then Some(Player2)
    else if g.player2.specialCardHp <= 0 then Some(Player1)
    else None
  }

  /** The effect on `[players]`: record the verdict when there is one. */
  function WinCheck(b: Board): (r: Board)
    ensures Verdict(b.game).Some? ==> r.winner == Verdict(b.game)
    ensures Verdict(b.game).None? ==> r.winner == b.winner
    ensures r.(winner := b.winner) == b
  {
    if Verdict(b.game).Some? then b.(winner := Verdict(b.game)) else b
  }

  // ------------------------------------------------------------ play a monster

  /** Every check of `handlePlayCard` passes: player 1's live turn in the Play phase, no
      discard spell pending (casting one clears the selection, and while it is pending a hand
      click is a discard choice, so no card can be selected), a monster in the hand at
      `handIndex`, an empty own slot at `at`, and enough energy. */
  predicate CanPlay(b: Board, handIndex: nat, at: Pos) {
    var p := b.game.player1;
    HumanTurnGuard(b).None? && b.casting.None? && b.game.phase == Play &&
    handIndex < |p.hand| && p.field.ValidPos(at) &&
    p.hand[handIndex].kind == Monster && p.field.At(at).None? && p.currentEnergy >= p.hand[handIndex].cost
  }

  /** `handlePlayCard`, reached from a click on an empty own slot in the Play phase
      while the hand card at `handIndex` is selected. */
  function PlayMonster(b: Board, handIndex: nat, at: Pos): (r: Outcome)
    ensures r.Done? <==> CanPlay(b, handIndex, at)
    ensures r.Done? ==>
        var p, c := b.game.player1, b.game.player1.hand[handIndex];
        var q := r.board.game.player1;
        q.currentEnergy == p.currentEnergy - c.cost >= 0 &&
        q.hand == p.hand[..handIndex] + p.hand[handIndex + 1..] &&
        q.field == p.field.Put(at, Some(c)) &&
        q.(currentEnergy := p.currentEnergy, hand := p.hand, field := p.field) == p &&
        r.board == WithHuman(b, q).(summoned := b.summoned + [c.id])
    ensures r.Done? && Sound(b) ==> Sound(r.board)
  {
    if HumanTurnGuard(b).Some? then Refused(HumanTurnGuard(b).value)
    else if b.casting.Some? then Refused(DiscardPending)
    else if b.game.phase != Play then Refused(WrongPhase)
    else if !b.game.player1.field.ValidPos(at) then Refused(NoCardThere)
    else if handIndex >= |b.game.player1.hand| then Refused(NoCardThere)
    else
      var p := b.game.player1;
      var c := p.hand[handIndex];
      if c.kind != Monster then Refused(NotAMonster)
      else if p.field.At(at).Some? then Refused(SlotOccupied)
      else if p.currentEnergy < c.cost then Refused(InsufficientEnergy)
      else
        var q := p.(currentEnergy := p.currentEnergy - c.cost,
                    hand := p.hand[..handIndex] + p.hand[handIndex + 1..],
                    field := p.field.Put(at, Some(c)));
        Done(WithHuman(b, q).(summoned := b.summoned + [c.id]))
  }

  /** Playing moves one card from the hand to the field: player 1 keeps its ids. */
  lemma PlayKeepsIds(b: Board, handIndex: nat, at: Pos)
    requires PlayMonster(b, handIndex, at).Done?
    ensures PlayerIds(PlayMonster(b, handIndex, at).board.game.player1) == PlayerIds(b.game.player1)
  {
    var p := b.game.player1;
    var q := PlayMonster(b, handIndex, at).board.game.player1;
    var c := p.hand[handIndex];
    RemoveAtIds(p.hand, handIndex);
    FieldIdsPut(p.field, at, Some(c));
    assert SlotIds(p.field.At(at)) == multiset{};
    var d, g := multiset(Ids(p.deck)), multiset(Ids(p.graveyard));
    var h', h := multiset(Ids(q.hand)), multiset(Ids(p.hand));
    var f', f := FieldIds(q.field), FieldIds(p.field);
    assert h' + multiset{c.id} == h && f' == f + multiset{c.id};
    assert PlayerIds(q) == d + h' + g + f';
    assert d + h' + g + (f + multiset{c.id}) == d + (h' + multiset{c.id}) + g + f;
  }

  // --------------------------------------------------------------- move a monster

  /** Every check of a move passes: an own monster at `from` that was neither summoned nor
      moved this turn, and an empty own slot at `to`, on player 1's live turn. */
  predicate CanMove(b: Board, from: Pos, to: Pos) {
    var f := b.game.player1.field;
    HumanTurnGuard(b).None? &&
    f.ValidPos(from) && f.At(from).Some? && f.ValidPos(to) && f.At(to).None? &&
    f.At(from).value.kind == Monster && f.At(from).value.id !in b.summoned && f.At(from).value.id !in b.moved
  }

  /** `handleStartMoveTargeting` followed by `handleMoveCard` with a destination: a monster
      summoned this turn cannot start a move, the destination must be an empty own slot,
      and each monster moves at most once per turn. */
  function MoveMonster(b: Board, from: Pos, to: Pos): (r: Outcome)
    ensures r.Done? <==> CanMove(b, from, to)
    ensures r.Done? ==>
      var f := b.game.player1.field;
      var c := f.At(from).value;
      r.board == WithHuman(b, b.game.player1.(field := f.Put(from, None).Put(to, Some(c))))
                   .(moved := b.moved + {c.id})
    ensures r.Done? && Sound(b) ==> Sound(r.board)
  {
    var f := b.game.player1.field;
    if HumanTurnGuard(b).Some? then Refused(HumanTurnGuard(b).value)
    else if !f.ValidPos(from) || f.At(from).None? then Refused(NoCardThere)
    else if f.At(from).value.kind != Monster then Refused(NotAMonster)
    else if f.At(from).value.id in b.summoned then Refused(SummonedThisTurn)
    else if !f.ValidPos(to) || f.At(to).Some? then Refused(MoveTargetNotEmpty)
    else if f.At(from).value.id in b.moved then Refused(AlreadyMoved)
    else
      var c := f.At(from).value;
      Done(WithHuman(b, b.game.player1.(field := f.Put(from, None).Put(to, Some(c))))
             .(moved := b.moved + {c.id}))
  }

  /** A move relocates one card on the field: the source empties, the destination holds the
      card, every other slot is kept, and the field keeps its ids. */
  lemma MoveRelocates(b: Board, from: Pos, to: Pos)
    requires MoveMonster(b, from, to).Done?
    ensures var f, f' := b.game.player1.field, MoveMonster(b, from, to).board.game.player1.field;
      f'.ValidPos(from) && f'.At(from).None? && f'.ValidPos(to) && f'.At(to) == f.At(from) &&
      (forall q :: f.ValidPos(q) && q != from && q != to ==> f'.ValidPos(q) && f'.At(q) == f.At(q)) &&
      FieldIds(f') == FieldIds(f)
  {
    var f := b.game.player1.field;
    FieldIdsMove(f, from, to, f.At(from).value);
  }

  /** Choosing the card's own slot as the destination cancels the move: nothing changes. */
  lemma MoveToOwnSlotCancels(b: Board, at: Pos)
    ensures MoveMonster(b, at, at).Refused?
  {
  }

  // ------------------------------------------------------------------- attacks

  /** `attackBuffs[id] || 0`. */
  function BuffOf(buffs: map<string, int>, id: string): int {
    if id in buffs then buffs[id] else 0
  }

  /** The human attacker's power: the stat of the row it stands in, plus its buff. */
  function AttackPower(a: Card, row: RowId, buffs: map<string, int>): int
    requires a.frontAttack.Some? && a.backAttack.Some?
  {
    (if row == FrontRow then a.frontAttack.value else a.backAttack.value) + BuffOf(buffs, a.id)
  }

  /** The damage step shared by both attack paths: lethal damage empties the slot and appends
      the card to its owner's graveyard, otherwise the slot holds a copy with reduced hp. */
  function Damage(p: PlayerState, at: Pos, power: int): (r: PlayerState)
    requires p.field.ValidPos(at) && p.field.At(at).Some? && p.field.At(at).value.cardHp.Some?
    ensures var t := p.field.At(at).value;
      r.field.ValidPos(at) &&
      (t.cardHp.value - power <= 0 ==> r.field.At(at).None? && r.graveyard == p.graveyard + [t]) &&
      (t.cardHp.value - power > 0 ==>
         r.field.At(at) == Some(t.(cardHp := Some(t.cardHp.value - power))) && r.graveyard == p.graveyard)
    ensures forall q :: p.field.ValidPos(q) && q != at ==> r.field.ValidPos(q) && r.field.At(q) == p.field.At(q)
    ensures r.(field := p.field, graveyard := p.graveyard) == p
    ensures p.field.WellFormed() ==> r.field.WellFormed()
  {
    var t := p.field.At(at).value;
    var newHp := t.cardHp.value - power;
    if newHp <= 0 then p.(field := p.field.Put(at, None), graveyard := p.graveyard + [t])
    else p.(field := p.field.Put(at, Some(t.(cardHp := Some(newHp)))))
  }

  /** Damage moves the target from the field to the graveyard or keeps it in place, so its
      owner keeps its ids. */
  lemma DamageKeepsIds(p: PlayerState, at: Pos, power: int)
    requires p.field.ValidPos(at) && p.field.At(at).Some? && p.field.At(at).value.cardHp.Some?
    ensures PlayerIds(Damage(p, at, power)) == PlayerIds(p)
  {
    if p.field.At(at).value.cardHp.value - power <= 0 {
      LethalDamageKeepsIds(p, at, power);
    } else {
      SurvivedDamageKeepsIds(p, at, power);
    }
  }

  lemma LethalDamageKeepsIds(p: PlayerState, at: Pos, power: int)
    requires p.field.ValidPos(at) && p.field.At(at).Some? && p.field.At(at).value.cardHp.Some?
    requires p.field.At(at).value.cardHp.value - power <= 0
    ensures PlayerIds(Damage(p, at, power)) == PlayerIds(p)
  {
    var t := p.field.At(at).value;
    var f' := p.field.Put(at, None);
    assert Damage(p, at, power) == p.(field := f', graveyard := p.graveyard + [t]);
    FieldIdsPut(p.field, at, None);
    assert FieldIds(f') + multiset{t.id} == FieldIds(p.field);
    IdsAppend(p.graveyard, [t]);
    assert multiset(Ids(p.graveyard + [t])) == multiset(Ids(p.graveyard)) + multiset{t.id};
    FieldToGraveyard(multiset(Ids(p.deck)), multiset(Ids(p.hand)), multiset(Ids(p.graveyard)),
      FieldIds(p.field), FieldIds(f'), multiset{t.id});
  }

  lemma SurvivedDamageKeepsIds(p: PlayerState, at: Pos, power: int)
    requires p.field.ValidPos(at) && p.field.At(at).Some? && p.field.At(at).value.cardHp.Some?
    requires p.field.At(at).value.cardHp.value - power > 0
    ensures PlayerIds(Damage(p, at, power)) == PlayerIds(p)
  {
    var t := p.field.At(at).value;
    var r := Damage(p, at, power);
    var t' := t.(cardHp := Some(t.cardHp.value - power));
    FieldIdsPut(p.field, at, Some(t'));
    assert r.field == p.field.Put(at, Some(t'));
    assert SlotIds(Some(t')) == SlotIds(p.field.At(at));
    CancelIds(FieldIds(r.field), FieldIds(p.field), SlotIds(Some(t')));
  }

  /** Proof step: a common part cancels from both sides of a multiset equation. */
  lemma CancelIds(a: multiset<string>, b: multiset<string>, x: multiset<string>)
    requires a + x == b + x
    ensures a == b
  {
    assert a == (a + x) - x;
    assert b == (b + x) - x;
  }

  /** Proof step: moving part `x` of the field multiset to the graveyard multiset keeps the sum. */
  lemma FieldToGraveyard(d: multiset<string>, h: multiset<string>, g: multiset<string>,
                         f: multiset<string>, f': multiset<string>, x: multiset<string>)
    requires f' + x == f
    ensures d + h + (g + x) + f' == d + h + g + f
  {
    assert (g + x) + f' == g + (f' + x);
  }

  /** A hit lowers the target's hp by exactly the power; it leaves the field exactly when
      the power reaches its hp. */
  lemma DamageLethalIff(p: PlayerState, at: Pos, power: int)
    requires p.field.ValidPos(at) && p.field.At(at).Some? && p.field.At(at).value.cardHp.Some?
    ensures Damage(p, at, power).field.At(at).None? <==> power >= p.field.At(at).value.cardHp.value
    ensures Damage(p, at, power).field.At(at).Some? ==>
      Damage(p, at, power).field.At(at).value.cardHp.value == p.field.At(at).value.cardHp.value - power
  {
  }

  /** The attacker selection click: an own monster that has not attacked this turn. */
  function AttackerCheck(b: Board, from: Pos): (r: Option<Reason>)
    ensures r.None? <==>
      HumanTurnGuard(b).None? && b.game.phase == Attack &&
      b.game.player1.field.ValidPos(from) && b.game.player1.field.At(from).Some? &&
      b.game.player1.field.At(from).value.id !in b.attacked
  {
    if HumanTurnGuard(b).Some? then HumanTurnGuard(b)
    else if b.game.phase != Attack then Some(WrongPhase)
    else if !b.game.player1.field.ValidPos(from) || b.game.player1.field.At(from).None? then Some(NoCardThere)
    else if b.game.player1.field.At(from).value.id in b.attacked then Some(AlreadyAttacked)
    else None
  }

  /** A monster with both attack stats. */
  predicate CanStrike(a: Card) {
    a.kind == Monster && a.frontAttack.Some? && a.backAttack.Some?
  }

  /** Every check of an attack on a monster passes: a ready attacker with both stats, and an
      opponent monster with hp that is in the front row or behind an empty front row. */
  predicate CanAttack(b: Board, from: Pos, target: Pos) {
    var p2 := b.game.player2;
    AttackerCheck(b, from).None? && CanStrike(b.game.player1.field.At(from).value) &&
    p2.field.ValidPos(target) && p2.field.At(target).Some? && p2.field.At(target).value.cardHp.Some? &&
    !(target.row == BackRow && RowOccupied(p2.field.frontRow))
  }

  /** `handleFieldClick` on an opponent monster with an attacker selected, then `executeAttack`. */
  function AttackMonster(b: Board, from: Pos, target: Pos): (r: Outcome)
    ensures r.Done? <==> CanAttack(b, from, target)
    ensures r.Done? ==>
      var a := b.game.player1.field.At(from).value;
      var p2 := b.game.player2;
      r.board == WithDefender(b, Damage(p2, target, AttackPower(a, from.row, b.buffs)))
                   .(attacked := b.attacked + [a.id])
    ensures r.Done? && Sound(b) ==> Sound(r.board)
  {
    if AttackerCheck(b, from).Some? then Refused(AttackerCheck(b, from).value)
    else
      var a := b.game.player1.field.At(from).value;
      var p2 := b.game.player2;
      if !p2.field.ValidPos(target) || p2.field.At(target).None? then Refused(NoCardThere)
      else if target.row == BackRow && RowOccupied(p2.field.frontRow) then Refused(FrontRowGuarded)
      else if a.kind != Monster || a.frontAttack.None? || a.backAttack.None? then Refused(NoAttackStats)
      else if p2.field.At(target).value.cardHp.None? then Refused(TargetHasNoHp)
      else
        Done(WithDefender(b, Damage(p2, target, AttackPower(a, from.row, b.buffs)))
               .(attacked := b.attacked + [a.id]))
  }

  /** `handlePlayerHpClick` with an attacker selected, then `executeAttack` on the special card:
      refused while the opponent's front row holds a card; no clamping at zero. */
  function AttackDirect(b: Board, from: Pos): (r: Outcome)
    ensures r.Done? <==>
      AttackerCheck(b, from).None? && CanStrike(b.game.player1.field.At(from).value) &&
      !RowOccupied(b.game.player2.field.frontRow)
    ensures r.Done? ==>
      var a := b.game.player1.field.At(from).value;
      r.board.game.player2.specialCardHp == b.game.player2.specialCardHp - AttackPower(a, from.row, b.buffs) &&
      r.board == WithDefender(b, b.game.player2.(specialCardHp := r.board.game.player2.specialCardHp))
                   .(attacked := b.attacked + [a.id])
    ensures r.Done? && Sound(b) ==> Sound(r.board)
  {
    if AttackerCheck(b, from).Some? then Refused(AttackerCheck(b, from).value)
    else if RowOccupied(b.game.player2.field.frontRow) then Refused(FrontRowGuarded)
    else
      var a := b.game.player1.field.At(from).value;
      if a.kind != Monster || a.frontAttack.None? || a.backAttack.None? then Refused(NoAttackStats)
      else
        var p2 := b.game.player2;
        Done(WithDefender(b, p2.(specialCardHp := p2.specialCardHp - AttackPower(a, from.row, b.buffs)))
               .(attacked := b.attacked + [a.id]))
  }

  /** A monster attacks at most once per turn: after a successful attack it is recorded and
      a second attack with it is refused until the turn reset. */
  lemma AttackOncePerTurn(b: Board, from: Pos, target: Pos, from2: Pos, target2: Pos)
    requires AttackMonster(b, from, target).Done?
    requires var b' := AttackMonster(b, from, target).board;
      b'.game.player1.field.ValidPos(from2) && b'.game.player1.field.At(from2) == b.game.player1.field.At(from)
    ensures AttackMonster(AttackMonster(b, from, target).board, from2, target2).Refused?
    ensures AttackDirect(AttackMonster(b, from, target).board, from2).Refused?
  {
    var b' := AttackMonster(b, from, target).board;
    assert b.game.player1.field.At(from).value.id == b'.attacked[|b'.attacked| - 1];
  }

  // -------------------------------------------------------------------- spells

  datatype SpellKind = AttackBuff | DrawTwo | DiscardTwo | UnknownSpell

  /** `executeSpell`'s dispatch on the id prefix, in the order of its `switch (true)`. */
  function SpellKindOf(id: string): (k: SpellKind)
    ensures k == AttackBuff <==> StartsWith(id, "s001")
    ensures k == DrawTwo <==> StartsWith(id, "s002")
    ensures k == DiscardTwo <==> StartsWith(id, "s003")
  {
    if StartsWith(id, "s001") then AttackBuff
    else if StartsWith(id, "s002") then DrawTwo
    else if StartsWith(id, "s003") then DiscardTwo
    else UnknownSpell
  }

  /** The draw spell: up to two draws, then the cost is paid and the spell moves from the
      hand to the graveyard. */
  function DrawTwoEffect(p: PlayerState, spell: Card): (r: PlayerState)
    ensures r.deck == p.deck[GameActions.Min(2, |p.deck|)..]
    ensures r.hand == RemoveId(p.hand + p.deck[..GameActions.Min(2, |p.deck|)], spell.id)
    ensures r.graveyard == p.graveyard + [spell]
    ensures r.currentEnergy == p.currentEnergy - spell.cost
    ensures r.(deck := p.deck, hand := p.hand, graveyard := p.graveyard, currentEnergy := p.currentEnergy) == p
  {
    var q := DrawUpTo(p, 2);
    var m := GameActions.Min(2, |p.deck|);
    assert q.hand + q.deck == p.hand + p.deck && |q.hand| == |p.hand| + m;
    assert q.hand == (p.hand + p.deck)[..|p.hand| + m] == p.hand + p.deck[..m];
    assert q.deck == (p.hand + p.deck)[|p.hand| + m..] == p.deck[m..];
    q.(currentEnergy := q.currentEnergy - spell.cost,
       hand := RemoveId(q.hand, spell.id),
       graveyard := q.graveyard + [spell])
  }

  /** `executeSpell(spell, target)`, reached only with a selected spell, so never while a
      discard spell is pending: refused when energy is below the cost; `s001` adds 1 to
      the target's buff and neither pays nor leaves the hand, `s002` draws, `s003` starts the
      discard choice when the hand holds at least three cards, any other id does nothing. */
  function CastSpell(b: Board, spell: Card, target: Option<Card>): (r: Outcome)
    ensures HumanTurnGuard(b).None? && b.casting.None? && b.game.player1.currentEnergy < spell.cost ==>
      r == Refused(InsufficientEnergy)
    ensures r.Done? <==>
      HumanTurnGuard(b).None? && b.casting.None? && b.game.player1.currentEnergy >= spell.cost &&
      (SpellKindOf(spell.id) == AttackBuff ==> target.Some?) &&
      (SpellKindOf(spell.id) == DiscardTwo ==> |b.game.player1.hand| >= 3)
    ensures r.Done? && SpellKindOf(spell.id) == AttackBuff ==>
      target.Some? && r.board == b.(buffs := b.buffs[target.value.id := BuffOf(b.buffs, target.value.id) + 1])
    ensures r.Done? && SpellKindOf(spell.id) == DrawTwo ==> r.board == WithHuman(b, DrawTwoEffect(b.game.player1, spell))
    ensures r.Done? && SpellKindOf(spell.id) == DiscardTwo ==>
      |b.game.player1.hand| >= 3 && r.board == b.(casting := Some(spell))
    ensures r.Done? && SpellKindOf(spell.id) == UnknownSpell ==> r.board == b
    ensures r.Done? && Sound(b) ==> Sound(r.board)
  {
    if HumanTurnGuard(b).Some? then Refused(HumanTurnGuard(b).value)
    else if b.casting.Some? then Refused(DiscardPending)
    else if b.game.player1.currentEnergy < spell.cost then Refused(InsufficientEnergy)
    else
      match SpellKindOf(spell.id)
      case AttackBuff =>
        if target.None? then Refused(TargetRequired)
        else Done(b.(buffs := b.buffs[target.value.id := BuffOf(b.buffs, target.value.id) + 1]))
      case DrawTwo => Done(WithHuman(b, DrawTwoEffect(b.game.player1, spell)))
      case DiscardTwo =>
        if |b.game.player1.hand| < 3 then Refused(InsufficientHand) else Done(b.(casting := Some(spell)))
      case UnknownSpell => Done(b)
  }

  /** A selected hand spell aimed at a card on player 1's own field in the Play phase of its
      live turn; no card is selected while a discard spell is pending. */
  predicate CanAim(b: Board, handIndex: nat, at: Pos) {
    var p := b.game.player1;
    HumanTurnGuard(b).None? && b.casting.None? && b.game.phase == Play &&
    handIndex < |p.hand| && p.hand[handIndex].kind == Spell && p.field.ValidPos(at) && p.field.At(at).Some?
  }

  /** The field-click path: a selected hand spell aimed at a card on player 1's own field. */
  function CastOnField(b: Board, handIndex: nat, at: Pos): (r: Outcome)
    ensures CanAim(b, handIndex, at) ==>
      r == CastSpell(b, b.game.player1.hand[handIndex], b.game.player1.field.At(at))
    ensures !CanAim(b, handIndex, at) ==> r.Refused?
    ensures r.Done? && Sound(b) ==> Sound(r.board)
  {
    if HumanTurnGuard(b).Some? then Refused(HumanTurnGuard(b).value)
    else if b.casting.Some? then Refused(DiscardPending)
    else if b.game.phase != Play then Refused(WrongPhase)
    else if handIndex >= |b.game.player1.hand| then Refused(NoCardThere)
    else if b.game.player1.hand[handIndex].kind != Spell then Refused(NotASpell)
    else if !b.game.player1.field.ValidPos(at) || b.game.player1.field.At(at).None? then Refused(NoCardThere)
    else CastSpell(b, b.game.player1.hand[handIndex], b.game.player1.field.At(at))
  }

  /** The attack-buff spell stacks: each cast adds exactly one to the target's buff, and
      since it is never paid for or discarded it can be cast again at the same energy. */
  lemma AttackBuffStacks(b: Board, spell: Card, target: Card)
    requires SpellKindOf(spell.id) == AttackBuff
    requires CastSpell(b, spell, Some(target)).Done?
    ensures var b' := CastSpell(b, spell, Some(target)).board;
      BuffOf(b'.buffs, target.id) == BuffOf(b.buffs, target.id) + 1 &&
      b'.game == b.game &&
      CastSpell(b', spell, Some(target)).Done? &&
      BuffOf(CastSpell(b', spell, Some(target)).board.buffs, target.id) == BuffOf(b.buffs, target.id) + 2
  {
  }

  /** The cast of the draw spell moves two cards from the deck to the hand (fewer when the
      deck runs short) and the spell from the hand to the graveyard: with every id of
      hand and deck distinct, player 1 keeps its ids. */
  lemma DrawTwoKeepsIds(p: PlayerState, k: nat)
    requires k < |p.hand| && DistinctIds(p.hand + p.deck)
    ensures PlayerIds(DrawTwoEffect(p, p.hand[k])) == PlayerIds(p)
  {
    var spell := p.hand[k];
    var m := GameActions.Min(2, |p.deck|);
    var h2 := p.hand + p.deck[..m];
    var r := DrawTwoEffect(p, spell);
    assert h2 + p.deck[m..] == p.hand + p.deck;
    assert DistinctIds(h2) by {
      forall i, j | 0 <= i < j < |h2| ensures h2[i].id != h2[j].id {
        assert h2[i] == (p.hand + p.deck)[i] && h2[j] == (p.hand + p.deck)[j];
      }
    }
    assert h2[k] == spell;
    RemoveIdOfDistinct(h2, k);
    RemoveAtIds(h2, k);
    SplitIds(h2, p.deck[m..], p.hand, p.deck);
    IdsAppend(p.graveyard, [spell]);
    var d', h', g' := multiset(Ids(r.deck)), multiset(Ids(r.hand)), multiset(Ids(r.graveyard));
    var d, h, g := multiset(Ids(p.deck)), multiset(Ids(p.hand)), multiset(Ids(p.graveyard));
    var s := multiset{spell.id};
    assert h' + s == multiset(Ids(h2));
    assert multiset(Ids(h2)) + d' == h + d;
    assert g' == g + s;
    assert PlayerIds(r) == d' + h' + g' + FieldIds(p.field);
    MoveOneAccount(d', h', g', s, multiset(Ids(h2)), d, h, g);
  }

  /** Proof step: a card leaves hand and deck for the graveyard; the total is kept. */
  lemma MoveOneAccount(d': multiset<string>, h': multiset<string>, g': multiset<string>,
                       s: multiset<string>, h2: multiset<string>,
                       d: multiset<string>, h: multiset<string>, g: multiset<string>)
    requires h' + s == h2 && h2 + d' == h + d && g' == g + s
    ensures d' + h' + g' == d + h + g
  {
    assert d' + h' + g' == (h' + s) + d' + g;
  }

  // ---------------------------------------------------------- the discard choice

  /** The confirmed discard spell: the two chosen cards go to the graveyard and leave the
      hand, up to two cards are drawn, then the spell goes to the graveyard and leaves the
      hand and its cost is paid (energy is not checked again). */
  function DiscardEffect(p: PlayerState, chosen: seq<Card>, spell: Card): (r: PlayerState)
    ensures r.graveyard == p.graveyard + chosen + [spell]
    ensures r.currentEnergy == p.currentEnergy - spell.cost
    ensures r.deck == p.deck[GameActions.Min(2, |p.deck|)..]
    ensures r.hand == RemoveId(RemoveIds(p.hand, Ids(chosen)) + p.deck[..GameActions.Min(2, |p.deck|)], spell.id)
    ensures r.(deck := p.deck, hand := p.hand, graveyard := p.graveyard, currentEnergy := p.currentEnergy) == p
  {
    var q := p.(graveyard := p.graveyard + chosen, hand := RemoveIds(p.hand, Ids(chosen)));
    var q' := DrawUpTo(q, 2);
    var m := GameActions.Min(2, |q.deck|);
    assert q'.hand + q'.deck == q.hand + q.deck && |q'.hand| == |q.hand| + m;
    assert q'.hand == (q.hand + q.deck)[..|q.hand| + m] == q.hand + q.deck[..m];
    assert q'.deck == (q.hand + q.deck)[|q.hand| + m..] == q.deck[m..];
    q'.(graveyard := q'.graveyard + [spell],
        hand := RemoveId(q'.hand, spell.id),
        currentEnergy := q'.currentEnergy - spell.cost)
  }

  /** Confirming the discard spell moves the two chosen hand cards and the spell to the
      graveyard and up to two deck cards to the hand: with distinct ids, player 1 keeps
      its ids. */
  lemma DiscardKeepsIds(p: PlayerState, i: nat, j: nat, k: nat)
    requires i < |p.hand| && j < |p.hand| && k < |p.hand| && i != j && i != k && j != k
    requires DistinctIds(p.hand + p.deck)
    ensures PlayerIds(DiscardEffect(p, [p.hand[i], p.hand[j]], p.hand[k])) == PlayerIds(p)
  {
    DiscardHandIds(p, i, j, k);
    DiscardAssemble(p, p.hand[i], p.hand[j], p.hand[k]);
  }

  /** Deck, graveyard and field of the discard spell, around the hand part. */
  lemma DiscardAssemble(p: PlayerState, x: Card, y: Card, s: Card)
    requires var r := DiscardEffect(p, [x, y], s);
      multiset(Ids(r.hand)) + (multiset{x.id} + multiset{y.id} + multiset{s.id})
        == multiset(Ids(p.hand)) + multiset(Ids(p.deck[..GameActions.Min(2, |p.deck|)]))
    ensures PlayerIds(DiscardEffect(p, [x, y], s)) == PlayerIds(p)
  {
    var d := p.deck;
    var r := DiscardEffect(p, [x, y], s);
    var m := GameActions.Min(2, |d|);
    assert d[..m] + d[m..] == d;
    IdsAppend(d[..m], d[m..]);
    assert multiset(Ids(d)) == multiset(Ids(d[..m])) + multiset(Ids(d[m..]));
    IdsAppend(p.graveyard, [x, y]);
    IdsAppend(p.graveyard + [x, y], [s]);
    assert Ids([x, y]) == [x.id] + [y.id] && Ids([s]) == [s.id];
    var xs, ys, ss := multiset{x.id}, multiset{y.id}, multiset{s.id};
    assert multiset(Ids(r.graveyard)) == multiset(Ids(p.graveyard)) + (xs + ys) + ss;
    DiscardSum(multiset(Ids(r.hand)), multiset(Ids(p.hand)), multiset(Ids(d[..m])), multiset(Ids(d[m..])), multiset(Ids(d)),
      multiset(Ids(p.graveyard)), multiset(Ids(r.graveyard)), FieldIds(p.field), xs, ys, ss);
  }

  /** The hand part of the discard spell: the new hand plus the three cards that left it is
      the old hand plus the drawn cards. */
  lemma DiscardHandIds(p: PlayerState, i: nat, j: nat, k: nat)
    requires i < |p.hand| && j < |p.hand| && k < |p.hand| && i != j && i != k && j != k
    requires DistinctIds(p.hand + p.deck)
    ensures var r := DiscardEffect(p, [p.hand[i], p.hand[j]], p.hand[k]);
      multiset(Ids(r.hand)) + (multiset{p.hand[i].id} + multiset{p.hand[j].id} + multiset{p.hand[k].id})
        == multiset(Ids(p.hand)) + multiset(Ids(p.deck[..GameActions.Min(2, |p.deck|)]))
  {
    var h, d := p.hand, p.deck;
    var x, y, s := h[i], h[j], h[k];
    var m := GameActions.Min(2, |d|);
    assert Ids([x, y]) == [x.id, y.id];
    RemoveIdsPair(h, x.id, y.id);
    assert DistinctIds(h) by {
      forall a, c | 0 <= a < c < |h| ensures h[a].id != h[c].id {
        assert h[a] == (h + d)[a] && h[c] == (h + d)[c];
      }
    }
    var h1, j1, k1 := TakeOut(h, i, j, k);
    var h2, k2, _ := TakeOut(h1, j1, k1, k1);
    assert RemoveIds(h, Ids([x, y])) == h2;
    var h4 := DrawThenTakeOut(h, d, h2, k2, m);
    assert DiscardEffect(p, [x, y], s).hand == h4;
    HandSum(multiset(Ids(h4)), multiset(Ids(h2)), multiset(Ids(h1)), multiset(Ids(h)), multiset(Ids(d[..m])),
      multiset{x.id}, multiset{y.id}, multiset{s.id});
  }

  lemma HandSum(h4: multiset<string>, h2: multiset<string>, h1: multiset<string>, h: multiset<string>,
                dm: multiset<string>, x: multiset<string>, y: multiset<string>, s: multiset<string>)
    requires h4 + s == h2 + dm && h2 + y == h1 && h1 + x == h
    ensures h4 + (x + y + s) == h + dm
  {
    calc {
      h4 + (x + y + s);
      == (h4 + s) + y + x;
      == (h2 + y) + x + dm;
      == h + dm;
    }
  }

  /** Filtering out the id at position `i` of a distinct sequence, tracking where the cards
      at positions `j` and `k` land. */
  lemma TakeOut(h: seq<Card>, i: nat, j: nat, k: nat) returns (h1: seq<Card>, j1: nat, k1: nat)
    requires DistinctIds(h) && i < |h| && j < |h| && k < |h| && i != j && i != k
    ensures h1 == RemoveId(h, h[i].id) && DistinctIds(h1)
    ensures multiset(Ids(h1)) + multiset{h[i].id} == multiset(Ids(h))
    ensures j1 < |h1| && k1 < |h1| && h1[j1] == h[j] && h1[k1] == h[k] && (j != k ==> j1 != k1)
    ensures forall c :: 0 <= c < |h1| ==> h1[c] in h
  {
    h1 := h[..i] + h[i + 1..];
    RemoveIdOfDistinct(h, i);
    RemoveAtIds(h, i);
    RemoveAtDistinct(h, i);
    RemoveAtIndex(h, i, j);
    RemoveAtIndex(h, i, k);
    j1, k1 := if j < i then j else j - 1, if k < i then k else k - 1;
  }

  /** The draw of the discard spell followed by filtering out the spell at position `k2`. */
  lemma DrawThenTakeOut(h: seq<Card>, d: seq<Card>, h2: seq<Card>, k2: nat, m: nat) returns (h4: seq<Card>)
    requires DistinctIds(h + d) && DistinctIds(h2) && k2 < |h2| && m <= |d|
    requires forall c :: 0 <= c < |h2| ==> h2[c] in h
    ensures h4 == RemoveId(h2 + d[..m], h2[k2].id)
    ensures multiset(Ids(h4)) + multiset{h2[k2].id} == multiset(Ids(h2)) + multiset(Ids(d[..m]))
  {
    var h3 := h2 + d[..m];
    assert DistinctIds(d[..m]) by {
      forall a, c | 0 <= a < c < |d[..m]| ensures d[..m][a].id != d[..m][c].id {
        assert d[..m][a] == (h + d)[|h| + a] && d[..m][c] == (h + d)[|h| + c];
      }
    }
    ConcatDistinct(h, d, h2, d[..m]);
    assert h3[k2] == h2[k2];
    RemoveIdOfDistinct(h3, k2);
    RemoveAtIds(h3, k2);
    h4 := h3[..k2] + h3[k2 + 1..];
    IdsAppend(h2, d[..m]);
  }

  lemma DiscardSum(h4: multiset<string>, h: multiset<string>, dm: multiset<string>, dr: multiset<string>,
                   d: multiset<string>, g: multiset<string>, g': multiset<string>, f: multiset<string>,
                   x: multiset<string>, y: multiset<string>, s: multiset<string>)
    requires h4 + (x + y + s) == h + dm
    requires d == dm + dr && g' == g + (x + y) + s
    ensures dr + h4 + g' + f == d + h + g + f
  {
    calc {
      dr + h4 + g' + f;
      == dr + (h4 + (x + y + s)) + g + f;
      == dr + dm + h + g + f;
      == d + h + g + f;
    }
  }

  /** The confirm branch of `handleSelectCard` as written, with its drawing loop. */
  method ResolveDiscard(p: PlayerState, chosen: seq<Card>, spell: Card) returns (r: PlayerState)
    ensures r == DiscardEffect(p, chosen, spell)
  {
    r := p.(graveyard := p.graveyard + chosen);
    r := r.(hand := RemoveIds(r.hand, Ids(chosen)));
    r := DrawCards(r, 2);
    r := r.(graveyard := r.graveyard + [spell]);
    r := r.(hand := RemoveId(r.hand, spell.id));
    r := r.(currentEnergy := r.currentEnergy - spell.cost);
  }

  predicate ChosenAlready(discards: seq<Card>, id: string) {
    id in Ids(discards)
  }

  /** A hand click while the discard spell is being cast: the spell itself cannot be chosen,
      a chosen card is unchosen, and the second choice asks for confirmation; confirming
      resolves the spell, declining clears the choice and keeps the spell pending. */
  function DiscardClick(b: Board, handIndex: nat, confirm: bool): (r: Outcome)
    requires b.casting.Some?
    ensures handIndex < |b.game.player1.hand| && b.game.player1.hand[handIndex].id == b.casting.value.id ==>
      r == Refused(CannotDiscardSpellItself)
    ensures r.Done? <==>
      handIndex < |b.game.player1.hand| && b.game.player1.hand[handIndex].id != b.casting.value.id
    ensures r.Done? && ChosenAlready(b.discards, b.game.player1.hand[handIndex].id) ==>
      r.board == b.(discards := RemoveId(b.discards, b.game.player1.hand[handIndex].id))
    ensures r.Done? && !ChosenAlready(b.discards, b.game.player1.hand[handIndex].id) ==>
      var chosen := b.discards + [b.game.player1.hand[handIndex]];
      (|chosen| != 2 ==> r.board == b.(discards := chosen)) &&
      (|chosen| == 2 && !confirm ==> r.board == b.(discards := [])) &&
      (|chosen| == 2 && confirm ==>
         r.board == WithHuman(b, DiscardEffect(b.game.player1, chosen, b.casting.value)).(casting := None, discards := []))
    ensures r.Done? && Sound(b) ==> Sound(r.board)
  {
    if handIndex >= |b.game.player1.hand| then Refused(NoCardThere)
    else
      var c := b.game.player1.hand[handIndex];
      var spell := b.casting.value;
      if c.id == spell.id then Refused(CannotDiscardSpellItself)
      else if ChosenAlready(b.discards, c.id) then Done(b.(discards := RemoveId(b.discards, c.id)))
      else
        var chosen := b.discards + [c];
        if |chosen| == 2 then
          if confirm then
            Done(WithHuman(b, DiscardEffect(b.game.player1, chosen, spell)).(casting := None, discards := []))
          else Done(b.(discards := []))
        else Done(b.(discards := chosen))
  }

  /** `handleSelectCard`'s clicks that reach the rules: in the discard mode a click is a
      discard choice; otherwise a second click on a selected `s002` or `s003` card in the
      Play phase casts it, and any other click only changes the selection. */
  function HandClick(b: Board, handIndex: nat, alreadySelected: bool, confirm: bool): (r: Outcome)
    ensures b.casting.Some? && StartsWith(b.casting.value.id, "s003") && HumanTurnGuard(b).None? ==>
      r == DiscardClick(b, handIndex, confirm)
    ensures r.Done? && b.casting.None? && r.board != b ==>
      handIndex < |b.game.player1.hand| && alreadySelected && b.game.phase == Play &&
      r == CastSpell(b, b.game.player1.hand[handIndex], None)
    ensures r.Done? && b.casting.None? ==> r.board.buffs == b.buffs
    ensures HumanTurnGuard(b).Some? ==> r.Refused?
    ensures HumanTurnGuard(b).None? && !(b.casting.Some? && StartsWith(b.casting.value.id, "s003")) ==>
      if handIndex >= |b.game.player1.hand| then r == Refused(NoCardThere)
      else
        var c := b.game.player1.hand[handIndex];
        if alreadySelected && b.game.phase == Play &&
           (SpellKindOf(c.id) == DrawTwo || SpellKindOf(c.id) == DiscardTwo)
        then r == CastSpell(b, c, None)
        else r == Done(b)
    ensures r.Done? && Sound(b) ==> Sound(r.board)
  {
    if HumanTurnGuard(b).Some? then Refused(HumanTurnGuard(b).value)
    else if b.casting.Some? && StartsWith(b.casting.value.id, "s003") then DiscardClick(b, handIndex, confirm)
    else if handIndex >= |b.game.player1.hand| then Refused(NoCardThere)
    else
      var c := b.game.player1.hand[handIndex];
      if alreadySelected && (StartsWith(c.id, "s002") || StartsWith(c.id, "s003")) && b.game.phase == Play then
        CastSpell(b, c, None)
      else Done(b)
  }
}
