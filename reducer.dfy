/** `GameBoard` as a reducer: every event the component reacts to is an `Action`, and
    `Step` applies the handler and then the two effects that follow a render (the turn
    reset when `turn` changed, the win check). The opponent's turn is the three phases
    of its scripted flow; the timers between them are not modelled. */
module Reducer {
  import opened CardTypes
  import opened GameBoard
  import opened Zones
  import Opponent
  import GameActions

  datatype Action =
    | AutoDraw                                         // the timer of player 1's Draw phase
    | NextPhaseButton                                  // shown to player 1 outside the Draw phase
    | EndTurnButton                                    // shown to player 1
    | PlayMonsterAt(handIndex: nat, at: Pos)
    | MoveMonsterTo(from: Pos, to: Pos)
    | AttackMonsterAt(from: Pos, target: Pos)
    | AttackSpecialCard(from: Pos)
    | CastOnFieldCard(handIndex: nat, at: Pos)
    | ClickHandCard(handIndex: nat, alreadySelected: bool, confirm: bool)
    | HealWithMonk(monkId: string, targetAt: Pos)
    | OpponentDrawPhase
    | OpponentPlayPhase
    | OpponentAttackPhase

  function Apply(o: Outcome, b: Board): Board {
    if o.Done? then o.board else b
  }

  /** The clicked slot of player 1's field holds a monster with hp. */
  predicate HealTargetAt(b: Board, at: Pos) {
    var f := b.game.player1.field;
    f.ValidPos(at) && f.At(at).Some? && GameActions.Healable(f.At(at).value)
  }

  /** The monk-targeting branch of `handleFieldClick`: the clicked slot must hold one of
      player 1's monsters with hp; the state becomes `healMonster`'s result. The game
      changes exactly when it is player 1's live turn, the slot holds such a monster and
      every check of the heal passes, and then it is the heal's result. */
  function HealClick(catalog: seq<Card>, b: Board, monkId: string, targetAt: Pos): (r: Board)
    ensures r.(game := b.game) == b
    ensures r.game != b.game <==>
              HumanTurnGuard(b).None? && HealTargetAt(b, targetAt) &&
              GameActions.PlanHeal(catalog, b.game.player1.field, monkId, b.game.player1.field.At(targetAt).value.id).Some?
    ensures r.game != b.game ==>
              r.game == GameActions.HealMonster(catalog, b.game, monkId, b.game.player1.field.At(targetAt).value.id)
  {
    if HumanTurnGuard(b).Some? then b
    else
      var f := b.game.player1.field;
      if f.ValidPos(targetAt) && f.At(targetAt).Some? && f.At(targetAt).value.kind == Monster
         && f.At(targetAt).value.cardHp.Some? then
        GameActions.HealChangesIffPlanned(catalog, b.game, monkId, f.At(targetAt).value.id);
        b.(game := GameActions.HealMonster(catalog, b.game, monkId, f.At(targetAt).value.id))
      else b
  }

  /** The opponent's turn runs only while the game is on and it is player 2's turn. */
  predicate OpponentMayAct(b: Board, ph: Phase) {
    b.winner.None? && b.game.currentPlayer == Player2 && b.game.phase == ph
  }

  /** The Attack phase of the scripted flow: the pass, its ids added to the attacked list,
      then `handleEndTurn`. The pass writes player 1's new state into the `players` record
      the old state shares, so the win check on `[players]` does not run after it and the
      flow is not cancelled; a deciding pass is recorded only after the turn reset has built
      new player records (see `DecidingPassEndsTurnFirst`). */
  function OpponentAttackTurn(b: Board): (r: Board)
    requires b.game.player1.field.WellFormed()
    ensures var pass := Opponent.AttackPass(b.game.player1, b.game.player2, b.buffs);
      r.attacked == b.attacked + pass.marked &&
      r.game.player1 == pass.defender && r.game.player2 == b.game.player2 &&
      r.(game := b.game, attacked := b.attacked) == b
    ensures b.winner.None? ==>
      r.game == SwitchTurn(b.game).(player1 := Opponent.AttackPass(b.game.player1, b.game.player2, b.buffs).defender)
  {
    var pass := Opponent.AttackPass(b.game.player1, b.game.player2, b.buffs);
    EndTurn(WithHuman(b, pass.defender).(attacked := b.attacked + pass.marked))
  }

  /** The handler an action reaches; a refusal leaves the board as it was. */
  function Handle(catalog: seq<Card>, b: Board, a: Action): (r: Board)
    requires Sound(b)
    ensures r.game.turn == b.game.turn ==> r.game.currentPlayer == b.game.currentPlayer
    ensures r.game.turn != b.game.turn ==>
      r.game.turn == b.game.turn + 1 && r.game.currentPlayer == b.game.currentPlayer.Other() && r.game.phase == Draw
  {
    match a
    case AutoDraw =>
      if b.winner.None? && b.game.currentPlayer == Player1 && b.game.phase == Draw then NextPhase(b) else b
    case NextPhaseButton =>
      if b.game.currentPlayer == Player1 && b.game.phase != Draw then NextPhase(b) else b
    case EndTurnButton =>
      if b.game.currentPlayer == Player1 then EndTurn(b) else b
    case PlayMonsterAt(k, at) => Apply(PlayMonster(b, k, at), b)
    case MoveMonsterTo(from, to) => Apply(MoveMonster(b, from, to), b)
    case AttackMonsterAt(from, target) => Apply(AttackMonster(b, from, target), b)
    case AttackSpecialCard(from) => Apply(AttackDirect(b, from), b)
    case CastOnFieldCard(k, at) => Apply(CastOnField(b, k, at), b)
    case ClickHandCard(k, again, confirm) => Apply(HandClick(b, k, again, confirm), b)
    case HealWithMonk(monkId, at) => HealClick(catalog, b, monkId, at)
    case OpponentDrawPhase =>
      if OpponentMayAct(b, Draw) then NextPhase(b) else b
    case OpponentPlayPhase =>
      if OpponentMayAct(b, Play) then NextPhase(WithDefender(b, Opponent.OpponentPlayed(b.game.player2))) else b
    case OpponentAttackPhase =>
      if OpponentMayAct(b, Attack) then OpponentAttackTurn(b) else b
  }

  /** The effects after a render: the reset when the turn counter moved, then the win check. */
  function Settle(before: Board, after: Board): (r: Board)
    ensures Verdict(after.game).Some? ==> r.winner == Verdict(after.game)
    ensures Verdict(after.game).None? ==> r.winner == after.winner
    ensures after.game.turn != before.game.turn ==>
      r.attacked == [] && r.moved == {} && r.summoned == [] && r.buffs == map[]
    ensures after.game.turn == before.game.turn ==> r.(winner := after.winner) == after
    ensures r.game.turn == after.game.turn && r.game.currentPlayer == after.game.currentPlayer &&
            r.game.phase == after.game.phase
    ensures PlayerIds(r.game.player1) == PlayerIds(after.game.player1) &&
            PlayerIds(r.game.player2) == PlayerIds(after.game.player2)
    ensures Sound(after) ==> Sound(r)
  {
    TurnResetKeepsIds(after);
    WinCheck(if after.game.turn != before.game.turn then TurnReset(after) else after)
  }

  /** One reducer step keeps the board sound (well-formed fields, energy between zero and the
      maximum, a pending discard spell affordable) and records any verdict the step reached. */
  function Step(catalog: seq<Card>, b: Board, a: Action): (r: Board)
    requires Sound(b)
    ensures Sound(r)
    ensures Verdict(r.game).Some? ==> r.winner == Verdict(r.game)
  {
    HandleSound(catalog, b, a);
    Settle(b, Handle(catalog, b, a))
  }

  /** The reducer's invariant: a sound board (well-formed fields, energy between zero and the
      maximum, a pending discard spell affordable), and the recorded winner is the verdict of
      the current players. */
  predicate Inv(b: Board) {
    Sound(b) && b.winner == Verdict(b.game)
  }

  /** The board the component mounts with, around an initial game record. */
  function Start(g: GameState): Board {
    Board(g, None, [], {}, [], map[], None, [])
  }

  lemma StartInv(g: GameState)
    requires SoundPlayer(g.player1) && SoundPlayer(g.player2)
    requires g.player1.specialCardHp > 0 && g.player2.specialCardHp > 0
    ensures Inv(Settle(Start(g), Start(g)))
  {
  }

  /** Every handler keeps the fields well formed, energy between zero and the maximum, and a
      pending discard spell affordable. */
  lemma HandleSound(catalog: seq<Card>, b: Board, a: Action)
    requires Sound(b)
    ensures Sound(Handle(catalog, b, a))
  {
    match a
    case OpponentPlayPhase =>
      if OpponentMayAct(b, Play) {
        Opponent.PlayLoopFacts(Opponent.StartPlay(b.game.player2));
      }
    case OpponentAttackPhase =>
    case HealWithMonk(monkId, at) =>
    case _ =>
  }

  /** The opponent's Attack phase always hands the turn to player 1; the game is over after
      the step exactly when the pass brought player 1's special card to zero or below, and
      then player 2 is the winner. */
  lemma DecidingPassEndsTurnFirst(catalog: seq<Card>, b: Board)
    requires Inv(b) && OpponentMayAct(b, Attack)
    ensures var pass := Opponent.AttackPass(b.game.player1, b.game.player2, b.buffs);
      var r := Step(catalog, b, OpponentAttackPhase);
      r.game.turn == b.game.turn + 1 && r.game.currentPlayer == Player1 && r.game.phase == Draw &&
      (r.winner.Some? <==> pass.defender.specialCardHp <= 0) &&
      (r.winner.Some? ==> r.winner == Some(Player2))
  {
    var pass := Opponent.AttackPass(b.game.player1, b.game.player2, b.buffs);
    var h := Handle(catalog, b, OpponentAttackPhase);
    assert h == OpponentAttackTurn(b);
    assert h.game.turn == b.game.turn + 1 && h.winner.None?;
    var t := TurnReset(h);
    assert t.game.player1.specialCardHp == pass.defender.specialCardHp;
    assert t.game.player2.specialCardHp == b.game.player2.specialCardHp > 0;
    assert Step(catalog, b, OpponentAttackPhase) == WinCheck(t);
  }

  /** While a discard spell waits for its choice no card is selected, so a click on an own
      slot neither plays a monster nor casts a spell: the board stays as it was. */
  lemma PendingDiscardBlocksPlays(catalog: seq<Card>, b: Board, k: nat, at: Pos)
    requires Sound(b) && b.casting.Some?
    ensures Handle(catalog, b, PlayMonsterAt(k, at)) == b
    ensures Handle(catalog, b, CastOnFieldCard(k, at)) == b
  {
  }

  /** Once the game is over, no move changes the recorded winner... or anything else. */
  lemma HandleFrozenWhenOver(catalog: seq<Card>, b: Board, a: Action)
    requires Sound(b) && b.winner.Some?
    ensures Handle(catalog, b, a) == b
  {
  }

  /** A step that does not end in a decided game never changes the recorded winner. */
  lemma HandleKeepsWinner(catalog: seq<Card>, b: Board, a: Action)
    requires Sound(b)
    ensures Handle(catalog, b, a).winner == b.winner || Handle(catalog, b, a).winner == Verdict(Handle(catalog, b, a).game)
  {
  }

  /** The invariant holds after every step. */
  lemma StepKeepsInv(catalog: seq<Card>, b: Board, a: Action)
    requires Inv(b)
    ensures Inv(Step(catalog, b, a))
  {
    HandleSound(catalog, b, a);
    HandleKeepsWinner(catalog, b, a);
    if b.winner.Some? {
      HandleFrozenWhenOver(catalog, b, a);
    }
  }

  /** After the game is decided every action leaves the board exactly as it is. */
  lemma GameOverIsFinal(catalog: seq<Card>, b: Board, a: Action)
    requires Inv(b) && b.winner.Some?
    ensures Step(catalog, b, a) == b
  {
    HandleFrozenWhenOver(catalog, b, a);
  }

  /** A step that ends the turn starts the next one clean: no attacked, moved or summoned
      monster, no buff, and no effect flag left on either field. */
  lemma NewTurnStartsClean(catalog: seq<Card>, b: Board, a: Action)
    requires Sound(b)
    requires Handle(catalog, b, a).game.turn != b.game.turn
    ensures var r := Step(catalog, b, a);
      r.attacked == [] && r.moved == {} && r.summoned == [] && r.buffs == map[] &&
      (forall p :: r.game.player1.field.ValidPos(p) && r.game.player1.field.At(p).Some? ==>
         !r.game.player1.field.At(p).value.hasUsedEffectThisTurn) &&
      (forall p :: r.game.player2.field.ValidPos(p) && r.game.player2.field.At(p).Some? ==>
         !r.game.player2.field.At(p).value.hasUsedEffectThisTurn)
  {
  }
}
