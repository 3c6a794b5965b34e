/** The scripted opponent of `GameBoard`: the Play-phase loop that summons monsters
    from the hand and the Attack-phase pass over its monsters. Each is a method that
    follows the source's loop, proved equal to a recursive specification function
    whose properties are proved as lemmas. */
module Opponent {
  import opened CardTypes
  import opened Zones
  import GameBoard

  // ------------------------------------------------------------ the play loop

  /** `card.type === 'Monster' && card.cost <= currentEnergy`. */
  predicate Playable(c: Card, energy: int) {
    c.kind == Monster && c.cost <= energy
  }

  /** `hand.filter(playable)[0]`, as an index into the hand. */
  function FirstPlayable(hand: seq<Card>, energy: int): (r: Option<nat>)
    ensures r.Some? ==> r.value < |hand| && Playable(hand[r.value], energy)
    ensures r.Some? ==> forall k :: 0 <= k < r.value ==> !Playable(hand[k], energy)
    ensures r.None? ==> forall k :: 0 <= k < |hand| ==> !Playable(hand[k], energy)
  {
    if |hand| == 0 then None
    else if Playable(hand[0], energy) then Some(0)
    else match FirstPlayable(hand[1..], energy)
      case None => None
      case Some(k) => Some(k + 1)
  }

  /** The back row is chosen exactly when both attack stats are defined and the back one is larger. */
  function PreferredRow(c: Card): (r: RowId)
    ensures r == BackRow <==> c.frontAttack.Some? && c.backAttack.Some? && c.backAttack.value > c.frontAttack.value
  {
    if c.frontAttack.Some? && c.backAttack.Some? && c.backAttack.value > c.frontAttack.value then BackRow
    else FrontRow
  }

  /** `row.findIndex(slot => slot === null)`. */
  function FirstEmpty(row: seq<Slot>): (r: Option<nat>)
    ensures r.Some? ==> r.value < |row| && row[r.value].None?
    ensures r.Some? ==> forall k :: 0 <= k < r.value ==> row[k].Some?
    ensures r.None? ==> forall k :: 0 <= k < |row| ==> row[k].Some?
  {
    if |row| == 0 then None
    else if row[0].None? then Some(0)
    else match FirstEmpty(row[1..])
      case None => None
      case Some(k) => Some(k + 1)
  }

  /** The loop's variables; `placed` lists the cards put on the field so far (the
      source keeps only the `hasPlayed` flag). */
  datatype PlayState = PlayState(energy: int, hand: seq<Card>, field: Field, hasPlayed: bool, placed: seq<Card>)

  function SumCost(cs: seq<Card>): int {
    if |cs| == 0 then 0 else SumCost(cs[..|cs| - 1]) + cs[|cs| - 1].cost
  }

  /** Every slot that holds a card in `f` holds the same card in `g`. */
  ghost predicate KeepsOccupied(f: Field, g: Field) {
    forall p :: f.ValidPos(p) && f.At(p).Some? ==> g.ValidPos(p) && g.At(p) == f.At(p)
  }

  /** The rest of the loop from state `s`: summon the first playable card into the first
      empty slot of its preferred row, or drop it from the hand when that row is full, until
      no card is playable. */
  function PlayLoop(s: PlayState): (r: PlayState)
    requires s.field.WellFormed()
    ensures r.field.WellFormed()
    decreases |s.hand|
  {
    match FirstPlayable(s.hand, s.energy)
    case None => s
    case Some(k) =>
      var c := s.hand[k];
      var row := PreferredRow(c);
      RemoveIdShrinks(s.hand, k);
      match FirstEmpty(s.field.Row(row))
      case None => PlayLoop(s.(hand := RemoveId(s.hand, c.id)))
      case Some(i) => PlayLoop(Place(s, c, Pos(row, i)))
  }

  /** One summon: pay the cost, take the card out of the hand, put it in the slot. */
  function Place(s: PlayState, c: Card, at: Pos): (r: PlayState)
    requires s.field.WellFormed() && s.field.ValidPos(at)
    ensures r.field.WellFormed()
  {
    s.(energy := s.energy - c.cost, hand := RemoveId(s.hand, c.id),
       field := s.field.Put(at, Some(c)), hasPlayed := true, placed := s.placed + [c])
  }

  /** What the loop guarantees when it stops: no card left is playable, the energy spent is
      exactly the cost of the cards placed and never more than was available, the hand only
      lost cards, and no card already on the field was replaced. */
  lemma PlayLoopFacts(s: PlayState)
    requires s.field.WellFormed()
    ensures var r := PlayLoop(s);
      (forall k :: 0 <= k < |r.hand| ==> !Playable(r.hand[k], r.energy)) &&
      r.energy + SumCost(r.placed) == s.energy + SumCost(s.placed) &&
      (s.energy >= 0 ==> r.energy >= 0) && r.energy <= s.energy &&
      |r.placed| >= |s.placed| && r.placed[..|s.placed|] == s.placed &&
      (r.hasPlayed <==> (s.hasPlayed || |r.placed| > |s.placed|)) &&
      (forall c :: c in r.hand ==> c in s.hand) &&
      KeepsOccupied(s.field, r.field)
  {
    PlayLoopSpends(s);
    PlayLoopHand(s);
    PlayLoopHandOld(s);
    PlayLoopField(s);
  }

  /** The loop's bookkeeping: energy, the cards placed and the `hasPlayed` flag. */
  lemma {:induction false} PlayLoopSpends(s: PlayState)
    requires s.field.WellFormed()
    ensures var r := PlayLoop(s);
      r.energy + SumCost(r.placed) == s.energy + SumCost(s.placed) &&
      (s.energy >= 0 ==> r.energy >= 0) && r.energy <= s.energy &&
      |r.placed| >= |s.placed| && r.placed[..|s.placed|] == s.placed &&
      (r.hasPlayed <==> (s.hasPlayed || |r.placed| > |s.placed|))
    decreases |s.hand|
  {
    match FirstPlayable(s.hand, s.energy)
    case None =>
    case Some(k) =>
      var c := s.hand[k];
      var row := PreferredRow(c);
      RemoveIdShrinks(s.hand, k);
      match FirstEmpty(s.field.Row(row))
      case None =>
        PlayLoopSpends(s.(hand := RemoveId(s.hand, c.id)));
      case Some(i) =>
        var s' := Place(s, c, Pos(row, i));
        assert s'.placed[..|s.placed|] == s.placed;
        assert SumCost(s'.placed) == SumCost(s.placed) + c.cost;
        PlayLoopSpends(s');
        var r := PlayLoop(s');
        assert r.placed[..|s.placed|] == r.placed[..|s'.placed|][..|s.placed|];
  }

  predicate NothingPlayable(hand: seq<Card>, energy: int) {
    forall k :: 0 <= k < |hand| ==> !Playable(hand[k], energy)
  }

  /** The loop stops only when no card left in the hand is playable. */
  lemma {:induction false} PlayLoopHand(s: PlayState)
    requires s.field.WellFormed()
    ensures NothingPlayable(PlayLoop(s).hand, PlayLoop(s).energy)
    decreases |s.hand|
  {
    match FirstPlayable(s.hand, s.energy)
    case None =>
    case Some(k) =>
      var c := s.hand[k];
      var row := PreferredRow(c);
      RemoveIdShrinks(s.hand, k);
      match FirstEmpty(s.field.Row(row))
      case None =>
        assert PlayLoop(s) == PlayLoop(s.(hand := RemoveId(s.hand, c.id)));
        PlayLoopHand(s.(hand := RemoveId(s.hand, c.id)));
      case Some(i) =>
        assert PlayLoop(s) == PlayLoop(Place(s, c, Pos(row, i)));
        PlayLoopHand(Place(s, c, Pos(row, i)));
  }

  /** The hand the loop stops with holds only cards it started with. */
  lemma {:induction false} PlayLoopHandOld(s: PlayState)
    requires s.field.WellFormed()
    ensures forall c :: c in PlayLoop(s).hand ==> c in s.hand
    decreases |s.hand|
  {
    match FirstPlayable(s.hand, s.energy)
    case None =>
    case Some(k) =>
      var c := s.hand[k];
      var row := PreferredRow(c);
      RemoveIdShrinks(s.hand, k);
      RemoveIdSubset(s.hand, c.id);
      match FirstEmpty(s.field.Row(row))
      case None =>
        assert PlayLoop(s) == PlayLoop(s.(hand := RemoveId(s.hand, c.id)));
        PlayLoopHandOld(s.(hand := RemoveId(s.hand, c.id)));
      case Some(i) =>
        assert PlayLoop(s) == PlayLoop(Place(s, c, Pos(row, i)));
        PlayLoopHandOld(Place(s, c, Pos(row, i)));
  }

  /** The loop only fills empty slots. */
  lemma {:induction false} PlayLoopField(s: PlayState)
    requires s.field.WellFormed()
    ensures KeepsOccupied(s.field, PlayLoop(s).field)
    decreases |s.hand|
  {
    match FirstPlayable(s.hand, s.energy)
    case None =>
    case Some(k) =>
      var c := s.hand[k];
      var row := PreferredRow(c);
      RemoveIdShrinks(s.hand, k);
      match FirstEmpty(s.field.Row(row))
      case None =>
        assert PlayLoop(s) == PlayLoop(s.(hand := RemoveId(s.hand, c.id)));
        PlayLoopField(s.(hand := RemoveId(s.hand, c.id)));
      case Some(i) =>
        assert PlayLoop(s) == PlayLoop(Place(s, c, Pos(row, i)));
        PlayLoopField(Place(s, c, Pos(row, i)));
  }

  /** The field gains exactly the ids of the cards the loop placed; a card dropped from
      the hand because its row was full goes nowhere. */
  lemma {:induction false} PlayLoopPlacesOnField(s: PlayState)
    requires s.field.WellFormed()
    ensures |PlayLoop(s).placed| >= |s.placed|
    ensures FieldIds(PlayLoop(s).field) == FieldIds(s.field) + multiset(Ids(PlayLoop(s).placed[|s.placed|..]))
    decreases |s.hand|
  {
    PlayLoopSpends(s);
    match FirstPlayable(s.hand, s.energy)
    case None =>
    case Some(k) =>
      var c := s.hand[k];
      var row := PreferredRow(c);
      RemoveIdShrinks(s.hand, k);
      match FirstEmpty(s.field.Row(row))
      case None =>
        assert PlayLoop(s) == PlayLoop(s.(hand := RemoveId(s.hand, c.id)));
        PlayLoopPlacesOnField(s.(hand := RemoveId(s.hand, c.id)));
      case Some(i) =>
        var s' := Place(s, c, Pos(row, i));
        assert PlayLoop(s) == PlayLoop(s');
        PlayLoopPlacesOnField(s');
        PlayLoopSpends(s');
        var r := PlayLoop(s');
        assert r.placed[|s.placed|] == s'.placed[|s.placed|];
        PlaceAccount(s.field, Pos(row, i), c, |s.placed|, r.placed, r.field);
  }

  /** The ids of one placement followed by the rest of the loop. */
  lemma PlaceAccount(f: Field, at: Pos, c: Card, n: nat, placed: seq<Card>, g: Field)
    requires f.ValidPos(at) && f.At(at).None? && n < |placed| && placed[n] == c
    requires FieldIds(g) == FieldIds(f.Put(at, Some(c))) + multiset(Ids(placed[n + 1..]))
    ensures FieldIds(g) == FieldIds(f) + multiset(Ids(placed[n..]))
  {
    FieldIdsPut(f, at, Some(c));
    assert SlotIds(f.At(at)) == multiset{};
    HeadIds(placed, n);
    var a, b, x, m := FieldIds(f), FieldIds(f.Put(at, Some(c))), multiset{c.id}, multiset(Ids(placed[n + 1..]));
    assert b == a + x;
    assert (a + x) + m == a + (x + m);
  }

  /** Proof step: the ids of a suffix are its first id and the ids after it. */
  lemma HeadIds(cs: seq<Card>, n: nat)
    requires n < |cs|
    ensures multiset(Ids(cs[n..])) == multiset{cs[n].id} + multiset(Ids(cs[n + 1..]))
  {
    assert cs[n..] == [cs[n]] + cs[n + 1..];
    IdsAppend([cs[n]], cs[n + 1..]);
    assert Ids([cs[n]]) == [cs[n].id];
  }

  function StartPlay(p: PlayerState): PlayState {
    PlayState(p.currentEnergy, p.hand, p.field, false, [])
  }

  /** The opponent's Play-phase update: the loop's energy, hand and field when it placed at
      least one card, otherwise the previous state (cards dropped from the hand come back). */
  function OpponentPlayed(p: PlayerState): (r: PlayerState)
    requires p.field.WellFormed()
    ensures r.(currentEnergy := p.currentEnergy, field := p.field, hand := p.hand) == p
    ensures r.field.WellFormed()
  {
    var s := PlayLoop(StartPlay(p));
    if s.hasPlayed then p.(currentEnergy := s.energy, field := s.field, hand := s.hand) else p
  }

  /** The `while (true)` loop of the opponent's Play phase. */
  method OpponentPlay(p: PlayerState) returns (r: PlayerState)
    requires p.field.WellFormed()
    ensures r == OpponentPlayed(p)
  {
    var currentEnergy := p.currentEnergy;
    var hand := p.hand;
    var field := p.field;
    var hasPlayed := false;
    ghost var placed: seq<Card> := [];
    while true
      invariant field.WellFormed()
      invariant PlayLoop(PlayState(currentEnergy, hand, field, hasPlayed, placed)) == PlayLoop(StartPlay(p))
      decreases |hand|
    {
      var playable := FirstPlayable(hand, currentEnergy);
      if playable.None? {
        break;
      }
      var cardToPlay := hand[playable.value];
      var targetRow := PreferredRow(cardToPlay);
      var slotIndex := FirstEmpty(field.Row(targetRow));
      RemoveIdShrinks(hand, playable.value);
      if slotIndex.None? {
        hand := RemoveId(hand, cardToPlay.id);
        continue;
      }
      ghost var before := PlayState(currentEnergy, hand, field, hasPlayed, placed);
      currentEnergy := currentEnergy - cardToPlay.cost;
      hand := RemoveId(hand, cardToPlay.id);
      field := field.Put(Pos(targetRow, slotIndex.value), Some(cardToPlay));
      hasPlayed := true;
      placed := placed + [cardToPlay];
      assert PlayState(currentEnergy, hand, field, hasPlayed, placed) == Place(before, cardToPlay, Pos(targetRow, slotIndex.value));
    }
    if hasPlayed {
      r := p.(currentEnergy := currentEnergy, field := field, hand := hand);
    } else {
      r := p;
    }
  }

  /** The play phase never overdraws: starting from non-negative energy it ends non-negative,
      having spent exactly the summed cost of the cards it placed, and it never replaces a
      card already on the field. */
  lemma PlaySpendsExactly(p: PlayerState)
    requires p.field.WellFormed() && p.currentEnergy >= 0
    ensures var s := PlayLoop(StartPlay(p));
      OpponentPlayed(p).currentEnergy >= 0 &&
      OpponentPlayed(p).currentEnergy == p.currentEnergy - SumCost(s.placed) &&
      KeepsOccupied(p.field, OpponentPlayed(p).field)
  {
    PlayLoopFacts(StartPlay(p));
    var s := PlayLoop(StartPlay(p));
    if !s.hasPlayed {
      assert |s.placed| == 0;
    }
  }

  /** After the phase no card left in the hand is playable, unless nothing was placed (the
      previous hand returns, with what the loop dropped). */
  lemma PlayLeavesNothingPlayable(p: PlayerState)
    requires p.field.WellFormed()
    ensures var s := PlayLoop(StartPlay(p));
      s.hasPlayed ==> forall k :: 0 <= k < |OpponentPlayed(p).hand| ==>
        !Playable(OpponentPlayed(p).hand[k], OpponentPlayed(p).currentEnergy)
    ensures !PlayLoop(StartPlay(p)).hasPlayed ==> OpponentPlayed(p) == p
  {
    PlayLoopFacts(StartPlay(p));
  }

  // ------------------------------------------------------------ the attack pass

  /** A monster of the opponent's field and where it stands. */
  datatype Attacker = Attacker(card: Card, at: Pos)

  /** The `forEach` over one row from index `i`: occupied Monster slots, in order. */
  function RowAttackers(row: seq<Slot>, rid: RowId, i: nat): seq<Attacker>
    decreases |row| - i
  {
    if i >= |row| then []
    else
      var here := if row[i].Some? && row[i].value.kind == Monster then [Attacker(row[i].value, Pos(rid, i))] else [];
      here + RowAttackers(row, rid, i + 1)
  }

  /** A Monster that sits, in row `rid` of `row`, at the position it records, at or after `i`. */
  predicate SitsAt(row: seq<Slot>, rid: RowId, i: nat, x: Attacker) {
    x.at.row == rid && i <= x.at.index < |row| && row[x.at.index] == Some(x.card) && x.card.kind == Monster
  }

  /** Every collected attacker sits where it says. */
  lemma {:induction false} RowAttackersAt(row: seq<Slot>, rid: RowId, i: nat)
    ensures forall k :: 0 <= k < |RowAttackers(row, rid, i)| ==> SitsAt(row, rid, i, RowAttackers(row, rid, i)[k])
    decreases |row| - i
  {
    if i < |row| {
      RowAttackersAt(row, rid, i + 1);
      var here: seq<Attacker> := if row[i].Some? && row[i].value.kind == Monster then [Attacker(row[i].value, Pos(rid, i))] else [];
      var rest := RowAttackers(row, rid, i + 1);
      assert RowAttackers(row, rid, i) == here + rest;
      forall k | 0 <= k < |here + rest| ensures SitsAt(row, rid, i, (here + rest)[k]) {
        if k >= |here| {
          assert (here + rest)[k] == rest[k - |here|];
          assert SitsAt(row, rid, i + 1, rest[k - |here|]);
        }
      }
    }
  }

  /** `player2Monsters`: front-row monsters first, then back-row monsters. */
  function Attackers(f: Field): seq<Attacker> {
    RowAttackers(f.frontRow, FrontRow, 0) + RowAttackers(f.backRow, BackRow, 0)
  }

  /** One `forEach` over a row, pushing its Monster slots. */
  method CollectRow(row: seq<Slot>, rid: RowId) returns (list: seq<Attacker>)
    ensures list == RowAttackers(row, rid, 0)
  {
    list := [];
    for i := 0 to |row|
      invariant list + RowAttackers(row, rid, i) == RowAttackers(row, rid, 0)
    {
      var card := row[i];
      ghost var rest := RowAttackers(row, rid, i + 1);
      if card.Some? && card.value.kind == Monster {
        assert RowAttackers(row, rid, i) == [Attacker(card.value, Pos(rid, i))] + rest;
        assert (list + [Attacker(card.value, Pos(rid, i))]) + rest == list + ([Attacker(card.value, Pos(rid, i))] + rest);
        list := list + [Attacker(card.value, Pos(rid, i))];
      } else {
        assert RowAttackers(row, rid, i) == rest;
      }
    }
  }

  /** The two `forEach` loops that collect `player2Monsters`. */
  method CollectAttackers(f: Field) returns (list: seq<Attacker>)
    ensures list == Attackers(f)
  {
    var front := CollectRow(f.frontRow, FrontRow);
    var back := CollectRow(f.backRow, BackRow);
    list := front + back;
  }

  /** `row.findIndex(card => card !== null)`: the first occupied slot. */
  function FirstOccupied(row: seq<Slot>): (r: Option<nat>)
    ensures r.Some? ==> r.value < |row| && row[r.value].Some?
    ensures r.Some? ==> forall k :: 0 <= k < r.value ==> row[k].None?
    ensures r.None? ==> !RowOccupied(row)
  {
    if |row| == 0 then None
    else if row[0].Some? then Some(0)
    else match FirstOccupied(row[1..])
      case None =>
        assert forall k :: 1 <= k < |row| ==> row[k] == row[1..][k - 1];
        None
      case Some(k) => Some(k + 1)
  }

  /** The front-row target fixed before the pass: its slot and the card object in it. */
  datatype Snapshot = Snapshot(index: nat, card: Card)

  function TakeSnapshot(f: Field): (s: Option<Snapshot>)
    requires f.WellFormed()
    ensures s.Some? ==> s.value.index < RowSize && f.frontRow[s.value.index] == Some(s.value.card)
    ensures s.None? <==> !RowOccupied(f.frontRow)
  {
    match FirstOccupied(f.frontRow)
    case None => None
    case Some(k) => Some(Snapshot(k, f.frontRow[k].value))
  }

  /** The pass's variables: player 1 as updated so far, `aiAttackedMonsterIdsThisTurn`, and
      whether the snapshot card is still the object in its slot (a hit replaces or clears
      it, after which the identity search finds nothing). */
  datatype Pass = Pass(defender: PlayerState, marked: seq<string>, intact: bool)

  /** `(row === 'frontRow' ? frontAttack : backAttack) || 0`. */
  function StatOr0(s: Option<int>): int {
    if s.Some? then s.value else 0
  }

  function OpponentPower(a: Attacker, buffs: map<string, int>): int {
    StatOr0(if a.at.row == FrontRow then a.card.frontAttack else a.card.backAttack) + GameBoard.BuffOf(buffs, a.card.id)
  }

  /** A hit on the snapshot card at front slot `k`. A card without hp gets `NaN` in the
      source, which is not `<= 0`: the slot then receives a copy of the card. */
  function HitSnapshot(p: PlayerState, snap: Snapshot, power: int): (r: PlayerState)
    requires p.field.WellFormed() && snap.index < RowSize
    ensures r.field.WellFormed()
    ensures r.(field := p.field, graveyard := p.graveyard) == p
  {
    var at := Pos(FrontRow, snap.index);
    var t := snap.card;
    match t.cardHp
    case None => p.(field := p.field.Put(at, Some(t)))
    case Some(hp) =>
      if hp - power <= 0 then p.(field := p.field.Put(at, None), graveyard := p.graveyard + [t])
      else p.(field := p.field.Put(at, Some(t.(cardHp := Some(hp - power)))))
  }

  /** While the snapshot is intact the hit is the board's damage step. */
  lemma HitSnapshotIsDamage(p: PlayerState, snap: Snapshot, power: int)
    requires p.field.WellFormed() && snap.index < RowSize
    requires p.field.frontRow[snap.index] == Some(snap.card) && snap.card.cardHp.Some?
    ensures HitSnapshot(p, snap, power) == GameBoard.Damage(p, Pos(FrontRow, snap.index), power)
  {
  }

  /** One `forEach` step of the pass. */
  function Strike(st: Pass, snap: Option<Snapshot>, a: Attacker, buffs: map<string, int>): (r: Pass)
    requires st.defender.field.WellFormed() && (snap.Some? ==> snap.value.index < RowSize)
    ensures r.defender.field.WellFormed()
    ensures r.defender.currentEnergy == st.defender.currentEnergy && r.defender.maxEnergy == st.defender.maxEnergy
  {
    if a.card.id in st.marked then st
    else match snap
      case None =>
        st.(defender := st.defender.(specialCardHp := st.defender.specialCardHp - OpponentPower(a, buffs)),
            marked := st.marked + [a.card.id])
      case Some(s) =>
        if !st.intact then st
        else Pass(HitSnapshot(st.defender, s, OpponentPower(a, buffs)), st.marked + [a.card.id], false)
  }

  /** The rest of the pass over `atk`. */
  function PassFrom(atk: seq<Attacker>, st: Pass, snap: Option<Snapshot>, buffs: map<string, int>): (r: Pass)
    requires st.defender.field.WellFormed() && (snap.Some? ==> snap.value.index < RowSize)
    ensures r.defender.field.WellFormed()
    ensures r.defender.currentEnergy == st.defender.currentEnergy && r.defender.maxEnergy == st.defender.maxEnergy
    decreases |atk|
  {
    if |atk| == 0 then st else PassFrom(atk[1..], Strike(st, snap, atk[0], buffs), snap, buffs)
  }

  /** The opponent's Attack-phase update of player 1, and the ids it marks as having attacked. */
  function AttackPass(p1: PlayerState, p2: PlayerState, buffs: map<string, int>): (r: Pass)
    requires p1.field.WellFormed()
    ensures r.defender.field.WellFormed()
    ensures r.defender.currentEnergy == p1.currentEnergy && r.defender.maxEnergy == p1.maxEnergy
  {
    PassFrom(Attackers(p2.field), Pass(p1, [], true), TakeSnapshot(p1.field), buffs)
  }

  /** The pass as written: collect the attackers, fix the snapshot, then one `forEach`. */
  method OpponentAttack(p1: PlayerState, p2: PlayerState, buffs: map<string, int>)
    returns (defender: PlayerState, marked: seq<string>)
    requires p1.field.WellFormed()
    ensures defender == AttackPass(p1, p2, buffs).defender
    ensures marked == AttackPass(p1, p2, buffs).marked
  {
    var atk := CollectAttackers(p2.field);
    var snap := TakeSnapshot(p1.field);
    var st := Pass(p1, [], true);
    for i := 0 to |atk|
      invariant st.defender.field.WellFormed()
      invariant PassFrom(atk[i..], st, snap, buffs) == AttackPass(p1, p2, buffs)
    {
      assert atk[i..][1..] == atk[i + 1..];
      st := Strike(st, snap, atk[i], buffs);
    }
    defender, marked := st.defender, st.marked;
  }

  function SumPower(atk: seq<Attacker>, buffs: map<string, int>): int {
    if |atk| == 0 then 0 else OpponentPower(atk[0], buffs) + SumPower(atk[1..], buffs)
  }

  function AttackerIds(atk: seq<Attacker>): (r: seq<string>)
    ensures |r| == |atk| && forall k :: 0 <= k < |atk| ==> r[k] == atk[k].card.id
  {
    seq(|atk|, k requires 0 <= k < |atk| => atk[k].card.id)
  }

  predicate DistinctAttackers(atk: seq<Attacker>) {
    forall i, j :: 0 <= i < j < |atk| ==> atk[i].card.id != atk[j].card.id
  }

  /** With an empty front row every attacker hits the special card: each is marked, in
      order, and the special card loses the sum of their powers; nothing else changes. */
  lemma DirectPass(atk: seq<Attacker>, st: Pass, buffs: map<string, int>)
    requires st.defender.field.WellFormed() && DistinctAttackers(atk)
    requires forall k :: 0 <= k < |atk| ==> atk[k].card.id !in st.marked
    ensures var r := PassFrom(atk, st, None, buffs);
      r.marked == st.marked + AttackerIds(atk) &&
      r.defender == st.defender.(specialCardHp := st.defender.specialCardHp - SumPower(atk, buffs)) &&
      r.intact == st.intact
  {
    DirectPassMarks(atk, st, buffs);
    DirectPassDamage(atk, st, buffs);
  }

  lemma {:induction false} DirectPassMarks(atk: seq<Attacker>, st: Pass, buffs: map<string, int>)
    requires st.defender.field.WellFormed() && DistinctAttackers(atk)
    requires forall k :: 0 <= k < |atk| ==> atk[k].card.id !in st.marked
    ensures PassFrom(atk, st, None, buffs).marked == st.marked + AttackerIds(atk)
    ensures PassFrom(atk, st, None, buffs).intact == st.intact
    decreases |atk|
  {
    if |atk| > 0 {
      var st' := DirectStep(atk, st, buffs);
      DirectPassMarks(atk[1..], st', buffs);
      AttackerIdsCons(st.marked, atk);
    }
  }

  lemma {:induction false} DirectPassDamage(atk: seq<Attacker>, st: Pass, buffs: map<string, int>)
    requires st.defender.field.WellFormed() && DistinctAttackers(atk)
    requires forall k :: 0 <= k < |atk| ==> atk[k].card.id !in st.marked
    ensures PassFrom(atk, st, None, buffs).defender
      == st.defender.(specialCardHp := st.defender.specialCardHp - SumPower(atk, buffs))
    decreases |atk|
  {
    if |atk| > 0 {
      var st' := DirectStep(atk, st, buffs);
      DirectPassDamage(atk[1..], st', buffs);
    }
  }

  lemma AttackerIdsCons(m: seq<string>, atk: seq<Attacker>)
    requires |atk| > 0
    ensures (m + [atk[0].card.id]) + AttackerIds(atk[1..]) == m + AttackerIds(atk)
  {
    var ids := AttackerIds(atk[1..]);
    assert AttackerIds(atk) == [atk[0].card.id] + ids;
  }

  /** The first strike of a direct pass, and the tail of the pass still meets the
      requirements of a direct pass. */
  lemma DirectStep(atk: seq<Attacker>, st: Pass, buffs: map<string, int>) returns (st': Pass)
    requires st.defender.field.WellFormed() && DistinctAttackers(atk) && |atk| > 0
    requires forall k :: 0 <= k < |atk| ==> atk[k].card.id !in st.marked
    ensures st' == Pass(st.defender.(specialCardHp := st.defender.specialCardHp - OpponentPower(atk[0], buffs)),
                        st.marked + [atk[0].card.id], st.intact)
    ensures st'.defender.field.WellFormed() && DistinctAttackers(atk[1..])
    ensures forall k :: 0 <= k < |atk[1..]| ==> atk[1..][k].card.id !in st'.marked
    ensures PassFrom(atk, st, None, buffs) == PassFrom(atk[1..], st', None, buffs)
  {
    assert atk[0].card.id !in st.marked;
    st' := Strike(st, None, atk[0], buffs);
    var t := atk[1..];
    forall k | 0 <= k < |t| ensures t[k].card.id !in st'.marked {
      assert t[k] == atk[k + 1];
      assert atk[0].card.id != atk[k + 1].card.id;
    }
    forall i, j | 0 <= i < j < |t| ensures t[i].card.id != t[j].card.id {
      assert t[i] == atk[i + 1] && t[j] == atk[j + 1];
    }
  }

  /** With an occupied front row at most one strike lands: at most one id is marked, a
      pass whose snapshot is already broken changes nothing, the special card is untouched
      and no slot other than the snapshot's changes. */
  lemma {:induction false} GuardedPass(atk: seq<Attacker>, st: Pass, snap: Snapshot, buffs: map<string, int>)
    requires st.defender.field.WellFormed() && snap.index < RowSize
    ensures var r := PassFrom(atk, st, Some(snap), buffs);
      |st.marked| <= |r.marked| <= |st.marked| + 1 && r.marked[..|st.marked|] == st.marked &&
      (!st.intact ==> r == st) &&
      r.defender.specialCardHp == st.defender.specialCardHp &&
      r.defender.(field := st.defender.field, graveyard := st.defender.graveyard) == st.defender &&
      (forall q :: st.defender.field.ValidPos(q) && q != Pos(FrontRow, snap.index) ==>
         r.defender.field.ValidPos(q) && r.defender.field.At(q) == st.defender.field.At(q))
    decreases |atk|
  {
    if |atk| > 0 {
      var st' := Strike(st, Some(snap), atk[0], buffs);
      GuardedPass(atk[1..], st', snap, buffs);
      if st'.intact {
        assert st' == st;
      } else if st.intact && st' != st {
        assert PassFrom(atk[1..], st', Some(snap), buffs) == st';
      }
    }
  }

  /** The opponent's attack pass, as the game plays it. With no attacker nothing happens.
      With an empty front row every attacker hits the special card (when their ids are
      distinct). With an occupied front row the first attacker hits the snapshot card, which
      is the board's damage step when that card has hp, and is the only one marked. */
  lemma AttackPassTargets(p1: PlayerState, p2: PlayerState, buffs: map<string, int>)
    requires p1.field.WellFormed()
    ensures var r, atk := AttackPass(p1, p2, buffs), Attackers(p2.field);
      (|atk| == 0 ==> r == Pass(p1, [], true)) &&
      (!RowOccupied(p1.field.frontRow) && DistinctAttackers(atk) ==>
         r.marked == AttackerIds(atk) &&
         r.defender == p1.(specialCardHp := p1.specialCardHp - SumPower(atk, buffs))) &&
      (RowOccupied(p1.field.frontRow) ==>
         |r.marked| <= 1 && r.defender.specialCardHp == p1.specialCardHp &&
         r.defender.(field := p1.field, graveyard := p1.graveyard) == p1)
    ensures var r, atk := AttackPass(p1, p2, buffs), Attackers(p2.field);
      RowOccupied(p1.field.frontRow) && |atk| > 0 ==>
        var snap := TakeSnapshot(p1.field).value;
        var power := OpponentPower(atk[0], buffs);
        r.marked == [atk[0].card.id] && !r.intact &&
        r.defender == HitSnapshot(p1, snap, power) &&
        (snap.card.cardHp.Some? ==> r.defender == GameBoard.Damage(p1, Pos(FrontRow, snap.index), power))
  {
    var atk := Attackers(p2.field);
    var st := Pass(p1, [], true);
    if RowOccupied(p1.field.frontRow) {
      var snap := TakeSnapshot(p1.field).value;
      GuardedPass(atk, st, snap, buffs);
      if |atk| > 0 {
        var st' := Strike(st, Some(snap), atk[0], buffs);
        assert st' == Pass(HitSnapshot(p1, snap, OpponentPower(atk[0], buffs)), [atk[0].card.id], false);
        GuardedPass(atk[1..], st', snap, buffs);
        if snap.card.cardHp.Some? {
          HitSnapshotIsDamage(p1, snap, OpponentPower(atk[0], buffs));
        }
      }
    } else if DistinctAttackers(atk) {
      DirectPass(atk, st, buffs);
    }
  }
}
