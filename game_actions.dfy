/** `healMonster`: the support monster's once-per-turn effect. It heals one
    monster on the current player's field by 1 HP, never above the catalog max HP
    of that monster's definition, and marks the healer as having used its effect.
    Every rejected request returns the input state itself. */
module GameActions {
  import opened CardTypes
  import opened CardText
  import Catalog

  function Min(a: int, b: int): (m: int)
    ensures m <= a && m <= b && (m == a || m == b)
  {
    if a <= b then a else b
  }

  predicate HasId(s: Slot, id: string) {
    s.Some? && s.value.id == id
  }

  /** `row.findIndex(card => card?.id === id)`: the first slot holding that id. */
  function FindInRow(row: seq<Slot>, id: string): (r: Option<nat>)
    ensures r.Some? ==> r.value < |row| && HasId(row[r.value], id)
    ensures r.Some? ==> forall k :: 0 <= k < r.value ==> !HasId(row[k], id)
    ensures r.None? ==> forall k :: 0 <= k < |row| ==> !HasId(row[k], id)
  {
    if |row| == 0 then None
    else if HasId(row[0], id) then Some(0)
    else
      match FindInRow(row[1..], id)
      case None => None
      case Some(k) => Some(k + 1)
  }

  /** The search over the front row and then the back row, stopping at the first hit. */
  function FindOnField(f: Field, id: string): (r: Option<Pos>)
    ensures r.Some? ==> f.ValidPos(r.value) && HasId(f.At(r.value), id)
    ensures r.Some? && r.value.row == BackRow ==> forall k :: 0 <= k < |f.frontRow| ==> !HasId(f.frontRow[k], id)
    ensures r.None? ==> forall p :: f.ValidPos(p) ==> !HasId(f.At(p), id)
  {
    match FindInRow(f.frontRow, id)
    case Some(k) => Some(Pos(FrontRow, k))
    case None =>
      match FindInRow(f.backRow, id)
      case Some(k) => Some(Pos(BackRow, k))
      case None => None
  }

  /** `catalog.find(card => card.id === id)`, as the position of the card it finds:
      the first entry with that id. */
  function FindDef(catalog: seq<Card>, id: string): (r: Option<nat>)
    ensures r.Some? ==> r.value < |catalog| && catalog[r.value].id == id
    ensures r.Some? ==> forall k :: 0 <= k < r.value ==> catalog[k].id != id
    ensures r.None? ==> forall k :: 0 <= k < |catalog| ==> catalog[k].id != id
  {
    if |catalog| == 0 then None
    else if catalog[0].id == id then Some(0)
    else
      match FindDef(catalog[1..], id)
      case None => None
      case Some(k) => Some(k + 1)
  }

  /** The max HP of an instance: the `cardHp` of the first catalog entry whose id is the
      instance id's prefix before the first '-', when that entry is a Monster with HP. */
  function CatalogMaxHp(catalog: seq<Card>, instanceId: string): (r: Option<int>)
    ensures var k := FindDef(catalog, IdPrefix(instanceId));
            r.Some? <==> k.Some? && catalog[k.value].kind == Monster && catalog[k.value].cardHp.Some?
    ensures var k := FindDef(catalog, IdPrefix(instanceId));
            r.Some? ==> k.Some? && catalog[k.value].cardHp == Some(r.value)
  {
    match FindDef(catalog, IdPrefix(instanceId))
    case None => None
    case Some(k) =>
      var d := catalog[k];
      if d.kind == Monster && d.cardHp.Some? then Some(d.cardHp.value) else None
  }

  /** Everything `healMonster` established before it writes: where the healer and the
      target are, and the target's max HP. */
  datatype HealPlan = HealPlan(monkPos: Pos, monk: Card, targetPos: Pos, target: Card, maxHp: int)

  predicate MonkReady(c: Card) {
    c.kind == Monster && c.name == Catalog.MonkName && !c.hasUsedEffectThisTurn
  }

  predicate Healable(c: Card) {
    c.kind == Monster && c.cardHp.Some?
  }

  /** The checks of `healMonster`, in the source's order; `None` is a rejection. */
  function PlanHeal(catalog: seq<Card>, f: Field, monkCardId: string, targetMonsterId: string): (r: Option<HealPlan>)
    ensures r.Some? ==> f.ValidPos(r.value.monkPos) && f.At(r.value.monkPos) == Some(r.value.monk)
    ensures r.Some? ==> f.ValidPos(r.value.targetPos) && f.At(r.value.targetPos) == Some(r.value.target)
    ensures r.Some? ==> r.value.monk.id == monkCardId && MonkReady(r.value.monk)
    ensures r.Some? ==> r.value.target.id == targetMonsterId && Healable(r.value.target)
    ensures r.Some? ==> CatalogMaxHp(catalog, targetMonsterId) == Some(r.value.maxHp)
    ensures r.Some? ==> r.value.target.cardHp.value != r.value.maxHp
  {
    match FindOnField(f, monkCardId)
    case None => None
    case Some(mp) =>
      var monk := f.At(mp).value;
      if !MonkReady(monk) then None
      else
        match FindOnField(f, targetMonsterId)
        case None => None
        case Some(tp) =>
          var target := f.At(tp).value;
          if !Healable(target) then None
          else
            match CatalogMaxHp(catalog, targetMonsterId)
            case None => None
            case Some(maxHp) =>
              if target.cardHp.value == maxHp then None
              else Some(HealPlan(mp, monk, tp, target, maxHp))
  }

  /** The writes: the target row gets the healed copy, then the healer's row (re-read
      from the already healed field) gets the healer with its effect marked used. */
  function ApplyHeal(f: Field, plan: HealPlan): (r: Field)
    requires f.ValidPos(plan.monkPos) && f.ValidPos(plan.targetPos) && plan.target.cardHp.Some?
    ensures f.WellFormed() ==> r.WellFormed()
    ensures r.ValidPos(plan.monkPos) && r.At(plan.monkPos) == Some(plan.monk.(hasUsedEffectThisTurn := true))
    ensures plan.targetPos != plan.monkPos ==>
              r.ValidPos(plan.targetPos) &&
              r.At(plan.targetPos) == Some(plan.target.(cardHp := Some(Min(plan.target.cardHp.value + 1, plan.maxHp))))
    ensures forall q :: f.ValidPos(q) && q != plan.monkPos && q != plan.targetPos ==> r.ValidPos(q) && r.At(q) == f.At(q)
  {
    var healedHp := Min(plan.target.cardHp.value + 1, plan.maxHp);
    var healed := f.Put(plan.targetPos, Some(plan.target.(cardHp := Some(healedHp))));
    healed.Put(plan.monkPos, Some(plan.monk.(hasUsedEffectThisTurn := true)))
  }

  /** `healMonster(gameState, monkCardId, targetMonsterId)`. The catalog is a parameter
      because the card data module it reads is not part of this model. */
  function HealMonster(catalog: seq<Card>, g: GameState, monkCardId: string, targetMonsterId: string): (r: GameState)
    ensures r.currentPlayer == g.currentPlayer && r.turn == g.turn && r.phase == g.phase
    ensures r.Player(g.currentPlayer.Other()) == g.Player(g.currentPlayer.Other())
    ensures r.Player(g.currentPlayer).(field := g.Player(g.currentPlayer).field) == g.Player(g.currentPlayer)
    ensures g.Player(g.currentPlayer).field.WellFormed() ==> r.Player(g.currentPlayer).field.WellFormed()
  {
    var p := g.Player(g.currentPlayer);
    match PlanHeal(catalog, p.field, monkCardId, targetMonsterId)
    case None => g
    case Some(plan) => g.WithPlayer(g.currentPlayer, p.(field := ApplyHeal(p.field, plan)))
  }

  function CurrentField(g: GameState): Field {
    g.Player(g.currentPlayer).field
  }

  /** A request is carried out exactly when every check passes; otherwise the very input
      state comes back. */
  lemma HealChangesIffPlanned(catalog: seq<Card>, g: GameState, monkCardId: string, targetMonsterId: string)
    ensures HealMonster(catalog, g, monkCardId, targetMonsterId) == g
        <==> PlanHeal(catalog, CurrentField(g), monkCardId, targetMonsterId).None?
  {
    var f := CurrentField(g);
    var r := HealMonster(catalog, g, monkCardId, targetMonsterId);
    match PlanHeal(catalog, f, monkCardId, targetMonsterId)
    case None =>
    case Some(plan) =>
      var nf := ApplyHeal(f, plan);
      assert nf.At(plan.monkPos).value.hasUsedEffectThisTurn;
      assert !f.At(plan.monkPos).value.hasUsedEffectThisTurn;
      assert CurrentField(r) == nf;
  }

  /** A missing healer, one that is not a Monster, not named as the support monster,
      or that already used its effect, leaves the state unchanged. */
  lemma HealRejectsBadMonk(catalog: seq<Card>, g: GameState, monkCardId: string, targetMonsterId: string)
    requires var m := FindOnField(CurrentField(g), monkCardId);
             m.None? || !MonkReady(CurrentField(g).At(m.value).value)
    ensures HealMonster(catalog, g, monkCardId, targetMonsterId) == g
  {
  }

  /** A missing target, one that is not a Monster, or one without HP leaves the state unchanged. */
  lemma HealRejectsBadTarget(catalog: seq<Card>, g: GameState, monkCardId: string, targetMonsterId: string)
    requires var t := FindOnField(CurrentField(g), targetMonsterId);
             t.None? || !Healable(CurrentField(g).At(t.value).value)
    ensures HealMonster(catalog, g, monkCardId, targetMonsterId) == g
  {
  }

  /** A target whose id prefix names no catalog Monster with HP leaves the state unchanged. */
  lemma HealRejectsUnknownDefinition(catalog: seq<Card>, g: GameState, monkCardId: string, targetMonsterId: string)
    requires CatalogMaxHp(catalog, targetMonsterId).None?
    ensures HealMonster(catalog, g, monkCardId, targetMonsterId) == g
  {
  }

  /** A target already at its catalog max HP is refused. */
  lemma HealRejectsFullHp(catalog: seq<Card>, g: GameState, monkCardId: string, targetMonsterId: string)
    requires var t := FindOnField(CurrentField(g), targetMonsterId);
             t.Some? && CatalogMaxHp(catalog, targetMonsterId) == CurrentField(g).At(t.value).value.cardHp
    ensures HealMonster(catalog, g, monkCardId, targetMonsterId) == g
  {
  }

  /** On success with the healer and the target in different slots: the target holds a
      copy with HP min(hp + 1, max), the healer holds itself with its effect marked used,
      and every other slot is as before. */
  lemma HealSucceeds(catalog: seq<Card>, g: GameState, monkCardId: string, targetMonsterId: string)
    requires var plan := PlanHeal(catalog, CurrentField(g), monkCardId, targetMonsterId);
             plan.Some? && plan.value.monkPos != plan.value.targetPos
    ensures var plan := PlanHeal(catalog, CurrentField(g), monkCardId, targetMonsterId).value;
            var f, nf := CurrentField(g), CurrentField(HealMonster(catalog, g, monkCardId, targetMonsterId));
            && nf.ValidPos(plan.targetPos) && nf.ValidPos(plan.monkPos)
            && nf.At(plan.targetPos) == Some(plan.target.(cardHp := Some(Min(plan.target.cardHp.value + 1, plan.maxHp))))
            && nf.At(plan.targetPos).value.cardHp.value <= plan.maxHp
            && nf.At(plan.monkPos) == Some(plan.monk.(hasUsedEffectThisTurn := true))
            && (forall q :: f.ValidPos(q) && q != plan.monkPos && q != plan.targetPos ==> nf.ValidPos(q) && nf.At(q) == f.At(q))
  {
  }

  /** When the healer targets itself, the write of the marked healer replaces the healed
      copy: the HP stays as it was and only the effect flag changes. */
  lemma HealSelfKeepsHp(catalog: seq<Card>, g: GameState, monkCardId: string)
    requires PlanHeal(catalog, CurrentField(g), monkCardId, monkCardId).Some?
    ensures var plan := PlanHeal(catalog, CurrentField(g), monkCardId, monkCardId).value;
            var nf := CurrentField(HealMonster(catalog, g, monkCardId, monkCardId));
            && plan.monkPos == plan.targetPos
            && nf.ValidPos(plan.monkPos)
            && nf.At(plan.monkPos) == Some(plan.monk.(hasUsedEffectThisTurn := true))
            && nf.At(plan.monkPos).value.cardHp == CurrentField(g).At(plan.monkPos).value.cardHp
  {
  }

  /** Every monster on the field is at or below its catalog max HP. */
  ghost predicate WithinCatalogMax(catalog: seq<Card>, f: Field) {
    forall p :: f.ValidPos(p) && f.At(p).Some? ==> SlotWithinMax(catalog, f.At(p).value)
  }

  predicate SlotWithinMax(catalog: seq<Card>, c: Card) {
    var m := CatalogMaxHp(catalog, c.id);
    m.Some? && c.cardHp.Some? ==> c.cardHp.value <= m.value
  }

  /** Healing keeps every monster at or below its catalog max, so no sequence of heals
      (across any number of turns) can raise HP above it. */
  lemma HealKeepsCatalogMax(catalog: seq<Card>, g: GameState, monkCardId: string, targetMonsterId: string)
    requires WithinCatalogMax(catalog, CurrentField(g))
    ensures WithinCatalogMax(catalog, CurrentField(HealMonster(catalog, g, monkCardId, targetMonsterId)))
  {
    var f := CurrentField(g);
    match PlanHeal(catalog, f, monkCardId, targetMonsterId)
    case None =>
    case Some(plan) =>
      var nf := ApplyHeal(f, plan);
      assert CurrentField(HealMonster(catalog, g, monkCardId, targetMonsterId)) == nf;
      forall q | nf.ValidPos(q) && nf.At(q).Some?
        ensures SlotWithinMax(catalog, nf.At(q).value)
      {
        if q == plan.monkPos {
          assert SlotWithinMax(catalog, f.At(q).value);
        } else if q == plan.targetPos {
          assert nf.At(q).value.cardHp.value <= plan.maxHp;
        } else {
          assert nf.At(q) == f.At(q);
        }
      }
  }
}
