# Card battle engine — a Dafny model

This project models the rules engine of a two-player card battle game in the browser. The human (player 1) plays against a scripted opponent (player 2). Each player has:

- a deck, a hand and a graveyard;
- a field of two rows (front and back) of three slots each;
- energy that regenerates up to a maximum;
- a "special card" whose HP decides the game.

A turn runs Draw → Play → Attack. After that the other player's Draw phase starts and the turn counter goes up.

The model covers three parts of the game.

- **The heal effect** `healMonster` (module `GameActions`).
  - It finds the support monster "僧侶" (the monk) and a target by id on the current player's field.
  - It looks up the target's maximum HP in the card catalog, by the id prefix before the first `-`.
  - It heals the target by one, capped at that maximum, and marks the monk's effect as used.
  - Every failed check returns the input state unchanged.
- **Deck building and the initial game record** (modules `Catalog`, `CardText`, `InitialState`). These are imperative methods:
  - a 40-card random deck whose instance ids are `defId-index`;
  - an imported saved deck whose ids are `defId-instance-index`;
  - both go through the in-place Fisher–Yates shuffle;
  - then the 5-card opening hand and the fixed starting statistics.
- **The rules inside the `GameBoard` component** (modules `GameBoard`, `Opponent`, `Reducer`), pulled out into a reducer.
  - The state is the game record plus the component state the rules touch:
    - the winner;
    - the ids that attacked, moved or were summoned this turn;
    - the attack-buff map;
    - the discard spell being cast and the cards chosen for it.
  - Every event the component reacts to is an `Action`: the phase timer, the two buttons, each kind of click, and the three phases of the opponent's scripted turn.
  - `Reducer.Step` applies the action's handler. It then applies the two effects that follow a render: the per-turn reset when `turn` changed, and the win check.
  - The opponent's Play-phase `while (true)` loop and its Attack-phase `forEach` pass are methods. Each is proved equal to a recursive specification function, and the facts about the phase are proved as lemmas about that function.

Several promises are proved across the whole model.

- **Cards are conserved.** Each operation that moves cards between zones keeps the multiset of ids a player owns (deck + hand + graveyard + field). This covers drawing, phase steps, the reset, playing, moving, damage, and the draw and discard spells. The opponent's play loop is the exception: its field gains exactly the ids of the cards it placed, but a monster it drops because its row is full leaves the game when something else was placed.
- **The reducer's invariant holds.** `Reducer.Inv` says:
  - both fields stay well formed (three slots per row);
  - energy stays between zero and the maximum;
  - a discard spell waiting for its choice is still affordable, so its unchecked payment never drives energy negative;
  - the recorded winner is always the verdict of the current special-card HPs.

  Once the game is decided, every action leaves the board exactly as it is.

Several behaviours of the code are modelled as written.

- The attack-buff spell `s001` neither pays its cost nor leaves the hand.
- When the monk heals itself, the write of the marked monk replaces the healed copy, so the HP does not change.
- The opponent's attack pass takes its front-row target from a snapshot taken before the loop. It then finds that card again by object identity. After the first hit replaces or clears the slot, later attackers find no target and are not marked as having attacked. The model keeps this as an `intact` flag in the pass state.
- The confirmation of the discard spell `s003` pays the cost without checking energy again. Casting it clears the selection, and while it waits every hand click is a discard choice, so no card can be selected. Nothing else is paid for meanwhile: plays and casts are refused while it is pending, and the cost stays covered.
- The opponent's attack pass writes player 1's new record into the `players` object that the previous state shares. The win check, an effect on `[players]`, therefore does not run after the pass, and the flow goes on to `handleEndTurn`. A deciding pass is recorded only after the turn reset has built new player records: the turn has then already passed to player 1.
- A move can only end on an empty own slot, so picking the monster's own slot as the destination is refused.
- A monster the opponent cannot place because its preferred row is full is dropped from the local hand for the rest of the loop. If nothing was placed at all, the previous state is kept, and the dropped cards come back with it.

## Model

| member | source | states |
|---|---|---|
| CardText.IdPrefix | card-game/src/logic/gameActions.ts:66 | the prefix taken from an id is a dash-free prefix of it, followed by a '-' whenever it is shorter than the id |
| CardText.IdPrefixOfTagged | card-game/src/logic/gameActions.ts:66 | the prefix of an instance id `d-…` built from a dash-free definition id `d` is `d` itself |
| CardText.NatToStringInjective | card-game/src/logic/initialState.ts:31 | distinct deck positions render as distinct decimal strings |
| CardText.TagInjective | card-game/src/logic/initialState.ts:31 | an instance id determines both its definition id and its position, when definition ids are dash-free and the separator starts with '-' |
| CardText.AfterLastDash | card-game/src/logic/initialState.ts:31 | the text after the last '-' is a dash-free suffix of the string |
| CardText.AfterLastDashOf | card-game/src/logic/initialState.ts:77 | the text after the last '-' of `x-u` with a dash-free `u` is `u` |
| CardText.TagPosition | card-game/src/logic/initialState.ts:31 | with a separator that ends in '-', an instance id determines the position it was tagged with, whatever the definition ids contain |
| Catalog.CatalogShape | card-game/src/logic/initialState.ts:5-21 | the master list has 15 entries, none of whose ids contains '-', and every cost is at most 3 |
| CardTypes.Field.Put | card-game/src/components/GameBoard.tsx:55-62 | writing one slot sets that slot, keeps every other slot and keeps both rows at three slots |
| CardTypes.EmptyField | card-game/src/logic/initialState.ts:60-63 | the starting field has two rows of three empty slots |
| Zones.RemoveIdOfDistinct | card-game/src/components/GameBoard.tsx:227 | filtering a hand of distinct ids by the id of its k-th card removes exactly position k |
| Zones.RemoveIdShrinks | card-game/src/components/GameBoard.tsx:221-227 | filtering out the id of a card in the hand makes the hand strictly shorter, which ends the opponent's play loop |
| Zones.RemoveIdSubset | card-game/src/components/GameBoard.tsx:223 | filtering never adds a card |
| Zones.RemoveIdsPair | card-game/src/components/GameBoard.tsx:343 | filtering by the two chosen ids is filtering by each in turn |
| Zones.RemoveAtIds | card-game/src/components/GameBoard.tsx:400 | removing the card at an index removes exactly its id from the hand's id multiset |
| Zones.FieldIdsPut | card-game/src/components/GameBoard.tsx:58-59 | writing a slot trades the old slot's id for the new one in the field's id multiset |
| Zones.FieldIdsMove | card-game/src/components/GameBoard.tsx:55-62 | moving a card to an empty slot keeps the field's ids |
| GameActions.FindOnField | card-game/src/logic/gameActions.ts:19-29 | a found slot holds the id, a back-row result means no front-row slot holds it (the front row is searched first), and none means no slot holds it |
| GameActions.FindDef | card-game/src/logic/gameActions.ts:66 | the position of the first catalog entry with the id, or none exactly when no entry has it |
| GameActions.CatalogMaxHp | card-game/src/logic/gameActions.ts:66-73 | a maximum HP is found exactly when the first catalog entry whose id is the instance id's prefix is a Monster with HP, and it is that entry's HP |
| GameActions.PlanHeal | card-game/src/logic/gameActions.ts:19-83 | a planned heal names a ready monk and a healable target where the ids say, a catalog maximum for the target, and a target not at that maximum |
| GameActions.ApplyHeal | card-game/src/logic/gameActions.ts:76-97 | the monk slot holds the monk marked used; when the slots differ the target slot holds the target with min(hp + 1, max); every other slot is kept and the field stays well formed |
| GameActions.HealMonster | card-game/src/logic/gameActions.ts:99-104 | only the current player's field can change: the other player, the turn, the phase and the rest of the current player stay, and the field stays well formed |
| GameActions.HealChangesIffPlanned | card-game/src/logic/gameActions.ts:5-105 | the state changes if and only if every check passes; otherwise the very input state is returned |
| GameActions.HealRejectsBadMonk | card-game/src/logic/gameActions.ts:19-40 | a missing healer, one that is not a Monster, not named 僧侶, or already used, leaves the state unchanged |
| GameActions.HealRejectsBadTarget | card-game/src/logic/gameActions.ts:47-63 | a missing target, one that is not a Monster, or one without HP leaves the state unchanged |
| GameActions.HealRejectsUnknownDefinition | card-game/src/logic/gameActions.ts:66-71 | a target whose prefix names no catalog Monster with HP leaves the state unchanged |
| GameActions.HealRejectsFullHp | card-game/src/logic/gameActions.ts:80-83 | a target already at its catalog maximum leaves the state unchanged |
| GameActions.HealSucceeds | card-game/src/logic/gameActions.ts:86-97 | with healer and target in different slots, including the same row, the target gets min(hp + 1, max) and never more than max, the healer is marked used, and every other slot is kept |
| GameActions.HealSelfKeepsHp | card-game/src/logic/gameActions.ts:89-97 | a monk healing itself keeps its HP and only gets its effect flag set |
| GameActions.HealKeepsCatalogMax | card-game/src/logic/gameActions.ts:85-91 | if every card on the field is within its catalog maximum, it still is after a heal |
| InitialState.InstanceIdsDistinct | card-game/src/logic/initialState.ts:31 | tagging cards with their positions after a separator that ends in '-' gives pairwise distinct instance ids, whatever the definition ids contain |
| InitialState.SwapKeeps | card-game/src/logic/initialState.ts:34 | one swap keeps the deck's multiset and the distinctness of its ids |
| InitialState.ShuffleFromKeeps | card-game/src/logic/initialState.ts:32-35 | the swap loop with indices j ≤ i yields a permutation of its input that keeps ids distinct |
| InitialState.ShuffleStep | card-game/src/logic/initialState.ts:32-35 | one iteration of the loop is the first swap of the remaining shuffle |
| InitialState.ShuffleInPlace | card-game/src/logic/initialState.ts:32-35 | the in-place loop leaves the array equal to the specified shuffle of its old contents |
| InitialState.ShuffledCopies | card-game/src/logic/initialState.ts:26-31 | every card of a permutation of the tagged picks is a catalog card with only its id changed |
| InitialState.Picked | card-game/src/logic/initialState.ts:25-29 | the k-th pushed card is the catalog entry at the k-th pick, and there are as many cards as picks |
| InitialState.WithInstanceIds | card-game/src/logic/initialState.ts:31 | each card keeps everything but its id, which becomes `${id}${sep}${index}` |
| InitialState.Shuffle | card-game/src/logic/initialState.ts:32-35 | the shuffle keeps the length and the multiset of cards, and keeps ids distinct |
| InitialState.CreateRandomDeck | card-game/src/logic/initialState.ts:24-37 | the deck has exactly 40 cards, is a permutation of the tagged picks, each a copy of a catalog card, and its ids are distinct |
| InitialState.CreateImportedDeck | card-game/src/logic/initialState.ts:77-82 | a saved deck keeps its own length, is a permutation of the `-instance-` tagged cards, and has distinct ids |
| InitialState.BuildPlayerDeck | card-game/src/logic/initialState.ts:68-96 | a non-empty saved deck is tagged and shuffled; otherwise a 40-card random deck is built; either way the deck is non-empty with distinct ids |
| InitialState.OpeningCount | card-game/src/logic/initialState.ts:45-50 | the opening hand takes five cards, or the whole deck when it is shorter |
| InitialState.CreateInitialPlayerState | card-game/src/logic/initialState.ts:40-65 | the first min(5, size) cards become the hand in order, so hand followed by deck is the input deck, with the fixed starting statistics and an empty field and graveyard |
| InitialState.InitialGameState | card-game/src/logic/initialState.ts:98-109 | player 1 starts, on turn 1 in the Draw phase; each player's hand followed by deck is its shuffled deck, with distinct ids; the opponent has 5 cards in hand and 35 in deck |
| GameBoard.DrawOne | card-game/src/components/GameBoard.tsx:108-112 | a draw moves the head of a non-empty deck to the end of the hand and changes nothing else |
| GameBoard.DrawUpTo | card-game/src/components/GameBoard.tsx:345-353 | n guarded draws move min(n, deck size) cards from deck to hand, keeping hand followed by deck |
| GameBoard.DrawCards | card-game/src/components/GameBoard.tsx:345-353 | the drawing loop computes the specified n guarded draws |
| GameBoard.DrawKeepsIds | card-game/src/components/GameBoard.tsx:108-112 | drawing keeps every id the player owns |
| GameBoard.Regenerate | card-game/src/components/GameBoard.tsx:113-115 | energy rises by one if and only if it is below the maximum, so it never passes the maximum |
| GameBoard.DrawStep | card-game/src/components/GameBoard.tsx:104-118 | Draw becomes Play for the same player and turn; the mover draws and regenerates; the other player is untouched |
| GameBoard.SwitchTurn | card-game/src/components/GameBoard.tsx:122 | the turn counter goes up by one and the other player's Draw phase starts; both players are kept |
| GameBoard.NextPhase | card-game/src/components/GameBoard.tsx:101-126 | a phase step changes only the game record, does nothing once the game is over, and keeps fields and energy sound |
| GameBoard.NextPhaseKeepsIds | card-game/src/components/GameBoard.tsx:101-126 | a phase step keeps every id of both players |
| GameBoard.EndTurn | card-game/src/components/GameBoard.tsx:128-133 | ending the turn hands over to the other player's Draw phase from any phase, and does nothing once the game is over |
| GameBoard.PhaseCycle | card-game/src/components/GameBoard.tsx:101-126 | three steps from Draw reach the other player's Draw phase of the next turn after exactly one draw and one regeneration |
| GameBoard.EndTurnIsAttackStep | card-game/src/components/GameBoard.tsx:122 | in the Attack phase, the phase button and the end-turn button have the same effect |
| GameBoard.DrawStepEnergy | card-game/src/components/GameBoard.tsx:113-115 | after the Draw step, energy is min(energy + 1, max) |
| GameBoard.ResetField | card-game/src/components/GameBoard.tsx:154-163 | occupied slots stay occupied and empty slots stay empty; every card keeps all but its cleared effect flag |
| GameBoard.TurnReset | card-game/src/components/GameBoard.tsx:144-166 | the attacked, moved and summoned sets and the buffs are emptied, both fields are reset, and nothing else changes |
| GameBoard.TurnResetIdempotent | card-game/src/components/GameBoard.tsx:144-166 | resetting twice is resetting once |
| GameBoard.TurnResetKeepsIds | card-game/src/components/GameBoard.tsx:152-165 | the reset keeps every id of both players |
| GameBoard.Verdict | card-game/src/components/GameBoard.tsx:168-174 | player 2 wins exactly when player 1's special HP is at most 0; player 1 wins exactly when only player 2's is; otherwise no winner |
| GameBoard.WinCheck | card-game/src/components/GameBoard.tsx:168-174 | a verdict is recorded when there is one, a recorded winner is otherwise kept, and nothing else changes |
| GameBoard.HumanTurnGuard | card-game/src/components/GameBoard.tsx:319 | a human handler may go on exactly when no winner is recorded and it is player 1's turn; a recorded winner is reported as the game being over |
| GameBoard.PlayMonster | card-game/src/components/GameBoard.tsx:392-408 | a play succeeds exactly when it is player 1's live turn in the Play phase with no discard spell pending, the selected hand card is a Monster, the own slot is empty and energy covers the cost; then exactly the cost is paid, exactly that card leaves the hand, it fills the slot, and its id is recorded as summoned |
| GameBoard.PlayKeepsIds | card-game/src/components/GameBoard.tsx:397-405 | playing a monster keeps player 1's ids |
| GameBoard.MoveMonster | card-game/src/components/GameBoard.tsx:44-73 | a move succeeds exactly when the source holds an own Monster not summoned or moved this turn and the destination is an empty own slot, on player 1's live turn; it empties the source, fills the destination and records the id as moved |
| GameBoard.MoveRelocates | card-game/src/components/GameBoard.tsx:55-62 | the source empties, the destination holds the card, every other slot is kept, and the field keeps its ids |
| GameBoard.MoveToOwnSlotCancels | card-game/src/components/GameBoard.tsx:50-53 | choosing the monster's own slot as the destination changes nothing |
| GameBoard.Damage | card-game/src/components/GameBoard.tsx:419-432 | lethal damage empties the slot and appends the card to the graveyard; otherwise the slot holds a copy with lower HP; nothing else changes |
| GameBoard.DamageKeepsIds | card-game/src/components/GameBoard.tsx:422-432 | damage keeps the defender's ids, whether or not the card leaves the field |
| GameBoard.DamageLethalIff | card-game/src/components/GameBoard.tsx:423-431 | the card leaves the field if and only if the power is at least its HP; otherwise its HP drops by exactly the power |
| GameBoard.AttackerCheck | card-game/src/components/GameBoard.tsx:501-541 | an attacker is accepted exactly when it is player 1's live turn in the Attack phase, the own slot holds a card and its id has not attacked this turn |
| GameBoard.AttackMonster | card-game/src/components/GameBoard.tsx:534-548 | an attack succeeds exactly when the attacker passes the selection check and has both stats, and the target is an opponent monster with HP that is not in the back row behind an occupied front row; then the target takes the row's stat plus buff and the attacker is recorded |
| GameBoard.AttackDirect | card-game/src/components/GameBoard.tsx:574-583 | a direct attack succeeds exactly when the attacker passes the selection check, has both stats and the defender's front row is empty; then the special card loses exactly the power, with no clamping, and the attacker is recorded |
| GameBoard.AttackOncePerTurn | card-game/src/components/GameBoard.tsx:536-539 | after a successful attack, any further attack by the same monster is refused |
| GameBoard.SpellKindOf | card-game/src/components/GameBoard.tsx:449-499 | the spell effect is chosen by the id prefix `s001`, `s002` or `s003`, each exactly when the id starts with it |
| GameBoard.DrawTwoEffect | card-game/src/components/GameBoard.tsx:462-486 | the draw spell draws up to two, pays its cost, leaves the hand and goes to the graveyard |
| GameBoard.DrawTwoKeepsIds | card-game/src/components/GameBoard.tsx:463-485 | with distinct ids, the draw spell keeps player 1's ids |
| GameBoard.CastSpell | card-game/src/components/GameBoard.tsx:443-499 | a cast succeeds exactly when it is player 1's live turn with no discard spell pending, energy covers the cost, `s001` has a target and `s003` finds at least three hand cards; `s001` adds 1 to the target's buff without payment, `s002` is the draw spell, `s003` starts the discard choice, any other id changes nothing |
| GameBoard.CastOnField | card-game/src/components/GameBoard.tsx:553-559 | a hand spell aimed at an own field card in the Play phase of player 1's live turn, with no discard spell pending, is the spell cast on that card; any other aim is refused |
| GameBoard.AttackBuffStacks | card-game/src/components/GameBoard.tsx:450-461 | each cast of the buff spell adds exactly one, leaves the game record as it was, and can be repeated at once |
| GameBoard.DiscardEffect | card-game/src/components/GameBoard.tsx:338-364 | the chosen cards and the spell go to the graveyard; the chosen cards leave the hand; up to two are drawn; the spell leaves the hand and its cost is paid |
| GameBoard.DiscardKeepsIds | card-game/src/components/GameBoard.tsx:338-364 | with distinct ids, confirming the discard spell keeps player 1's ids |
| GameBoard.ResolveDiscard | card-game/src/components/GameBoard.tsx:338-364 | the confirm branch, with its drawing loop, computes the specified discard effect |
| GameBoard.DiscardClick | card-game/src/components/GameBoard.tsx:321-377 | a click is refused exactly when it misses the hand or picks the spell itself; a chosen card is unchosen; the second choice resolves on confirm or clears the choice on decline; the board stays sound, because the pending cost is covered |
| GameBoard.HandClick | card-game/src/components/GameBoard.tsx:318-390 | refused outside player 1's live turn; during the discard spell a click is a discard choice; otherwise a click off the hand is refused, a second click on a selected draw or discard spell in the Play phase casts it without a target, and any other click changes nothing |
| Opponent.FirstPlayable | card-game/src/components/GameBoard.tsx:210-214 | the first hand card that is a Monster costing at most the energy, or none exactly when no card is |
| Opponent.PreferredRow | card-game/src/components/GameBoard.tsx:215-220 | the back row is chosen if and only if both attacks are defined and the back attack is the larger |
| Opponent.FirstEmpty | card-game/src/components/GameBoard.tsx:221 | the first empty slot of the row, or none exactly when the row is full |
| Opponent.PlayLoop | card-game/src/components/GameBoard.tsx:208-230 | the loop keeps the field of two three-slot rows (its other facts are the lemmas below) |
| Opponent.PlayLoopFacts | card-game/src/components/GameBoard.tsx:208-230 | when the loop stops, no hand card is playable, the energy spent is exactly the placed cards' cost and never drives energy negative, the hand only lost cards, and no occupied slot was replaced |
| Opponent.PlayLoopSpends | card-game/src/components/GameBoard.tsx:226-229 | energy plus the cost of the placed cards is invariant, and `hasPlayed` holds exactly when something was placed |
| Opponent.PlayLoopHand | card-game/src/components/GameBoard.tsx:210-213 | the loop stops only when no hand card is playable |
| Opponent.PlayLoopHandOld | card-game/src/components/GameBoard.tsx:223-227 | the final hand holds only cards from the starting hand |
| Opponent.PlayLoopField | card-game/src/components/GameBoard.tsx:221-228 | the loop only fills empty slots |
| Opponent.PlayLoopPlacesOnField | card-game/src/components/GameBoard.tsx:221-229 | the field gains exactly the ids of the cards the loop placed; a monster dropped because its row is full goes nowhere |
| Opponent.OpponentPlayed | card-game/src/components/GameBoard.tsx:231-238 | the phase changes only the opponent's energy, hand and field, and the field stays well formed |
| Opponent.OpponentPlay | card-game/src/components/GameBoard.tsx:194-239 | the `while (true)` loop computes the specified Play-phase update and terminates |
| Opponent.PlaySpendsExactly | card-game/src/components/GameBoard.tsx:226-236 | from non-negative energy the phase ends non-negative, having spent exactly the cost of the cards placed, without replacing a card |
| Opponent.PlayLeavesNothingPlayable | card-game/src/components/GameBoard.tsx:231-238 | after a phase that placed something, no hand card is playable; after one that placed nothing, the opponent is unchanged |
| Opponent.RowAttackersAt | card-game/src/components/GameBoard.tsx:256-261 | every collected attacker is a Monster standing where it records |
| Opponent.CollectRow | card-game/src/components/GameBoard.tsx:256-258 | the `forEach` collects the row's monsters in order, as specified |
| Opponent.CollectAttackers | card-game/src/components/GameBoard.tsx:255-261 | the attackers are the front-row monsters, then the back-row ones |
| Opponent.FirstOccupied | card-game/src/components/GameBoard.tsx:262-270 | the first occupied front slot, or none exactly when the row is empty |
| Opponent.TakeSnapshot | card-game/src/components/GameBoard.tsx:262-272 | the target is the card in the first occupied front slot, and there is none exactly when the front row is empty |
| Opponent.HitSnapshot | card-game/src/components/GameBoard.tsx:281-291 | a hit changes only the defender's field and graveyard and keeps the field well formed |
| Opponent.HitSnapshotIsDamage | card-game/src/components/GameBoard.tsx:281-291 | while the snapshot card is still in its slot, the opponent's hit is the same damage step as the human's |
| Opponent.Strike | card-game/src/components/GameBoard.tsx:263-296 | one attacker's step keeps the defender's field well formed and its energy unchanged |
| Opponent.PassFrom | card-game/src/components/GameBoard.tsx:263-297 | the remaining pass keeps the defender's field well formed and its energy unchanged |
| Opponent.AttackPass | card-game/src/components/GameBoard.tsx:249-301 | the whole pass keeps player 1's field well formed and its energy unchanged |
| Opponent.OpponentAttack | card-game/src/components/GameBoard.tsx:249-301 | the collect-snapshot-`forEach` code computes the specified defender and marked ids |
| Opponent.DirectPass | card-game/src/components/GameBoard.tsx:274-295 | with no front-row target, every attacker hits the special card and is marked in order, and the special card loses the sum of their powers |
| Opponent.GuardedPass | card-game/src/components/GameBoard.tsx:263-297 | with a front-row target at most one strike lands, a pass whose snapshot is already hit changes nothing, the special card is untouched, and only the target slot may change |
| Opponent.AttackPassTargets | card-game/src/components/GameBoard.tsx:249-301 | no monster means no change; with an empty human front row and distinct ids every monster hits the special card; otherwise the first monster alone hits the first front-row card, by the board's damage step when it has HP, and only its id is marked |
| Reducer.OpponentAttackTurn | card-game/src/components/GameBoard.tsx:247-306 | the pass's marks are added to the attacked list, its defender becomes player 1, and the turn always passes to player 1's Draw phase; the recorded winner is left to the win check after the turn reset |
| Reducer.DecidingPassEndsTurnFirst | card-game/src/components/GameBoard.tsx:143-306 | after the opponent's Attack phase it is the next turn, player 1's Draw phase; the game is over exactly when the pass brought player 1's special card to zero or below, and then player 2 has won |
| Reducer.PendingDiscardBlocksPlays | card-game/src/components/GameBoard.tsx:392-499 | while a discard spell is pending, a click on an own slot neither plays a monster nor casts a spell: the board stays as it was |
| Reducer.Handle | card-game/src/components/GameBoard.tsx:101-583 | a handler changes the current player only together with the turn, and a new turn is the next one, for the other player, in the Draw phase |
| Reducer.Settle | card-game/src/components/GameBoard.tsx:144-174 | a verdict is recorded when there is one; a turn change empties the per-turn sets and buffs; turn, player, phase and every id of both players are kept; soundness is kept |
| Reducer.Step | card-game/src/components/GameBoard.tsx:101-174 | a step keeps fields well formed, energy between zero and the maximum and a pending discard spell affordable, and records any verdict it reached |
| Reducer.HealClick | card-game/src/components/GameBoard.tsx:504-520 | a heal click changes at most the game record; it changes it exactly when it is player 1's live turn, the clicked own slot holds a monster with HP and every check of the heal passes, and then the record is the heal's result |
| Reducer.StartInv | card-game/src/logic/initialState.ts:101-109 | a freshly mounted board with sound players and positive special HP satisfies the invariant |
| Reducer.HandleSound | card-game/src/components/GameBoard.tsx:101-583 | every handler keeps both fields well formed, energy between zero and the maximum, and a pending discard spell affordable |
| Reducer.HandleFrozenWhenOver | card-game/src/components/GameBoard.tsx:319 | once a winner is recorded, every handler leaves the board as it is |
| Reducer.HandleKeepsWinner | card-game/src/components/GameBoard.tsx:168-174 | a handler either keeps the recorded winner or leaves it equal to the verdict of its own result |
| Reducer.StepKeepsInv | card-game/src/components/GameBoard.tsx:144-174 | after every step, fields are well formed, energy is between zero and the maximum, a pending discard spell is affordable, and the recorded winner is the verdict of the special-card HPs |
| Reducer.GameOverIsFinal | card-game/src/components/GameBoard.tsx:591-613 | after the game is decided, every action leaves the board exactly as it is |
| Reducer.NewTurnStartsClean | card-game/src/components/GameBoard.tsx:144-166 | a step that changes the turn starts the new turn with no attacked, moved or summoned monster, no buff, and no used effect on either field |

## Left out

- React scheduling is not modelled: `useState`, the `useEffect` ordering, the `setTimeout`/async pacing and the `isCancelled` flags. The opponent's turn is three actions, one per phase. The two effects after a render are applied at the end of every step.
- `alert`, `window.confirm` and `console` are not modelled. Alerts become refusal reasons, and the confirmation is a boolean argument of the hand click.
- Navigation is not modelled: `handleGoBack`, the game-over buttons and `handlePlayAgain`, which rebuilds the component state from the module-level initial record.
- `localStorage` and `JSON.parse` are not modelled. The saved deck is an optional input sequence, and a parse failure is the same as no saved deck.
- `Math.random` is replaced by supplied index sequences. Each catalog pick is in range, and each swap index is at most its loop index. Shuffle fairness is probabilistic and is not modelled.
- Shallow-copy aliasing is not reproduced; the model uses value semantics throughout. Some source updates write into arrays shared with the previous state (GameBoard.tsx lines 58-59 and 285, and gameActions.ts line 10 with line 99).
- `../data/cards`, which `healMonster` imports, is not part of this model. Its catalog is a parameter of `GameActions.HealMonster`.
- The card-game's own type files are not part of this model. The card record is inferred from its use: id, name, type, cost, optional attacks and HP, and the effect flag. `description` and `race` are display-only and are dropped.
- The heal click follows the `healMonster` signature, which returns a bare game record. The component reads `result.newState` and `result.message` from that record (GameBoard.tsx lines 506-510); the model takes the returned record as the new state. The message alert is not modelled.
- Selection state is not part of the board. This covers `handleActivateMonkEffect`, `cardAwaitingAction`, `selectedCardIndex`, `attackerInfo`, `movingCardInfo` and `handleCancelAction`. The card or slot each of them refers to is an argument of the action that uses it. Rendering is also left out, including whether a slot shows the monk's effect button.
- Phases are `Draw | Play | Attack`. The six-phase union of the earlier prototype is not modelled, nor is any other prototype or presentation file.
- `GameBoard.MoveMonster` does not require the Play phase. In the source only a Play-phase click starts a move, so the model allows moves that the source does not. The move's destination click itself is not phase-checked in the source.
- HP is an integer. A card without HP inside the opponent's pass gets `NaN` in the source; the model writes back an unchanged copy of the card. Catalog monsters all have HP, so this case does not arise for them.
- Costs are natural numbers, because every cost in the catalog is non-negative.
- `Reducer.HandleKeepsWinner` does not say which winner is recorded. `Reducer.StepKeepsInv` pins it down: after every step the winner is the verdict.
- The ids-kept lemmas for the draw and discard spells (`GameBoard.DrawTwoKeepsIds`, `GameBoard.DiscardKeepsIds`) assume that the ids in hand and deck are distinct. `InitialState.InitialGameState` proves this for both players' opening records. With repeated ids, the source's filter by id would remove more than one card.
- The player's unused `hp` field is kept at 2000 and never read.
