/** The game's records: cards, slots, the 3 + 3 field, a player's zones and the
    game state (current player, turn counter, phase). */
module CardTypes {

  datatype Option<T> = None | Some(value: T)

  /** A card is either a Monster or a Spell (the source's `type` field). */
  datatype Kind = Monster | Spell

  /** A card instance. Attack stats and HP are optional because a Spell has none;
      `hasUsedEffectThisTurn` is absent (falsy) on catalog entries and is modelled as false there. */
  datatype Card = Card(
    id: string,
    name: string,
    kind: Kind,
    cost: nat,
    frontAttack: Option<int>,
    backAttack: Option<int>,
    cardHp: Option<int>,
    hasUsedEffectThisTurn: bool)

  /** A field slot: empty (`null`) or one card. */
  type Slot = Option<Card>

  datatype RowId = FrontRow | BackRow

  /** A slot position on one player's field. */
  datatype Pos = Pos(row: RowId, index: nat)

  const RowSize: nat := 3

  datatype Field = Field(frontRow: seq<Slot>, backRow: seq<Slot>) {

    function Row(r: RowId): seq<Slot> {
      match r
      case FrontRow => frontRow
      case BackRow => backRow
    }

    function WithRow(r: RowId, row: seq<Slot>): (f: Field)
      ensures f.Row(r) == row
      ensures forall q :: q != r ==> f.Row(q) == Row(q)
    {
      match r
      case FrontRow => this.(frontRow := row)
      case BackRow => this.(backRow := row)
    }

    /** Both rows have exactly three slots. */
    predicate WellFormed() {
      |frontRow| == RowSize && |backRow| == RowSize
    }

    predicate ValidPos(p: Pos) {
      p.index < |Row(p.row)|
    }

    function At(p: Pos): Slot
      requires ValidPos(p)
    {
      Row(p.row)[p.index]
    }

    /** The field with slot `p` replaced by `s` and every other slot kept. */
    function Put(p: Pos, s: Slot): (f: Field)
      requires ValidPos(p)
      ensures f.ValidPos(p) && f.At(p) == s
      ensures WellFormed() ==> f.WellFormed()
      ensures f.Row(p.row) == Row(p.row)[p.index := s]
      ensures forall q :: q != p.row ==> f.Row(q) == Row(q)
      ensures forall q :: ValidPos(q) && q != p ==> f.ValidPos(q) && f.At(q) == At(q)
    {
      WithRow(p.row, Row(p.row)[p.index := s])
    }
  }

  /** `row.some(card => card !== null)`. */
  predicate RowOccupied(row: seq<Slot>) {
    exists k :: 0 <= k < |row| && row[k].Some?
  }

  function EmptyRow(): (row: seq<Slot>)
    ensures |row| == RowSize && forall k :: 0 <= k < |row| ==> row[k].None?
  {
    [None, None, None]
  }

  function EmptyField(): (f: Field)
    ensures f.WellFormed() && !RowOccupied(f.frontRow) && !RowOccupied(f.backRow)
  {
    Field(EmptyRow(), EmptyRow())
  }

  datatype PlayerState = PlayerState(
    hp: int,
    specialCardHp: int,
    currentEnergy: int,
    maxEnergy: int,
    deck: seq<Card>,
    hand: seq<Card>,
    graveyard: seq<Card>,
    field: Field)

  datatype PlayerId = Player1 | Player2 {
    function Other(): (o: PlayerId)
      ensures o != this
    {
      match this
      case Player1 => Player2
      case Player2 => Player1
    }
  }

  datatype Phase = Draw | Play | Attack

  datatype GameState = GameState(
    player1: PlayerState,
    player2: PlayerState,
    currentPlayer: PlayerId,
    turn: int,
    phase: Phase) {

    function Player(id: PlayerId): PlayerState {
      match id
      case Player1 => player1
      case Player2 => player2
    }

    function WithPlayer(id: PlayerId, p: PlayerState): (g: GameState)
      ensures g.Player(id) == p && g.Player(id.Other()) == Player(id.Other())
      ensures g.currentPlayer == currentPlayer && g.turn == turn && g.phase == phase
    {
      match id
      case Player1 => this.(player1 := p)
      case Player2 => this.(player2 := p)
    }
  }
}
