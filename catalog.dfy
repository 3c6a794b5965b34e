/** The master card list `allCardsData` of the deck builder, as data. The
    display-only fields (description, race) are not modelled. */
module Catalog {
  import opened CardTypes

  /** The name that identifies the healing support monster. */
  const MonkName: string := "僧侶"

  function MonsterDef(id: string, name: string, fa: int, ba: int, hp: int, cost: nat): (c: Card)
    ensures c.kind == Monster && c.id == id && c.cardHp == Some(hp) && !c.hasUsedEffectThisTurn
  {
    Card(id, name, Monster, cost, Some(fa), Some(ba), Some(hp), false)
  }

  const AllCardsData: seq<Card> := [
    MonsterDef("m001", "Goblin Attacker", 2, 2, 6, 1),
    MonsterDef("m002", "Stone Golem", 3, 0, 13, 2),
    MonsterDef("m003", "pute", 4, 0, 5, 1),
    MonsterDef("m004", "hanta-", 0, 4, 3, 1),
    MonsterDef("m005", "sennsi", 5, 0, 7, 2),
    MonsterDef("m006", "majutu", 0, 5, 6, 2),
    MonsterDef("m007", "baran", 3, 3, 9, 2),
    MonsterDef("m008", "deka", 8, 0, 12, 3),
    MonsterDef("m009", "tyu", 4, 4, 15, 3),
    MonsterDef("m010", "sibi", 0, 8, 10, 3),
    MonsterDef("m011", "hohei", 2, 0, 2, 0),
    MonsterDef("m012", "garu", 1, 1, 3, 0),
    MonsterDef("m013", "tebu", 0, 1, 1, 0),
    MonsterDef("m014", MonkName, 0, 1, 2, 1),
    Card("s001", "攻撃の呪文", Spell, 1, None, None, None, false)
  ]

  /** Catalog ids contain no '-', which is what makes the instance ids of a deck distinct. */
  predicate DashFreeIds(cards: seq<Card>) {
    forall k :: 0 <= k < |cards| ==> '-' !in cards[k].id
  }

  lemma CatalogShape()
    ensures |AllCardsData| == 15 && DashFreeIds(AllCardsData)
    ensures forall k :: 0 <= k < |AllCardsData| ==> AllCardsData[k].cost <= 3
  {
  }
}
