/** Ids of the cards in a player's zones, and the `filter`s the game uses to take
    cards out of a hand. These give the conservation statements: a card moved
    between deck, hand, field and graveyard keeps the multiset of ids. */
module Zones {
  import opened CardTypes

  function Ids(cs: seq<Card>): (r: seq<string>)
    ensures |r| == |cs| && forall k :: 0 <= k < |cs| ==> r[k] == cs[k].id
  {
    seq(|cs|, k requires 0 <= k < |cs| => cs[k].id)
  }

  /** Proof step: the ids of a concatenation are the concatenated ids. */
  lemma IdsAppend(a: seq<Card>, b: seq<Card>)
    ensures Ids(a + b) == Ids(a) + Ids(b)
  {
  }

  /** Every card instance id occurs once. */
  predicate DistinctIds(cs: seq<Card>) {
    forall i, j :: 0 <= i < j < |cs| ==> cs[i].id != cs[j].id
  }

  function SlotIds(s: Slot): multiset<string> {
    if s.Some? then multiset{s.value.id} else multiset{}
  }

  function RowIds(row: seq<Slot>): multiset<string> {
    if |row| == 0 then multiset{} else SlotIds(row[0]) + RowIds(row[1..])
  }

  function FieldIds(f: Field): multiset<string> {
    RowIds(f.frontRow) + RowIds(f.backRow)
  }

  /** All ids a player owns: deck, hand, graveyard and field. */
  function PlayerIds(p: PlayerState): multiset<string> {
    multiset(Ids(p.deck)) + multiset(Ids(p.hand)) + multiset(Ids(p.graveyard)) + FieldIds(p.field)
  }

  /** Replacing one slot swaps that slot's id for the new one and keeps the rest. */
  lemma {:induction false} RowIdsUpdate(row: seq<Slot>, k: nat, s: Slot)
    requires k < |row|
    ensures RowIds(row[k := s]) + SlotIds(row[k]) == RowIds(row) + SlotIds(s)
  {
    if k > 0 {
      assert row[k := s][1..] == row[1..][k - 1 := s];
      assert row[k := s][0] == row[0] && row[1..][k - 1] == row[k];
      RowIdsUpdate(row[1..], k - 1, s);
      var h, r', r := SlotIds(row[0]), RowIds(row[1..][k - 1 := s]), RowIds(row[1..]);
      assert RowIds(row[k := s]) == h + r';
      assert (h + r') + SlotIds(row[k]) == h + (r' + SlotIds(row[k]));
      assert h + (r + SlotIds(s)) == (h + r) + SlotIds(s);
    } else {
      assert row[k := s][1..] == row[1..];
    }
  }

  lemma FieldIdsPut(f: Field, p: Pos, s: Slot)
    requires f.ValidPos(p)
    ensures FieldIds(f.Put(p, s)) + SlotIds(f.At(p)) == FieldIds(f) + SlotIds(s)
  {
    var g := f.Put(p, s);
    match p.row
    case FrontRow =>
      RowIdsUpdate(f.frontRow, p.index, s);
      assert g.frontRow == f.frontRow[p.index := s] && g.backRow == f.backRow;
      MultisetShuffle(RowIds(g.frontRow), RowIds(f.backRow), SlotIds(f.At(p)), RowIds(f.frontRow), SlotIds(s));
    case BackRow =>
      RowIdsUpdate(f.backRow, p.index, s);
      assert g.backRow == f.backRow[p.index := s] && g.frontRow == f.frontRow;
      MultisetShuffle2(RowIds(f.frontRow), RowIds(g.backRow), SlotIds(f.At(p)), RowIds(f.backRow), SlotIds(s));
  }

  lemma MultisetShuffle(a: multiset<string>, b: multiset<string>, c: multiset<string>, d: multiset<string>, e: multiset<string>)
    requires a + c == d + e
    ensures (a + b) + c == (d + b) + e
  {
    assert (a + b) + c == (a + c) + b;
    assert (d + b) + e == (d + e) + b;
  }

  lemma MultisetShuffle2(a: multiset<string>, b: multiset<string>, c: multiset<string>, d: multiset<string>, e: multiset<string>)
    requires b + c == d + e
    ensures (a + b) + c == (a + d) + e
  {
    assert (a + b) + c == a + (b + c);
    assert (a + d) + e == a + (d + e);
  }

  /** Moving a card from one slot to another slot that is empty keeps the field's ids. */
  lemma FieldIdsMove(f: Field, from: Pos, to: Pos, c: Card)
    requires f.ValidPos(from) && f.ValidPos(to) && from != to
    requires f.At(from) == Some(c) && f.At(to).None?
    ensures FieldIds(f.Put(from, None).Put(to, Some(c))) == FieldIds(f)
  {
    FieldIdsPut(f, from, None);
    FieldIdsPut(f.Put(from, None), to, Some(c));
    var m := FieldIds(f.Put(from, None));
    assert m + multiset{c.id} == FieldIds(f);
    assert FieldIds(f.Put(from, None).Put(to, Some(c))) == m + multiset{c.id};
  }

  /** `cs.filter(c => c.id !== id)`. */
  function RemoveId(cs: seq<Card>, id: string): (r: seq<Card>)
    ensures |r| <= |cs|
  {
    if |cs| == 0 then []
    else if cs[0].id == id then RemoveId(cs[1..], id)
    else [cs[0]] + RemoveId(cs[1..], id)
  }

  /** Filtering out an id that occurs shortens the sequence. */
  lemma {:induction false} RemoveIdShrinks(cs: seq<Card>, k: nat)
    requires k < |cs|
    ensures |RemoveId(cs, cs[k].id)| < |cs|
  {
    if k > 0 && cs[0].id != cs[k].id {
      assert cs[1..][k - 1] == cs[k];
      RemoveIdShrinks(cs[1..], k - 1);
    }
  }

  /** Filtering only keeps cards that were there. */
  lemma {:induction false} RemoveIdSubset(cs: seq<Card>, id: string)
    ensures forall c :: c in RemoveId(cs, id) ==> c in cs
  {
    if |cs| > 0 {
      RemoveIdSubset(cs[1..], id);
      assert forall c :: c in cs[1..] ==> c in cs;
    }
  }

  /** `cs.filter(c => !ids.includes(c.id))`. */
  function RemoveIds(cs: seq<Card>, ids: seq<string>): (r: seq<Card>)
    ensures |r| <= |cs|
  {
    if |cs| == 0 then []
    else if cs[0].id in ids then RemoveIds(cs[1..], ids)
    else [cs[0]] + RemoveIds(cs[1..], ids)
  }

  /** Filtering by a two-element id list is filtering by each id in turn. */
  lemma {:induction false} RemoveIdsPair(cs: seq<Card>, x: string, y: string)
    ensures RemoveIds(cs, [x, y]) == RemoveId(RemoveId(cs, x), y)
  {
    if |cs| > 0 {
      RemoveIdsPair(cs[1..], x, y);
    }
  }

  /** The ids of `cs` occur once each, so filtering one of them out removes exactly its one position. */
  lemma {:induction false} RemoveIdOfDistinct(cs: seq<Card>, k: nat)
    requires DistinctIds(cs) && k < |cs|
    ensures RemoveId(cs, cs[k].id) == cs[..k] + cs[k + 1..]
  {
    var t := cs[1..];
    DistinctTail(cs);
    if k == 0 {
      assert forall m :: 0 <= m < |t| ==> t[m].id != cs[0].id by {
        forall m | 0 <= m < |t| ensures t[m].id != cs[0].id {
          assert t[m] == cs[m + 1];
        }
      }
      RemoveIdAbsent(t, cs[0].id);
      assert cs[..0] + cs[1..] == t;
    } else {
      assert cs[0].id != cs[k].id;
      assert RemoveId(cs, cs[k].id) == [cs[0]] + RemoveId(t, cs[k].id);
      assert t[k - 1] == cs[k];
      RemoveIdOfDistinct(t, k - 1);
      assert t[..k - 1] + t[k..] == cs[1..k] + cs[k + 1..];
      assert cs[..k] + cs[k + 1..] == [cs[0]] + (cs[1..k] + cs[k + 1..]);
    }
  }

  lemma DistinctTail(cs: seq<Card>)
    requires DistinctIds(cs) && |cs| > 0
    ensures DistinctIds(cs[1..])
  {
    var t := cs[1..];
    forall a, b | 0 <= a < b < |t| ensures t[a].id != t[b].id {
      assert t[a] == cs[a + 1] && t[b] == cs[b + 1];
    }
  }

  /** Filtering out an id that does not occur changes nothing. */
  lemma {:induction false} RemoveIdAbsent(cs: seq<Card>, id: string)
    requires forall k :: 0 <= k < |cs| ==> cs[k].id != id
    ensures RemoveId(cs, id) == cs
  {
    if |cs| > 0 {
      RemoveIdAbsent(cs[1..], id);
    }
  }

  /** Taking the card at position `k` out of a sequence takes exactly its id out of the id multiset. */
  lemma RemoveAtIds(cs: seq<Card>, k: nat)
    requires k < |cs|
    ensures multiset(Ids(cs[..k] + cs[k + 1..])) + multiset{cs[k].id} == multiset(Ids(cs))
  {
    var a, b := cs[..k], cs[k + 1..];
    assert cs == a + [cs[k]] + b;
    IdsAppend(a + [cs[k]], b);
    IdsAppend(a, [cs[k]]);
    IdsAppend(a, b);
    var ia, ib := Ids(a), Ids(b);
    assert Ids([cs[k]]) == [cs[k].id];
    assert Ids(cs) == ia + [cs[k].id] + ib;
    assert multiset(Ids(cs)) == multiset(ia) + multiset{cs[k].id} + multiset(ib);
    assert multiset(Ids(a + b)) == multiset(ia) + multiset(ib);
  }

  /** Sequences that agree on their concatenation agree on their id multisets. */
  lemma SplitIds(a: seq<Card>, b: seq<Card>, c: seq<Card>, d: seq<Card>)
    requires a + b == c + d
    ensures multiset(Ids(a)) + multiset(Ids(b)) == multiset(Ids(c)) + multiset(Ids(d))
  {
    IdsAppend(a, b);
    IdsAppend(c, d);
    assert Ids(a) + Ids(b) == Ids(c) + Ids(d);
    assert multiset(Ids(a) + Ids(b)) == multiset(Ids(a)) + multiset(Ids(b));
    assert multiset(Ids(c) + Ids(d)) == multiset(Ids(c)) + multiset(Ids(d));
  }

  /** Taking one position out keeps the remaining ids distinct. */
  lemma RemoveAtDistinct(cs: seq<Card>, i: nat)
    requires DistinctIds(cs) && i < |cs|
    ensures DistinctIds(cs[..i] + cs[i + 1..])
  {
    var r := cs[..i] + cs[i + 1..];
    forall a, b | 0 <= a < b < |r| ensures r[a].id != r[b].id {
      var a', b' := if a < i then a else a + 1, if b < i then b else b + 1;
      assert r[a] == cs[a'] && r[b] == cs[b'];
    }
  }

  /** Where the card at position `j` lands once position `i` is taken out. */
  lemma RemoveAtIndex(cs: seq<Card>, i: nat, j: nat)
    requires i < |cs| && j < |cs| && j != i
    ensures var j' := if j < i then j else j - 1;
      j' < |cs| - 1 && (cs[..i] + cs[i + 1..])[j'] == cs[j]
  {
  }

  /** Sequences drawn from the two halves of a distinct concatenation, each distinct itself,
      concatenate to a distinct sequence. */
  lemma ConcatDistinct(a: seq<Card>, b: seq<Card>, a': seq<Card>, b': seq<Card>)
    requires DistinctIds(a + b) && DistinctIds(a') && DistinctIds(b')
    requires forall k :: 0 <= k < |a'| ==> a'[k] in a
    requires forall k :: 0 <= k < |b'| ==> b'[k] in b
    ensures DistinctIds(a' + b')
  {
    var r := a' + b';
    forall i, j | 0 <= i < j < |r| ensures r[i].id != r[j].id {
      if i < |a'| && j >= |a'| {
        assert r[i] == a'[i] && r[j] == b'[j - |a'|];
        var ia :| 0 <= ia < |a| && a[ia] == a'[i];
        var ib :| 0 <= ib < |b| && b[ib] == b'[j - |a'|];
        assert (a + b)[ia] == a[ia] && (a + b)[|a| + ib] == b[ib];
      }
    }
  }
}
