/** The card collection and the four updates the app applies to it. Each
    update builds a new sequence from the old one (a spread, a filter or a
    map), so they are functions from collection to collection. */
module Cards {
  import Calendar

  /** A calendar date as the app reads it from a Date: full year, 0-based
      month (getMonth) and 1-based day of month (getDate). */
  datatype Date = Date(year: int, month: int, day: int)

  /** One tracked habit: `data` holds one entry per day of the month the card
      was created in, index 0 standing for day 1. */
  datatype Card = Card(id: string, name: string, data: seq<bool>, createdAt: Date)

  /** generateMonth(): one false entry per day of the current month. */
  function GenerateMonth(now: Date): (entries: seq<bool>)
    ensures |entries| == Calendar.DaysInMonth(now.month, now.year)
    ensures true !in entries
  {
    seq(Calendar.DaysInMonth(now.month, now.year), _ => false)
  }

  /** The update addCard hands to setCards: the new card is appended after
      every existing card. The name comes from a prompt that is repeated
      until it is non-empty; the id and the creation date are given. */
  function AddCard(cards: seq<Card>, id: string, name: string, now: Date): (r: seq<Card>)
    requires name != ""
    ensures |r| == |cards| + 1 && r[..|cards|] == cards
    ensures r[|cards|].id == id && r[|cards|].name == name && r[|cards|].createdAt == now
    ensures |r[|cards|].data| == Calendar.DaysInMonth(now.month, now.year)
    ensures forall k :: 0 <= k < |r[|cards|].data| ==> !r[|cards|].data[k]
  {
    cards + [Card(id, name, GenerateMonth(now), now)]
  }

  /** The update removeCard hands to setCards: keep every card whose id
      differs from `id`, in order. */
  function RemoveCard(cards: seq<Card>, id: string): (r: seq<Card>)
    ensures |r| <= |cards|
    ensures forall c :: c in r <==> c in cards && c.id != id
    decreases |cards|
  {
    if cards == [] then []
    else (if cards[0].id == id then [] else [cards[0]]) + RemoveCard(cards[1..], id)
  }

  /** Removing distributes over concatenation: the surviving cards keep their
      relative order. */
  lemma {:induction false} RemoveCardConcat(a: seq<Card>, b: seq<Card>, id: string)
    ensures RemoveCard(a + b, id) == RemoveCard(a, id) + RemoveCard(b, id)
    decreases |a|
  {
    if a != [] {
      assert (a + b)[0] == a[0] && (a + b)[1..] == a[1..] + b;
      RemoveCardConcat(a[1..], b, id);
    } else {
      assert a + b == b;
    }
  }

  /** Removing an id that no card has returns the collection unchanged. */
  lemma {:induction false} RemoveCardAbsent(cards: seq<Card>, id: string)
    requires forall k :: 0 <= k < |cards| ==> cards[k].id != id
    ensures RemoveCard(cards, id) == cards
    decreases |cards|
  {
    if cards != [] {
      RemoveCardAbsent(cards[1..], id);
      assert [cards[0]] + cards[1..] == cards;
    }
  }

  /** Removing the id of a card just added, when that id was fresh, undoes
      the addition. */
  lemma AddThenRemove(cards: seq<Card>, id: string, name: string, now: Date)
    requires name != ""
    requires forall k :: 0 <= k < |cards| ==> cards[k].id != id
    ensures RemoveCard(AddCard(cards, id, name, now), id) == cards
  {
    var added := Card(id, name, GenerateMonth(now), now);
    RemoveCardConcat(cards, [added], id);
    RemoveCardAbsent(cards, id);
    assert RemoveCard([added], id) == [] + RemoveCard([], id);
  }

  /** Negating entry `index` of one card's data, as data.map((entry, i) =>
      i === index ? !entry : entry) does. */
  function ToggleData(data: seq<bool>, index: int): (r: seq<bool>)
    ensures 0 <= index < |data| ==> r == data[index := !data[index]]
    ensures !(0 <= index < |data|) ==> r == data
  {
    seq(|data|, i requires 0 <= i < |data| => if i == index then !data[i] else data[i])
  }

  /** The update toggleEntry hands to setCards: every card with the given id
      has entry `index` negated; everything else is kept. */
  function ToggleEntry(cards: seq<Card>, id: string, index: int): (r: seq<Card>)
    ensures |r| == |cards|
    ensures forall k :: 0 <= k < |cards| ==>
              r[k].id == cards[k].id && r[k].name == cards[k].name &&
              r[k].createdAt == cards[k].createdAt && |r[k].data| == |cards[k].data|
    ensures forall k :: 0 <= k < |cards| && cards[k].id != id ==> r[k] == cards[k]
    ensures forall k :: 0 <= k < |cards| && cards[k].id == id ==>
              r[k].data == if 0 <= index < |cards[k].data|
                           then cards[k].data[index := !cards[k].data[index]]
                           else cards[k].data
  {
    seq(|cards|, k requires 0 <= k < |cards| =>
      if cards[k].id == id then cards[k].(data := ToggleData(cards[k].data, index)) else cards[k])
  }

  /** Toggling the same entry twice restores the collection. */
  lemma ToggleEntryTwice(cards: seq<Card>, id: string, index: int)
    ensures ToggleEntry(ToggleEntry(cards, id, index), id, index) == cards
  {
    var once := ToggleEntry(cards, id, index);
    var twice := ToggleEntry(once, id, index);
    forall k | 0 <= k < |cards| ensures twice[k] == cards[k]
    {
      if cards[k].id == id && 0 <= index < |cards[k].data| {
        assert twice[k].data == cards[k].data;
      }
    }
  }

  /** An index outside every entry sequence changes nothing. */
  lemma ToggleEntryOutOfRange(cards: seq<Card>, id: string, index: int)
    requires index < 0 || forall k :: 0 <= k < |cards| ==> index >= |cards[k].data|
    ensures ToggleEntry(cards, id, index) == cards
  {
    var r := ToggleEntry(cards, id, index);
    forall k | 0 <= k < |cards| ensures r[k] == cards[k]
    {
    }
  }

  /** With unique ids, toggling touches exactly one card: the one at the
      position of `id`. */
  lemma ToggleEntryOneCard(cards: seq<Card>, p: nat, index: int)
    requires UniqueIds(cards) && p < |cards|
    ensures ToggleEntry(cards, cards[p].id, index) ==
            cards[p := cards[p].(data := ToggleData(cards[p].data, index))]
  {
  }

  /** The update changeText hands to setCards: every card with the given id
      gets the new name (non-empty, as the prompt loop guarantees). */
  function ChangeText(cards: seq<Card>, id: string, name: string): (r: seq<Card>)
    requires name != ""
    ensures |r| == |cards|
    ensures forall k :: 0 <= k < |cards| ==>
              r[k].id == cards[k].id && r[k].data == cards[k].data &&
              r[k].createdAt == cards[k].createdAt
    ensures forall k :: 0 <= k < |cards| ==>
              r[k].name == if cards[k].id == id then name else cards[k].name
  {
    seq(|cards|, k requires 0 <= k < |cards| =>
      if cards[k].id == id then cards[k].(name := name) else cards[k])
  }

  /** Renaming twice to the same name is the same as renaming once. */
  lemma ChangeTextIdempotent(cards: seq<Card>, id: string, name: string)
    requires name != ""
    ensures ChangeText(ChangeText(cards, id, name), id, name) == ChangeText(cards, id, name)
  {
  }

  /** Renaming and toggling touch different fields, so their order does not
      matter. */
  lemma ChangeTextToggleCommute(cards: seq<Card>, id: string, name: string, id': string, index: int)
    requires name != ""
    ensures ChangeText(ToggleEntry(cards, id', index), id, name) ==
            ToggleEntry(ChangeText(cards, id, name), id', index)
  {
  }

  /** No two cards share an id. */
  predicate UniqueIds(cards: seq<Card>)
  {
    forall a, b :: 0 <= a < b < |cards| ==> cards[a].id != cards[b].id
  }

  /** A card as the app creates it: non-empty name and one entry per day of
      its creation month. */
  predicate WellFormed(card: Card)
  {
    card.name != "" &&
    |card.data| == Calendar.DaysInMonth(card.createdAt.month, card.createdAt.year)
  }

  /** The invariant the four updates keep: unique ids and well-formed cards.
      It holds of every collection built by these updates from a valid start;
      the app's seed collection need not satisfy it (its card dated
      20 September 2024 gets one entry per day of the current month). */
  predicate Valid(cards: seq<Card>)
  {
    UniqueIds(cards) && forall k :: 0 <= k < |cards| ==> WellFormed(cards[k])
  }

  /** Adding a card under a fresh id keeps the collection valid. */
  lemma AddCardValid(cards: seq<Card>, id: string, name: string, now: Date)
    requires Valid(cards) && name != ""
    requires forall k :: 0 <= k < |cards| ==> cards[k].id != id
    ensures Valid(AddCard(cards, id, name, now))
  {
  }

  /** Removing cards keeps the collection valid. */
  lemma {:induction false} RemoveCardValid(cards: seq<Card>, id: string)
    requires Valid(cards)
    ensures Valid(RemoveCard(cards, id))
    decreases |cards|
  {
    if cards != [] {
      var rest := RemoveCard(cards[1..], id);
      RemoveCardValid(cards[1..], id);
      if cards[0].id != id {
        forall c | c in rest ensures c.id != cards[0].id
        {
          var k :| 0 <= k < |cards[1..]| && cards[1..][k] == c;
          assert cards[k + 1] == c;
        }
      }
    }
  }

  /** Toggling an entry keeps the collection valid. */
  lemma ToggleEntryValid(cards: seq<Card>, id: string, index: int)
    requires Valid(cards)
    ensures Valid(ToggleEntry(cards, id, index))
  {
  }

  /** Renaming to a non-empty name keeps the collection valid. */
  lemma ChangeTextValid(cards: seq<Card>, id: string, name: string)
    requires Valid(cards) && name != ""
    ensures Valid(ChangeText(cards, id, name))
  {
  }
}
