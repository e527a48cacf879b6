/**
 * The card editor: the list of cards on the editor page and the three
 * handlers that replace it with an edited copy.
 */
module Editor {
  import opened Cards
  import opened Wrappers

  /** `[...cards, { english: "", pinyin: "", character: "" }]`. */
  function CardsAfterAdd(cards: seq<Card>): (r: seq<Card>)
    ensures |r| == |cards| + 1
    ensures r[..|cards|] == cards
    ensures r[|cards|] == EmptyCard()
  {
    cards + [EmptyCard()]
  }

  /**
   * The copy `updateCard` publishes. An index that designates no card makes
   * `newCards[index]` undefined, so the assignment throws before anything is
   * published: `None`.
   */
  function CardsAfterUpdate(cards: seq<Card>, index: int, field: Field, value: string): (r: Option<seq<Card>>)
    ensures r.Some? <==> 0 <= index < |cards|
    ensures r.Some? ==> |r.value| == |cards|
    ensures r.Some? ==> Get(r.value[index], field) == value
    ensures r.Some? ==> forall g :: g != field ==> Get(r.value[index], g) == Get(cards[index], g)
    ensures r.Some? ==> forall k :: 0 <= k < |cards| && k != index ==> r.value[k] == cards[k]
  {
    if 0 <= index < |cards| then Some(cards[index := Set(cards[index], field, value)]) else None
  }

  /** Repeating an update changes nothing more. */
  lemma UpdateIdempotent(cards: seq<Card>, index: int, field: Field, value: string)
    requires 0 <= index < |cards|
    ensures CardsAfterUpdate(CardsAfterUpdate(cards, index, field, value).value, index, field, value)
            == CardsAfterUpdate(cards, index, field, value)
  {
    var once := cards[index := Set(cards[index], field, value)];
    SetTwice(cards[index], field, value, value);
    assert once[index := Set(once[index], field, value)] == once;
  }

  /** Typing back the value a field already holds leaves the list as it was. */
  lemma UpdateWithSameValue(cards: seq<Card>, index: int, field: Field)
    requires 0 <= index < |cards|
    ensures CardsAfterUpdate(cards, index, field, Get(cards[index], field)) == Some(cards)
  {
    SetUnchanged(cards[index], field);
    assert cards[index := Set(cards[index], field, Get(cards[index], field))] == cards;
  }

  /**
   * The position `splice(index, 1)` removes at on a list of `len` elements:
   * a negative index counts from the end, and the result is clamped to `[0, len]`.
   */
  function SpliceStart(len: nat, index: int): (k: nat)
    ensures k <= len
    ensures 0 <= index <= len ==> k == index
    ensures index > len ==> k == len
    ensures -(len as int) <= index < 0 ==> k == len + index
    ensures index < -(len as int) ==> k == 0
  {
    if index < 0 then (if len + index < 0 then 0 else len + index)
    else if index > len then len
    else index
  }

  /**
   * The copy `deleteCard` publishes: the card at the splice position is gone
   * and the others keep their order; with no card there, nothing changes.
   */
  function CardsAfterDelete(cards: seq<Card>, index: int): (r: seq<Card>)
    ensures SpliceStart(|cards|, index) < |cards| ==> RemovedAt(cards, SpliceStart(|cards|, index), r)
    ensures SpliceStart(|cards|, index) == |cards| ==> r == cards
  {
    var k := SpliceStart(|cards|, index);
    if k < |cards| then
      RemoveAt(cards, k);
      cards[..k] + cards[k + 1..]
    else
      cards
  }

  /**
   * `r` is `cards` without its element at `k`: one shorter, the same cards
   * less that one, the others in their order.
   */
  ghost predicate RemovedAt(cards: seq<Card>, k: nat, r: seq<Card>)
    requires k < |cards|
  {
    && |r| == |cards| - 1
    && multiset(r) + multiset{cards[k]} == multiset(cards)
    && (forall i :: 0 <= i < k ==> r[i] == cards[i])
    && (forall i :: k <= i < |r| ==> r[i] == cards[i + 1])
  }

  lemma RemoveAt(cards: seq<Card>, k: nat)
    requires k < |cards|
    ensures RemovedAt(cards, k, cards[..k] + cards[k + 1..])
  {
    assert cards == cards[..k] + [cards[k]] + cards[k + 1..];
    assert multiset(cards) == multiset(cards[..k]) + multiset{cards[k]} + multiset(cards[k + 1..]);
  }

  /** Deleting the card just added gives back the list before the add. */
  lemma DeleteUndoesAdd(cards: seq<Card>)
    ensures CardsAfterDelete(CardsAfterAdd(cards), |cards|) == cards
  {
  }

  /** Adding a card, then typing "hello" into its English field. */
  lemma AddThenUpdateScenario()
    ensures CardsAfterAdd([]) == [Card("", "", "")]
    ensures CardsAfterUpdate(CardsAfterAdd([]), 0, English, "hello") == Some([Card("hello", "", "")])
  {
    assert [EmptyCard()][0 := Set(EmptyCard(), English, "hello")] == [Card("hello", "", "")];
  }

  /** The editor page's state; `stored` is what was last written to local storage. */
  class EditorPage {
    var cards: seq<Card>
    ghost var stored: seq<Card>

    /** Every published list has been persisted. */
    ghost predicate Valid()
      reads this
    {
      stored == cards
    }

    constructor (loaded: seq<Card>)
      ensures Valid() && cards == loaded
    {
      cards := loaded;
      stored := loaded;
    }

    /** `addCard`. */
    method AddCard()
      requires Valid()
      modifies this
      ensures Valid() && cards == CardsAfterAdd(old(cards))
    {
      cards := cards + [EmptyCard()];
      stored := cards;
    }

    /** `updateCard`; `ok` is false where the handler throws and publishes nothing. */
    method UpdateCard(index: int, field: Field, value: string) returns (ok: bool)
      requires Valid()
      modifies this
      ensures Valid()
      ensures ok <==> 0 <= index < |old(cards)|
      ensures cards == if ok then CardsAfterUpdate(old(cards), index, field, value).value else old(cards)
    {
      var newCards := cards;
      if !(0 <= index < |newCards|) {
        return false;
      }
      newCards := newCards[index := Set(newCards[index], field, value)];
      cards := newCards;
      stored := cards;
      ok := true;
    }

    /** `deleteCard`. */
    method DeleteCard(index: int)
      requires Valid()
      modifies this
      ensures Valid() && cards == CardsAfterDelete(old(cards), index)
    {
      var newCards := cards;
      var k := SpliceStart(|newCards|, index);
      if k < |newCards| {
        newCards := newCards[..k] + newCards[k + 1..];
      }
      cards := newCards;
      stored := cards;
    }
  }
}
