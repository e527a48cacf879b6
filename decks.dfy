/**
 * The deck-selection page: the list of named decks, the selected deck, the
 * new-deck name being typed, and the page mode taken from the URL.
 */
module DeckSelection {
  import opened Cards
  import opened Wrappers

  /** A named deck; names are not kept unique. */
  datatype Deck = Deck(name: string, cards: seq<Card>)

  /** The `mode` query parameter: "session", "editor", or anything else (or absent). */
  datatype Mode = SessionMode | EditorMode | OtherMode

  /** Where Start/Edit navigates to, with the selected deck's name. */
  datatype Route = SessionRoute(deck: string) | EditorRoute(deck: string)

  /** `d.name === selectedDeck`: never true of a `null` selection. */
  predicate Matches(d: Deck, selected: Option<string>) {
    selected == Some(d.name)
  }

  /** JavaScript truthiness of `selectedDeck`: `null` and "" are falsy. */
  predicate Truthy(selected: Option<string>) {
    selected.Some? && selected.value != ""
  }

  /** `decks.find(d => d.name === selected)`: the first matching deck, if any. */
  function Find(decks: seq<Deck>, selected: Option<string>): (r: Option<Deck>)
    ensures r.None? <==> forall i :: 0 <= i < |decks| ==> !Matches(decks[i], selected)
    ensures r.Some? ==> exists i :: 0 <= i < |decks| && FirstMatch(decks, selected, i) && decks[i] == r.value
  {
    if |decks| == 0 then None
    else if Matches(decks[0], selected) then
      assert FirstMatch(decks, selected, 0);
      Some(decks[0])
    else
      var r := Find(decks[1..], selected);
      assert r.Some? ==> exists i :: 0 <= i < |decks| && FirstMatch(decks, selected, i) && decks[i] == r.value by {
        if r.Some? {
          var i :| 0 <= i < |decks[1..]| && FirstMatch(decks[1..], selected, i) && decks[1..][i] == r.value;
          assert FirstMatch(decks, selected, i + 1);
        }
      }
      assert r.None? ==> forall i :: 0 <= i < |decks| ==> !Matches(decks[i], selected) by {
        if r.None? {
          forall i | 0 <= i < |decks| ensures !Matches(decks[i], selected) {
            if i > 0 { assert decks[i] == decks[1..][i - 1]; }
          }
        }
      }
      r
  }

  /** `i` is the index of the first deck matching `selected`. */
  ghost predicate FirstMatch(decks: seq<Deck>, selected: Option<string>, i: int) {
    0 <= i < |decks| && Matches(decks[i], selected) &&
    forall k :: 0 <= k < i ==> !Matches(decks[k], selected)
  }

  /** `isDeckEmpty`: the first matching deck has no cards; false when none matches. */
  function IsDeckEmpty(decks: seq<Deck>, selected: Option<string>): (r: bool)
    ensures r <==> exists i :: FirstMatch(decks, selected, i) && |decks[i].cards| == 0
  {
    match Find(decks, selected)
    case Some(d) =>
      assert forall i, j :: FirstMatch(decks, selected, i) && FirstMatch(decks, selected, j) ==> i == j;
      |d.cards| == 0
    case None => false
  }

  /** The list after `createDeck` with the typed name: unchanged for an empty name. */
  function DecksAfterCreate(decks: seq<Deck>, name: string): (r: seq<Deck>)
    ensures name == "" ==> r == decks
    ensures name != "" ==> |r| == |decks| + 1 && r[..|decks|] == decks && r[|decks|] == Deck(name, [])
  {
    if name == "" then decks else decks + [Deck(name, [])]
  }

  /** `decks.filter(d => d.name !== name)`. */
  function DecksAfterDelete(decks: seq<Deck>, name: string): (r: seq<Deck>)
    ensures |r| <= |decks|
    ensures forall d :: d in r ==> d in decks && d.name != name
    ensures forall d :: d in decks && d.name != name ==> d in r
  {
    if |decks| == 0 then []
    else if decks[0].name != name then [decks[0]] + DecksAfterDelete(decks[1..], name)
    else DecksAfterDelete(decks[1..], name)
  }

  /** The filter works element by element, in order, over a concatenation. */
  lemma {:induction false} DeleteDistributes(a: seq<Deck>, b: seq<Deck>, name: string)
    ensures DecksAfterDelete(a + b, name) == DecksAfterDelete(a, name) + DecksAfterDelete(b, name)
  {
    if |a| > 0 {
      assert (a + b)[1..] == a[1..] + b;
      DeleteDistributes(a[1..], b, name);
    } else {
      assert a + b == b;
    }
  }

  /** A list with no deck of that name comes back from the filter as it was. */
  lemma {:induction false} DeleteAbsent(decks: seq<Deck>, name: string)
    requires forall i :: 0 <= i < |decks| ==> decks[i].name != name
    ensures DecksAfterDelete(decks, name) == decks
  {
    if |decks| > 0 {
      DeleteAbsent(decks[1..], name);
    }
  }

  /** After a delete no deck of that name is left, so nothing is found by it. */
  lemma DeleteThenFind(decks: seq<Deck>, name: string)
    ensures Find(DecksAfterDelete(decks, name), Some(name)).None?
  {
    var r := DecksAfterDelete(decks, name);
    assert forall i :: 0 <= i < |r| ==> r[i] in r;
  }

  /** Deleting a freshly created deck whose name was new restores the list. */
  lemma DeleteUndoesCreate(decks: seq<Deck>, name: string)
    requires name != ""
    requires forall i :: 0 <= i < |decks| ==> decks[i].name != name
    ensures DecksAfterDelete(DecksAfterCreate(decks, name), name) == decks
  {
    DeleteDistributes(decks, [Deck(name, [])], name);
    DeleteAbsent(decks, name);
    assert DecksAfterDelete([Deck(name, [])], name) == [];
  }

  /**
   * A lookup after create finds the new, empty deck only when the name was
   * new; an earlier deck of the same name shadows it.
   */
  lemma {:induction false} CreateThenFind(decks: seq<Deck>, name: string)
    requires name != ""
    ensures Find(DecksAfterCreate(decks, name), Some(name))
            == if Find(decks, Some(name)).Some? then Find(decks, Some(name)) else Some(Deck(name, []))
  {
    if |decks| > 0 {
      assert (decks + [Deck(name, [])])[1..] == decks[1..] + [Deck(name, [])];
      CreateThenFind(decks[1..], name);
    }
  }

  /** Creating a name that is already taken leaves two decks of that name. */
  lemma CreateDuplicate(decks: seq<Deck>, name: string, i: nat)
    requires name != "" && i < |decks| && decks[i].name == name
    ensures var r := DecksAfterCreate(decks, name);
      i < |decks| < |r| && r[i].name == name && r[|decks|].name == name
  {
  }

  /** An existing "HSK1" deck, then creating "HSK2". */
  lemma CreateScenario()
    ensures DecksAfterCreate([Deck("HSK1", [])], "HSK2") == [Deck("HSK1", []), Deck("HSK2", [])]
  {
  }

  /** The page's state; `stored` is what was last written to local storage. */
  class DeckSelectionPage {
    const mode: Mode
    var decks: seq<Deck>
    var selectedDeck: Option<string>
    var newDeckName: string
    ghost var stored: seq<Deck>

    /** Every list shown has been persisted, and a selection names a listed deck. */
    ghost predicate Valid()
      reads this
    {
      && stored == decks
      && (selectedDeck.Some? ==> exists i :: 0 <= i < |decks| && decks[i].name == selectedDeck.value)
    }

    /** The page as it loads: the stored decks, nothing selected, no name typed. */
    constructor (mode: Mode, saved: seq<Deck>)
      ensures Valid() && this.mode == mode && decks == saved
      ensures selectedDeck == None && newDeckName == ""
    {
      this.mode := mode;
      decks := saved;
      selectedDeck := None;
      newDeckName := "";
      stored := saved;
    }

    /** `selectedDeckObj`. */
    function SelectedDeckObj(): (r: Option<Deck>)
      reads this
      ensures r.Some? ==> r.value in decks && Matches(r.value, selectedDeck)
    {
      Find(decks, selectedDeck)
    }

    /** The Start/Edit button's `disabled` attribute. */
    predicate StartDisabled()
      reads this
      ensures !StartDisabled() ==> StartOrEditDeck().Some?
      ensures mode != SessionMode ==> (StartDisabled() <==> !Truthy(selectedDeck))
      ensures Valid() && mode == SessionMode && !StartDisabled() ==>
                SelectedDeckObj().Some? && |SelectedDeckObj().value.cards| > 0
      ensures Valid() && mode == SessionMode && Truthy(selectedDeck) ==>
                SelectedDeckObj().Some? && (StartDisabled() <==> |SelectedDeckObj().value.cards| == 0)
    {
      !Truthy(selectedDeck) || (mode == SessionMode && IsDeckEmpty(decks, selectedDeck))
    }

    /** `startOrEditDeck`: the route it navigates to, or `None` when it returns early. */
    function StartOrEditDeck(): (r: Option<Route>)
      reads this
      ensures r.None? <==> !Truthy(selectedDeck)
      ensures r.Some? ==> r.value.deck == selectedDeck.value
      ensures r.Some? ==> (r.value.SessionRoute? <==> mode == SessionMode)
    {
      if !Truthy(selectedDeck) then None
      else if mode == SessionMode then Some(SessionRoute(selectedDeck.value))
      else Some(EditorRoute(selectedDeck.value))
    }

    /** Clicking the deck at row `i`. */
    method SelectDeck(i: nat)
      requires Valid() && i < |decks|
      modifies this`selectedDeck
      ensures Valid() && selectedDeck == Some(decks[i].name)
    {
      selectedDeck := Some(decks[i].name);
    }

    /** Typing into the new-deck input. */
    method TypeNewDeckName(value: string)
      requires Valid()
      modifies this`newDeckName
      ensures Valid() && newDeckName == value
    {
      newDeckName := value;
    }

    /** `createDeck`. */
    method CreateDeck()
      requires Valid()
      modifies this
      ensures Valid()
      ensures decks == DecksAfterCreate(old(decks), old(newDeckName))
      ensures old(newDeckName) == "" ==> selectedDeck == old(selectedDeck) && newDeckName == ""
      ensures old(newDeckName) != "" ==> selectedDeck == Some(old(newDeckName)) && newDeckName == ""
    {
      if newDeckName == "" {
        return;
      }
      var newDeck := Deck(newDeckName, []);
      var updatedDecks := decks + [newDeck];
      decks := updatedDecks;
      stored := updatedDecks;
      selectedDeck := Some(newDeckName);
      newDeckName := "";
      assert decks[|decks| - 1].name == selectedDeck.value;
    }

    /** The Delete button of row `i`, after the confirmation dialog answered `confirmed`. */
    method DeleteDeck(i: nat, confirmed: bool)
      requires Valid() && i < |decks|
      modifies this
      ensures Valid() && newDeckName == old(newDeckName)
      ensures !confirmed ==> decks == old(decks) && selectedDeck == old(selectedDeck)
      ensures confirmed ==> decks == DecksAfterDelete(old(decks), old(decks)[i].name)
      ensures confirmed ==>
                selectedDeck == if old(selectedDeck) == Some(old(decks)[i].name) then None else old(selectedDeck)
    {
      if confirmed {
        var name := decks[i].name;
        var updatedDecks := DecksAfterDelete(decks, name);
        ghost var before := decks;
        decks := updatedDecks;
        stored := updatedDecks;
        if selectedDeck == Some(name) {
          selectedDeck := None;
        } else if selectedDeck.Some? {
          ghost var j :| 0 <= j < |before| && before[j].name == selectedDeck.value;
          assert before[j] in decks;
        }
      }
    }
  }
}
