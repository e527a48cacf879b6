# Flashcard app: verified model of the study session, card editor and deck list

This project models the logic of a browser flashcard app whose decks hold
English / Pinyin / Character vocabulary cards. Three pages carry that logic:

- **Study session** (`Session`, `Shuffle`): the loaded cards are shuffled once
  with Fisher-Yates, then a two-dimensional state — card index `current` and
  reveal step English → Pinyin → Character — is moved by Next and Back. The
  revealed fields and the visibility of the Back and Next buttons are read-only
  predicates of that state.
- **Card editor** (`Editor`): add a blank card, set one field of one card, and
  delete a card with JavaScript `splice` semantics. Each handler publishes an
  edited copy of the list.
- **Deck selection** (`DeckSelection`): create a deck (ignoring an empty name,
  allowing duplicates), delete every deck of a name after confirmation, select
  a deck, and derive the first-match lookup, `isDeckEmpty`, the Start/Edit
  button's disabled rule and the route it takes.

`Cards` holds the card record and `Wrappers` an `Option` type.

Page state the source keeps in React state variables is a class per page
(`StudySession`, `EditorPage`, `DeckSelectionPage`) whose methods update
those fields. Each method's postcondition ties the new state to a pure function
of the old state (`Advance`, `CardsAfterDelete`, `DecksAfterDelete`, ...). The
lemmas are proved about those functions. Writes to local storage appear as a
ghost field `stored`, and every handler keeps it equal to the published list.

The random draw `Math.floor(Math.random() * (i + 1))` is a caller-supplied
sequence `js` with `0 <= js[i] <= i`. The `confirm()` answer is a boolean
parameter.

Edge cases of the code that the model keeps:

- Reaching Character on the first card takes two Next presses. A third press
  moves to the second card if there is one (`Session.FirstCardCycle`).
- `updateCard` with an index that designates no card throws a `TypeError`
  (`newCards[index]` is undefined), so nothing is published. The model returns
  `None` / `ok == false` and leaves the list unchanged.
- `deleteCard` follows `splice`: a negative index counts from the end (one
  below `-length` clamps to the first card), and an index past the end
  removes nothing.
- The editor and the session read and write the single-list `flashcards` key,
  not a deck. Card edits never write into the deck list, so editing one deck
  cannot touch another.

## Model

| member | source | states |
|---|---|---|
| Cards.Set | src/app/editor/page.tsx:38 | the written field reads back the new value; the other two fields keep theirs |
| Cards.SetUnchanged | src/app/editor/page.tsx:38 | writing a field's current value back gives the same card |
| Cards.SetTwice | src/app/editor/page.tsx:38 | of two writes to one field only the second remains |
| Shuffle.Swap | src/app/session/page.tsx:11 | positions i and j exchange their elements; every other position is unchanged |
| Shuffle.SwapPermutes | src/app/session/page.tsx:11 | an exchange keeps the multiset of elements |
| Shuffle.SwapAt | src/app/session/page.tsx:11 | the array after the destructuring swap is the exchanged sequence |
| Shuffle.ShuffleDown | src/app/session/page.tsx:9-12 | the remaining loop iterations keep the length; every index they touch is in bounds because each draw lies in [0, i] |
| Shuffle.ShuffleDownPermutes | src/app/session/page.tsx:9-12 | the remaining iterations keep the multiset of elements |
| Shuffle.Shuffled | src/app/session/page.tsx:7-14 | the shuffled order has the input's length and the input's multiset of elements |
| Shuffle.ShuffleDownKeepsSuffix | src/app/session/page.tsx:9-12 | iterations below i never change the positions above i |
| Shuffle.LastElementIsFirstDraw | src/app/session/page.tsx:9-12 | the last element of the result is the input element chosen by the first draw |
| Shuffle.IdentityDrawsKeepOrder | src/app/session/page.tsx:9-12 | draws that always pick the current index leave the order unchanged |
| Shuffle.ShuffleArray | src/app/session/page.tsx:7-14 | the loop over a fresh copy yields exactly the specified shuffle, a permutation of the untouched input |
| Session.Advance | src/app/session/page.tsx:36-48 | a valid index stays valid; the state moves one place along the 3N-place walk, and stays put exactly at (N-1, Character) |
| Session.Retreat | src/app/session/page.tsx:50-62 | a valid index stays valid; the state moves one place back, and stays put exactly at (0, English) |
| Session.RetreatUndoesAdvance | src/app/session/page.tsx:36-62 | Back after a Next that moved restores the previous (current, step) |
| Session.AdvanceUndoesRetreat | src/app/session/page.tsx:36-62 | Next after a Back that moved restores the previous (current, step) |
| Session.AdvanceTimesRank | src/app/session/page.tsx:36-48 | k Next presses stay in range and advance k places, stopping at the last place |
| Session.AdvanceTimesFromFirst | src/app/session/page.tsx:36-48 | from (0, English), k presses reach place min(k, 3N-1) of the walk |
| Session.FirstCardCycle | src/app/session/page.tsx:36-48 | presses 1 and 2 reveal Pinyin, then Character; press 3 goes to (1, English) iff N > 1 and is a no-op otherwise |
| Session.TwoCardScenario | src/app/session/page.tsx:36-48 | with two cards, 7 presses reach (1, Character) and an 8th changes nothing |
| Session.StudySession.constructor | src/app/session/page.tsx:20-29 | a session starts at (0, English) on the shuffled copy of the loaded cards, which has the same multiset of cards |
| Session.StudySession.NextStep | src/app/session/page.tsx:36-48 | `nextStep` moves the state as `Advance` does, keeps the index valid and the cards unchanged |
| Session.StudySession.PrevStep | src/app/session/page.tsx:50-62 | `prevStep` moves the state as `Retreat` does, keeps the index valid and the cards unchanged |
| Session.StudySession.Card | src/app/session/page.tsx:64 | the card on screen is one of the session's cards |
| Session.StudySession.PinyinShown | src/app/session/page.tsx:81 | Pinyin is shown once the step has reached Pinyin |
| Session.StudySession.CharacterShown | src/app/session/page.tsx:82 | Character is shown only at the Character step, and never without Pinyin |
| Session.StudySession.BackShown | src/app/session/page.tsx:86 | Back is visible exactly in the states where `prevStep` changes the state |
| Session.StudySession.NextShown | src/app/session/page.tsx:96 | Next is visible exactly in the states where `nextStep` changes the state |
| Editor.CardsAfterAdd | src/app/editor/page.tsx:32-34 | one more card, the earlier cards unchanged, the new last card all empty |
| Editor.CardsAfterUpdate | src/app/editor/page.tsx:36-40 | an error exactly when the index designates no card; otherwise same length, the field reads back the value, the card's other fields and every other card unchanged |
| Editor.UpdateIdempotent | src/app/editor/page.tsx:38 | repeating an update gives the same list |
| Editor.UpdateWithSameValue | src/app/editor/page.tsx:38 | writing the current value of a field leaves the list unchanged |
| Editor.SpliceStart | src/app/editor/page.tsx:44 | the removal position is the index itself within [0, length]; a negative index counts from the end, and one below -length gives 0; an index past the end gives length |
| Editor.CardsAfterDelete | src/app/editor/page.tsx:42-46 | with a card at the splice position: one shorter, that card less in the multiset, the others in their order; past the end: unchanged |
| Editor.DeleteUndoesAdd | src/app/editor/page.tsx:32-46 | deleting the card just added gives back the previous list |
| Editor.AddThenUpdateScenario | src/app/editor/page.tsx:32-40 | add on an empty list, then set English to "hello", gives [{hello, "", ""}] |
| Editor.EditorPage.constructor | src/app/editor/page.tsx:15-25 | the page shows the loaded list, which is also the stored one |
| Editor.EditorPage.AddCard | src/app/editor/page.tsx:32-34 | the published and stored list is `CardsAfterAdd` of the old one |
| Editor.EditorPage.UpdateCard | src/app/editor/page.tsx:36-40 | succeeds exactly for an index that designates a card and then publishes `CardsAfterUpdate`; otherwise nothing changes |
| Editor.EditorPage.DeleteCard | src/app/editor/page.tsx:42-46 | the published and stored list is `CardsAfterDelete` of the old one |
| DeckSelection.Find | src/app/deck-selection/page.tsx:31 | nothing is found iff no deck has the selected name; otherwise the result is the first deck with that name |
| DeckSelection.IsDeckEmpty | src/app/deck-selection/page.tsx:31-32 | true iff some deck matches and the first match has no cards; false when none matches |
| DeckSelection.DecksAfterCreate | src/app/deck-selection/page.tsx:40-44 | an empty name changes nothing; otherwise one more deck `{name, []}` at the end and the earlier decks unchanged |
| DeckSelection.DecksAfterDelete | src/app/deck-selection/page.tsx:81 | no deck of that name remains, every other deck remains, nothing new appears |
| DeckSelection.DeleteDistributes | src/app/deck-selection/page.tsx:81 | the filter works element by element over a concatenation, so the kept decks keep their order |
| DeckSelection.DeleteAbsent | src/app/deck-selection/page.tsx:81 | a list without the name is returned unchanged |
| DeckSelection.DeleteThenFind | src/app/deck-selection/page.tsx:81 | after a delete, a lookup by that name finds nothing |
| DeckSelection.DeleteUndoesCreate | src/app/deck-selection/page.tsx:81 | deleting a freshly created deck whose name was new restores the previous list |
| DeckSelection.CreateThenFind | src/app/deck-selection/page.tsx:40-44 | after create, a lookup by the name finds the new empty deck only if the name was new; an older deck of the same name shadows it |
| DeckSelection.CreateDuplicate | src/app/deck-selection/page.tsx:42-43 | creating a name already present leaves two decks of that name |
| DeckSelection.CreateScenario | src/app/deck-selection/page.tsx:40-44 | with "HSK1" present, creating "HSK2" gives two decks in that order |
| DeckSelection.DeckSelectionPage.constructor | src/app/deck-selection/page.tsx:18-28 | the page starts on the stored decks with no selection and no typed name |
| DeckSelection.DeckSelectionPage.SelectedDeckObj | src/app/deck-selection/page.tsx:31 | a found deck is listed and has the selected name |
| DeckSelection.DeckSelectionPage.StartDisabled | src/app/deck-selection/page.tsx:131 | an enabled button always navigates; outside session mode it is disabled iff the selection is falsy; in session mode, for a truthy selection of a listed deck, it is disabled iff the first deck of that name has no cards, so an enabled button means that deck exists and has cards |
| DeckSelection.DeckSelectionPage.StartOrEditDeck | src/app/deck-selection/page.tsx:34-38 | returns without navigating iff the selection is falsy; otherwise goes to the session route iff mode is "session", and to the editor route otherwise, carrying the selected name |
| DeckSelection.DeckSelectionPage.SelectDeck | src/app/deck-selection/page.tsx:71 | clicking a row selects that deck's name, which keeps the selection on a listed deck |
| DeckSelection.DeckSelectionPage.TypeNewDeckName | src/app/deck-selection/page.tsx:110 | typing replaces the new-deck name and nothing else |
| DeckSelection.DeckSelectionPage.CreateDeck | src/app/deck-selection/page.tsx:40-48 | an empty name changes nothing; otherwise the decks are `DecksAfterCreate`, stored, the new name is selected and the input cleared |
| DeckSelection.DeckSelectionPage.DeleteDeck | src/app/deck-selection/page.tsx:79-86 | unconfirmed: nothing changes; confirmed: the decks are `DecksAfterDelete` of the row's name, stored, and the selection is cleared iff it was that name |

## Left out

- Local storage and JSON: reading and writing `flashcards` and `flashcardDecks` and `JSON.parse`/`JSON.stringify` are browser I/O. The stored value is the ghost field `stored`, and the loaded value is a constructor parameter. Malformed stored JSON is not modelled.
- `Math.random`: replaced by the draws `js`. Uniformity of the shuffle is not modelled.
- Routing: `router.push`, `useSearchParams` and `encodeURIComponent` are navigation. Only the route `startOrEditDeck` picks is modelled. The session page does not read the `deck` parameter.
- The `confirm()` dialog is the boolean `confirmed`.
- React hooks, markup and styling: only the reveal and button-visibility predicates are kept. The "current/total" counter and the "Next Card" / "Next" label (src/app/session/page.tsx:79, 101) are display text.
- The default card list (`src/data/cards`) and the unshuffled fallback when nothing is stored (src/app/session/page.tsx:32): src/data/cards is not part of this model.
- Session.StudySession.constructor: the "Loading cards" branch for an empty list (src/app/session/page.tsx:66-72) is a precondition (`|loaded| > 0`). No session state exists without a card.
- Editor.EditorPage.UpdateCard: cards are values. The source writes through a shallow copy, so the old list's card object is mutated too. That JavaScript aliasing is not modelled.
- Deck cards are typed `any[]` in the source and are modelled as `seq<Card>`.
- Which handlers the page renders (delete and create only in editor mode, src/app/deck-selection/page.tsx:77, 98) is markup. The handlers themselves do not check the mode, and neither do the methods.
- These pages have no keyboard shortcuts and no separate load/save store interface, so neither is modelled.
- src/app/page.tsx holds only navigation buttons.
