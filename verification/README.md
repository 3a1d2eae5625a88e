# RiverQuest paddle dashboard: participant state and grocery input

This project models the state logic of the RiverQuest trip dashboard, a React
page where the members of a paddling trip each pick a trip date and keep a
grocery list.

The Index page (`src/pages/Index.tsx`) holds two state cells:
- `participants`: a list of records `{ id, name, selectedDate, groceryList }`;
- `activeParticipantId`: the id of the participant being edited.

Its handlers replace the list wholesale:
- a date selection **sets** the date of every record with the active id;
- an added grocery item is appended to that record's list;
- a removal filters out one position of that record's list, and does nothing when the position is outside the list.

The participant shown is the first one with the active id, or the first participant of the list when none has it. The initial roster is nine fixed records sorted by last name, which is the last space-separated token of the name.

The grocery panel (`src/components/GroceryList.tsx`) keeps the text of its input in a `newItem` state cell. Enter with non-blank text hands the trimmed text to the page and clears the input. Each rendered item's remove button reports its own position.

Modules:
- `Wrappers`: `Option`.
- `JsString`: the JavaScript string operations the code relies on: `trim`, `split(' ')` and the key order.
- `Participants`: the record, the per-handler edits as data (`Edit`), `map` over the list, `filter` by position and the `find(...) || participants[0]` lookup.
- `Roster`: the sort key, the sort and the initial roster.
- `IndexPage`: the page as a class. Its two fields are the state cells, and its methods assign the pure functions' results.
- `GroceryListView`: the panel as a class with the `newItem` field, the Enter gate and the remove buttons' indexes.

## Model

| member | source | states |
|---|---|---|
| Participants.KeepOtherPositionsCuts | src/pages/Index.tsx:65 | `filter((_, i) => i !== index)`, written position by position, cuts out exactly the element at `index` when it lies in the list, and returns the list unchanged otherwise |
| Participants.RemoveAtCuts | src/pages/Index.tsx:65 | Removing at `index` gives the list without the element at `index` when the index lies in the list (the slices before and after it, joined), and the list itself for any other index |
| Participants.RemoveAppendedItem | src/pages/Index.tsx:53-65 | Removing at the old length after appending an item gives back the list as it was before the append |
| Participants.ApplyEdit | src/pages/Index.tsx:41-70 | Each handler's spread keeps `id` and `name`. Date selection sets the date unconditionally and leaves the list alone. Adding appends the item and leaves the date alone. Removing cuts out the indexed element, or changes nothing when the index is out of range |
| Participants.UpdateActive | src/pages/Index.tsx:42-46 | The `map` keeps the length and the order. Every participant whose id differs from the active id is unchanged, and every matching one receives the edit |
| Participants.UpdateKeepsRoster | src/pages/Index.tsx:41-70 | No handler changes the ids or names, their order, or the distinctness of the ids |
| Participants.FindIndex | src/pages/Index.tsx:39 | `find` finds the first position whose id matches, or reports that no position matches |
| Participants.Resolve | src/pages/Index.tsx:39 | The active participant is the first whose id matches. With no match it is `participants[0]`. It is absent exactly when the list is empty |
| Participants.ResolveAfterUpdate | src/pages/Index.tsx:39-70 | After an edit, the participant shown is the edit applied to the one shown before. If the active id matches nobody, the list and the participant shown stay as they were |
| Participants.SelectDateSetsActive | src/pages/Index.tsx:41-46 | When some participant carries the active id, after a date selection the participant shown has that date |
| Participants.SelectDateTwice | src/pages/Index.tsx:44 | Selecting the same date twice gives the same list as selecting it once: the date stays set and is not toggled off |
| Participants.AddThenRemoveRestores | src/pages/Index.tsx:49-70 | Adding an item and then removing at the previous list length restores every participant |
| Participants.AddThenRemoveActive | src/pages/Index.tsx:49-70 | When ids are distinct, adding an item and then removing it at the position where the page shows it restores the list |
| Participants.RemoveOutOfRangeIsNoOp | src/pages/Index.tsx:59-70 | A removal at a position outside the active participant's list leaves the whole list unchanged |
| JsString.LeadingCount | src/components/GroceryList.tsx:18 | Counts the whitespace run at the start: everything before the count is whitespace, and the character at the count, if any, is not |
| JsString.TrailingCount | src/components/GroceryList.tsx:18 | Counts the whitespace run at the end, with the same two properties |
| JsString.Trim | src/components/GroceryList.tsx:18-19 | `trim()` has no whitespace at either end, and it is empty exactly when the input is blank |
| JsString.TrimmedMiddle | src/components/GroceryList.tsx:19 | What lies between the leading and the trailing whitespace neither starts nor ends with whitespace |
| JsString.TrimEmptyIffBlank | src/components/GroceryList.tsx:18 | The two cut points meet exactly when the text is all whitespace |
| JsString.TrimCutsWhitespace | src/components/GroceryList.tsx:19 | `trim()` is a contiguous slice of its input, and only whitespace lies on either side of it |
| JsString.TrimOfTrimmed | src/components/GroceryList.tsx:19 | Trimming text that has no whitespace at either end returns it unchanged |
| JsString.TrimIdempotent | src/components/GroceryList.tsx:19 | `trim(trim(s)) == trim(s)` |
| JsString.Split | src/pages/Index.tsx:28 | `split(' ')` gives at least one piece. No piece contains the separator, and joining the pieces with it gives back the string |
| JsString.LastPieceUnique | src/pages/Index.tsx:28 | A string has only one separator-free suffix that is either the whole string or starts right after a separator |
| JsString.SplitLast | src/pages/Index.tsx:28 | The last piece of `split(' ')` is that suffix: the text after the last space, or the whole name |
| JsString.LexLeTotal | src/pages/Index.tsx:30 | The key order relates any two keys in at least one direction |
| JsString.LexLeTransitive | src/pages/Index.tsx:30 | The key order is transitive |
| JsString.LexLeAntisymmetric | src/pages/Index.tsx:30 | Two keys ordered both ways are equal |
| Roster.SortKeyIsLastName | src/pages/Index.tsx:28-29 | `name.split(' ').pop() \|\| ''` is the last name: the text after the last space, or the whole name |
| Roster.Insert | src/pages/Index.tsx:27-31 | Insertion adds one element and puts it, or the old head, first |
| Roster.InsertSorted | src/pages/Index.tsx:27-31 | Inserting into a list ordered by last name keeps it ordered |
| Roster.InsertPermutes | src/pages/Index.tsx:27-31 | Insertion adds exactly the inserted record to the multiset |
| Roster.SortByKey | src/pages/Index.tsx:27-31 | The sort keeps the length |
| Roster.SortSorted | src/pages/Index.tsx:27-31 | The sorted list is in non-decreasing last-name order |
| Roster.SortPermutes | src/pages/Index.tsx:27-31 | The sort only reorders: the multiset of records is preserved |
| Roster.SortedPairwise | src/pages/Index.tsx:27-31 | In an ordered list, every earlier record's key is at most every later record's key |
| Roster.SortOfSorted | src/pages/Index.tsx:27-31 | An already ordered list comes back from the sort unchanged, because the sort is stable |
| Roster.LiteralKey | src/pages/Index.tsx:18-29 | The sort key of each literal record is its last name, from Bialek to Zargarian |
| Roster.LiteralSorted | src/pages/Index.tsx:17-31 | The literal array is already in last-name order |
| Roster.InitialIsLiteral | src/pages/Index.tsx:17-31 | Sorting the literal gives it back in the same order |
| Roster.InitialRoster | src/pages/Index.tsx:17-26 | The initial roster has nine records with distinct ids, none with a date or a grocery item |
| Roster.InitialOrder | src/pages/Index.tsx:17-31 | The initial roster is ordered by last name, with the keys Bialek to Zargarian in order, and every earlier record's key is at most every later record's key. Its first record has id "1" |
| Roster.LiteralIds | src/pages/Index.tsx:18-26 | The literal has nine records and their ids are pairwise different |
| Roster.LiteralUnset | src/pages/Index.tsx:18-26 | No literal record has a date or a grocery item |
| IndexPage.Mount | src/pages/Index.tsx:33-34 | On mount, the state is the sorted roster and the active id is "1", the id of the roster's first entry |
| IndexPage.Index.constructor | src/pages/Index.tsx:33-34 | The state cells start at the initial list and at its first participant's id |
| IndexPage.Index.ActiveParticipant | src/pages/Index.tsx:39 | The participant shown is in the list. It is the first participant carrying the active id when some participant does, and the first participant of the list otherwise |
| IndexPage.Index.Update | src/pages/Index.tsx:41-70 | The list becomes the `map` of the edit over the old list, and the active id is unchanged. The participant shown becomes the edited old one, or stays as it was when the id matches nobody |
| IndexPage.Index.HandleDateSelect | src/pages/Index.tsx:41-47 | The list is mapped with the date set. When some participant carries the active id, the participant shown has exactly that date, with everything else kept |
| IndexPage.Index.HandleAddGroceryItem | src/pages/Index.tsx:49-57 | The list is mapped with the item appended. When some participant carries the active id, the participant shown has its old list followed by the item |
| IndexPage.Index.HandleRemoveGroceryItem | src/pages/Index.tsx:59-70 | The list is mapped with the filter. When some participant carries the active id, the participant shown loses exactly the indexed item, or keeps its list when the index is out of range |
| IndexPage.Index.HandleParticipantSelect | src/pages/Index.tsx:77-78 | Only the active id changes, and the list is untouched |
| GroceryListView.SubmittedItem | src/components/GroceryList.tsx:18-19 | An item is handed to `onAddItem` exactly on Enter with non-blank text. The item is the trimmed text: non-empty, with no whitespace at either end |
| GroceryListView.SubmitTrimmedText | src/components/GroceryList.tsx:18-19 | Pre-trimming the input changes neither the gate's decision nor the item handed over |
| GroceryListView.BlankSubmitsNothing | src/components/GroceryList.tsx:18 | Blank or empty input never submits, whatever the key |
| GroceryListView.GroceryList.constructor | src/components/GroceryList.tsx:15 | The input starts empty |
| GroceryListView.GroceryList.OnChange | src/components/GroceryList.tsx:37 | The state follows what was typed |
| GroceryListView.GroceryList.HandleKeyDown | src/components/GroceryList.tsx:17-23 | Returns the item passed to `onAddItem`, as decided by the gate. The default action is prevented exactly when an item is passed. The input is cleared after a submission and left as it was otherwise |
| GroceryListView.ItemRowsFrom | src/components/GroceryList.tsx:48-56 | One row per item, in order. Each row shows its item, and its remove button reports the row's own position |
| GroceryListView.RemoveButtonRemovesItsRow | src/components/GroceryList.tsx:48-56 | Clicking row k's remove button removes exactly item k, and the other items keep their order |
| GroceryListView.EnterAppendsTrimmed | src/components/GroceryList.tsx:19 | Enter with non-blank text, followed by the page's add, appends the trimmed text to the participant's list |

## Left out

- Vote tally, optimistic updates with rollback, and the remote store: neither `Index.tsx` nor `GroceryList.tsx` computes a tally or rolls anything back, and neither calls the Supabase client. `handleDateSelect` sets the date unconditionally; it is not a toggle.
- `localeCompare` collation is modelled as lexicographic order on code points, which is locale-independent. `KeyLe` uses that order.
- `Array.prototype.sort` is modelled as a stable insertion sort. The engine's own algorithm is not modelled, but any stable sort returns the same ordering.
- `trim` uses the ECMAScript WhiteSpace and LineTerminator code points, one per `char`. Strings are sequences of characters, not UTF-16 code units.
- React's state updates are modelled as synchronous assignments. `setParticipants(prev => …)` is applied at once to the current list, and re-rendering is not modelled.
- `e.preventDefault()` is modelled only as the boolean `HandleKeyDown` returns. The browser's default action is not modelled.
- The `index` of a removal is an integer. A non-integer JavaScript number would match no position and would change nothing, like an out-of-range index.
- `IndexPage.Index.constructor` takes its initial list as a parameter, as `useState` does. `IndexPage.Mount` supplies the page's own sorted roster.
- The sidebar state, `toggleSidebar`, `useIsMobile` and the mobile sidebar close in `handleParticipantSelect` are presentation and a media query.
- Rendering, styles, the header, the sidebar, the dashboard and the date poll component are not modelled. Dates are opaque strings.
