# Search dialog core of jadx-gui, in Dafny

This project models the non-visual logic of jadx-gui's `CommonSearchDialog`, the
base of the decompiler's search windows:

- the **search history**: recent search texts, most recent first, where re-adding a
  text moves it to the front; adds keep it at 20 entries at most, but loading appends
  the stored list without that cap;
- the **favorites**: a list that adds extend at the end without creating duplicates;
  "Clear Favorites" empties it, and loading appends the stored list without
  de-duplication;
- the two lists' **persistence** in the user preferences, as one string per list
  joined with `"||"`;
- the **results table model** (`ResultsModel`): rows in arrival order, plus a sticky
  flag that says whether the description column is shown;
- the small decisions taken for a selected row: which node is selected, what the
  code preview shows, where opening a node jumps, whether the window closes, and the
  text the two copy buttons put on the clipboard.

Files and modules:

| file | module | contents |
|---|---|---|
| `wrappers.dfy` | `Wrappers` | `Option` (a Java reference that may be null), `Result` (a call that may throw), `NoDuplicates` |
| `java_text.dfy` | `JavaText` | `String.trim()`, `String.split`, `String.join` and the split/join round trip |
| `search_lists.dfy` | `SearchLists` | history and favorites as values: adding, loading, and their properties |
| `results_model.dfy` | `Results` | result rows, the `ResultsModel` class, sorting, and the copied text |
| `search_dialog.dfy` | `SearchDialog` | the `CommonSearchDialog` class (lists, preferences, highlight context, title) and the selection, preview and open decisions |

The shape follows the source. Fields that the dialog updates in place
(`searchHistory`, `searchFavorites`, the preferences, `highlightContext`, the title,
and `ResultsModel.rows` / `addDescColumn`) are fields of two classes. Their methods
state the new state in terms of the old one. Each such method is tied to a pure
function (`AddedToHistory`, `AddedToFavorites`, `LoadList`, `SortRows`, `UniqueRefs`,
`Descs`, `Lines`), and the lemmas prove the promised properties of those functions.
The loops of `addAll`, `copyAllSearchResults` and `copyAllCodeResults` are `while`/`for`
loops with invariants.

Modelling choices:

- A Java `String` that may be null is an `Option<string>`.
- The preferences store is a `map<string, string>`. `prefs.get(key, "")` is `PrefGet`.
- A result node (`JNode`) is a `Row` value: its identity, its code-node reference (or
  none when it has no `JavaNode`), `hasDescString`/`makeDescString`, its syntax name,
  `getPos`, and its resource node when it is a `JResSearchNode`.
- `JNode.compareTo` is a comparator parameter `le` of `ResultsModel.Sort`. The only
  assumption about it is that it is a total preorder.
- Java chars are modelled as Dafny chars. `trim()` strips every char at or below U+0020,
  as Java does.

Behaviour that is easy to misread, modelled as the code does it:

- The history stores the text **as typed**. `addToHistory` only trims for the blank
  check (CommonSearchDialog.java line 732) and inserts the untrimmed text (line 734).
- `addAll` scans **all** rows for a description, not only the new ones (lines 573-579).
  Because the model keeps the invariant `addDescColumn == AnyDesc(rows)`, the outcome is
  the same (`ResultsModel.AddAll`, last ensures).
- Loading **appends** to the in-memory lists. It applies neither the cap of 20 nor
  de-duplication (lines 715 and 719). So `AddedToHistory` only promises
  `|r| <= max(|h|, 20)`.
- `split` keeps a leading empty fragment and drops trailing ones. An input with no
  delimiter is returned whole (the empty string splits to `[""]`, which the loader
  skips).
- The delimiter is not escaped. An entry that contains `'|'` can come back as other
  entries: one ending in `'|'` that another entry follows loses that bar to the next
  entry (`BarInEntryIsNotRestored`). Trailing empty entries are lost: a
  bar-free list loads back without them (`LoadAfterSaveDropsTrailingEmpty`; for example
  `TrailingEmptyEntryIsLost`). The round trip is proved for lists without `'|'` whose
  last entry is not empty (`LoadAfterSave`).
- The "Add Current Search" action checks only for null and presence (line 290). Blank
  searches are kept out by the menu item being disabled (line 288), which is UI.

## Model

| member | source | states |
|---|---|---|
| `JavaText.Trim` | jadx-gui/src/main/java/jadx/gui/ui/dialog/CommonSearchDialog.java:131 | `trim()` never grows the string, and a non-empty result starts and ends with a char above U+0020 |
| `JavaText.IsBlank` | jadx-gui/src/main/java/jadx/gui/ui/dialog/CommonSearchDialog.java:131 | `s.trim().isEmpty()`, the blank test of lines 131, 140 and 732; characterised for every string by `TrimEmptyIffAllTrimmable` |
| `JavaText.IsNullOrBlank` | jadx-gui/src/main/java/jadx/gui/ui/dialog/CommonSearchDialog.java:732 | a null text, or a text whose `trim()` is empty, as a test on an optional string |
| `JavaText.TrimEmptyIffAllTrimmable` | jadx-gui/src/main/java/jadx/gui/ui/dialog/CommonSearchDialog.java:732 | `text.trim().isEmpty()` holds exactly when every char of the text is at or below U+0020 |
| `JavaText.FindDelimiter` | jadx-gui/src/main/java/jadx/gui/ui/dialog/CommonSearchDialog.java:715 | the delimiter regex is found at the leftmost position where it matches, and reported absent only when it matches nowhere |
| `JavaText.Fragments` | jadx-gui/src/main/java/jadx/gui/ui/dialog/CommonSearchDialog.java:715 | at least one piece, and joining the pieces with the delimiter gives the input back; where the cuts fall is stated by `FragmentsLeftmost` |
| `JavaText.FragmentsLeftmost` | jadx-gui/src/main/java/jadx/gui/ui/dialog/CommonSearchDialog.java:715 | every piece but the last is cut at the leftmost match: followed by the delimiter, it first matches right after itself; the last piece holds no match. With the join property this fixes the pieces of every string |
| `JavaText.DropTrailingEmpty` | jadx-gui/src/main/java/jadx/gui/ui/dialog/CommonSearchDialog.java:715 | split with limit 0 keeps a prefix of the fragments, cuts only empty strings, and leaves no empty last element |
| `JavaText.Split` | jadx-gui/src/main/java/jadx/gui/ui/dialog/CommonSearchDialog.java:715 | with no match the input is the single element; otherwise the last element is never empty |
| `JavaText.Join` | jadx-gui/src/main/java/jadx/gui/ui/dialog/CommonSearchDialog.java:724 | the empty list joins to `""`; with two or more entries the delimiter follows the first entry |
| `JavaText.FragmentsOfJoin` | jadx-gui/src/main/java/jadx/gui/ui/dialog/CommonSearchDialog.java:715-728 | cutting a delimiter join of bar-free entries at each delimiter gives the entries back |
| `JavaText.SplitJoinRoundTrip` | jadx-gui/src/main/java/jadx/gui/ui/dialog/CommonSearchDialog.java:715-728 | `Split(Join(xs)) == xs` for a non-empty list of bar-free entries whose last entry is not empty |
| `SearchLists.IndexOf` | jadx-gui/src/main/java/jadx/gui/ui/dialog/CommonSearchDialog.java:733 | the entry `List.remove(Object)` removes is the first one equal to the text: equal at that index and at no earlier one |
| `SearchLists.RemoveFirst` | jadx-gui/src/main/java/jadx/gui/ui/dialog/CommonSearchDialog.java:733 | `List.remove(Object)`: a list holding the text loses exactly one entry; a list without it is unchanged |
| `SearchLists.RemoveFirstRemovesOne` | jadx-gui/src/main/java/jadx/gui/ui/dialog/CommonSearchDialog.java:733 | the one entry removed is a copy of the text: the multiset of entries loses exactly one copy of it |
| `SearchLists.PrefGet` | jadx-gui/src/main/java/jadx/gui/ui/dialog/CommonSearchDialog.java:713 | `prefs.get(key, "")`: the stored value under a present key, `""` for a missing one |
| `SearchLists.AddedToHistory` | jadx-gui/src/main/java/jadx/gui/ui/dialog/CommonSearchDialog.java:731-739 | a null or blank text leaves the history unchanged; any other text is at index 0; the length never exceeds max(old length, 20) |
| `SearchLists.HistoryAddKeepsOrder` | jadx-gui/src/main/java/jadx/gui/ui/dialog/CommonSearchDialog.java:733-737 | after adding t, t is at index 0; when t was in the history, entry i behind it is the old entry i - 1 before t's old position and the old entry i after it, so the other entries keep their relative order; when t was new, the entries behind it are a prefix of the old history |
| `SearchLists.HistoryAddCutsAtCap` | jadx-gui/src/main/java/jadx/gui/ui/dialog/CommonSearchDialog.java:735-737 | below the cap nothing is cut; at or above it exactly one entry is cut (also when t is re-added to a loaded history longer than 20) |
| `SearchLists.HistoryAddNoDuplicates` | jadx-gui/src/main/java/jadx/gui/ui/dialog/CommonSearchDialog.java:733-734 | a duplicate-free history stays duplicate-free, and t occurs only at index 0 |
| `SearchLists.HistoryAddEvictsOldest` | jadx-gui/src/main/java/jadx/gui/ui/dialog/CommonSearchDialog.java:735-737 | a new text on a history of 20 or more entries (a loaded history can be longer) is prepended and exactly the last (oldest) entry is removed |
| `SearchLists.HistoryAddExistingIsPermutation` | jadx-gui/src/main/java/jadx/gui/ui/dialog/CommonSearchDialog.java:733-737 | re-adding a text already in a history within the cap loses no entry: the result is a permutation of the old history |
| `SearchLists.AddedAllToHistory` | jadx-gui/src/main/java/jadx/gui/ui/dialog/CommonSearchDialog.java:101 | any sequence of adds to a history of at most 20 entries keeps it at most 20 entries long |
| `SearchLists.AddFreshToHistory` | jadx-gui/src/main/java/jadx/gui/ui/dialog/CommonSearchDialog.java:733-737 | a text not in a history within the cap is prepended, and the list is cut to 20 |
| `SearchLists.DistinctAddsKeepMostRecent` | jadx-gui/src/main/java/jadx/gui/ui/dialog/CommonSearchDialog.java:731-739 | adding distinct non-blank texts to an empty history leaves the 20 most recent, newest first (21 texts: the first one is gone) |
| `SearchLists.MoveToFrontScenario` | jadx-gui/src/main/java/jadx/gui/ui/dialog/CommonSearchDialog.java:731-739 | for any two different non-blank texts a and b, adding a, b, a to an empty history gives [a, b]: a repeated search moves to the front and is not duplicated |
| `SearchLists.RemoveFirstKeepsOrder` | jadx-gui/src/main/java/jadx/gui/ui/dialog/CommonSearchDialog.java:733 | `List.remove(Object)` drops the first equal entry only: the entries before it keep their index, the ones after it move up by one, so the rest keep their order |
| `SearchLists.RemoveFirstOfDuplicateFree` | jadx-gui/src/main/java/jadx/gui/ui/dialog/CommonSearchDialog.java:733 | on a duplicate-free list, removing the first occurrence removes the text altogether |
| `SearchLists.AddedToFavorites` | jadx-gui/src/main/java/jadx/gui/ui/dialog/CommonSearchDialog.java:289-293 | a present (non-null) search not yet in the favorites is appended at the end; anything else leaves them unchanged |
| `SearchLists.FavoritesAddIdempotent` | jadx-gui/src/main/java/jadx/gui/ui/dialog/CommonSearchDialog.java:290-293 | adding the same search twice equals adding it once |
| `SearchLists.FavoritesAddNoDuplicates` | jadx-gui/src/main/java/jadx/gui/ui/dialog/CommonSearchDialog.java:290-293 | the old favorites are a prefix of the new ones (insertion order), and duplicate-free favorites stay duplicate-free |
| `SearchLists.LoadList` | jadx-gui/src/main/java/jadx/gui/ui/dialog/CommonSearchDialog.java:713-720 | an empty stored string loads as the empty list; a stored string without delimiter loads as that one entry |
| `SearchLists.LoadAfterSaveDropsTrailingEmpty` | jadx-gui/src/main/java/jadx/gui/ui/dialog/CommonSearchDialog.java:712-729 | for every list of bar-free entries, what is saved under a key loads back as the list without its trailing empty entries |
| `SearchLists.LoadAfterSave` | jadx-gui/src/main/java/jadx/gui/ui/dialog/CommonSearchDialog.java:712-729 | what is saved under a key loads back unchanged when no entry contains a bar char and the last entry is not empty; a cleared list is stored as `""` and loads as `[]` |
| `SearchLists.LoadAfterSaveNonEmptyEntries` | jadx-gui/src/main/java/jadx/gui/ui/dialog/CommonSearchDialog.java:712-729 | the round trip holds for every list of non-empty, bar-free entries |
| `SearchLists.BarInEntryIsNotRestored` | jadx-gui/src/main/java/jadx/gui/ui/dialog/CommonSearchDialog.java:715 | the unescaped delimiter: for bar-free a and b, saving the list of a followed by a bar char, then b, loads back as a, then a bar char followed by b; so an entry ending in a bar char that another entry follows does not load back as it was |
| `SearchLists.TrailingEmptyEntryIsLost` | jadx-gui/src/main/java/jadx/gui/ui/dialog/CommonSearchDialog.java:715 | saving `["a", ""]` loads back as `["a"]` |
| `Results.SortRows` | jadx-gui/src/main/java/jadx/gui/ui/dialog/CommonSearchDialog.java:589 | sorting keeps the length and the multiset of rows |
| `Results.InsertSorted` | jadx-gui/src/main/java/jadx/gui/ui/dialog/CommonSearchDialog.java:589 | inserting into sorted rows keeps them sorted under a total preorder |
| `Results.SortRowsSorted` | jadx-gui/src/main/java/jadx/gui/ui/dialog/CommonSearchDialog.java:588-590 | `Collections.sort(rows)` yields rows sorted by the node order that are a permutation of the old rows |
| `Results.AnyDescOfPermutation` | jadx-gui/src/main/java/jadx/gui/ui/dialog/CommonSearchDialog.java:588-590 | reordering rows does not change whether some row has a description, so sorting keeps the flag correct |
| `Results.ResultsModel.constructor` | jadx-gui/src/main/java/jadx/gui/ui/dialog/CommonSearchDialog.java:568-569 | a new model has no rows and the flag off |
| `Results.ResultsModel.AddAll` | jadx-gui/src/main/java/jadx/gui/ui/dialog/CommonSearchDialog.java:571-581 | rows become old rows followed by the nodes in order; the flag is on exactly when it was on or some row has a description |
| `Results.ResultsModel.Clear` | jadx-gui/src/main/java/jadx/gui/ui/dialog/CommonSearchDialog.java:583-586 | no rows, flag off |
| `Results.ResultsModel.Sort` | jadx-gui/src/main/java/jadx/gui/ui/dialog/CommonSearchDialog.java:588-590 | rows become a sorted permutation of the old rows; the flag is unchanged and stays correct |
| `Results.ResultsModel.IsAddDescColumn` | jadx-gui/src/main/java/jadx/gui/ui/dialog/CommonSearchDialog.java:592-594 | the flag is on exactly when some row has a description |
| `Results.ResultsModel.RowCount` | jadx-gui/src/main/java/jadx/gui/ui/dialog/CommonSearchDialog.java:596-599 | the number of rows |
| `Results.ResultsModel.ValueAt` | jadx-gui/src/main/java/jadx/gui/ui/dialog/CommonSearchDialog.java:611-614 | the row at the index, in any column; an index outside the rows is an out-of-bounds error |
| `Results.Lines` | jadx-gui/src/main/java/jadx/gui/ui/dialog/CommonSearchDialog.java:215 | the text of `append(x).append("\n")` per entry: empty for no entries, otherwise ending in a newline |
| `Results.UniqueRefs` | jadx-gui/src/main/java/jadx/gui/ui/dialog/CommonSearchDialog.java:210-216 | the references the HashSet lets through, at most one per row |
| `Results.UniqueRefsMembers` | jadx-gui/src/main/java/jadx/gui/ui/dialog/CommonSearchDialog.java:210-216 | a reference is copied exactly when some row has a JavaNode with that reference |
| `Results.UniqueRefsNoDuplicates` | jadx-gui/src/main/java/jadx/gui/ui/dialog/CommonSearchDialog.java:209-216 | no reference is copied twice |
| `Results.UniqueRefsFirstOccurrenceOrder` | jadx-gui/src/main/java/jadx/gui/ui/dialog/CommonSearchDialog.java:210-216 | copied references come in the order of their first occurrence among the rows |
| `Results.Descs` | jadx-gui/src/main/java/jadx/gui/ui/dialog/CommonSearchDialog.java:226-232 | the descriptions of the rows that have one, at most one per row |
| `Results.DescsMembers` | jadx-gui/src/main/java/jadx/gui/ui/dialog/CommonSearchDialog.java:226-232 | a description is copied exactly when some row with a description has it |
| `Results.DescsAppend` | jadx-gui/src/main/java/jadx/gui/ui/dialog/CommonSearchDialog.java:226-232 | the copied descriptions follow the row order: those of a + b are those of a, then those of b |
| `Results.LinesAppend` | jadx-gui/src/main/java/jadx/gui/ui/dialog/CommonSearchDialog.java:215 | the text built line by line for a + b is that of a followed by that of b |
| `SearchDialog.TitleFor` | jadx-gui/src/main/java/jadx/gui/ui/dialog/CommonSearchDialog.java:130-136 | the title is the bare window title exactly when the search text is null or blank, otherwise `title + ": " + text` |
| `SearchDialog.OpenItem` | jadx-gui/src/main/java/jadx/gui/ui/dialog/CommonSearchDialog.java:171-181 | a resource search node jumps to (resource node, position), any other node to itself; the window is disposed exactly when "keep open" is off |
| `SearchDialog.CommonSearchDialog.constructor` | jadx-gui/src/main/java/jadx/gui/ui/dialog/CommonSearchDialog.java:108-116 | empty lists, no highlight, the preferences as given, the title for `""` |
| `SearchDialog.CommonSearchDialog.UpdateTitle` | jadx-gui/src/main/java/jadx/gui/ui/dialog/CommonSearchDialog.java:130-136 | the title becomes the one for the search text |
| `SearchDialog.CommonSearchDialog.UpdateHighlightContext` | jadx-gui/src/main/java/jadx/gui/ui/dialog/CommonSearchDialog.java:138-148 | retitles, adds a non-blank text to the history and saves it, and sets the context with the options in their right places, so that the current search becomes the text |
| `SearchDialog.CommonSearchDialog.DisableHighlight` | jadx-gui/src/main/java/jadx/gui/ui/dialog/CommonSearchDialog.java:150-152 | no highlight context, so there is no current search |
| `SearchDialog.CommonSearchDialog.AddToHistory` | jadx-gui/src/main/java/jadx/gui/ui/dialog/CommonSearchDialog.java:731-739 | the history becomes `AddedToHistory` of the old one; it is saved exactly when the text is not null or blank |
| `SearchDialog.CommonSearchDialog.ClearHistory` | jadx-gui/src/main/java/jadx/gui/ui/dialog/CommonSearchDialog.java:273-276 | empty history, stored as `""` |
| `SearchDialog.CommonSearchDialog.CurrentSearch` | jadx-gui/src/main/java/jadx/gui/ui/dialog/CommonSearchDialog.java:285 | with a highlight context, its search text; without one, null |
| `SearchDialog.CommonSearchDialog.AddCurrentSearchToFavorites` | jadx-gui/src/main/java/jadx/gui/ui/dialog/CommonSearchDialog.java:289-294 | favorites become `AddedToFavorites` of the old ones; saved exactly when they changed |
| `SearchDialog.CommonSearchDialog.ClearFavorites` | jadx-gui/src/main/java/jadx/gui/ui/dialog/CommonSearchDialog.java:310-313 | empty favorites, stored as `""` |
| `SearchDialog.CommonSearchDialog.LoadHistoryAndFavorites` | jadx-gui/src/main/java/jadx/gui/ui/dialog/CommonSearchDialog.java:712-721 | each list gets the loaded stored list appended (nothing for a missing or empty entry) |
| `SearchDialog.CommonSearchDialog.SaveHistory` | jadx-gui/src/main/java/jadx/gui/ui/dialog/CommonSearchDialog.java:723-725 | the history key holds the delimiter join of the history; nothing else changes |
| `SearchDialog.CommonSearchDialog.SaveFavorites` | jadx-gui/src/main/java/jadx/gui/ui/dialog/CommonSearchDialog.java:727-729 | the favorites key holds the delimiter join of the favorites; nothing else changes |
| `SearchDialog.CommonSearchDialog.SelectedNode` | jadx-gui/src/main/java/jadx/gui/ui/dialog/CommonSearchDialog.java:183-195 | a node exactly when the selected index is in `[0, rowCount)`, and then the row at that index; null otherwise (-1, past the end, or the swallowed exception), never an error |
| `SearchDialog.CommonSearchDialog.OpenSelectedItem` | jadx-gui/src/main/java/jadx/gui/ui/dialog/CommonSearchDialog.java:163-169 | opens exactly when a row is selected, and then as `OpenItem` for that row |
| `SearchDialog.CommonSearchDialog.CodePreview` | jadx-gui/src/main/java/jadx/gui/ui/dialog/CommonSearchDialog.java:456-478 | no area: no change; no node or no description: empty text and nothing marked; otherwise the description in the node's syntax, marked with the current context |
| `SearchDialog.CommonSearchDialog.CopyAllSearchResults` | jadx-gui/src/main/java/jadx/gui/ui/dialog/CommonSearchDialog.java:207-220 | the text is one line per distinct code-node reference, in first-occurrence order (see the `UniqueRefs` lemmas); rows without a JavaNode are skipped |
| `SearchDialog.CommonSearchDialog.CopyAllCodeResults` | jadx-gui/src/main/java/jadx/gui/ui/dialog/CommonSearchDialog.java:224-236 | the text is one line per description, in row order, for the rows that have one |

## Left out

- Swing layout, the table, its cell renderer, the split pane, buttons and menus are UI.
  So are the popup menus' contents and the enabled state of "Add Current Search".
- Column widths in `initColumnWidth` and `updateTable` are UI, and use a floating-point
  comparison.
- `SearchEngine.markAll` and the internals of `SearchContext` belong to RSyntaxTextArea.
  The highlight context is a record of its text and three options, and the preview
  outcome only says which context the marks use.
- `java.util.prefs.Preferences` I/O is a map, so `prefs.put` (lines 724 and 728) never
  fails in the model. By the `Preferences` API, `put` throws
  `IllegalArgumentException` for a value longer than `Preferences.MAX_VALUE_LENGTH`
  (8192 chars). A joined list that long is saved in the model as any other.
- SearchDialog.CommonSearchDialog.UpdateHighlightContext: always ends with the new highlight context.
  In the code, a failing save inside `addToHistory` (line 141) leaves `highlightContext`
  at its old value while the in-memory history has already changed. Save failures are
  not modelled (see above).
- The preferences node is one per package (`userNodeForPackage`, line 104), shared by
  every search dialog, so one dialog's save overwrites another's. Each modelled dialog
  owns its own map, and no other dialog writes to it.
- The clipboard, `tabsController.codeJump`, `dispose` with window-position saving,
  logging and NLS strings are external effects. The model returns the text to copy, the
  jump target and the dispose decision instead.
- `autoFillSearchField` and `onHistorySelected` walk the Swing component tree. They are UI.
- Threading (`uiThreadGuard`, `invokeLater`) is not modelled: the model is sequential.
- `JNode.compareTo` is a comparator parameter, assumed to be a total preorder.
- Results.SortRowsSorted: does not state that `Collections.sort` is stable (equal
  nodes keep their order). Only sortedness and permutation are proved.
- `resultsModel` is created in the dialog's constructor rather than in `initResultsTable`.
  `codePreviewArea` being null is the `hasPreviewArea` parameter of `CodePreview`.
- `updateProgressLabel`, `showSearchState`, `progressStartCommon` and
  `progressFinishedCommon` only set label texts and visibility. They are UI.
- `getColumnCount` and `getColumnName` are constant table metadata. They are UI.
