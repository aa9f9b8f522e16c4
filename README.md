# Note app core, modelled in Dafny

This project models the logic of a React Native note-taking app. Its centre is the note
provider (`src/context/NoteContext.js`), which holds the `notes` and `categories` state and
exposes these operations:

- add, update and delete a note;
- pin or unpin it, and archive or unarchive it;
- add or remove a tag;
- add a category, and remove one (its notes move to "Personal");
- search by title, content or tag, and view a category.

Around the provider are:

- the helpers of `src/utils/helpers.js`: category colours, `#tag` extraction, summaries, and the two-pass sort that keeps pinned notes on top;
- the `useNoteSearch` hook, which derives the displayed list;
- the rich text editor's markup edits: wrap, bullet, header and checklist;
- the tag list editor;
- the settings screen's category guards and auto-save interval control;
- the note editor screen's load, save and pin handlers.

How the model is built:

- **Stateful parts are classes.** Wherever the source keeps state that its handlers update, the model holds it as a class: `NoteStore.Store`, `NoteSearch.SearchView`, `RichTextEditor.Editor`, `NoteEditor.TagEditor`, `SettingsScreen.Settings` and `NoteEditorScreen.EditorScreen`.
- **Each mutation has a specification function.** Every mutation of a state cell is a method. Its postcondition ties the new state to a pure function of the old state.
- **Properties are proved about those functions.** These include preservation of the store invariant (every note id unique, no tag repeated on a note, no category listed twice), idempotence, round trips, and orderings.
- **`Array.prototype.sort` is an in-place insertion sort.** `ArraySort.Sort` works on an `array`. It is proved equal to a functional stable sort, and `ArraySort.SortUnique` shows that any stable sort gives the same result. A sort with a consistent comparator can therefore stand for the engine's sort.
- **Support modules.** `Collections` holds `Option`, filter/map, subsequences and de-duplication. `JsString` holds the ECMAScript string built-ins the source uses: `trim`, `toLowerCase`, `includes`, `substring`, `split`/`join` and `repeat`.

Things outside the model are passed in as parameters:

- **The clock** is an `int` parameter `now`. The ISO timestamps are modelled as integer milliseconds, so `new Date(b) - new Date(a)` is a plain subtraction.
- **`uuidv4()`** is a `freshId` parameter. Uniqueness of note ids is preserved whenever that id is unused.

## Model

| member | source | states |
|---|---|---|
| NoteStore.Store.constructor | src/context/NoteContext.js:11-13 | the store starts with no notes, the four default categories, loading, and satisfies its invariant |
| NoteStore.Store.FinishLoading | src/context/NoteContext.js:16-37 | whichever of the stored notes and categories was found replaces the in-memory value; loading ends |
| NoteStore.Merge | src/context/NoteContext.js:93-97 | the merged note's `updatedAt` is the current time whatever the update says; id and creation time survive an update that does not carry them |
| NoteStore.MergeFields | src/context/NoteContext.js:93-97 | an empty update only moves `updatedAt`; a carried title replaces the old one; a carried `updatedAt` is overridden |
| NoteStore.Store.AddNote | src/context/NoteContext.js:69-86 | the new note goes to the front with the given fields, no tags, unpinned, unarchived, both timestamps `now`; the rest follow unchanged; its id is returned; the invariant holds if the id is fresh |
| NoteStore.AddNoteKeepsInvariant | src/context/NoteContext.js:69-86 | prepending an untagged note with an unused id keeps ids unique and tags distinct |
| NoteStore.UpdateNotes | src/context/NoteContext.js:89-101 | notes with another id are untouched, matching notes become the merge, ids unchanged when the update carries no id |
| NoteStore.Store.UpdateNote | src/context/NoteContext.js:89-101 | the notes become `UpdateNotes` of the old notes; the invariant holds when the update carries no id and distinct tags |
| NoteStore.UpdateKeepsInvariant | src/context/NoteContext.js:89-101 | an update without an id and with distinct tags keeps the invariant |
| NoteStore.NotesWithout | src/context/NoteContext.js:104-106 | the result is an order-keeping subsequence that keeps every copy of each note with another id and no note of that id; an unknown id changes nothing |
| NoteStore.KeepAllWithoutMatch | src/context/NoteContext.js:105 | filtering out an id no note has keeps the list as it is |
| NoteStore.Store.DeleteNote | src/context/NoteContext.js:104-106 | the notes become `NotesWithout` of the old notes and the invariant is kept |
| NoteStore.DeleteKeepsInvariant | src/context/NoteContext.js:104-106 | deleting keeps ids unique (via the subsequence of ids) |
| NoteStore.SubsequenceIds | src/context/NoteContext.js:105 | the ids of a subsequence of notes are a subsequence of the ids |
| NoteStore.SubsequenceDropHead | src/context/NoteContext.js:105 | dropping the head of a subsequence leaves a subsequence |
| NoteStore.SubsequenceWeaken | src/context/NoteContext.js:105 | a subsequence stays one when an element is put in front of the sequence |
| NoteStore.TogglePin | src/context/NoteContext.js:109-117 | the matching notes get the opposite pin flag and `updatedAt = now`; others are untouched |
| NoteStore.Store.TogglePinNote | src/context/NoteContext.js:109-117 | the notes become `TogglePin` of the old notes and the invariant is kept |
| NoteStore.ToggleArchive | src/context/NoteContext.js:120-128 | the matching notes get the opposite archive flag and `updatedAt = now`; others are untouched |
| NoteStore.Store.ToggleArchiveNote | src/context/NoteContext.js:120-128 | the notes become `ToggleArchive` of the old notes and the invariant is kept |
| NoteStore.FlagTogglesKeepInvariant | src/context/NoteContext.js:109-128 | both toggles keep the invariant |
| NoteStore.ToggleTwice | src/context/NoteContext.js:109-128 | toggling pin (or archive) twice restores every note except its `updatedAt` |
| NoteStore.AddTag | src/context/NoteContext.js:131-143 | a tag the note already has leaves it entirely unchanged; otherwise the tag is appended and `updatedAt` set |
| NoteStore.Store.AddTagToNote | src/context/NoteContext.js:131-143 | the notes become `AddTag` of the old notes and the invariant is kept |
| NoteStore.AddTagTwice | src/context/NoteContext.js:131-143 | adding the same tag twice is the same as adding it once |
| NoteStore.WithoutTag | src/context/NoteContext.js:152 | every copy of the tag is gone, every copy of each other tag stays, in order; an absent tag changes nothing |
| NoteStore.RemoveTag | src/context/NoteContext.js:146-158 | matching notes lose the tag and always get a new `updatedAt`, even when the tag was absent |
| NoteStore.Store.RemoveTagFromNote | src/context/NoteContext.js:146-158 | the notes become `RemoveTag` of the old notes and the invariant is kept |
| NoteStore.TagChangesKeepInvariant | src/context/NoteContext.js:131-158 | adding or removing a tag keeps the tags of every note distinct |
| NoteStore.CategoriesWith | src/context/NoteContext.js:161-165 | the category is present afterwards; an existing one changes nothing, a new one is appended; no duplicates appear |
| NoteStore.Store.AddCategory | src/context/NoteContext.js:161-165 | the categories become `CategoriesWith` of the old ones and the invariant is kept |
| NoteStore.CategoriesWithout | src/context/NoteContext.js:169 | every copy of the category is gone and every copy of each other category remains, in order |
| NoteStore.Reassign | src/context/NoteContext.js:171-177 | notes of the removed category move to "Personal" with `updatedAt = now`; the others and all ids are unchanged |
| NoteStore.Store.RemoveCategory | src/context/NoteContext.js:168-178 | both cells are replaced from their old values and the invariant is kept |
| NoteStore.RemoveCategoryKeepsInvariant | src/context/NoteContext.js:168-178 | removing a category keeps the invariant |
| NoteStore.CategoryCascade | src/context/NoteContext.js:168-178 | after removing a category other than "Personal" no note is in it, and only its notes got a new `updatedAt` |
| NoteStore.UpdatedAtNeverDecreases | src/context/NoteContext.js:89-178 | with a clock reading at least every stored `updatedAt`, no mutation makes a note's `updatedAt` smaller |
| NoteStore.SearchNotes | src/context/NoteContext.js:181-191 | a blank query returns every note, archived ones included; otherwise exactly the notes (each with its multiplicity) whose lower-cased title, content or some tag contains the trimmed, lower-cased query, in store order |
| NoteStore.SearchExtremes | src/context/NoteContext.js:181-191 | a blank query lists all, and a term no note contains lists none |
| NoteStore.SearchIgnoresQueryCase | src/context/NoteContext.js:184 | lower-casing the query does not change the result |
| NoteStore.NotesByCategory | src/context/NoteContext.js:194-198 | exactly the notes in the view, each with its multiplicity, in store order: "All" is the unarchived notes, "Archived" the archived ones, any other name its unarchived notes |
| NoteStore.CategoryViewsPartition | src/context/NoteContext.js:194-198 | every note is in exactly one of "All" and "Archived"; every ordinary category view lies inside "All" |
| NoteStore.ReservedNameShadowsCategory | src/context/NoteContext.js:196 | the "Archived" view holds only archived notes, even for a user category of that name |
| NoteStore.ArchiveScenario | src/context/NoteContext.js:69-86 | a new "Personal" note shows under "Personal"; once archived it shows under "Archived" and no longer under "Personal" |
| Helpers.GetCategoryColor | src/utils/helpers.js:17-30 | the table colour for the eight known categories, white exactly for the rest (the corrected lookup) |
| Helpers.GetCategoryColorAsWritten | src/utils/helpers.js:17-30 | the lookup as written: names inherited from `Object.prototype` yield an inherited member instead of white |
| Helpers.InheritedNameGetsNoColour | src/utils/helpers.js:29 | "constructor" yields an inherited member as written, white once corrected |
| Helpers.ColourVersionsAgree | src/utils/helpers.js:17-30 | the two lookups agree on every name not inherited from `Object.prototype` |
| Helpers.ScanTags | src/utils/helpers.js:42 | each match of `/#[\w-]+/g` is a non-empty run of word characters or `-` that occurs in the content behind a `#` |
| Helpers.TagRun | src/utils/helpers.js:42 | the run of tag characters at the front is maximal |
| Helpers.TagRunIs | src/utils/helpers.js:42 | a maximal run of tag characters is the run `TagRun` finds |
| Helpers.ExtractTags | src/utils/helpers.js:41-47 | the tags are distinct, non-empty, made only of word characters and `-`, and each occurs behind a `#` in the content |
| Helpers.ExtractTagsCharacterized | src/utils/helpers.js:41-47 | the tags are exactly the maximal runs behind the `#` match starts: every start contributes its run, every tag is such a run, and the tags are ordered by their first appearance among the matches |
| Helpers.RunAt | src/utils/helpers.js:42-46 | the tag of a match is the maximal run of tag characters after its `#` |
| Helpers.ScanTagsAreRuns | src/utils/helpers.js:42 | the left-to-right global match reports the run behind every `#` a tag character follows, in position order |
| Helpers.RunsComplete | src/utils/helpers.js:42 | every match start contributes its run |
| Helpers.RunsSound | src/utils/helpers.js:42 | every run listed comes from a match start |
| Helpers.RunsSkipPlain | src/utils/helpers.js:42 | text without `#` starts no match |
| Helpers.RunAtTail | src/utils/helpers.js:42 | match starts and their runs shift with the text |
| Helpers.ExtractTagsEmptyIffNoMarker | src/utils/helpers.js:43 | no tags exactly when there is no `#` directly followed by a tag character |
| Helpers.FirstParagraph | src/utils/helpers.js:54 | the first paragraph is a prefix of the content, no separator starts inside it, and it ends at the first separator or at the end |
| Helpers.ParagraphFirst | src/utils/helpers.js:54 | no separator starts before the end of the extended paragraph |
| Helpers.ParagraphStep | src/utils/helpers.js:54 | a character that does not start a separator extends the first paragraph |
| Helpers.FirstParagraphOfOneParagraph | src/utils/helpers.js:54 | a text without a separator is its own first paragraph |
| Helpers.SummarizeContent | src/utils/helpers.js:50-62 | a first paragraph of at most 100 characters is the summary; a longer one gives the first 100 characters of the content plus "..."; empty content gives empty; the summary has at most 103 characters |
| Helpers.CriterionOf | src/utils/helpers.js:77-88 | "title" and "createdAt" select their comparators; every other key (and the default) selects `updatedAt` |
| Helpers.LexCompareAntisymmetric | src/utils/helpers.js:79 | the title order is zero exactly on equal titles, and swapping the arguments flips the sign |
| Helpers.LexCompareTransitive | src/utils/helpers.js:79 | the title order is transitive |
| Helpers.CompareByConsistent | src/utils/helpers.js:77-88 | each criterion comparator is a consistent comparator |
| Helpers.PinnedOrderConsistent | src/utils/helpers.js:91 | the pinned-first comparator is consistent |
| Helpers.SortedView | src/utils/helpers.js:74-92 | the result of the two sorts is a permutation of the input |
| Helpers.SortedViewIdempotent | src/utils/helpers.js:74-92 | sorting notes that are already in `sortNotes` order leaves them as they are |
| Helpers.ResortedGroup | src/utils/helpers.js:74-92 | a group already sorted by the criterion comes out of the re-sort unchanged |
| Helpers.SortNotes | src/utils/helpers.js:74-92 | copying into an array and sorting in place twice gives `SortedView` |
| Helpers.GroupedPermutation | src/utils/helpers.js:91 | pinned notes followed by unpinned ones is a permutation |
| Helpers.GroupedSortedByPin | src/utils/helpers.js:91 | that grouping is sorted by the pinned-first comparator |
| Helpers.GroupedStable | src/utils/helpers.js:91 | that grouping keeps the input order among equally pinned notes |
| Helpers.GroupedTies | src/utils/helpers.js:91 | the grouping keeps each class of equally pinned notes in input order |
| Helpers.StableSortByPinIsGrouping | src/utils/helpers.js:91 | the stable pinned-first sort is exactly the grouping |
| Helpers.GroupsOfGrouped | src/utils/helpers.js:91 | the pinned and unpinned groups of the grouping are those of the input |
| Helpers.PinnedFirst | src/utils/helpers.js:90-91 | in the sorted list no unpinned note precedes a pinned one |
| Helpers.SortedByCriterion | src/utils/helpers.js:77-88 | the first pass sorts by the criterion |
| Helpers.GroupedKeepsOrder | src/utils/helpers.js:91 | grouping a sorted list keeps each group sorted |
| Helpers.GroupsFollowCriterion | src/utils/helpers.js:74-92 | within the pinned group and within the unpinned group the criterion order holds |
| Helpers.CriterionOrders | src/utils/helpers.js:77-88 | within each group titles ascend for "title", `createdAt` descends for "createdAt", and `updatedAt` descends otherwise |
| Helpers.GroupsKeepTieOrder | src/utils/helpers.js:74-92 | notes the criterion cannot tell apart keep their input order within their group |
| ArraySort.Sort | src/utils/helpers.js:79-91 | the in-place sort leaves the array equal to the stable sort of its old contents |
| ArraySort.InsertNext | src/utils/helpers.js:79-91 | one insertion step inserts the next element into the sorted prefix and leaves the rest alone |
| ArraySort.ShiftLarger | src/utils/helpers.js:79-91 | the shifting loop moves every element greater than the key one place right, stops behind one that is not greater, and leaves the rest of the array alone |
| ArraySort.InsertPosition | src/utils/helpers.js:79-91 | insertion places the key right after the last element not greater than it |
| ArraySort.SortStep | src/utils/helpers.js:79-91 | sorting one more element is inserting it into the sorted prefix |
| ArraySort.Insert | src/utils/helpers.js:79-91 | insertion lengthens the list by one |
| ArraySort.InsertPermutes | src/utils/helpers.js:79-91 | insertion adds exactly the one element |
| ArraySort.StableSort | src/utils/helpers.js:79-91 | the reference sort keeps the length |
| ArraySort.SortPermutes | src/utils/helpers.js:79-91 | the reference sort is a permutation |
| ArraySort.InsertSorted | src/utils/helpers.js:79-91 | inserting into a sorted list keeps it sorted |
| ArraySort.SortSorted | src/utils/helpers.js:79-91 | the reference sort yields a sorted list for a consistent comparator |
| ArraySort.InsertTies | src/utils/helpers.js:79-91 | insertion puts an element behind those equal to it |
| ArraySort.SortStable | src/utils/helpers.js:79-91 | the reference sort is stable |
| ArraySort.SortStableAt | src/utils/helpers.js:79-91 | the reference sort keeps each class of equal elements in input order |
| ArraySort.SortUnique | src/utils/helpers.js:79-91 | two sorted, stable permutations of the same list are equal |
| ArraySort.HeadsEqual | src/utils/helpers.js:79-91 | stable orderings whose heads compare equal have the same head |
| ArraySort.TailsStable | src/utils/helpers.js:79-91 | stability passes to the tails when the heads agree |
| ArraySort.HeadsTie | src/utils/helpers.js:79-91 | sorted permutations of one list have heads that compare equal |
| ArraySort.TiesCons | src/utils/helpers.js:79-91 | the equal-class of a list unfolds at its head |
| ArraySort.StableSortCharacterized | src/utils/helpers.js:79-91 | any sorted, stable permutation is the reference sort's result |
| ArraySort.SortOfSorted | src/utils/helpers.js:79-91 | sorting a sorted list changes nothing |
| ArraySort.Transitive | src/utils/helpers.js:79-91 | a consistent comparator is transitive on "not after" |
| ArraySort.ConsistentZero | src/utils/helpers.js:79-91 | a consistent comparator is reflexive and symmetric on ties |
| ArraySort.FilterSorted | src/utils/helpers.js:91 | filtering a sorted list keeps it sorted |
| ArraySort.PartitionOrdered | src/utils/helpers.js:91 | in a grouping of a sorted list, equally grouped elements stay in order and the second group never precedes the first |
| NoteSearch.FilterStage | src/utils/useNoteSearch.js:24-33 | a non-blank query gives `searchNotes` of the store, a blank one the category view; either way a subsequence of the store |
| NoteSearch.SortNotesByType | src/utils/useNoteSearch.js:42-60 | the same two in-place sorts as `sortNotes`, with the same result |
| NoteSearch.SearchTakesPrecedence | src/utils/useNoteSearch.js:28-29 | with a non-blank query the selected category has no effect |
| NoteSearch.BlankQueryUsesCategory | src/utils/useNoteSearch.js:30-33 | with a blank query the category view is used, so "All" shows no archived note |
| NoteSearch.DisplayedIsPinnedFirstPermutation | src/utils/useNoteSearch.js:24-39 | the displayed list is a permutation of the filtered list with pinned notes first |
| NoteSearch.SearchView.constructor | src/utils/useNoteSearch.js:11-21 | the initial query, category ("All") and sort key ("updatedAt"), and an empty list |
| NoteSearch.SearchView.Refresh | src/utils/useNoteSearch.js:24-39 | the effect leaves the displayed list consistent with the store and the state cells |
| NoteSearch.SearchView.SetSearchQuery | src/utils/useNoteSearch.js:18-39 | the query changes alone and the list is recomputed |
| NoteSearch.SearchView.SetSelectedCategory | src/utils/useNoteSearch.js:19-39 | the category changes alone and the list is recomputed |
| NoteSearch.SearchView.SetSortCriteria | src/utils/useNoteSearch.js:20-39 | the sort key changes alone and the list is recomputed |
| NoteSearch.SearchView.ClearSearch | src/utils/useNoteSearch.js:62-64 | the query becomes empty and the list is the sorted category view |
| RichTextEditor.Splice | src/components/RichTextEditor.js:120-132 | around a valid selection the text before and after is kept and the middle replaced |
| RichTextEditor.FormattedText | src/components/RichTextEditor.js:114-136 | a new text exactly for "bold", "italic", "underline" and "bullet" |
| RichTextEditor.WrapAddsMarkers | src/components/RichTextEditor.js:119-127 | bold wraps the selection in `**` (4 more characters), italic in `_` and underline in `~` (2 more), keeping the text around it |
| RichTextEditor.BulletedKeepsLines | src/components/RichTextEditor.js:128-133 | bulleting keeps the number of lines and turns each line into "• " plus the line |
| RichTextEditor.UnknownTypeChangesNothing | src/components/RichTextEditor.js:134-135 | any other formatting type reports nothing |
| RichTextEditor.Toggled | src/components/RichTextEditor.js:107-110 | the chosen style flips and every other style is kept |
| RichTextEditor.ToggleTwice | src/components/RichTextEditor.js:107-110 | toggling a style twice restores all styles |
| RichTextEditor.LineStart | src/components/RichTextEditor.js:148-151 | the line start is at or before the position, at 0 or just after a newline, with no newline in between |
| RichTextEditor.LineEnd | src/components/RichTextEditor.js:153-156 | the line end is at or after the position, at the text end or on a newline, with no newline in between |
| RichTextEditor.HashRun | src/components/RichTextEditor.js:162 | the leading run of `#` is maximal |
| RichTextEditor.StripHeader | src/components/RichTextEditor.js:162 | `^#+\s` is removed when present; the line is kept otherwise |
| RichTextEditor.HeaderReplacesMarker | src/components/RichTextEditor.js:161-166 | re-heading a header line replaces its marker |
| RichTextEditor.HeaderIdempotent | src/components/RichTextEditor.js:161-166 | applying the same header twice is applying it once |
| RichTextEditor.HeaderKeepsOtherLines | src/components/RichTextEditor.js:142-171 | only the selected lines change: the text before the line start and after the line end is kept |
| RichTextEditor.ChecklistInsertsMarker | src/components/RichTextEditor.js:174-187 | exactly "[ ] " is inserted at the start of the cursor's line |
| RichTextEditor.Editor.constructor | src/components/RichTextEditor.js:23-29 | no style is active and the selection is empty at 0 |
| RichTextEditor.Editor.SetSelection | src/components/RichTextEditor.js:29 | the selection is replaced |
| RichTextEditor.Editor.FormatText | src/components/RichTextEditor.js:101-139 | an empty selection only flips the style; otherwise the formatted text, if any, becomes the value |
| RichTextEditor.Editor.FindLineStart | src/components/RichTextEditor.js:148-151 | the loop finds `LineStart` |
| RichTextEditor.Editor.FindLineEnd | src/components/RichTextEditor.js:153-156 | the loop finds `LineEnd` |
| RichTextEditor.Editor.AddHeader | src/components/RichTextEditor.js:142-171 | the reported text is the header edit of the old value |
| RichTextEditor.Editor.AddChecklistItem | src/components/RichTextEditor.js:174-187 | the reported text is the checklist edit of the old value |
| NoteEditor.TagsAfterAdd | src/components/NoteEditor.js:206-227 | blank input or a tag already present changes nothing; otherwise the trimmed tag is appended; a clean list stays clean |
| NoteEditor.AddTwiceIsAddOnce | src/components/NoteEditor.js:206-227 | adding the same input twice is adding it once |
| NoteEditor.TagsAfterRemove | src/components/NoteEditor.js:229-231 | every occurrence of the tag is gone and every copy of each other tag remains, in order |
| NoteEditor.RemoveKeepsClean | src/components/NoteEditor.js:229-231 | removing keeps the tags distinct, trimmed and non-empty |
| NoteEditor.TagEditor.constructor | src/components/NoteEditor.js:203 | the input field starts empty |
| NoteEditor.TagEditor.SetNewTag | src/components/NoteEditor.js:203 | the input field holds the typed text |
| NoteEditor.TagEditor.HandleAddTag | src/components/NoteEditor.js:206-227 | the tags become `TagsAfterAdd`; the field is cleared only when the tag was accepted |
| NoteEditor.TagEditor.HandleRemoveTag | src/components/NoteEditor.js:229-231 | the tags become `TagsAfterRemove` |
| SettingsScreen.AddDecision | src/screens/SettingsScreen.js:49-58 | blank input is ignored, an existing trimmed name is a duplicate, any other is added trimmed |
| SettingsScreen.AddedNameIsAppended | src/screens/SettingsScreen.js:54 | an accepted name is appended by the store |
| SettingsScreen.DeleteDecision | src/screens/SettingsScreen.js:60-81 | a default category is always rejected; any other is removed exactly when the user confirms |
| SettingsScreen.DefaultsSurvive | src/screens/SettingsScreen.js:60-64 | whatever the choice, every default category present before is still present |
| SettingsScreen.Decrement | src/screens/SettingsScreen.js:164 | the interval drops by 5 only while above 5, stays valid and never grows |
| SettingsScreen.Increment | src/screens/SettingsScreen.js:184 | the interval grows by 5, stays valid, and a decrement undoes it |
| SettingsScreen.PressesKeepInterval | src/screens/SettingsScreen.js:164-184 | no sequence of presses leaves the positive multiples of 5 |
| SettingsScreen.IntervalAlwaysOk | src/screens/SettingsScreen.js:26 | starting from 30, the interval is always a positive multiple of 5 |
| SettingsScreen.MinusPresses | src/screens/SettingsScreen.js:164 | n presses of "remove" give the larger of 5 and the interval minus 5n |
| SettingsScreen.Settings.constructor | src/screens/SettingsScreen.js:20-26 | an empty field and an interval of 30 |
| SettingsScreen.Settings.SetNewCategory | src/screens/SettingsScreen.js:21 | the field holds the typed text |
| SettingsScreen.Settings.HandleAddCategory | src/screens/SettingsScreen.js:49-58 | only an accepted name reaches `addCategory` and clears the field; the store's invariant is kept |
| SettingsScreen.Settings.HandleDeleteCategory | src/screens/SettingsScreen.js:60-81 | `removeCategory` runs only after confirmation of a non-default category; defaults survive |
| SettingsScreen.Settings.PressDecrement | src/screens/SettingsScreen.js:164 | the interval becomes `Decrement` of itself and stays valid |
| SettingsScreen.Settings.PressIncrement | src/screens/SettingsScreen.js:184 | the interval becomes `Increment` of itself and stays valid |
| NoteEditorScreen.OrElse | src/screens/NoteEditorScreen.js:56-57 | the empty string falls back; any other string is kept |
| NoteEditorScreen.FindNote | src/screens/NoteEditorScreen.js:53 | a note is found exactly when the id occurs, and it is a stored note with that id |
| NoteEditorScreen.FindNoteIsFirst | src/screens/NoteEditorScreen.js:53 | the note found is the first one with that id |
| NoteEditorScreen.LoadedPinInSync | src/screens/NoteEditorScreen.js:53-60 | with unique ids, the pin flag loaded from the found note agrees with every stored note of that id |
| NoteEditorScreen.CreateSaved | src/screens/NoteEditorScreen.js:160-163 | a store with the new note put in front holds what a creating save describes |
| NoteEditorScreen.FoundIsOnly | src/screens/NoteEditorScreen.js:53 | with unique ids the note found is the only one with that id |
| NoteEditorScreen.SaveDecision | src/screens/NoteEditorScreen.js:144-163 | discard exactly when title and content are both blank; otherwise update when editing an id, create when not |
| NoteEditorScreen.EditedFieldsMerge | src/screens/NoteEditorScreen.js:152-159 | an update from the editor sets exactly title, content, color, category, tags, pin and `updatedAt` |
| NoteEditorScreen.SavedNotes | src/screens/NoteEditorScreen.js:144-166 | discarding keeps the store; updating keeps ids and other notes and sets the six fields; creating puts a new note in front |
| NoteEditorScreen.CreateDropsLocalTagsAndPin | src/screens/NoteEditorScreen.js:160-162 | a created note ignores the local tags and pin: it is unpinned, untagged and unarchived |
| NoteEditorScreen.SaveKeepsInvariant | src/screens/NoteEditorScreen.js:144-166 | a save with distinct tags and an unused id keeps the store's invariant |
| NoteEditorScreen.TogglePinKeepsSync | src/screens/NoteEditorScreen.js:209-216 | flipping both the stored and the local flag keeps them in agreement |
| NoteEditorScreen.EditorScreen.constructor | src/screens/NoteEditorScreen.js:34-39 | empty title and content, white, "Personal", no tags, unpinned |
| NoteEditorScreen.EditorScreen.LoadNote | src/screens/NoteEditorScreen.js:51-65 | when editing a stored note, its fields are copied with the colour and category fallbacks; otherwise nothing changes; with unique ids the pin flag agrees with the store |
| NoteEditorScreen.EditorScreen.HandleSave | src/screens/NoteEditorScreen.js:144-166 | the store becomes `SavedNotes`; its invariant is kept under the same conditions |
| NoteEditorScreen.EditorScreen.HandleTogglePin | src/screens/NoteEditorScreen.js:209-216 | the local flag always flips; the store toggles only when editing; agreement is kept |
| JsString.Trim | src/context/NoteContext.js:182 | the trimmed string has no white space at either end |
| JsString.LeadingSpace | src/context/NoteContext.js:182 | the count of leading white space stops at the first other code point |
| JsString.TrailingSpace | src/context/NoteContext.js:182 | the count of trailing white space stops at the last other code point |
| JsString.SpaceAround | src/context/NoteContext.js:182 | when some code point is not white space, the leading and the trailing white space do not overlap |
| JsString.TrimIsInfix | src/context/NoteContext.js:184 | the trimmed string is the slice of the original after its leading white space, with only white space around it |
| JsString.TrimEmptyIffBlank | src/context/NoteContext.js:182 | trimming gives "" exactly for all-white-space strings |
| JsString.TrimIdempotent | src/components/NoteEditor.js:207 | trimming twice is trimming once |
| JsString.LowerChar | src/context/NoteContext.js:184 | no upper-case ASCII letter remains; other characters are kept |
| JsString.ToLower | src/context/NoteContext.js:184 | lower-casing works character by character |
| JsString.ToLowerIdempotent | src/context/NoteContext.js:184 | lower-casing twice is lower-casing once |
| JsString.ToLowerKeepsWhiteSpace | src/context/NoteContext.js:184 | lower-casing keeps a string blank or non-blank |
| JsString.IncludesIffOccurs | src/context/NoteContext.js:187-189 | `includes` holds exactly when the needle occurs at some index |
| JsString.IncludesWitness | src/context/NoteContext.js:187-189 | when `includes` holds, the needle occurs at the index it returns |
| JsString.OccursIncludes | src/context/NoteContext.js:187-189 | an occurrence at any index makes `includes` hold |
| JsString.IncludesInSuffix | src/context/NoteContext.js:187-189 | what a suffix includes, the whole string includes |
| JsString.IncludesEmpty | src/context/NoteContext.js:187-189 | every string includes "" |
| JsString.Substring | src/components/RichTextEditor.js:115 | in range, `substring` is the slice; it never grows the string |
| JsString.SubstringFrom | src/components/RichTextEditor.js:120 | from an index in range it is the suffix; past the end it is "" |
| JsString.Split | src/components/RichTextEditor.js:130 | there is at least one part and none contains the separator |
| JsString.IndexOf | src/components/RichTextEditor.js:130 | the first occurrence of the separator |
| JsString.JoinSplit | src/components/RichTextEditor.js:130-131 | joining the parts of a split restores the string |
| JsString.SplitJoin | src/components/RichTextEditor.js:130-131 | splitting a join of separator-free parts restores the parts |
| JsString.Repeat | src/components/RichTextEditor.js:165 | the string of n copies of the character |
| Collections.Filter | src/context/NoteContext.js:105 | the kept elements are exactly those of the input that satisfy the predicate |
| Collections.Map | src/context/NoteContext.js:91 | same length, element by element |
| Collections.Dedup | src/utils/helpers.js:46 | the distinct elements, each element of the input represented |
| Collections.DedupFirstOrder | src/utils/helpers.js:46 | the distinct values come in the order of their first occurrences, as a `Set` iterates them |
| Collections.DedupStep | src/utils/helpers.js:46 | appending one element keeps the first-occurrence order |
| Collections.FirstIndex | src/utils/helpers.js:46 | the first occurrence holds the value and no earlier position does |
| Collections.FirstIndexOfPrefix | src/utils/helpers.js:46 | appending does not move an existing first occurrence |
| Collections.FirstIndexOfLast | src/utils/helpers.js:46 | a new value first occurs at the end |
| Collections.DedupOfDistinct | src/utils/helpers.js:46 | a duplicate-free list is its own de-duplication |
| Collections.FilterAll | src/context/NoteContext.js:105 | a predicate true everywhere keeps all |
| Collections.FilterNone | src/context/NoteContext.js:105 | a predicate false everywhere keeps nothing |
| Collections.FilterConcat | src/context/NoteContext.js:105 | filtering distributes over concatenation |
| Collections.FilterSnoc | src/context/NoteContext.js:105 | filtering a list with one element appended |
| Collections.FilterExtensional | src/context/NoteContext.js:105 | predicates that agree on the list filter alike |
| Collections.FilterCommute | src/context/NoteContext.js:194-198 | two filters commute |
| Collections.FilterIsSubsequence | src/context/NoteContext.js:105 | the filtered list is an order-keeping subsequence |
| Collections.FilterIdempotent | src/context/NoteContext.js:105 | filtering twice is filtering once |
| Collections.FilterComplement | src/utils/helpers.js:91 | a filter and its complement together are a permutation |
| Collections.FilterCount | src/context/NoteContext.js:105 | `filter` keeps every copy of a passing element and no copy of a failing one |
| Collections.FilterCounts | src/context/NoteContext.js:105 | the same for all elements at once |
| Collections.FilterKeepsPermutation | src/utils/helpers.js:79-91 | filtering permutations of each other gives permutations of each other |
| Collections.PartitionFilter | src/utils/helpers.js:91 | each side of a partition is recovered by filtering it again |
| Collections.SubsequenceElements | src/context/NoteContext.js:105 | a subsequence is no longer and its elements come from the list |
| Collections.SubsequenceNoDuplicates | src/context/NoteContext.js:105 | a subsequence of a duplicate-free list is duplicate-free |

## Left out

- Persistence: AsyncStorage and JSON are reduced to the optional values the initial load finds (`NoteStore.Store.FinishLoading`). The save effects are reduced to the `SavesToStorage` predicate. Parse and storage errors are not modelled.
- Clock and id generation: `new Date()` and `uuidv4()` are parameters (`now`, `freshId`). ISO date strings are modelled as integer milliseconds.
- `localeCompare` is modelled as code-point lexicographic order (`Helpers.LexCompare`), which is not locale-aware collation.
- JsString.ToLower: only ASCII letters are lower-cased, because Unicode case mapping is not modelled.
- Helpers.SummarizeContent: counts its 100-character limit in code points, not UTF-16 code units, because a `string` here is a sequence of code points; a character outside the Basic Multilingual Plane counts once where JavaScript's `length` and `substring` count two, and a cut through a surrogate pair cannot be represented.
- JsString.Substring: offsets are code-point positions, not UTF-16 code-unit positions, for the same reason.
- RichTextEditor.Splice: selection offsets are code-point positions, not the text input's UTF-16 code-unit offsets, for the same reason.
- Other helpers: `normalizeText` (Unicode normalisation), `formatDate` (locale formatting), `getRandomPastelColor` (randomness) and `isIOS` (platform) are not part of this model.
- React mechanics are not modelled: render scheduling, stale closures over state, effect dependency lists and listeners. Each setter with the effect it triggers is one atomic step (`NoteSearch.SearchView`). The race between the initial load and an early mutation is not captured.
- Screens and components that only present data are not part of this model: `HomeScreen`, `NoteDetailScreen`, `NoteCard`, `NoteActionMenu`, `EmptyState`, the delete modals, `VoiceRecorder` and `elevationStyles`. The same goes for animations, the keyboard and the status bar.
- `Alert`, `Share` and navigation are not modelled. For category deletion, the button the user presses is an input (`SettingsScreen.AlertChoice`).
- `handleDelete`, `handleShare` and the voice recording handler of the note editor screen are not modelled. The `isRichText` flag and the rich text editor toggle are left out too.
- The dark mode and notification switches of the settings screen are not modelled; they only hold local booleans.
- NoteEditorScreen.EditorScreen.LoadNote: stored notes are typed records, so `note.tags || []` and `note.isPinned || false` read the field itself. Missing (`undefined`) fields of notes loaded from storage are not modelled.
- The rich text editor reports its new text through `onChangeText`. The model sets the editor's own `value` instead, because the parent's state update is not part of this model.

## Findings

| source | as written | input that shows it | evidently intended | confidence | as-written member | corrected member |
|---|---|---|---|---|---|---|
| src/utils/helpers.js:29 | the lookup reads the category from an ordinary object literal and falls back to `'#ffffff'` only when that read is falsy, so names inherited from `Object.prototype` are found | `getCategoryColor("constructor")` returns the `Object` function rather than a colour | every category outside the eight listed gets `#ffffff` | not executed | Helpers.GetCategoryColorAsWritten (shown by Helpers.InheritedNameGetsNoColour) | Helpers.GetCategoryColor |
