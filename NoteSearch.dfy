/** The `useNoteSearch` hook of `src/utils/useNoteSearch.js`: the state cells `searchQuery`,
    `selectedCategory`, `sortCriteria` and `filteredNotes`, and the effect that derives the
    displayed list from the store whenever one of them changes. Each setter is modelled together
    with the effect run it triggers. */
module NoteSearch {
  import opened Collections
  import opened JsString
  import opened ArraySort
  import opened NoteStore
  import opened Helpers

  const DefaultQuery: string := ""
  const DefaultCategory: string := "All"
  const DefaultSortBy: string := "updatedAt"

  /** The filter stage of the effect: an active (non-blank) query searches the whole store;
      otherwise the selected category view is used. */
  function FilterStage(notes: seq<Note>, query: string, category: string): (r: seq<Note>)
    ensures IsSubsequence(r, notes)
    ensures !AllWhiteSpace(query) ==> r == SearchNotes(notes, query)
    ensures AllWhiteSpace(query) ==> r == NotesByCategory(notes, category)
  {
    TrimEmptyIffBlank(query);
    if Trim(query) != [] then SearchNotes(notes, query) else NotesByCategory(notes, category)
  }

  /** What the hook displays. */
  function Displayed(notes: seq<Note>, query: string, category: string, sortBy: string): seq<Note> {
    SortedView(FilterStage(notes, query, category), CriterionOf(sortBy))
  }

  /** `sortNotesByType(notesToSort, criteria)`: the same copy-and-sort-twice as `sortNotes`. */
  method SortNotesByType(notesToSort: seq<Note>, criteria: string) returns (r: seq<Note>)
    ensures r == SortedView(notesToSort, CriterionOf(criteria))
  {
    var sortedNotes := new Note[|notesToSort|](i requires 0 <= i < |notesToSort| => notesToSort[i]);
    assert sortedNotes[..] == notesToSort;
    Sort(sortedNotes, CompareBy(CriterionOf(criteria)));
    Sort(sortedNotes, PinnedOrder);
    r := sortedNotes[..];
  }

  /** A non-blank query decides the result alone: the selected category plays no part. */
  lemma SearchTakesPrecedence(notes: seq<Note>, query: string, c1: string, c2: string)
    requires !AllWhiteSpace(query)
    ensures FilterStage(notes, query, c1) == FilterStage(notes, query, c2) == SearchNotes(notes, query)
  {
    TrimEmptyIffBlank(query);
  }

  /** A blank query falls back to the category view, so archived notes stay hidden under "All"
      although `searchNotes` would list them. */
  lemma BlankQueryUsesCategory(notes: seq<Note>, query: string, category: string)
    requires AllWhiteSpace(query)
    ensures FilterStage(notes, query, category) == NotesByCategory(notes, category)
    ensures forall i :: 0 <= i < |FilterStage(notes, query, "All")| ==> !FilterStage(notes, query, "All")[i].isArchived
  {
    TrimEmptyIffBlank(query);
  }

  /** The displayed list is a reordering of the filtered list with the pinned notes first. */
  lemma DisplayedIsPinnedFirstPermutation(notes: seq<Note>, query: string, category: string, sortBy: string)
    ensures multiset(Displayed(notes, query, category, sortBy)) == multiset(FilterStage(notes, query, category))
    ensures var r := Displayed(notes, query, category, sortBy);
            forall i, j :: 0 <= i < j < |r| && r[j].isPinned ==> r[i].isPinned
  {
    PinnedFirst(FilterStage(notes, query, category), CriterionOf(sortBy));
  }

  /** The hook's state. `store` is the provider it reads through `useNotes()`. */
  class SearchView {
    const store: Store
    var searchQuery: string
    var selectedCategory: string
    var sortCriteria: string
    var filteredNotes: seq<Note>

    /** The list on screen matches the current store and state cells. */
    ghost predicate UpToDate()
      reads this, store
    {
      filteredNotes == Displayed(store.notes, searchQuery, selectedCategory, sortCriteria)
    }

    /** `useNoteSearch(initialQuery, initialCategory, initialSortBy)` before its effect first runs. */
    constructor (store: Store, initialQuery: string := DefaultQuery, initialCategory: string := DefaultCategory,
                 initialSortBy: string := DefaultSortBy)
      ensures this.store == store
      ensures searchQuery == initialQuery && selectedCategory == initialCategory && sortCriteria == initialSortBy
      ensures filteredNotes == []
    {
      this.store := store;
      searchQuery := initialQuery;
      selectedCategory := initialCategory;
      sortCriteria := initialSortBy;
      filteredNotes := [];
    }

    /** The effect: filter, then sort, then publish. */
    method Refresh()
      modifies this`filteredNotes
      ensures UpToDate()
    {
      var notes := store.notes;
      var results: seq<Note>;
      if Trim(searchQuery) != [] {
        results := SearchNotes(notes, searchQuery);
      } else {
        results := NotesByCategory(notes, selectedCategory);
      }
      assert results == FilterStage(notes, searchQuery, selectedCategory);
      results := SortNotesByType(results, sortCriteria);
      filteredNotes := results;
    }

    method SetSearchQuery(query: string)
      modifies this`searchQuery, this`filteredNotes
      ensures searchQuery == query && UpToDate()
      ensures selectedCategory == old(selectedCategory) && sortCriteria == old(sortCriteria)
    {
      searchQuery := query;
      Refresh();
    }

    method SetSelectedCategory(category: string)
      modifies this`selectedCategory, this`filteredNotes
      ensures selectedCategory == category && UpToDate()
      ensures searchQuery == old(searchQuery) && sortCriteria == old(sortCriteria)
    {
      selectedCategory := category;
      Refresh();
    }

    method SetSortCriteria(criteria: string)
      modifies this`sortCriteria, this`filteredNotes
      ensures sortCriteria == criteria && UpToDate()
      ensures searchQuery == old(searchQuery) && selectedCategory == old(selectedCategory)
    {
      sortCriteria := criteria;
      Refresh();
    }

    /** `clearSearch()`: the query becomes empty, so the list falls back to the category view. */
    method ClearSearch()
      modifies this`searchQuery, this`filteredNotes
      ensures searchQuery == "" && UpToDate()
      ensures filteredNotes == SortedView(NotesByCategory(store.notes, selectedCategory), CriterionOf(sortCriteria))
    {
      SetSearchQuery("");
    }
  }
}
