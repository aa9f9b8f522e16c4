/** The note store of `src/context/NoteContext.js`: the canonical sequences of notes and category
    names, the mutations screens call, and the two read-only views `searchNotes` and
    `getNotesByCategory`. Each mutation's new value is a function of the old one (the `map`,
    `filter` or spread the source passes to `setNotes` / `setCategories`); `Store` holds the state
    and replaces it through those functions. The uuid generator and the clock are parameters:
    `freshId` and `now`. */
module NoteStore {
  import opened Collections
  import opened JsString

  datatype Note = Note(
    id: string,
    title: string,
    content: string,
    category: string,
    color: string,
    tags: seq<string>,
    isPinned: bool,
    isArchived: bool,
    audioUri: Option<string>,
    createdAt: int,
    updatedAt: int)

  /** An `updates` object for `updateNote`: `None` is a field the object does not carry. */
  datatype NoteUpdate = NoteUpdate(
    id: Option<string> := None,
    title: Option<string> := None,
    content: Option<string> := None,
    category: Option<string> := None,
    color: Option<string> := None,
    tags: Option<seq<string>> := None,
    isPinned: Option<bool> := None,
    isArchived: Option<bool> := None,
    audioUri: Option<Option<string>> := None,
    createdAt: Option<int> := None,
    updatedAt: Option<int> := None)

  const DefaultCategories: seq<string> := ["Personal", "Work", "Ideas", "To-Do"]

  /** Where `removeCategory` moves the notes of a deleted category. */
  const FallbackCategory: string := "Personal"

  /** The record `addNote` builds. */
  function NewNote(id: string, title: string, content: string, category: string, color: string,
                   audioUri: Option<string>, now: int): Note
  {
    Note(id, title, content, category, color, [], false, false, audioUri, now, now)
  }

  /** `{ ...note, ...updates, updatedAt: now }`: a field the update carries replaces the note's,
      and `updatedAt` is `now` whatever the update says. */
  function Merge(n: Note, u: NoteUpdate, now: int): (r: Note)
    ensures r.updatedAt == now
    ensures u.id.None? ==> r.id == n.id
    ensures u.createdAt.None? ==> r.createdAt == n.createdAt
  {
    Note(u.id.GetOr(n.id), u.title.GetOr(n.title), u.content.GetOr(n.content),
         u.category.GetOr(n.category), u.color.GetOr(n.color), u.tags.GetOr(n.tags),
         u.isPinned.GetOr(n.isPinned), u.isArchived.GetOr(n.isArchived),
         u.audioUri.GetOr(n.audioUri), u.createdAt.GetOr(n.createdAt), now)
  }

  /** An update that carries nothing only moves `updatedAt`; one that carries a field sets it. */
  lemma MergeFields(n: Note, u: NoteUpdate, now: int)
    ensures Merge(n, NoteUpdate(), now) == n.(updatedAt := now)
    ensures u.title.Some? ==> Merge(n, u, now).title == u.title.value
    ensures u.updatedAt.Some? ==> Merge(n, u, now).updatedAt == now
    ensures Merge(n, u.(updatedAt := None), now) == Merge(n, u, now)
  {
  }

  function Ids(notes: seq<Note>): (r: seq<string>)
    ensures |r| == |notes| && forall i :: 0 <= i < |notes| ==> r[i] == notes[i].id
  {
    Map((n: Note) => n.id, notes)
  }

  predicate UniqueIds(notes: seq<Note>) {
    NoDuplicates(Ids(notes))
  }

  /** What the store keeps true: no two notes share an id, no note repeats a tag, and no
      category name is listed twice. */
  predicate Invariant(notes: seq<Note>, categories: seq<string>) {
    && UniqueIds(notes)
    && (forall i :: 0 <= i < |notes| ==> NoDuplicates(notes[i].tags))
    && NoDuplicates(categories)
  }

  /** `notes.map(note => note.id === id ? {...} : note)` for the mutations that touch one note by
      id: every note whose id differs is kept as it is. */
  ghost predicate OthersKept(r: seq<Note>, notes: seq<Note>, id: string) {
    |r| == |notes| && forall i :: 0 <= i < |notes| && notes[i].id != id ==> r[i] == notes[i]
  }

  // ---------------------------------------------------------------- mutations on the sequences

  /** `updateNote(id, updates)`. */
  function UpdateNotes(notes: seq<Note>, id: string, u: NoteUpdate, now: int): (r: seq<Note>)
    ensures OthersKept(r, notes, id)
    ensures forall i :: 0 <= i < |notes| && notes[i].id == id ==> r[i] == Merge(notes[i], u, now)
    ensures u.id.None? ==> Ids(r) == Ids(notes)
  {
    var r := Map((n: Note) => if n.id == id then Merge(n, u, now) else n, notes);
    assert u.id.None? ==> Ids(r) == Ids(notes);
    r
  }

  /** `deleteNote(id)`. */
  function NotesWithout(notes: seq<Note>, id: string): (r: seq<Note>)
    ensures IsSubsequence(r, notes)
    ensures forall i :: 0 <= i < |r| ==> r[i].id != id
    ensures forall i :: 0 <= i < |notes| && notes[i].id != id ==> notes[i] in r
    ensures id !in Ids(notes) ==> r == notes
    ensures forall n :: multiset(r)[n] == if n.id != id then multiset(notes)[n] else 0
  {
    var p := (n: Note) => n.id != id;
    FilterIsSubsequence(p, notes);
    FilterCounts(p, notes);
    KeepAllWithoutMatch(notes, id);
    Filter(p, notes)
  }

  /** Filtering out an id no note has keeps every note. */
  lemma KeepAllWithoutMatch(notes: seq<Note>, id: string)
    ensures id !in Ids(notes) ==> Filter((n: Note) => n.id != id, notes) == notes
  {
    if id !in Ids(notes) {
      assert forall i :: 0 <= i < |notes| ==> notes[i].id == Ids(notes)[i];
      FilterAll((n: Note) => n.id != id, notes);
    }
  }

  /** `togglePinNote(id)`. */
  function TogglePin(notes: seq<Note>, id: string, now: int): (r: seq<Note>)
    ensures OthersKept(r, notes, id)
    ensures forall i :: 0 <= i < |notes| && notes[i].id == id ==>
              r[i] == notes[i].(isPinned := !notes[i].isPinned, updatedAt := now)
  {
    Map((n: Note) => if n.id == id then n.(isPinned := !n.isPinned, updatedAt := now) else n, notes)
  }

  /** `toggleArchiveNote(id)`. */
  function ToggleArchive(notes: seq<Note>, id: string, now: int): (r: seq<Note>)
    ensures OthersKept(r, notes, id)
    ensures forall i :: 0 <= i < |notes| && notes[i].id == id ==>
              r[i] == notes[i].(isArchived := !notes[i].isArchived, updatedAt := now)
  {
    Map((n: Note) => if n.id == id then n.(isArchived := !n.isArchived, updatedAt := now) else n, notes)
  }

  /** `addTagToNote(noteId, tag)`: a tag the note already has (exact match) leaves it as it is,
      `updatedAt` included. */
  function AddTag(notes: seq<Note>, id: string, tag: string, now: int): (r: seq<Note>)
    ensures OthersKept(r, notes, id)
    ensures forall i :: 0 <= i < |notes| && notes[i].id == id && tag in notes[i].tags ==> r[i] == notes[i]
    ensures forall i :: 0 <= i < |notes| && notes[i].id == id && tag !in notes[i].tags ==>
              r[i] == notes[i].(tags := notes[i].tags + [tag], updatedAt := now)
  {
    Map((n: Note) => if n.id == id && tag !in n.tags then n.(tags := n.tags + [tag], updatedAt := now) else n,
        notes)
  }

  /** `tags.filter(t => t !== tag)`. */
  function WithoutTag(tags: seq<string>, tag: string): (r: seq<string>)
    ensures tag !in r
    ensures IsSubsequence(r, tags)
    ensures forall i :: 0 <= i < |tags| && tags[i] != tag ==> tags[i] in r
    ensures tag !in tags ==> r == tags
    ensures forall t :: multiset(r)[t] == if t != tag then multiset(tags)[t] else 0
  {
    var p := (t: string) => t != tag;
    FilterIsSubsequence(p, tags);
    FilterCounts(p, tags);
    if tag !in tags then FilterAll(p, tags); Filter(p, tags) else Filter(p, tags)
  }

  /** `removeTagFromNote(noteId, tag)`: the matching note loses every copy of the tag and gets a
      new `updatedAt` even when it had no such tag. */
  function RemoveTag(notes: seq<Note>, id: string, tag: string, now: int): (r: seq<Note>)
    ensures OthersKept(r, notes, id)
    ensures forall i :: 0 <= i < |notes| && notes[i].id == id ==>
              r[i] == notes[i].(tags := WithoutTag(notes[i].tags, tag), updatedAt := now)
  {
    Map((n: Note) => if n.id == id then n.(tags := WithoutTag(n.tags, tag), updatedAt := now) else n, notes)
  }

  /** `addCategory(category)`: appended only when absent. */
  function CategoriesWith(categories: seq<string>, category: string): (r: seq<string>)
    ensures category in r
    ensures category in categories ==> r == categories
    ensures category !in categories ==> r == categories + [category]
    ensures NoDuplicates(categories) ==> NoDuplicates(r)
  {
    if category in categories then categories else categories + [category]
  }

  /** The category list after `removeCategory(category)`. */
  function CategoriesWithout(categories: seq<string>, category: string): (r: seq<string>)
    ensures category !in r
    ensures IsSubsequence(r, categories)
    ensures forall i :: 0 <= i < |categories| && categories[i] != category ==> categories[i] in r
    ensures forall t :: multiset(r)[t] == if t != category then multiset(categories)[t] else 0
  {
    WithoutTag(categories, category)
  }

  /** The notes after `removeCategory(category)`: those in it move to "Personal" and get a new
      `updatedAt`; no other note changes. */
  function Reassign(notes: seq<Note>, category: string, now: int): (r: seq<Note>)
    ensures |r| == |notes|
    ensures forall i :: 0 <= i < |notes| && notes[i].category != category ==> r[i] == notes[i]
    ensures forall i :: 0 <= i < |notes| && notes[i].category == category ==>
              r[i] == notes[i].(category := FallbackCategory, updatedAt := now)
    ensures Ids(r) == Ids(notes)
  {
    var r := Map((n: Note) => if n.category == category then n.(category := FallbackCategory, updatedAt := now) else n,
                 notes);
    assert Ids(r) == Ids(notes);
    r
  }

  // ---------------------------------------------------------------- views

  /** The search term of `searchNotes`. */
  function SearchTerm(query: string): string {
    Trim(ToLower(query))
  }

  /** A note matches when the term occurs, ignoring case, in its title, its content or a tag. */
  predicate NoteMatches(n: Note, term: string) {
    || Includes(ToLower(n.title), term)
    || Includes(ToLower(n.content), term)
    || exists i :: 0 <= i < |n.tags| && Includes(ToLower(n.tags[i]), term)
  }

  /** `searchNotes(query)`: a blank query returns every note, archived ones included; otherwise the
      matching notes in store order. */
  function SearchNotes(notes: seq<Note>, query: string): (r: seq<Note>)
    ensures IsSubsequence(r, notes)
    ensures AllWhiteSpace(query) ==> r == notes
    ensures !AllWhiteSpace(query) ==> forall i :: 0 <= i < |r| ==> NoteMatches(r[i], SearchTerm(query))
    ensures !AllWhiteSpace(query) ==>
              forall i :: 0 <= i < |notes| && NoteMatches(notes[i], SearchTerm(query)) ==> notes[i] in r
    ensures !AllWhiteSpace(query) ==>
              forall n :: multiset(r)[n] == if NoteMatches(n, SearchTerm(query)) then multiset(notes)[n] else 0
  {
    TrimEmptyIffBlank(query);
    if Trim(query) == [] then
      assert IsSubsequence(notes, notes) by { FilterAll(_ => true, notes); FilterIsSubsequence(_ => true, notes); }
      notes
    else
      var term := SearchTerm(query);
      var p := (n: Note) => NoteMatches(n, term);
      FilterIsSubsequence(p, notes);
      FilterCounts(p, notes);
      Filter(p, notes)
  }

  /** Which notes `getNotesByCategory(category)` shows: "All" is every note not archived,
      "Archived" every archived note, and any other name the unarchived notes of that category. */
  predicate InCategoryView(n: Note, category: string) {
    if category == "All" then !n.isArchived
    else if category == "Archived" then n.isArchived
    else n.category == category && !n.isArchived
  }

  /** `getNotesByCategory(category)`: exactly the notes of the view, in store order. */
  function NotesByCategory(notes: seq<Note>, category: string): (r: seq<Note>)
    ensures IsSubsequence(r, notes)
    ensures forall i :: 0 <= i < |r| ==> InCategoryView(r[i], category)
    ensures forall i :: 0 <= i < |notes| && InCategoryView(notes[i], category) ==> notes[i] in r
    ensures forall n :: multiset(r)[n] == if InCategoryView(n, category) then multiset(notes)[n] else 0
  {
    var p := (n: Note) => InCategoryView(n, category);
    FilterIsSubsequence(p, notes);
    FilterCounts(p, notes);
    Filter(p, notes)
  }

  // ---------------------------------------------------------------- the store object

  /** The provider's state cells `notes`, `categories` and `isLoading`. */
  class Store {
    var notes: seq<Note>
    var categories: seq<string>
    var isLoading: bool

    ghost predicate Valid()
      reads this
    {
      Invariant(notes, categories)
    }

    /** First render: no notes, the four default categories, still loading. */
    constructor ()
      ensures notes == [] && categories == DefaultCategories && isLoading
      ensures Valid()
    {
      notes := [];
      categories := DefaultCategories;
      isLoading := true;
    }

    /** The end of the initial load: whichever collection storage returned replaces the
        in-memory one, and the store stops loading. */
    method FinishLoading(storedNotes: Option<seq<Note>>, storedCategories: Option<seq<string>>)
      modifies this
      ensures notes == storedNotes.GetOr(old(notes))
      ensures categories == storedCategories.GetOr(old(categories))
      ensures !isLoading
    {
      if storedNotes.Some? {
        notes := storedNotes.value;
      }
      if storedCategories.Some? {
        categories := storedCategories.value;
      }
      isLoading := false;
    }

    /** The save effects write to storage only once loading is over. */
    predicate SavesToStorage()
      reads this
    {
      !isLoading
    }

    /** `addNote(title, content, category, color, audioUri)`: a new note at the front. */
    method AddNote(freshId: string, now: int, title: string, content: string,
                   category: string := "Personal", color: string := "#ffffff",
                   audioUri: Option<string> := None) returns (id: string)
      modifies this`notes
      ensures id == freshId
      ensures |notes| == |old(notes)| + 1 && notes[1..] == old(notes)
      ensures notes[0] == Note(freshId, title, content, category, color, [], false, false, audioUri, now, now)
      ensures old(Valid()) && freshId !in Ids(old(notes)) ==> Valid()
    {
      var n := NewNote(freshId, title, content, category, color, audioUri, now);
      if Invariant(notes, categories) && freshId !in Ids(notes) {
        AddNoteKeepsInvariant(notes, categories, n);
      }
      notes := [n] + notes;
      id := n.id;
    }

    method UpdateNote(id: string, u: NoteUpdate, now: int)
      modifies this`notes
      ensures notes == UpdateNotes(old(notes), id, u, now)
      ensures old(Valid()) && u.id.None? && (u.tags.Some? ==> NoDuplicates(u.tags.value)) ==> Valid()
    {
      if Invariant(notes, categories) && u.id.None? && (u.tags.Some? ==> NoDuplicates(u.tags.value)) {
        UpdateKeepsInvariant(notes, categories, id, u, now);
      }
      notes := UpdateNotes(notes, id, u, now);
    }

    method DeleteNote(id: string)
      modifies this`notes
      ensures notes == NotesWithout(old(notes), id)
      ensures old(Valid()) ==> Valid()
    {
      if Invariant(notes, categories) {
        DeleteKeepsInvariant(notes, categories, id);
      }
      notes := NotesWithout(notes, id);
    }

    method TogglePinNote(id: string, now: int)
      modifies this`notes
      ensures notes == TogglePin(old(notes), id, now)
      ensures old(Valid()) ==> Valid()
    {
      if Invariant(notes, categories) {
        FlagTogglesKeepInvariant(notes, categories, id, now);
      }
      notes := TogglePin(notes, id, now);
    }

    method ToggleArchiveNote(id: string, now: int)
      modifies this`notes
      ensures notes == ToggleArchive(old(notes), id, now)
      ensures old(Valid()) ==> Valid()
    {
      if Invariant(notes, categories) {
        FlagTogglesKeepInvariant(notes, categories, id, now);
      }
      notes := ToggleArchive(notes, id, now);
    }

    method AddTagToNote(id: string, tag: string, now: int)
      modifies this`notes
      ensures notes == AddTag(old(notes), id, tag, now)
      ensures old(Valid()) ==> Valid()
    {
      if Invariant(notes, categories) {
        TagChangesKeepInvariant(notes, categories, id, tag, now);
      }
      notes := AddTag(notes, id, tag, now);
    }

    method RemoveTagFromNote(id: string, tag: string, now: int)
      modifies this`notes
      ensures notes == RemoveTag(old(notes), id, tag, now)
      ensures old(Valid()) ==> Valid()
    {
      if Invariant(notes, categories) {
        TagChangesKeepInvariant(notes, categories, id, tag, now);
      }
      notes := RemoveTag(notes, id, tag, now);
    }

    method AddCategory(category: string)
      modifies this`categories
      ensures categories == CategoriesWith(old(categories), category)
      ensures old(Valid()) ==> Valid()
    {
      categories := CategoriesWith(categories, category);
    }

    /** `removeCategory(category)`: both state cells are replaced, from the values they had before
        the call. */
    method RemoveCategory(category: string, now: int)
      modifies this`notes, this`categories
      ensures categories == CategoriesWithout(old(categories), category)
      ensures notes == Reassign(old(notes), category, now)
      ensures old(Valid()) ==> Valid()
    {
      if Invariant(notes, categories) {
        RemoveCategoryKeepsInvariant(notes, categories, category, now);
      }
      categories := CategoriesWithout(categories, category);
      notes := Reassign(notes, category, now);
    }
  }

  // ---------------------------------------------------------------- lemmas

  lemma AddNoteKeepsInvariant(notes: seq<Note>, categories: seq<string>, n: Note)
    requires Invariant(notes, categories) && n.id !in Ids(notes) && n.tags == []
    ensures Invariant([n] + notes, categories)
  {
    var r := [n] + notes;
    forall i, j | 0 <= i < j < |r| ensures Ids(r)[i] != Ids(r)[j] {
      if i == 0 {
        assert Ids(r)[j] == Ids(notes)[j - 1];
      } else {
        assert Ids(r)[i] == Ids(notes)[i - 1] && Ids(r)[j] == Ids(notes)[j - 1];
      }
    }
    assert forall i :: 1 <= i < |r| ==> r[i] == notes[i - 1];
  }

  lemma UpdateKeepsInvariant(notes: seq<Note>, categories: seq<string>, id: string, u: NoteUpdate, now: int)
    requires Invariant(notes, categories) && u.id.None?
    requires u.tags.Some? ==> NoDuplicates(u.tags.value)
    ensures Invariant(UpdateNotes(notes, id, u, now), categories)
  {
  }

  lemma {:induction false} DeleteKeepsInvariant(notes: seq<Note>, categories: seq<string>, id: string)
    requires Invariant(notes, categories)
    ensures Invariant(NotesWithout(notes, id), categories)
  {
    var r := NotesWithout(notes, id);
    SubsequenceIds(r, notes);
    SubsequenceNoDuplicates(Ids(r), Ids(notes));
    SubsequenceElements(r, notes);
    forall i | 0 <= i < |r| ensures NoDuplicates(r[i].tags) {
      var k :| 0 <= k < |notes| && notes[k] == r[i];
    }
  }

  /** Keeping some notes in order keeps their ids in order. */
  lemma {:induction false} SubsequenceIds(r: seq<Note>, notes: seq<Note>)
    requires IsSubsequence(r, notes)
    ensures IsSubsequence(Ids(r), Ids(notes))
    decreases |notes|
  {
    if r != [] && notes != [] {
      assert Ids(notes)[1..] == Ids(notes[1..]);
      if r[0] == notes[0] {
        assert Ids(r)[1..] == Ids(r[1..]);
        SubsequenceIds(r[1..], notes[1..]);
      } else {
        SubsequenceIds(r, notes[1..]);
        if Ids(r)[0] == Ids(notes)[0] {
          // the greedy match may take this id here; it still finds the rest later
          SubsequenceDropHead(Ids(r), Ids(notes)[1..]);
        }
      }
    }
  }

  /** Matching the first element early never hurts a subsequence. */
  lemma {:induction false} SubsequenceDropHead<T>(r: seq<T>, s: seq<T>)
    requires r != [] && IsSubsequence(r, s)
    ensures IsSubsequence(r[1..], s)
    decreases |s|, 0
  {
    if s != [] {
      if r[0] == s[0] {
        SubsequenceWeaken(r[1..], s[1..], s[0]);
      } else {
        SubsequenceDropHead(r, s[1..]);
        SubsequenceWeaken(r[1..], s[1..], s[0]);
      }
    }
  }

  /** A subsequence of `s` is a subsequence of `[x] + s`. */
  lemma {:induction false} SubsequenceWeaken<T>(r: seq<T>, s: seq<T>, x: T)
    requires IsSubsequence(r, s)
    ensures IsSubsequence(r, [x] + s)
    decreases |s|, 1
  {
    if r != [] {
      assert ([x] + s)[1..] == s;
      if r[0] == x {
        SubsequenceDropHead(r, s);
      }
    }
  }

  lemma FlagTogglesKeepInvariant(notes: seq<Note>, categories: seq<string>, id: string, now: int)
    requires Invariant(notes, categories)
    ensures Invariant(TogglePin(notes, id, now), categories)
    ensures Invariant(ToggleArchive(notes, id, now), categories)
  {
    assert Ids(TogglePin(notes, id, now)) == Ids(notes);
    assert Ids(ToggleArchive(notes, id, now)) == Ids(notes);
  }

  lemma TagChangesKeepInvariant(notes: seq<Note>, categories: seq<string>, id: string, tag: string, now: int)
    requires Invariant(notes, categories)
    ensures Invariant(AddTag(notes, id, tag, now), categories)
    ensures Invariant(RemoveTag(notes, id, tag, now), categories)
  {
    var a, r := AddTag(notes, id, tag, now), RemoveTag(notes, id, tag, now);
    assert Ids(a) == Ids(notes);
    assert Ids(r) == Ids(notes);
    forall i | 0 <= i < |notes| ensures NoDuplicates(r[i].tags) {
      if notes[i].id == id {
        SubsequenceNoDuplicates(WithoutTag(notes[i].tags, tag), notes[i].tags);
      }
    }
  }

  lemma RemoveCategoryKeepsInvariant(notes: seq<Note>, categories: seq<string>, category: string, now: int)
    requires Invariant(notes, categories)
    ensures Invariant(Reassign(notes, category, now), CategoriesWithout(categories, category))
  {
    SubsequenceNoDuplicates(CategoriesWithout(categories, category), categories);
  }

  /** `removeCategory(c)` leaves no note in `c` (unless `c` is "Personal" itself), drops `c`
      from the list, and bumps exactly the notes it moved. */
  lemma CategoryCascade(notes: seq<Note>, categories: seq<string>, category: string, now: int)
    requires category != FallbackCategory
    ensures forall i :: 0 <= i < |notes| ==> Reassign(notes, category, now)[i].category != category
    ensures category !in CategoriesWithout(categories, category)
    ensures forall i :: 0 <= i < |notes| ==>
              (Reassign(notes, category, now)[i].updatedAt != notes[i].updatedAt ==> notes[i].category == category)
  {
  }

  /** Toggling twice restores the flag: only `updatedAt` differs from the start. */
  lemma ToggleTwice(notes: seq<Note>, id: string, t1: int, t2: int)
    ensures forall i :: 0 <= i < |notes| ==>
              TogglePin(TogglePin(notes, id, t1), id, t2)[i] ==
                (if notes[i].id == id then notes[i].(updatedAt := t2) else notes[i])
    ensures forall i :: 0 <= i < |notes| ==>
              ToggleArchive(ToggleArchive(notes, id, t1), id, t2)[i] ==
                (if notes[i].id == id then notes[i].(updatedAt := t2) else notes[i])
  {
    var p, a := TogglePin(notes, id, t1), ToggleArchive(notes, id, t1);
    assert forall i :: 0 <= i < |notes| ==> p[i].id == notes[i].id && a[i].id == notes[i].id;
  }

  /** Adding the same tag twice is adding it once. */
  lemma AddTagTwice(notes: seq<Note>, id: string, tag: string, t1: int, t2: int)
    ensures AddTag(AddTag(notes, id, tag, t1), id, tag, t2) == AddTag(notes, id, tag, t1)
  {
    var once := AddTag(notes, id, tag, t1);
    var twice := AddTag(once, id, tag, t2);
    forall i | 0 <= i < |notes| ensures twice[i] == once[i] {
      if notes[i].id == id && tag !in notes[i].tags {
        assert tag in once[i].tags by { assert once[i].tags[|notes[i].tags|] == tag; }
      }
    }
  }

  /** An update never leaves the old `updatedAt` behind, and with a clock that does not run
      backwards no mutation makes a note older. */
  lemma UpdatedAtNeverDecreases(notes: seq<Note>, id: string, u: NoteUpdate, tag: string, now: int)
    requires forall i :: 0 <= i < |notes| ==> notes[i].updatedAt <= now
    ensures forall i :: 0 <= i < |notes| ==>
              && UpdateNotes(notes, id, u, now)[i].updatedAt >= notes[i].updatedAt
              && TogglePin(notes, id, now)[i].updatedAt >= notes[i].updatedAt
              && ToggleArchive(notes, id, now)[i].updatedAt >= notes[i].updatedAt
              && AddTag(notes, id, tag, now)[i].updatedAt >= notes[i].updatedAt
              && RemoveTag(notes, id, tag, now)[i].updatedAt >= notes[i].updatedAt
              && Reassign(notes, tag, now)[i].updatedAt >= notes[i].updatedAt
  {
  }

  /** A blank query lists everything, archived notes included; a term nobody contains lists
      nothing. */
  lemma SearchExtremes(notes: seq<Note>, query: string)
    ensures Trim(query) == [] ==> SearchNotes(notes, query) == notes
    ensures (forall i :: 0 <= i < |notes| ==> !NoteMatches(notes[i], SearchTerm(query))) && Trim(query) != [] ==>
              SearchNotes(notes, query) == []
  {
    TrimEmptyIffBlank(query);
    if Trim(query) != [] {
      var r := SearchNotes(notes, query);
      if r != [] && forall i :: 0 <= i < |notes| ==> !NoteMatches(notes[i], SearchTerm(query)) {
        SubsequenceElements(r, notes);
      }
    }
  }

  /** Searching ignores the case of the query. */
  lemma SearchIgnoresQueryCase(notes: seq<Note>, query: string)
    ensures SearchNotes(notes, ToLower(query)) == SearchNotes(notes, query)
  {
    ToLowerIdempotent(query);
    ToLowerKeepsWhiteSpace(query);
    TrimEmptyIffBlank(query);
    TrimEmptyIffBlank(ToLower(query));
  }

  /** "All" and "Archived" split the store: every note is in exactly one of them, and every
      ordinary category view lies inside "All". */
  lemma CategoryViewsPartition(notes: seq<Note>, category: string)
    requires category != "All" && category != "Archived"
    ensures forall i :: 0 <= i < |notes| ==>
              (notes[i] in NotesByCategory(notes, "All")) != (notes[i] in NotesByCategory(notes, "Archived"))
    ensures forall i :: 0 <= i < |NotesByCategory(notes, category)| ==>
              NotesByCategory(notes, category)[i] in NotesByCategory(notes, "All")
  {
    var all, arch := NotesByCategory(notes, "All"), NotesByCategory(notes, "Archived");
    SubsequenceElements(all, notes);
    SubsequenceElements(arch, notes);
    forall i | 0 <= i < |notes| ensures (notes[i] in all) != (notes[i] in arch) {
      if notes[i] in all {
        var k :| 0 <= k < |all| && all[k] == notes[i];
      }
      if notes[i] in arch {
        var k :| 0 <= k < |arch| && arch[k] == notes[i];
      }
    }
    var view := NotesByCategory(notes, category);
    SubsequenceElements(view, notes);
    forall i | 0 <= i < |view| ensures view[i] in all {
      var k :| 0 <= k < |notes| && notes[k] == view[i];
    }
  }

  /** A user category named "Archived" is hidden behind the reserved view: its unarchived
      notes never appear under that name. */
  lemma ReservedNameShadowsCategory(notes: seq<Note>)
    ensures forall i :: 0 <= i < |NotesByCategory(notes, "Archived")| ==>
              NotesByCategory(notes, "Archived")[i].isArchived
  {
  }

  /** The example run of archiving a fresh note: it leaves "Personal" and appears in "Archived". */
  lemma ArchiveScenario(notes: seq<Note>, freshId: string, t0: int, t1: int)
    requires freshId !in Ids(notes)
    ensures var n := NewNote(freshId, "Groceries", "milk, eggs", "Personal", "#ffffff", None, t0);
            var before := [n] + notes;
            var after := ToggleArchive(before, freshId, t1);
            && n in NotesByCategory(before, "Personal")
            && after[0] !in NotesByCategory(after, "Personal")
            && after[0] in NotesByCategory(after, "Archived")
  {
    var n := NewNote(freshId, "Groceries", "milk, eggs", "Personal", "#ffffff", None, t0);
    var before := [n] + notes;
    var after := ToggleArchive(before, freshId, t1);
    assert before[0] == n;
    var personal := NotesByCategory(after, "Personal");
    SubsequenceElements(personal, after);
  }
}
