/** The editing screen of `src/screens/NoteEditorScreen.js`: its local copy of the note being
    edited (the `title`, `content`, `color`, `category`, `tags` and `isPinned` state cells), the
    effect that loads that copy from the store, and the save and pin handlers that write back. */
module NoteEditorScreen {
  import opened Collections
  import opened JsString
  import opened NoteStore

  const DefaultColor: string := "#ffffff"
  const DefaultCategory: string := "Personal"

  /** `if (noteId)`: the route parameter is present and not the empty string. */
  predicate Editing(noteId: Option<string>) {
    noteId.Some? && noteId.value != ""
  }

  /** `s || fallback` on a string: the empty string is falsy. */
  function OrElse(s: string, fallback: string): (r: string)
    ensures r == s || r == fallback
    ensures r == [] ==> fallback == []
    ensures s != [] ==> r == s
  {
    if s == "" then fallback else s
  }

  /** `notes.find(n => n.id === id)`: the first note with that id, if any. */
  function FindNote(notes: seq<Note>, id: string): (r: Option<Note>)
    ensures r.Some? <==> id in Ids(notes)
    ensures r.Some? ==> r.value in notes && r.value.id == id
  {
    if notes == [] then None
    else if notes[0].id == id then Some(notes[0])
    else
      assert Ids(notes) == [notes[0].id] + Ids(notes[1..]);
      FindNote(notes[1..], id)
  }

  /** The note found is the one at the first index carrying the id. */
  lemma {:induction false} FindNoteIsFirst(notes: seq<Note>, id: string, k: nat)
    requires k < |notes| && notes[k].id == id
    requires forall j :: 0 <= j < k ==> notes[j].id != id
    ensures FindNote(notes, id) == Some(notes[k])
  {
    if k > 0 {
      FindNoteIsFirst(notes[1..], id, k - 1);
    }
  }

  /** With unique ids, the note `find` returns is every note carrying that id. */
  lemma FoundIsOnly(notes: seq<Note>, id: string)
    requires UniqueIds(notes) && FindNote(notes, id).Some?
    ensures forall i :: 0 <= i < |notes| && notes[i].id == id ==> notes[i] == FindNote(notes, id).value
  {
    var n := FindNote(notes, id).value;
    var k :| 0 <= k < |notes| && notes[k] == n;
    forall i | 0 <= i < |notes| && notes[i].id == id ensures notes[i] == n {
      SameIdSameIndex(notes, i, k);
    }
  }

  lemma SameIdSameIndex(notes: seq<Note>, i: nat, k: nat)
    requires UniqueIds(notes) && i < |notes| && k < |notes| && notes[i].id == notes[k].id
    ensures i == k
  {
    var ids := Ids(notes);
    assert ids[i] == ids[k];
  }

  /** A note loaded from a store with unique ids is in step with the store's pin flag. */
  lemma LoadedPinInSync(notes: seq<Note>, id: string)
    requires UniqueIds(notes) && FindNote(notes, id).Some?
    ensures PinInSync(notes, id, FindNote(notes, id).value.isPinned)
  {
    FoundIsOnly(notes, id);
  }

  // ---------------------------------------------------------------- saving

  /** What `handleSave` does. */
  datatype SaveKind = Discard | Update | Create

  function SaveDecision(noteId: Option<string>, title: string, content: string): (r: SaveKind)
    ensures r.Discard? <==> AllWhiteSpace(title) && AllWhiteSpace(content)
    ensures r.Update? <==> !(AllWhiteSpace(title) && AllWhiteSpace(content)) && Editing(noteId)
    ensures r.Create? <==> !(AllWhiteSpace(title) && AllWhiteSpace(content)) && !Editing(noteId)
  {
    TrimEmptyIffBlank(title);
    TrimEmptyIffBlank(content);
    if Trim(title) == [] && Trim(content) == [] then Discard
    else if Editing(noteId) then Update
    else Create
  }

  /** The object literal `handleSave` passes to `updateNote`. */
  function EditedFields(title: string, content: string, color: string, category: string,
                        tags: seq<string>, isPinned: bool): NoteUpdate
  {
    NoteUpdate(title := Some(title), content := Some(content), color := Some(color),
               category := Some(category), tags := Some(tags), isPinned := Some(isPinned))
  }

  /** Saving an edit sets exactly the six edited fields (and `updatedAt`); the id, the archive
      flag, the audio and the creation time stay as they were. */
  lemma EditedFieldsMerge(n: Note, title: string, content: string, color: string, category: string,
                          tags: seq<string>, isPinned: bool, now: int)
    ensures Merge(n, EditedFields(title, content, color, category, tags, isPinned), now) ==
            n.(title := title, content := content, color := color, category := category, tags := tags,
               isPinned := isPinned, updatedAt := now)
  {
  }

  /** The store's notes after `handleSave`. */
  function SavedNotes(notes: seq<Note>, noteId: Option<string>, title: string, content: string,
                      color: string, category: string, tags: seq<string>, isPinned: bool,
                      freshId: string, now: int): (r: seq<Note>)
    ensures SaveDecision(noteId, title, content).Discard? ==> r == notes
    ensures SaveDecision(noteId, title, content).Update? ==>
              Ids(r) == Ids(notes) && OthersKept(r, notes, noteId.value) &&
              forall i :: 0 <= i < |notes| && notes[i].id == noteId.value ==>
                r[i] == notes[i].(title := title, content := content, color := color, category := category,
                                  tags := tags, isPinned := isPinned, updatedAt := now)
    ensures SaveDecision(noteId, title, content).Create? ==>
              |r| == |notes| + 1 && r[1..] == notes &&
              r[0] == NewNote(freshId, title, content, category, color, None, now)
  {
    match SaveDecision(noteId, title, content)
    case Discard => notes
    case Update =>
      var u := EditedFields(title, content, color, category, tags, isPinned);
      var r := UpdateNotes(notes, noteId.value, u, now);
      assert forall i :: 0 <= i < |notes| && notes[i].id == noteId.value ==>
               r[i] == notes[i].(title := title, content := content, color := color, category := category,
                                 tags := tags, isPinned := isPinned, updatedAt := now);
      r
    case Create => [NewNote(freshId, title, content, category, color, None, now)] + notes
  }

  /** A store that gained the new note at the front holds what a creating save describes. */
  lemma CreateSaved(notes: seq<Note>, r: seq<Note>, noteId: Option<string>, title: string, content: string,
                    color: string, category: string, tags: seq<string>, isPinned: bool, freshId: string, now: int)
    requires SaveDecision(noteId, title, content).Create?
    requires |r| == |notes| + 1 && r[1..] == notes
    requires r[0] == NewNote(freshId, title, content, category, color, None, now)
    ensures r == SavedNotes(notes, noteId, title, content, color, category, tags, isPinned, freshId, now)
  {
    assert r == [r[0]] + r[1..];
  }

  /** A new note never takes the screen's tags or pin: whatever was set locally, it is created
      unpinned, untagged and unarchived. */
  lemma CreateDropsLocalTagsAndPin(notes: seq<Note>, noteId: Option<string>, title: string, content: string,
                                   color: string, category: string, tags1: seq<string>, tags2: seq<string>,
                                   pinned1: bool, pinned2: bool, freshId: string, now: int)
    requires SaveDecision(noteId, title, content).Create?
    ensures SavedNotes(notes, noteId, title, content, color, category, tags1, pinned1, freshId, now) ==
            SavedNotes(notes, noteId, title, content, color, category, tags2, pinned2, freshId, now)
    ensures var r := SavedNotes(notes, noteId, title, content, color, category, tags1, pinned1, freshId, now);
            !r[0].isPinned && r[0].tags == [] && !r[0].isArchived
  {
  }

  /** A save keeps the store's invariant when the edited tags are distinct and a created note
      gets an unused id. */
  lemma SaveKeepsInvariant(notes: seq<Note>, categories: seq<string>, noteId: Option<string>,
                           title: string, content: string, color: string, category: string,
                           tags: seq<string>, isPinned: bool, freshId: string, now: int)
    requires Invariant(notes, categories) && NoDuplicates(tags) && freshId !in Ids(notes)
    ensures Invariant(SavedNotes(notes, noteId, title, content, color, category, tags, isPinned, freshId, now),
                      categories)
  {
    var kind := SaveDecision(noteId, title, content);
    if kind.Update? {
      UpdateKeepsInvariant(notes, categories, noteId.value, EditedFields(title, content, color, category, tags, isPinned), now);
    } else if kind.Create? {
      AddNoteKeepsInvariant(notes, categories, NewNote(freshId, title, content, category, color, None, now));
    }
  }

  // ---------------------------------------------------------------- pinning

  /** The screen's pin flag agrees with every stored note carrying the edited id. */
  predicate PinInSync(notes: seq<Note>, id: string, isPinned: bool) {
    forall i :: 0 <= i < |notes| && notes[i].id == id ==> notes[i].isPinned == isPinned
  }

  /** `handleTogglePin` flips both sides, so a screen in step with the store stays in step. */
  lemma TogglePinKeepsSync(notes: seq<Note>, id: string, isPinned: bool, now: int)
    requires PinInSync(notes, id, isPinned)
    ensures PinInSync(TogglePin(notes, id, now), id, !isPinned)
  {
  }

  // ---------------------------------------------------------------- the screen

  class EditorScreen {
    const store: Store
    const noteId: Option<string>
    var title: string
    var content: string
    var color: string
    var category: string
    var tags: seq<string>
    var isPinned: bool

    /** The state cells' initial values, before the load effect runs. */
    constructor (store: Store, noteId: Option<string>)
      ensures this.store == store && this.noteId == noteId
      ensures title == "" && content == "" && color == DefaultColor && category == DefaultCategory
      ensures tags == [] && !isPinned
    {
      this.store := store;
      this.noteId := noteId;
      title := "";
      content := "";
      color := DefaultColor;
      category := DefaultCategory;
      tags := [];
      isPinned := false;
    }

    /** The load effect: when editing and the store holds the note, copy it into the state cells,
        with `#ffffff` and `Personal` for an empty color or category. */
    method LoadNote()
      modifies this
      ensures var found := if Editing(noteId) then FindNote(store.notes, noteId.value) else None;
              if found.Some? then
                title == found.value.title && content == found.value.content &&
                color == OrElse(found.value.color, DefaultColor) &&
                category == OrElse(found.value.category, DefaultCategory) &&
                tags == found.value.tags && isPinned == found.value.isPinned
              else
                title == old(title) && content == old(content) && color == old(color) &&
                category == old(category) && tags == old(tags) && isPinned == old(isPinned)
      ensures Editing(noteId) && FindNote(store.notes, noteId.value).Some? && store.Valid() ==>
                PinInSync(store.notes, noteId.value, isPinned)
    {
      if Editing(noteId) {
        var note := FindNote(store.notes, noteId.value);
        if note.Some? {
          title := note.value.title;
          content := note.value.content;
          color := OrElse(note.value.color, DefaultColor);
          category := OrElse(note.value.category, DefaultCategory);
          tags := note.value.tags;
          isPinned := note.value.isPinned;
          if store.Valid() {
            LoadedPinInSync(store.notes, noteId.value);
          }
        }
      }
    }

    /** `handleSave()`. */
    method HandleSave(freshId: string, now: int) returns (kind: SaveKind)
      modifies store`notes
      ensures kind == SaveDecision(noteId, title, content)
      ensures store.notes == SavedNotes(old(store.notes), noteId, title, content, color, category, tags,
                                        isPinned, freshId, now)
      ensures old(store.Valid()) && NoDuplicates(tags) && freshId !in Ids(old(store.notes)) ==> store.Valid()
    {
      ghost var before := store.notes;
      kind := SaveDecision(noteId, title, content);
      TrimEmptyIffBlank(title);
      TrimEmptyIffBlank(content);
      if Trim(title) == [] && Trim(content) == [] {
        // nothing to save
      } else if Editing(noteId) {
        store.UpdateNote(noteId.value, EditedFields(title, content, color, category, tags, isPinned), now);
      } else {
        var id := store.AddNote(freshId, now, title, content, category, color);
        CreateSaved(before, store.notes, noteId, title, content, color, category, tags, isPinned, freshId, now);
      }
      if Invariant(before, store.categories) && NoDuplicates(tags) && freshId !in Ids(before) {
        SaveKeepsInvariant(before, store.categories, noteId, title, content, color, category, tags,
                           isPinned, freshId, now);
      }
    }

    /** `handleTogglePin()`: the local flag always flips; the stored note only when editing. */
    method HandleTogglePin(now: int)
      modifies this`isPinned, store`notes
      ensures isPinned == !old(isPinned)
      ensures Editing(noteId) ==> store.notes == TogglePin(old(store.notes), noteId.value, now)
      ensures !Editing(noteId) ==> store.notes == old(store.notes)
      ensures old(store.Valid()) ==> store.Valid()
      ensures Editing(noteId) && old(PinInSync(store.notes, noteId.value, isPinned)) ==>
                PinInSync(store.notes, noteId.value, isPinned)
    {
      if Editing(noteId) {
        if PinInSync(store.notes, noteId.value, isPinned) {
          TogglePinKeepsSync(store.notes, noteId.value, isPinned, now);
        }
        store.TogglePinNote(noteId.value, now);
        isPinned := !isPinned;
      } else {
        isPinned := !isPinned;
      }
    }
  }
}
