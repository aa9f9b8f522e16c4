/** The tag list editing of `src/components/NoteEditor.js`: the `tags` cell belongs to the
    screen and is updated through `setTags`; the text field `newTag` is the component's own. */
module NoteEditor {
  import opened Collections
  import opened JsString
  import opened NoteStore

  /** A tag as the editor admits it: trimmed and not empty. */
  predicate CleanTag(t: string) {
    t != [] && Trim(t) == t
  }

  /** What the editor keeps true of the tags it builds. */
  predicate CleanTags(tags: seq<string>) {
    NoDuplicates(tags) && forall i :: 0 <= i < |tags| ==> CleanTag(tags[i])
  }

  /** Whether `handleAddTag` accepts the input: its trimmed text is non-empty and not yet a tag. */
  predicate Accepts(tags: seq<string>, input: string) {
    Trim(input) != [] && Trim(input) !in tags
  }

  /** The tag list after `handleAddTag` with the field holding `input`. */
  function TagsAfterAdd(tags: seq<string>, input: string): (r: seq<string>)
    ensures AllWhiteSpace(input) ==> r == tags
    ensures Trim(input) in tags ==> r == tags
    ensures Accepts(tags, input) ==> r == tags + [Trim(input)]
    ensures CleanTags(tags) ==> CleanTags(r)
  {
    TrimEmptyIffBlank(input);
    TrimIdempotent(input);
    if Accepts(tags, input) then tags + [Trim(input)] else tags
  }

  /** The tag list after `handleRemoveTag(tagToRemove)`. */
  function TagsAfterRemove(tags: seq<string>, tagToRemove: string): (r: seq<string>)
    ensures tagToRemove !in r
    ensures IsSubsequence(r, tags)
    ensures forall i :: 0 <= i < |tags| && tags[i] != tagToRemove ==> tags[i] in r
    ensures forall t :: multiset(r)[t] == if t != tagToRemove then multiset(tags)[t] else 0
  {
    WithoutTag(tags, tagToRemove)
  }

  /** Removing a tag keeps the list clean: what is left are tags that were there, still distinct. */
  lemma RemoveKeepsClean(tags: seq<string>, tagToRemove: string)
    requires CleanTags(tags)
    ensures CleanTags(TagsAfterRemove(tags, tagToRemove))
  {
    var r := TagsAfterRemove(tags, tagToRemove);
    SubsequenceElements(r, tags);
    SubsequenceNoDuplicates(r, tags);
  }

  /** Adding what was just added, or anything already present, changes nothing. */
  lemma AddTwiceIsAddOnce(tags: seq<string>, input: string)
    ensures TagsAfterAdd(TagsAfterAdd(tags, input), input) == TagsAfterAdd(tags, input)
    ensures TagsAfterAdd(tags, input) == tags || Trim(input) in TagsAfterAdd(tags, input)
  {
    var once := TagsAfterAdd(tags, input);
    if Accepts(tags, input) {
      assert once[|tags|] == Trim(input);
    }
  }

  class TagEditor {
    var tags: seq<string>
    var newTag: string

    constructor (tags: seq<string>)
      ensures this.tags == tags && newTag == ""
    {
      this.tags := tags;
      newTag := "";
    }

    method SetNewTag(text: string)
      modifies this`newTag
      ensures newTag == text
    {
      newTag := text;
    }

    /** `handleAddTag()`: an accepted tag is appended and the field cleared; otherwise nothing
        changes, the field included. */
    method HandleAddTag()
      modifies this
      ensures tags == TagsAfterAdd(old(tags), old(newTag))
      ensures newTag == (if Accepts(old(tags), old(newTag)) then "" else old(newTag))
    {
      var trimmed := Trim(newTag);
      if trimmed != [] && trimmed !in tags {
        tags := tags + [trimmed];
        newTag := "";
      }
    }

    /** `handleRemoveTag(tagToRemove)`. */
    method HandleRemoveTag(tagToRemove: string)
      modifies this`tags
      ensures tags == TagsAfterRemove(old(tags), tagToRemove)
    {
      tags := TagsAfterRemove(tags, tagToRemove);
    }
  }
}
