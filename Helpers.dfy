/** The pure helpers of `src/utils/helpers.js`: the ordering of note lists (`sortNotes`), tag
    extraction from content, the one-paragraph summary, and the colour of a category. */
module Helpers {
  import opened Collections
  import opened JsString
  import opened ArraySort
  import opened NoteStore

  // ---------------------------------------------------------------- ordering notes

  /** The `sortBy` keys `sortNotes` distinguishes; any other key sorts by `updatedAt`. */
  datatype Criterion = ByTitle | ByCreatedAt | ByUpdatedAt

  function CriterionOf(sortBy: string): (c: Criterion)
    ensures c == ByTitle <==> sortBy == "title"
    ensures c == ByCreatedAt <==> sortBy == "createdAt"
  {
    if sortBy == "title" then ByTitle else if sortBy == "createdAt" then ByCreatedAt else ByUpdatedAt
  }

  /** `localeCompare`, modelled as code-point lexicographic order: negative, zero or positive as
      `s` comes before, equals or comes after `t`. */
  function LexCompare(s: string, t: string): int
    decreases |s|
  {
    if s == [] then (if t == [] then 0 else -1)
    else if t == [] then 1
    else if s[0] < t[0] then -1
    else if s[0] > t[0] then 1
    else LexCompare(s[1..], t[1..])
  }

  /** `LexCompare` is a total order: zero only on equal strings, antisymmetric, transitive. */
  lemma {:induction false} LexCompareAntisymmetric(s: string, t: string)
    ensures LexCompare(s, t) == 0 <==> s == t
    ensures LexCompare(s, t) < 0 <==> LexCompare(t, s) > 0
    decreases |s|
  {
    if s != [] && t != [] && s[0] == t[0] {
      LexCompareAntisymmetric(s[1..], t[1..]);
      assert s == [s[0]] + s[1..] && t == [t[0]] + t[1..];
    }
  }

  lemma {:induction false} LexCompareTransitive(a: string, b: string, c: string)
    requires LexCompare(a, b) <= 0 && LexCompare(b, c) <= 0
    ensures LexCompare(a, c) <= 0
    decreases |a|
  {
    if a != [] && b != [] && c != [] && a[0] == b[0] && b[0] == c[0] {
      LexCompareTransitive(a[1..], b[1..], c[1..]);
    }
  }

  /** The comparator `sortNotes` passes for a criterion: titles ascending, dates newest first
      (`new Date(b.x) - new Date(a.x)`). */
  function CompareBy(c: Criterion): (Note, Note) -> int {
    match c
    case ByTitle => (a: Note, b: Note) => LexCompare(a.title, b.title)
    case ByCreatedAt => (a: Note, b: Note) => b.createdAt - a.createdAt
    case ByUpdatedAt => (a: Note, b: Note) => b.updatedAt - a.updatedAt
  }

  /** The second comparator: `(b.isPinned ? 1 : 0) - (a.isPinned ? 1 : 0)`. */
  function PinnedOrder(a: Note, b: Note): int {
    (if b.isPinned then 1 else 0) - (if a.isPinned then 1 else 0)
  }

  function IsPinned(n: Note): bool {
    n.isPinned
  }

  function IsUnpinned(n: Note): bool {
    !n.isPinned
  }

  lemma CompareByConsistent(c: Criterion)
    ensures Consistent(CompareBy(c))
  {
    var cmp := CompareBy(c);
    if c == ByTitle {
      forall a, b ensures cmp(a, b) < 0 <==> cmp(b, a) > 0 {
        LexCompareAntisymmetric(a.title, b.title);
      }
      forall a, b, d | NotAfterChain(cmp, a, b, d) ensures cmp(a, d) <= 0 {
        LexCompareTransitive(a.title, b.title, d.title);
      }
    }
  }

  lemma PinnedOrderConsistent()
    ensures Consistent(PinnedOrder)
  {
  }

  /** `sortNotes(notes, sortBy)` for a criterion: sort a copy by the criterion, then stably by
      pinned-ness. */
  function SortedView(notes: seq<Note>, c: Criterion): (r: seq<Note>)
    ensures multiset(r) == multiset(notes)
  {
    var once := StableSort(notes, CompareBy(c));
    SortPermutes(notes, CompareBy(c));
    SortPermutes(once, PinnedOrder);
    StableSort(once, PinnedOrder)
  }

  /** `sortNotes(notes, sortBy)`: the source copies the array and sorts the copy in place twice. */
  method SortNotes(notes: seq<Note>, sortBy: string := "updatedAt") returns (r: seq<Note>)
    ensures r == SortedView(notes, CriterionOf(sortBy))
  {
    var sorted := new Note[|notes|](i requires 0 <= i < |notes| => notes[i]);
    assert sorted[..] == notes;
    Sort(sorted, CompareBy(CriterionOf(sortBy)));
    Sort(sorted, PinnedOrder);
    r := sorted[..];
  }

  /** The pinned notes of `s`, then the others, each group in its order in `s`. */
  function Grouped(s: seq<Note>): seq<Note> {
    Filter(IsPinned, s) + Filter(IsUnpinned, s)
  }

  lemma GroupedPermutation(s: seq<Note>)
    ensures multiset(Grouped(s)) == multiset(s)
  {
    FilterComplement(IsPinned, IsUnpinned, s);
  }

  lemma GroupedSortedByPin(s: seq<Note>)
    ensures SortedBy(Grouped(s), PinnedOrder)
  {
    var r := Grouped(s);
    forall i, j | 0 <= i < j < |r| ensures PinnedOrder(r[i], r[j]) <= 0 {
      PartitionOrdered(IsPinned, IsUnpinned, s, (a: Note, b: Note) => 0, i, j);
    }
  }

  lemma GroupedStable(s: seq<Note>)
    ensures StableFor(Grouped(s), s, PinnedOrder)
  {
    forall m ensures Ties(Grouped(s), m, PinnedOrder) == Ties(s, m, PinnedOrder) {
      GroupedTies(s, m);
    }
  }

  lemma GroupedTies(s: seq<Note>, m: Note)
    ensures Ties(Grouped(s), m, PinnedOrder) == Ties(s, m, PinnedOrder)
  {
    PartitionFilter(IsPinned, IsUnpinned, s);
    if m.isPinned {
      TiesArePinned(s, m);
      TiesArePinned(Grouped(s), m);
    } else {
      TiesAreUnpinned(s, m);
      TiesAreUnpinned(Grouped(s), m);
    }
  }

  /** Under `PinnedOrder`, the notes tying with a pinned note are the pinned ones. */
  lemma TiesArePinned(s: seq<Note>, m: Note)
    requires m.isPinned
    ensures Ties(s, m, PinnedOrder) == Filter(IsPinned, s)
  {
    FilterExtensional(TiesWith(m, PinnedOrder), IsPinned, s);
  }

  /** Under `PinnedOrder`, the notes tying with an unpinned note are the unpinned ones. */
  lemma TiesAreUnpinned(s: seq<Note>, m: Note)
    requires !m.isPinned
    ensures Ties(s, m, PinnedOrder) == Filter(IsUnpinned, s)
  {
    FilterExtensional(TiesWith(m, PinnedOrder), IsUnpinned, s);
  }

  /** Sorting stably by pinned-ness is grouping: the pinned notes, then the others, each group
      in the order it had. */
  lemma StableSortByPinIsGrouping(s: seq<Note>)
    ensures StableSort(s, PinnedOrder) == Grouped(s)
  {
    GroupedPermutation(s);
    GroupedSortedByPin(s);
    GroupedStable(s);
    PinnedOrderConsistent();
    StableSortCharacterized(s, Grouped(s), PinnedOrder);
  }

  /** Taking one group back out of `Grouped(s)` gives that group. */
  lemma GroupsOfGrouped(s: seq<Note>)
    ensures Filter(IsPinned, Grouped(s)) == Filter(IsPinned, s)
    ensures Filter(IsUnpinned, Grouped(s)) == Filter(IsUnpinned, s)
  {
    PartitionFilter(IsPinned, IsUnpinned, s);
  }

  /** `sortNotes` puts every pinned note before every unpinned one. */
  lemma PinnedFirst(notes: seq<Note>, c: Criterion)
    ensures var r := SortedView(notes, c);
            forall i, j :: 0 <= i < j < |r| && r[j].isPinned ==> r[i].isPinned
  {
    var s := StableSort(notes, CompareBy(c));
    StableSortByPinIsGrouping(s);
    GroupedSortedByPin(s);
  }

  /** The first pass sorts by the criterion. */
  lemma SortedByCriterion(notes: seq<Note>, c: Criterion)
    ensures SortedBy(StableSort(notes, CompareBy(c)), CompareBy(c))
  {
    CompareByConsistent(c);
    SortSorted(notes, CompareBy(c));
  }

  /** Grouping a sorted sequence keeps each group sorted. */
  lemma GroupedKeepsOrder(s: seq<Note>, cmp: (Note, Note) -> int)
    requires SortedBy(s, cmp)
    ensures var r := Grouped(s);
            forall i, j :: 0 <= i < j < |r| && r[i].isPinned == r[j].isPinned ==> cmp(r[i], r[j]) <= 0
  {
    var r := Grouped(s);
    forall i, j | 0 <= i < j < |r| && r[i].isPinned == r[j].isPinned ensures cmp(r[i], r[j]) <= 0 {
      PartitionOrdered(IsPinned, IsUnpinned, s, cmp, i, j);
    }
  }

  /** Inside each group, `sortNotes` keeps the criterion order. */
  lemma GroupsFollowCriterion(notes: seq<Note>, c: Criterion)
    ensures var r := SortedView(notes, c);
            forall i, j :: 0 <= i < j < |r| && r[i].isPinned == r[j].isPinned ==> CompareBy(c)(r[i], r[j]) <= 0
  {
    var s := StableSort(notes, CompareBy(c));
    StableSortByPinIsGrouping(s);
    SortedByCriterion(notes, c);
    GroupedKeepsOrder(s, CompareBy(c));
  }

  /** The three orders in their own terms: titles ascending, dates newest first; a key other
      than "title" or "createdAt", the default included, sorts by `updatedAt`. */
  lemma CriterionOrders(notes: seq<Note>, sortBy: string)
    ensures var r := SortedView(notes, CriterionOf(sortBy));
            forall i, j :: 0 <= i < j < |r| && r[i].isPinned == r[j].isPinned ==>
              (sortBy == "title" ==> LexCompare(r[i].title, r[j].title) <= 0)
              && (sortBy == "createdAt" ==> r[i].createdAt >= r[j].createdAt)
              && (sortBy != "title" && sortBy != "createdAt" ==> r[i].updatedAt >= r[j].updatedAt)
  {
    GroupsFollowCriterion(notes, CriterionOf(sortBy));
  }

  /** Notes the criterion cannot tell apart keep their input order within their group. */
  lemma GroupsKeepTieOrder(notes: seq<Note>, c: Criterion, m: Note)
    ensures Ties(Filter(IsPinned, SortedView(notes, c)), m, CompareBy(c)) == Ties(Filter(IsPinned, notes), m, CompareBy(c))
    ensures Ties(Filter(IsUnpinned, SortedView(notes, c)), m, CompareBy(c)) == Ties(Filter(IsUnpinned, notes), m, CompareBy(c))
  {
    var cmp := CompareBy(c);
    var s := StableSort(notes, cmp);
    StableSortByPinIsGrouping(s);
    GroupsOfGrouped(s);
    assert Ties(s, m, cmp) == Ties(notes, m, cmp) by {
      CompareByConsistent(c);
      SortStableAt(notes, m, cmp);
    }
    FilterCommute(TiesWith(m, cmp), IsPinned, s);
    FilterCommute(TiesWith(m, cmp), IsPinned, notes);
    FilterCommute(TiesWith(m, cmp), IsUnpinned, s);
    FilterCommute(TiesWith(m, cmp), IsUnpinned, notes);
  }

  /** Sorting `notes` that are already in `sortNotes` order changes nothing: `sortNotes` is
      idempotent. */
  lemma SortedViewIdempotent(notes: seq<Note>, c: Criterion)
    ensures SortedView(SortedView(notes, c), c) == SortedView(notes, c)
  {
    var cmp := CompareBy(c);
    var w0 := StableSort(notes, cmp);
    var v := SortedView(notes, c);
    StableSortByPinIsGrouping(w0);
    var w1 := StableSort(v, cmp);
    StableSortByPinIsGrouping(w1);
    SortedByCriterion(notes, c);
    CompareByConsistent(c);
    GroupsOfGrouped(w0);
    FilterSorted(IsPinned, w0, cmp);
    FilterSorted(IsUnpinned, w0, cmp);
    ResortedGroup(v, IsPinned, cmp, Filter(IsPinned, w0));
    ResortedGroup(v, IsUnpinned, cmp, Filter(IsUnpinned, w0));
  }

  /** A group that is already sorted comes out of a stable re-sort of the whole list unchanged. */
  lemma ResortedGroup(v: seq<Note>, p: Note -> bool, cmp: (Note, Note) -> int, g: seq<Note>)
    requires Consistent(cmp)
    requires Filter(p, v) == g && SortedBy(g, cmp)
    ensures Filter(p, StableSort(v, cmp)) == g
  {
    var w := StableSort(v, cmp);
    var f := Filter(p, w);
    SortSorted(v, cmp);
    FilterSorted(p, w, cmp);
    SortPermutes(v, cmp);
    FilterKeepsPermutation(p, w, v);
    forall m ensures Ties(f, m, cmp) == Ties(g, m, cmp) {
      SortStableAt(v, m, cmp);
      FilterCommute(TiesWith(m, cmp), p, w);
      FilterCommute(TiesWith(m, cmp), p, v);
    }
    SortUnique(f, g, cmp);
  }

  // ---------------------------------------------------------------- tags in content

  /** The characters of `[\w-]`. */
  predicate IsTagChar(c: char) {
    IsWordChar(c) || c == '-'
  }

  /** A match of `/#[\w-]+/` can start at position `i`. */
  predicate TagStartsAt(s: string, i: nat) {
    i + 1 < |s| && s[i] == '#' && IsTagChar(s[i + 1])
  }

  /** The length of the run of tag characters `s` starts with: how far the greedy `+` reaches. */
  function TagRun(s: string): (k: nat)
    ensures k <= |s|
    ensures forall i :: 0 <= i < k ==> IsTagChar(s[i])
    ensures k == |s| || !IsTagChar(s[k])
  {
    if s != [] && IsTagChar(s[0]) then 1 + TagRun(s[1..]) else 0
  }

  /** `content.match(/#[\w-]+/g)` with the leading `#` of each match removed: scanning left to
      right, each match takes the longest run of tag characters and scanning resumes after it. */
  function ScanTags(s: string): (r: seq<string>)
    ensures forall i :: 0 <= i < |r| ==> r[i] != [] && forall j :: 0 <= j < |r[i]| ==> IsTagChar(r[i][j])
    ensures forall i :: 0 <= i < |r| ==> Includes(s, ['#'] + r[i])
    decreases |s|
  {
    if s == [] then []
    else if TagStartsAt(s, 0) then
      var k := TagRun(s[1..]);
      var rest := ScanTags(s[1 + k..]);
      assert ['#'] + s[1..1 + k] <= s by { assert s[..1 + k] == ['#'] + s[1..1 + k]; }
      forall i | 0 <= i < |rest| ensures Includes(s, ['#'] + rest[i]) {
        IncludesInSuffix(s, ['#'] + rest[i], 1 + k);
      }
      [s[1..1 + k]] + rest
    else
      var rest := ScanTags(s[1..]);
      forall i | 0 <= i < |rest| ensures Includes(s, ['#'] + rest[i]) {
        IncludesInSuffix(s, ['#'] + rest[i], 1);
      }
      rest
  }

  /** The tag a match of `/#[\w-]+/` starting at position `i` reports: the longest run of tag
      characters after the `#`. */
  function RunAt(s: string, i: nat): (t: string)
    requires i < |s|
    ensures i + 1 + |t| <= |s|
    ensures forall j :: 0 <= j < |t| ==> IsTagChar(t[j])
    ensures i + 1 + |t| == |s| || !IsTagChar(s[i + 1 + |t|])
  {
    var after := s[i + 1..];
    after[..TagRun(after)]
  }

  /** The tags behind every `#` of `s` that a tag character follows, position by position: an
      enumeration of the match starts that does not skip, unlike the scan. */
  function Runs(s: string): seq<string>
    decreases |s|
  {
    if s == [] then []
    else (if TagStartsAt(s, 0) then [RunAt(s, 0)] else []) + Runs(s[1..])
  }

  /** The run at a position of `s[1..]` is the run one position further on in `s`. */
  lemma RunAtTail(s: string, i: nat)
    requires 1 <= i < |s|
    ensures TagStartsAt(s[1..], i - 1) == TagStartsAt(s, i)
    ensures RunAt(s[1..], i - 1) == RunAt(s, i)
  {
    assert s[1..][i..] == s[i + 1..];
  }

  /** Every possible match start contributes its run. */
  lemma {:induction false} RunsComplete(s: string, i: nat)
    requires TagStartsAt(s, i)
    ensures RunAt(s, i) in Runs(s)
    decreases i
  {
    if i > 0 {
      RunAtTail(s, i);
      RunsComplete(s[1..], i - 1);
    }
  }

  /** Each run listed comes from a match start. */
  lemma {:induction false} RunsSound(s: string, k: nat)
    requires k < |Runs(s)|
    ensures exists i: nat :: TagStartsAt(s, i) && Runs(s)[k] == RunAt(s, i)
    decreases |s|
  {
    var head := if TagStartsAt(s, 0) then [RunAt(s, 0)] else [];
    if k < |head| {
      assert TagStartsAt(s, 0) && Runs(s)[k] == RunAt(s, 0);
    } else {
      assert Runs(s)[k] == Runs(s[1..])[k - |head|];
      RunsSound(s[1..], k - |head|);
      var i: nat :| TagStartsAt(s[1..], i) && Runs(s[1..])[k - |head|] == RunAt(s[1..], i);
      RunAtTail(s, i + 1);
    }
  }

  /** A stretch without `#` starts no match. */
  lemma {:induction false} RunsSkipPlain(s: string, j: nat)
    requires j <= |s| && forall i :: 0 <= i < j ==> s[i] != '#'
    ensures Runs(s) == Runs(s[j..])
    decreases j
  {
    if j > 0 {
      RunsSkipPlain(s[1..], j - 1);
      assert s[1..][j - 1..] == s[j..];
    }
  }

  /** The left-to-right scan finds every match start, in order: `#` is not a tag character, so
      no match swallows the `#` of another. */
  lemma {:induction false} ScanTagsAreRuns(s: string)
    ensures ScanTags(s) == Runs(s)
    decreases |s|
  {
    if s != [] {
      if TagStartsAt(s, 0) {
        var k := TagRun(s[1..]);
        RunsSkipPlain(s[1..], k);
        assert s[1..][k..] == s[1 + k..];
        ScanTagsAreRuns(s[1 + k..]);
        assert RunAt(s, 0) == s[1..1 + k];
      } else {
        ScanTagsAreRuns(s[1..]);
      }
    }
  }

  /** `extractTagsFromContent(content)`: the distinct tags, in order of first appearance. */
  function ExtractTags(content: string): (r: seq<string>)
    ensures NoDuplicates(r)
    ensures forall i :: 0 <= i < |r| ==> r[i] != [] && '#' !in r[i] && !(exists j :: 0 <= j < |r[i]| && IsWhiteSpace(r[i][j]))
    ensures forall i, j :: 0 <= i < |r| && 0 <= j < |r[i]| ==> IsTagChar(r[i][j])
    ensures forall i :: 0 <= i < |r| ==> Includes(content, ['#'] + r[i])
  {
    var tags := ScanTags(content);
    forall i | 0 <= i < |Dedup(tags)| ensures exists k :: 0 <= k < |tags| && tags[k] == Dedup(tags)[i] {
    }
    Dedup(tags)
  }

  /** The tags are exactly the runs behind the match starts, each reported once, ordered by where
      it first appears. */
  lemma ExtractTagsCharacterized(content: string)
    ensures var r := ExtractTags(content);
            && (forall i: nat :: TagStartsAt(content, i) ==> RunAt(content, i) in r)
            && (forall k :: 0 <= k < |r| ==> exists i: nat :: TagStartsAt(content, i) && r[k] == RunAt(content, i))
            && FirstOrdered(r, Runs(content))
  {
    var r := ExtractTags(content);
    ScanTagsAreRuns(content);
    var runs := Runs(content);
    assert r == Dedup(runs);
    forall i: nat | TagStartsAt(content, i) ensures RunAt(content, i) in r {
      RunsComplete(content, i);
      var k :| 0 <= k < |runs| && runs[k] == RunAt(content, i);
    }
    forall k | 0 <= k < |r| ensures exists i: nat :: TagStartsAt(content, i) && r[k] == RunAt(content, i) {
      var m :| 0 <= m < |runs| && runs[m] == r[k];
      RunsSound(content, m);
    }
    DedupFirstOrder(runs);
  }

  /** No tags exactly when no `#` is followed by a tag character. */
  lemma {:induction false} ExtractTagsEmptyIffNoMarker(content: string)
    ensures ExtractTags(content) == [] <==> !exists i: nat :: TagStartsAt(content, i)
    decreases |content|
  {
    var tags := ScanTags(content);
    assert ExtractTags(content) == [] <==> tags == [] by {
      if tags != [] {
        assert tags[0] in Dedup(tags);
      }
    }
    if content != [] && !TagStartsAt(content, 0) {
      ExtractTagsEmptyIffNoMarker(content[1..]);
      assert ScanTags(content[1..]) == [] <==> ExtractTags(content[1..]) == [] by {
        var t := ScanTags(content[1..]);
        if t != [] {
          assert t[0] in Dedup(t);
        }
      }
      if exists i: nat :: TagStartsAt(content, i) {
        var i: nat :| TagStartsAt(content, i);
        assert TagStartsAt(content[1..], i - 1);
      }
      if exists i: nat :: TagStartsAt(content[1..], i) {
        var i: nat :| TagStartsAt(content[1..], i);
        assert TagStartsAt(content, i + 1);
      }
    } else if content != [] {
      assert TagStartsAt(content, 0);
    }
  }

  /** `TagRun` is the first position that holds no tag character. */
  lemma TagRunIs(s: string, k: nat)
    requires k <= |s| && (forall i :: 0 <= i < k ==> IsTagChar(s[i])) && (k == |s| || !IsTagChar(s[k]))
    ensures TagRun(s) == k
  {
  }

  // ---------------------------------------------------------------- summaries

  /** `s.split('\n\n')[0]`: everything before the first blank-line separator. */
  function FirstParagraph(s: string): (r: string)
    ensures r <= s
    ensures r == s || (|r| + 2 <= |s| && s[|r|..|r| + 2] == "\n\n")
    ensures !Includes(r, "\n\n")
    ensures forall i :: 0 <= i < |r| ==> !OccursAt(s, "\n\n", i)
  {
    if |s| < 2 then
      ShortHasNoSeparator(s);
      s
    else if s[0] == '\n' && s[1] == '\n' then []
    else
      var rest := FirstParagraph(s[1..]);
      ParagraphStep(s, rest);
      ParagraphFirst(s, rest);
      [s[0]] + rest
  }

  lemma ShortHasNoSeparator(s: string)
    requires |s| < 2
    ensures !Includes(s, "\n\n")
  {
    if s != [] {
      assert !Includes(s[1..], "\n\n");
    }
  }

  /** One more character in front of a paragraph that does not start a separator. */
  lemma ParagraphStep(s: string, rest: string)
    requires |s| >= 2 && !(s[0] == '\n' && s[1] == '\n')
    requires rest <= s[1..] && !Includes(rest, "\n\n")
    requires rest == s[1..] || (|rest| + 2 <= |s| - 1 && s[1..][|rest|..|rest| + 2] == "\n\n")
    ensures var r := [s[0]] + rest;
            && r <= s && !Includes(r, "\n\n")
            && (r == s || (|r| + 2 <= |s| && s[|r|..|r| + 2] == "\n\n"))
  {
    var r := [s[0]] + rest;
    assert r[1..] == rest;
    if rest != [] {
      assert r[0] == s[0] && r[1] == s[1];
      assert r[0] != '\n' || r[1] != '\n';
      assert r[..2] != "\n\n";
    }
    if rest != s[1..] {
      TailSlice(s, |rest|, |rest| + 2);
    }
  }

  /** No separator starts inside a paragraph extended by a character that starts none. */
  lemma ParagraphFirst(s: string, rest: string)
    requires |s| >= 2 && !(s[0] == '\n' && s[1] == '\n') && |rest| < |s|
    requires forall i :: 0 <= i < |rest| ==> !OccursAt(s[1..], "\n\n", i)
    ensures forall i :: 0 <= i < 1 + |rest| ==> !OccursAt(s, "\n\n", i)
  {
    forall i | 0 <= i < 1 + |rest| ensures !OccursAt(s, "\n\n", i) {
      if i == 0 {
        assert s[0..2][0] == s[0] && s[0..2][1] == s[1];
      } else {
        OccursInTail(s, "\n\n", i);
      }
    }
  }

  lemma TailSlice(s: string, i: nat, j: nat)
    requires 1 <= |s| && i <= j <= |s| - 1
    ensures s[1..][i..j] == s[i + 1..j + 1]
  {
  }

  /** Content without a blank-line separator is one paragraph. */
  lemma FirstParagraphOfOneParagraph(s: string)
    ensures !Includes(s, "\n\n") ==> FirstParagraph(s) == s
  {
    var first := FirstParagraph(s);
    if first != s {
      IncludesIffOccurs(s, "\n\n");
      assert OccursAt(s, "\n\n", |first|);
    }
  }

  const SummaryLength: nat := 100

  /** `summarizeContent(content)`: the first paragraph when it has at most 100 characters;
      otherwise the first 100 characters of the content followed by "...". */
  function SummarizeContent(content: string): (r: string)
    ensures content == [] ==> r == []
    ensures |r| <= SummaryLength + 3
    ensures (r <= content && !Includes(r, "\n\n")) || (|content| > SummaryLength && r == content[..SummaryLength] + "...")
    ensures !Includes(content, "\n\n") && |content| <= SummaryLength ==> r == content
    ensures |FirstParagraph(content)| <= SummaryLength ==> r == FirstParagraph(content)
    ensures |FirstParagraph(content)| > SummaryLength ==> r == content[..SummaryLength] + "..."
  {
    if content == [] then []
    else
      var first := FirstParagraph(content);
      FirstParagraphOfOneParagraph(content);
      if |first| <= SummaryLength then first
      else
        assert |content| > SummaryLength;
        Substring(content, 0, SummaryLength) + "..."
  }

  // ---------------------------------------------------------------- category colours

  /** The colour table of `getCategoryColor`. */
  const CategoryColors: map<string, string> := map[
    "Personal" := "#ffcccc", "Work" := "#b3e0ff", "Ideas" := "#ffffcc", "To-Do" := "#ccffcc",
    "Shopping" := "#ffccff", "Health" := "#ccffff", "Finance" := "#e6ccff", "Travel" := "#ffd9b3"]

  const White: string := "#ffffff"

  /** The colour of a category, white for a name the table does not list. */
  function GetCategoryColor(category: string): (r: string)
    ensures category in CategoryColors ==> r == CategoryColors[category]
    ensures category !in CategoryColors ==> r == White
    ensures r == White <==> category !in CategoryColors
  {
    if category in CategoryColors then CategoryColors[category] else White
  }

  /** Properties every object literal inherits from `Object.prototype`. */
  const InheritedNames: set<string> := {
    "constructor", "hasOwnProperty", "isPrototypeOf", "propertyIsEnumerable", "toLocaleString",
    "toString", "valueOf", "__proto__", "__defineGetter__", "__defineSetter__",
    "__lookupGetter__", "__lookupSetter__"}

  /** What a property read `colors[category]` can yield. */
  datatype PropertyValue = Text(text: string) | InheritedMember(name: string)

  /** `colors[category] || '#ffffff'` as written: the lookup also finds inherited members, which
      are objects and so never fall back to white. */
  function GetCategoryColorAsWritten(category: string): (r: PropertyValue)
    ensures category in CategoryColors ==> r == Text(CategoryColors[category])
    ensures category !in CategoryColors && category !in InheritedNames ==> r == Text(White)
    ensures category in InheritedNames ==> r.InheritedMember?
  {
    if category in CategoryColors then Text(CategoryColors[category])
    else if category in InheritedNames then InheritedMember(category)
    else Text(White)
  }

  /** A category named "constructor" gets the `Object` constructor instead of a colour. */
  lemma InheritedNameGetsNoColour()
    ensures GetCategoryColorAsWritten("constructor") == InheritedMember("constructor")
    ensures GetCategoryColor("constructor") == White
  {
    assert "constructor" !in CategoryColors;
  }

  /** Both versions agree on every name that is not inherited. */
  lemma ColourVersionsAgree(category: string)
    requires category !in InheritedNames
    ensures GetCategoryColorAsWritten(category) == Text(GetCategoryColor(category))
  {
  }
}
