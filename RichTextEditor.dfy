/** The text transforms of `src/components/RichTextEditor.js`. The editor does not own the text:
    it receives `value` and reports a new text through `onChangeText`, after which the parent
    passes that text back as `value`. The class keeps `value` as a field that an emitted change
    replaces, together with the editor's own state cells `currentStyles` and `selection`. */
module RichTextEditor {
  import opened Collections
  import opened JsString

  /** `{ start, end }` of the text input's selection. */
  datatype Selection = Selection(start: nat, end: nat)

  /** A selection that lies inside the text, in order, as the platform reports it. */
  predicate WellFormed(value: string, sel: Selection) {
    sel.start <= sel.end <= |value|
  }

  /** The text between the selection bounds: `value.substring(start, end)`. */
  function Selected(value: string, sel: Selection): string {
    Substring(value, sel.start, sel.end)
  }

  /** The text with the selection replaced: `value.substring(0, start) + middle + value.substring(end)`. */
  function Splice(value: string, sel: Selection, middle: string): (r: string)
    ensures WellFormed(value, sel) ==> r == value[..sel.start] + middle + value[sel.end..]
  {
    Substring(value, 0, sel.start) + middle + SubstringFrom(value, sel.end)
  }

  /** `lines.map(line => '• ' + line).join('\n')` over `text.split('\n')`. */
  function Bulleted(text: string): string {
    Join(Map(BulletLine, Split(text, '\n')), '\n')
  }

  function BulletLine(line: string): string {
    "\U{2022} " + line
  }

  /** The new text `formatText(type)` reports for a non-empty selection; `None` for a type it
      does not know, in which case `onChangeText` is not called. */
  function FormattedText(value: string, sel: Selection, formattingType: string): (r: Option<string>)
    ensures r.Some? <==> formattingType in {"bold", "italic", "underline", "bullet"}
  {
    var selected := Selected(value, sel);
    if formattingType == "bold" then Some(Splice(value, sel, "**" + selected + "**"))
    else if formattingType == "italic" then Some(Splice(value, sel, "_" + selected + "_"))
    else if formattingType == "underline" then Some(Splice(value, sel, "~" + selected + "~"))
    else if formattingType == "bullet" then Some(Splice(value, sel, Bulleted(selected)))
    else None
  }

  /** Wrapping a selection keeps the text around it and adds the two markers: bold grows the text
      by 4, italic and underline by 2. */
  lemma WrapAddsMarkers(value: string, sel: Selection)
    requires WellFormed(value, sel) && sel.start < sel.end
    ensures var r := FormattedText(value, sel, "bold").value;
            |r| == |value| + 4 && r[..sel.start] == value[..sel.start] && r[sel.end + 4..] == value[sel.end..]
            && r[sel.start..sel.end + 4] == "**" + value[sel.start..sel.end] + "**"
    ensures var r := FormattedText(value, sel, "italic").value;
            |r| == |value| + 2 && r[..sel.start] == value[..sel.start] && r[sel.end + 2..] == value[sel.end..]
            && r[sel.start..sel.end + 2] == "_" + value[sel.start..sel.end] + "_"
    ensures var r := FormattedText(value, sel, "underline").value;
            |r| == |value| + 2 && r[..sel.start] == value[..sel.start] && r[sel.end + 2..] == value[sel.end..]
            && r[sel.start..sel.end + 2] == "~" + value[sel.start..sel.end] + "~"
  {
    var pre, mid, post := value[..sel.start], value[sel.start..sel.end], value[sel.end..];
    var b := pre + ("**" + mid + "**") + post;
    assert b[..sel.start] == pre && b[sel.start..sel.end + 4] == "**" + mid + "**" && b[sel.end + 4..] == post;
    var i := pre + ("_" + mid + "_") + post;
    assert i[..sel.start] == pre && i[sel.start..sel.end + 2] == "_" + mid + "_" && i[sel.end + 2..] == post;
    var u := pre + ("~" + mid + "~") + post;
    assert u[..sel.start] == pre && u[sel.start..sel.end + 2] == "~" + mid + "~" && u[sel.end + 2..] == post;
  }

  /** Bulleting keeps the lines: the result has one line per line of the text, each being the
      original line behind "• ". */
  lemma {:induction false} BulletedKeepsLines(text: string)
    ensures |Split(Bulleted(text), '\n')| == |Split(text, '\n')|
    ensures forall i :: 0 <= i < |Split(text, '\n')| ==>
              Split(Bulleted(text), '\n')[i] == BulletLine(Split(text, '\n')[i])
  {
    var lines := Split(text, '\n');
    var bullets := Map(BulletLine, lines);
    forall i | 0 <= i < |bullets| ensures '\n' !in bullets[i] {
      assert bullets[i] == ['\U{2022}', ' '] + lines[i];
    }
    SplitJoin(bullets, '\n');
  }

  /** Only "**", "_", "~" and the bullet list change the text. */
  lemma UnknownTypeChangesNothing(value: string, sel: Selection, formattingType: string)
    requires formattingType !in {"bold", "italic", "underline", "bullet"}
    ensures FormattedText(value, sel, formattingType) == None
  {
  }

  /** Whether a style flag is set; a missing key reads as `undefined`, which is falsy. */
  function StyleOn(styles: map<string, bool>, key: string): bool {
    key in styles && styles[key]
  }

  /** `{ ...currentStyles, [type]: !currentStyles[type] }`. */
  function Toggled(styles: map<string, bool>, key: string): (r: map<string, bool>)
    ensures StyleOn(r, key) == !StyleOn(styles, key)
    ensures forall k :: k != key ==> StyleOn(r, k) == StyleOn(styles, k)
    ensures r.Keys == styles.Keys + {key}
  {
    styles[key := !StyleOn(styles, key)]
  }

  /** Toggling a style twice restores it. */
  lemma ToggleTwice(styles: map<string, bool>, key: string)
    ensures forall k :: StyleOn(Toggled(Toggled(styles, key), key), k) == StyleOn(styles, k)
  {
  }

  // ---------------------------------------------------------------- line boundaries

  /** `value[i] === '\n'`; a position outside the text reads as `undefined`, which is not. */
  predicate NewlineAt(s: string, i: int) {
    0 <= i < |s| && s[i] == '\n'
  }

  /** Where the line holding position `i` starts: `0`, or just after a newline, with no
      newline in between. */
  function LineStart(s: string, i: nat): (k: nat)
    ensures k <= i && k <= |s|
    ensures k == 0 || NewlineAt(s, k - 1)
    ensures forall j :: k <= j < i ==> !NewlineAt(s, j)
  {
    if i == 0 || NewlineAt(s, i - 1) then i else LineStart(s, i - 1)
  }

  /** Where the line holding position `i` ends: at a newline, or at the end of the text (or at
      `i` itself when `i` lies past the end), with no newline in between. */
  function LineEnd(s: string, i: nat): (k: nat)
    ensures i <= k && (k == i || k <= |s|)
    ensures k >= |s| || s[k] == '\n'
    ensures forall j :: i <= j < k ==> !NewlineAt(s, j)
    decreases |s| - i
  {
    if i >= |s| || s[i] == '\n' then i else LineEnd(s, i + 1)
  }

  /** The run of `#` a line starts with. */
  function HashRun(s: string): (k: nat)
    ensures k <= |s| && (forall j :: 0 <= j < k ==> s[j] == '#') && (k == |s| || s[k] != '#')
  {
    if s != [] && s[0] == '#' then 1 + HashRun(s[1..]) else 0
  }

  /** `line.replace(/^#+\s/, '')`: a leading run of `#` followed by one white-space character is
      removed; otherwise the line is kept. */
  function StripHeader(line: string): (r: string)
    ensures r == line || (0 < HashRun(line) < |line| && IsWhiteSpace(line[HashRun(line)]) && r == line[HashRun(line) + 1..])
  {
    var k := HashRun(line);
    if 0 < k < |line| && IsWhiteSpace(line[k]) then line[k + 1..] else line
  }

  /** `'#'.repeat(level) + ' ' + cleanLine`. */
  function HeaderLine(line: string, level: nat): string {
    Repeat('#', level) + " " + StripHeader(line)
  }

  /** A header line carries exactly one marker: making it a header again, at any level,
      replaces the marker instead of stacking a second one. */
  lemma HeaderReplacesMarker(line: string, level: nat, newLevel: nat)
    requires level >= 1
    ensures HeaderLine(HeaderLine(line, level), newLevel) == HeaderLine(line, newLevel)
  {
    var h := HeaderLine(line, level);
    assert h[..level] == Repeat('#', level) && h[level] == ' ';
    assert HashRun(h) == level;
    assert h[level + 1..] == StripHeader(line);
  }

  /** Re-applying a header of the same level changes nothing. */
  lemma HeaderIdempotent(line: string, level: nat)
    requires level >= 1
    ensures HeaderLine(HeaderLine(line, level), level) == HeaderLine(line, level)
  {
    HeaderReplacesMarker(line, level, level);
  }

  /** The text `addHeader(level)` reports. */
  function HeaderText(value: string, sel: Selection, level: nat): string {
    var lineStart := LineStart(value, sel.start);
    var lineEnd := LineEnd(value, sel.end);
    Substring(value, 0, lineStart) + HeaderLine(Substring(value, lineStart, lineEnd), level) + SubstringFrom(value, lineEnd)
  }

  /** `addHeader` rewrites only the current line: the text before the line start and after the
      line end is kept. */
  lemma HeaderKeepsOtherLines(value: string, sel: Selection, level: nat)
    requires WellFormed(value, sel)
    ensures var lineStart, lineEnd := LineStart(value, sel.start), LineEnd(value, sel.end);
            var r := HeaderText(value, sel, level);
            && lineStart <= lineEnd <= |value|
            && r == value[..lineStart] + HeaderLine(value[lineStart..lineEnd], level) + value[lineEnd..]
            && r[..lineStart] == value[..lineStart]
            && r[|r| - (|value| - lineEnd)..] == value[lineEnd..]
  {
    var lineStart, lineEnd := LineStart(value, sel.start), LineEnd(value, sel.end);
    assert lineStart <= lineEnd <= |value|;
    var before, after := value[..lineStart], value[lineEnd..];
    var line := HeaderLine(value[lineStart..lineEnd], level);
    assert HeaderText(value, sel, level) == before + line + after;
    OuterParts(before, line, after);
  }

  /** The outer parts of a three-part concatenation are where they were put. */
  lemma OuterParts(a: string, m: string, b: string)
    ensures (a + m + b)[..|a|] == a && (a + m + b)[|a + m + b| - |b|..] == b
  {
  }

  /** The text `addChecklistItem()` reports. */
  function ChecklistText(value: string, sel: Selection): string {
    var lineStart := LineStart(value, sel.start);
    Substring(value, 0, lineStart) + "[ ] " + SubstringFrom(value, lineStart)
  }

  /** `addChecklistItem` inserts exactly "[ ] " at the start of the cursor's line. */
  lemma ChecklistInsertsMarker(value: string, sel: Selection)
    ensures var lineStart := LineStart(value, sel.start);
            var r := ChecklistText(value, sel);
            && |r| == |value| + 4
            && r == value[..lineStart] + "[ ] " + value[lineStart..]
            && (lineStart == 0 || r[lineStart - 1] == '\n')
  {
  }

  // ---------------------------------------------------------------- the component

  const InitialStyles: map<string, bool> := map["bold" := false, "italic" := false, "underline" := false]

  class Editor {
    var value: string
    var selection: Selection
    var currentStyles: map<string, bool>

    constructor (value: string)
      ensures this.value == value && selection == Selection(0, 0) && currentStyles == InitialStyles
    {
      this.value := value;
      selection := Selection(0, 0);
      currentStyles := InitialStyles;
    }

    method SetSelection(sel: Selection)
      modifies this`selection
      ensures selection == sel
    {
      selection := sel;
    }

    /** `formatText(type)`: with an empty selection only the style flag flips; otherwise the
        formatted text, if any, is reported and becomes the new value. */
    method FormatText(formattingType: string) returns (changed: Option<string>)
      modifies this`value, this`currentStyles
      ensures selection.start == selection.end ==>
                changed == None && value == old(value) && currentStyles == Toggled(old(currentStyles), formattingType)
      ensures selection.start != selection.end ==>
                changed == FormattedText(old(value), selection, formattingType)
                && value == changed.GetOr(old(value)) && currentStyles == old(currentStyles)
    {
      if selection.start == selection.end {
        currentStyles := Toggled(currentStyles, formattingType);
        return None;
      }
      changed := FormattedText(value, selection, formattingType);
      if changed.Some? {
        value := changed.value;
      }
    }

    /** The first loop of `addHeader` and `addChecklistItem`: step back to the line start. */
    method FindLineStart(start: nat) returns (lineStart: nat)
      ensures lineStart == LineStart(value, start)
    {
      lineStart := start;
      while lineStart > 0 && !NewlineAt(value, lineStart - 1)
        invariant lineStart <= start
        invariant LineStart(value, lineStart) == LineStart(value, start)
      {
        lineStart := lineStart - 1;
      }
    }

    /** The second loop of `addHeader`: step forward to the line end. */
    method FindLineEnd(end: nat) returns (lineEnd: nat)
      ensures lineEnd == LineEnd(value, end)
    {
      lineEnd := end;
      while lineEnd < |value| && value[lineEnd] != '\n'
        invariant end <= lineEnd
        invariant LineEnd(value, lineEnd) == LineEnd(value, end)
        decreases |value| - lineEnd
      {
        lineEnd := lineEnd + 1;
      }
    }

    /** `addHeader(level)`: the current line becomes a header of that level. */
    method AddHeader(level: nat) returns (newText: string)
      modifies this`value
      ensures newText == HeaderText(old(value), selection, level) && value == newText
    {
      var lineStart := FindLineStart(selection.start);
      var lineEnd := FindLineEnd(selection.end);
      var line := Substring(value, lineStart, lineEnd);
      var cleanLine := StripHeader(line);
      var headerMarker := Repeat('#', level) + " ";
      newText := Substring(value, 0, lineStart) + (headerMarker + cleanLine) + SubstringFrom(value, lineEnd);
      value := newText;
    }

    /** `addChecklistItem()`: "[ ] " at the start of the cursor's line. */
    method AddChecklistItem() returns (newText: string)
      modifies this`value
      ensures newText == ChecklistText(old(value), selection) && value == newText
    {
      var lineStart := FindLineStart(selection.start);
      newText := Substring(value, 0, lineStart) + "[ ] " + SubstringFrom(value, lineStart);
      value := newText;
    }
  }
}
