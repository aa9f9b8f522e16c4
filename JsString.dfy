/** The ECMAScript string built-ins the source relies on, over `string` (a sequence of code points):
    `trim`, `toLowerCase`, `includes`, `substring`, `split` on one character, `join`, `repeat`,
    and the character classes `\s` and `\w` of regular expressions. */
module JsString {
  import opened Collections

  /** WhiteSpace and LineTerminator code points of ECMA-262 (sections 12.2 and 12.3): what `trim`
      removes and what the regular-expression class `\s` matches. */
  predicate IsWhiteSpace(c: char) {
    c in WhiteSpaceChars || '\U{2000}' <= c <= '\U{200A}'
  }

  /** The white-space code points outside the range U+2000 to U+200A. */
  const WhiteSpaceChars: set<char> := {
    '\t', '\U{000B}', '\U{000C}', ' ', '\U{00A0}', '\U{FEFF}', '\n', '\r', '\U{2028}', '\U{2029}',
    '\U{1680}', '\U{202F}', '\U{205F}', '\U{3000}'
  }

  /** The regular-expression class `\w` outside Unicode mode: `[A-Za-z0-9_]`. */
  predicate IsWordChar(c: char) {
    ('a' <= c <= 'z') || ('A' <= c <= 'Z') || ('0' <= c <= '9') || c == '_'
  }

  predicate AllWhiteSpace(s: string) {
    forall i :: 0 <= i < |s| ==> IsWhiteSpace(s[i])
  }

  /** The number of white-space code points at the front of `s`. */
  function LeadingSpace(s: string): (k: nat)
    ensures k <= |s| && AllWhiteSpace(s[..k])
    ensures k == |s| || !IsWhiteSpace(s[k])
  {
    if s != [] && IsWhiteSpace(s[0]) then
      var k := LeadingSpace(s[1..]);
      WhiteFront(s, k);
      k + 1
    else 0
  }

  lemma WhiteFront(s: string, k: nat)
    requires s != [] && IsWhiteSpace(s[0]) && k < |s| && AllWhiteSpace(s[1..][..k])
    ensures AllWhiteSpace(s[..k + 1])
  {
    var front, rest := s[..k + 1], s[1..][..k];
    forall i | 0 <= i < k + 1 ensures IsWhiteSpace(front[i]) {
      if i > 0 {
        assert front[i] == rest[i - 1];
      }
    }
  }

  /** The number of white-space code points at the end of `s`. */
  function TrailingSpace(s: string): (k: nat)
    ensures k <= |s| && AllWhiteSpace(s[|s| - k..])
    ensures k == |s| || !IsWhiteSpace(s[|s| - k - 1])
  {
    if s != [] && IsWhiteSpace(s[|s| - 1]) then
      var k := TrailingSpace(s[..|s| - 1]);
      WhiteBack(s, k);
      k + 1
    else 0
  }

  lemma WhiteBack(s: string, k: nat)
    requires s != [] && IsWhiteSpace(s[|s| - 1]) && k < |s| && AllWhiteSpace(s[..|s| - 1][|s| - 1 - k..])
    ensures AllWhiteSpace(s[|s| - 1 - k..])
  {
    var back, rest := s[|s| - 1 - k..], s[..|s| - 1][|s| - 1 - k..];
    forall i | 0 <= i < k + 1 ensures IsWhiteSpace(back[i]) {
      if i < k {
        assert back[i] == rest[i];
      }
    }
  }

  /** Once a code point other than white space starts the rest, the trailing white space lies
      wholly after it. */
  lemma SpaceAround(s: string)
    requires LeadingSpace(s) < |s|
    ensures LeadingSpace(s) < |s| - TrailingSpace(s)
  {
    var k, n := LeadingSpace(s), TrailingSpace(s);
    var back := s[|s| - n..];
    forall i | |s| - n <= i < |s| ensures IsWhiteSpace(s[i]) {
      assert s[i] == back[i - (|s| - n)];
    }
  }

  /** `String.prototype.trim`: `s` without its leading and trailing white space. */
  function Trim(s: string): (r: string)
    ensures |r| <= |s|
    ensures r == [] || (!IsWhiteSpace(r[0]) && !IsWhiteSpace(r[|r| - 1]))
  {
    var k := LeadingSpace(s);
    if k == |s| then []
    else
      SpaceAround(s);
      s[k..|s| - TrailingSpace(s)]
  }

  /** `Trim(s)` is the contiguous piece of `s` after its leading white space, and only white
      space stands around it. */
  lemma TrimIsInfix(s: string)
    ensures var k := LeadingSpace(s);
            && k + |Trim(s)| <= |s| && s[k..k + |Trim(s)|] == Trim(s)
            && AllWhiteSpace(s[..k]) && AllWhiteSpace(s[k + |Trim(s)|..])
  {
    TrimSlice(s);
    TrimBeforeSpace(s);
  }

  lemma TrimSlice(s: string)
    ensures var k := LeadingSpace(s);
            k + |Trim(s)| <= |s| && s[k..k + |Trim(s)|] == Trim(s)
  {
    if LeadingSpace(s) < |s| {
      TrimBetweenSpace(s);
    }
  }

  /** Past the leading white space, `Trim(s)` runs up to the trailing white space. */
  lemma TrimBetweenSpace(s: string)
    requires LeadingSpace(s) < |s|
    ensures LeadingSpace(s) + |Trim(s)| == |s| - TrailingSpace(s)
    ensures Trim(s) == s[LeadingSpace(s)..|s| - TrailingSpace(s)]
  {
    SpaceAround(s);
  }

  lemma TrimBeforeSpace(s: string)
    ensures var k := LeadingSpace(s);
            k + |Trim(s)| <= |s| && AllWhiteSpace(s[k + |Trim(s)|..])
  {
    if LeadingSpace(s) < |s| {
      SpaceAround(s);
    }
  }

  /** A string trims to nothing exactly when it is all white space (it is blank). */
  lemma TrimEmptyIffBlank(s: string)
    ensures Trim(s) == [] <==> AllWhiteSpace(s)
  {
    var k := LeadingSpace(s);
    if k == |s| {
      assert s[..k] == s;
    } else {
      SpaceAround(s);
    }
  }

  /** Trimming twice is trimming once. */
  lemma TrimIdempotent(s: string)
    ensures Trim(Trim(s)) == Trim(s)
  {
    var r := Trim(s);
    if r != [] {
      assert LeadingSpace(r) == 0;
      assert TrailingSpace(r) == 0;
    }
  }

  /** `toLowerCase` on one code point; only the ASCII letters are mapped. */
  function LowerChar(c: char): (r: char)
    ensures !('A' <= r <= 'Z')
    ensures !('A' <= c <= 'Z') ==> r == c
  {
    if 'A' <= c <= 'Z' then (c as int + 32) as char else c
  }

  /** `String.prototype.toLowerCase`, for the ASCII letters. */
  function ToLower(s: string): (r: string)
    ensures |r| == |s|
    ensures forall i :: 0 <= i < |s| ==> r[i] == LowerChar(s[i])
  {
    Map(LowerChar, s)
  }

  lemma ToLowerIdempotent(s: string)
    ensures ToLower(ToLower(s)) == ToLower(s)
  {
  }

  lemma ToLowerKeepsWhiteSpace(s: string)
    ensures AllWhiteSpace(s) <==> AllWhiteSpace(ToLower(s))
  {
  }

  /** `String.prototype.includes`: `needle` occurs in `hay` as a contiguous piece. */
  predicate Includes(hay: string, needle: string)
    decreases |hay|
  {
    needle <= hay || (hay != [] && Includes(hay[1..], needle))
  }

  /** `needle` occurs in `hay` starting at position `i`. */
  predicate OccursAt(hay: string, needle: string, i: nat) {
    i + |needle| <= |hay| && hay[i..i + |needle|] == needle
  }

  /** `Includes` is exactly the existence of a position at which `needle` occurs. */
  lemma IncludesIffOccurs(hay: string, needle: string)
    ensures Includes(hay, needle) <==> exists i: nat :: OccursAt(hay, needle, i)
  {
    if Includes(hay, needle) {
      var i := IncludesWitness(hay, needle);
    }
    forall i: nat | OccursAt(hay, needle, i) ensures Includes(hay, needle) {
      OccursIncludes(hay, needle, i);
    }
  }

  /** Where `needle` occurs, if `Includes` holds. */
  lemma {:induction false} IncludesWitness(hay: string, needle: string) returns (i: nat)
    requires Includes(hay, needle)
    ensures OccursAt(hay, needle, i)
    decreases |hay|
  {
    if needle <= hay {
      i := 0;
    } else {
      var j := IncludesWitness(hay[1..], needle);
      assert hay[j + 1..j + 1 + |needle|] == hay[1..][j..j + |needle|];
      i := j + 1;
    }
  }

  /** An occurrence at any position makes `Includes` hold. */
  lemma {:induction false} OccursIncludes(hay: string, needle: string, i: nat)
    requires OccursAt(hay, needle, i)
    ensures Includes(hay, needle)
    decreases i
  {
    if i > 0 {
      assert hay[1..][i - 1..i - 1 + |needle|] == hay[i..i + |needle|];
      OccursIncludes(hay[1..], needle, i - 1);
    } else {
      assert needle == hay[..|needle|];
    }
  }

  /** An occurrence at a position after the first is an occurrence in the tail one position on. */
  lemma OccursInTail(hay: string, needle: string, i: nat)
    requires 1 <= i && hay != []
    ensures OccursAt(hay, needle, i) <==> OccursAt(hay[1..], needle, i - 1)
  {
    if i + |needle| <= |hay| {
      var a, b := hay[i..i + |needle|], hay[1..][i - 1..i - 1 + |needle|];
      forall k | 0 <= k < |needle| ensures a[k] == b[k] {
        assert a[k] == hay[i + k] && b[k] == hay[1..][i - 1 + k];
      }
      assert a == b;
    }
  }

  /** What occurs in a suffix occurs in the whole string. */
  lemma {:induction false} IncludesInSuffix(hay: string, needle: string, n: nat)
    requires n <= |hay| && Includes(hay[n..], needle)
    ensures Includes(hay, needle)
  {
    if n > 0 {
      assert hay[1..][n - 1..] == hay[n..];
      IncludesInSuffix(hay[1..], needle, n - 1);
    }
  }

  /** The empty string occurs in every string. */
  lemma IncludesEmpty(hay: string)
    ensures Includes(hay, [])
  {
  }

  function Min(a: int, b: int): int {
    if a <= b then a else b
  }

  /** `String.prototype.substring(from, to)` for non-negative arguments: both are clamped to the
      length, and they are swapped when `from > to`. */
  function Substring(s: string, from: nat, to: nat): (r: string)
    ensures from <= to <= |s| ==> r == s[from..to]
    ensures |r| <= |s|
  {
    var a := Min(from, |s|);
    var b := Min(to, |s|);
    if a <= b then s[a..b] else s[b..a]
  }

  /** `String.prototype.substring(from)`: everything from `from` on (or nothing past the end). */
  function SubstringFrom(s: string, from: nat): (r: string)
    ensures from <= |s| ==> r == s[from..]
    ensures from >= |s| ==> r == []
  {
    s[Min(from, |s|)..]
  }

  /** `String.prototype.split(sep)` for a one-character separator. */
  function Split(s: string, sep: char): (r: seq<string>)
    ensures |r| >= 1
    ensures forall i :: 0 <= i < |r| ==> sep !in r[i]
    decreases |s|
  {
    if sep !in s then [s]
    else
      var k := IndexOf(s, sep);
      [s[..k]] + Split(s[k + 1..], sep)
  }

  /** The position of the first `c` in `s`. */
  function IndexOf(s: string, c: char): (k: nat)
    requires c in s
    ensures k < |s| && s[k] == c && c !in s[..k]
  {
    if s[0] == c then 0 else
      var k := IndexOf(s[1..], c);
      assert s[..k + 1] == [s[0]] + s[1..][..k];
      k + 1
  }

  /** `Array.prototype.join(sep)` for a one-character separator. */
  function Join(parts: seq<string>, sep: char): string {
    if parts == [] then []
    else if |parts| == 1 then parts[0]
    else parts[0] + [sep] + Join(parts[1..], sep)
  }

  /** Joining the pieces of a split gives back the string. */
  lemma {:induction false} JoinSplit(s: string, sep: char)
    ensures Join(Split(s, sep), sep) == s
    decreases |s|
  {
    if sep in s {
      var k := IndexOf(s, sep);
      var rest := Split(s[k + 1..], sep);
      assert Split(s, sep) == [s[..k]] + rest;
      JoinSplit(s[k + 1..], sep);
      JoinFront(s[..k], rest, sep);
      AroundIndex(s, k);
    }
  }

  lemma JoinFront(first: string, rest: seq<string>, sep: char)
    requires |rest| >= 1
    ensures Join([first] + rest, sep) == first + [sep] + Join(rest, sep)
  {
    assert ([first] + rest)[1..] == rest;
  }

  lemma AroundIndex(s: string, k: nat)
    requires k < |s|
    ensures s == s[..k] + [s[k]] + s[k + 1..]
  {
  }

  /** Splitting a join of separator-free pieces gives back the pieces. */
  lemma {:induction false} SplitJoin(parts: seq<string>, sep: char)
    requires |parts| >= 1
    requires forall i :: 0 <= i < |parts| ==> sep !in parts[i]
    ensures Split(Join(parts, sep), sep) == parts
  {
    if |parts| > 1 {
      var tail := parts[1..];
      SplitJoin(tail, sep);
      assert parts == [parts[0]] + tail;
      JoinFront(parts[0], tail, sep);
      SplitAtSeparator(parts[0], Join(tail, sep), sep);
    }
  }

  /** Splitting stops at the first separator. */
  lemma SplitAtSeparator(a: string, b: string, sep: char)
    requires sep !in a
    ensures Split(a + [sep] + b, sep) == [a] + Split(b, sep)
  {
    var j := a + [sep] + b;
    assert j[|a|] == sep && j[..|a|] == a && j[|a| + 1..] == b;
    IndexOfIs(j, sep, |a|);
  }

  /** `IndexOf` finds the first occurrence, wherever that is. */
  lemma {:induction false} IndexOfIs(s: string, c: char, k: nat)
    requires k < |s| && s[k] == c && c !in s[..k]
    ensures IndexOf(s, c) == k
  {
    if k > 0 {
      assert s[0] == s[..k][0];
      assert s[1..][..k - 1] == s[..k][1..];
      IndexOfIs(s[1..], c, k - 1);
    }
  }

  /** `String.prototype.repeat`. */
  function Repeat(c: char, n: nat): (r: string)
    ensures |r| == n
    ensures forall i :: 0 <= i < n ==> r[i] == c
  {
    seq(n, _ => c)
  }
}
