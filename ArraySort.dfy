/** `Array.prototype.sort(comparefn)`. ECMA-262 (ES2019, section 22.1.3.27) requires the sort to be
    stable and to work in place; the order it produces is fixed once the comparator is consistent.
    The model sorts the array in place by insertion, and is proved equal to a functional reference
    `StableSort`. `SortUnique` shows that every stable sort returns the same permutation for a
    consistent comparator, so any conforming engine's sort agrees with this one. */
module ArraySort {
  import opened Collections

  /** `x` placed after every element of `l` that does not compare greater than it. */
  function Insert<T>(x: T, l: seq<T>, cmp: (T, T) -> int): (r: seq<T>)
    ensures |r| == |l| + 1
  {
    if l == [] || cmp(l[|l| - 1], x) <= 0 then l + [x]
    else Insert(x, l[..|l| - 1], cmp) + [l[|l| - 1]]
  }

  /** Inserting adds exactly `x` to the elements. */
  lemma {:induction false} InsertPermutes<T>(x: T, l: seq<T>, cmp: (T, T) -> int)
    ensures multiset(Insert(x, l, cmp)) == multiset(l) + multiset{x}
  {
    if !(l == [] || cmp(l[|l| - 1], x) <= 0) {
      var init := l[..|l| - 1];
      assert l == init + [l[|l| - 1]];
      InsertPermutes(x, init, cmp);
    }
  }

  /** The reference stable sort: insert each element, left to right, into the sorted prefix. */
  function StableSort<T>(s: seq<T>, cmp: (T, T) -> int): (r: seq<T>)
    ensures |r| == |s|
  {
    if s == [] then []
    else Insert(s[|s| - 1], StableSort(s[..|s| - 1], cmp), cmp)
  }

  /** The reference sort is a permutation. */
  lemma {:induction false} SortPermutes<T>(s: seq<T>, cmp: (T, T) -> int)
    ensures multiset(StableSort(s, cmp)) == multiset(s)
  {
    if s != [] {
      var init := s[..|s| - 1];
      assert s == init + [s[|s| - 1]];
      SortPermutes(init, cmp);
      InsertPermutes(s[|s| - 1], StableSort(init, cmp), cmp);
    }
  }

  /** A consistent comparator (ECMA-262): the sign of `cmp(a, b)` is the opposite of that of
      `cmp(b, a)`, and "not greater" is transitive. */
  ghost predicate Consistent<T(!new)>(cmp: (T, T) -> int) {
    && (forall a, b :: cmp(a, b) < 0 <==> cmp(b, a) > 0)
    && (forall a, b, c :: NotAfterChain(cmp, a, b, c) ==> cmp(a, c) <= 0)
  }

  /** `a` does not compare greater than `b`, nor `b` than `c`. */
  ghost predicate NotAfterChain<T>(cmp: (T, T) -> int, a: T, b: T, c: T) {
    cmp(a, b) <= 0 && cmp(b, c) <= 0
  }

  lemma Transitive<T(!new)>(cmp: (T, T) -> int, a: T, b: T, c: T)
    requires Consistent(cmp) && cmp(a, b) <= 0 && cmp(b, c) <= 0
    ensures cmp(a, c) <= 0
  {
    assert NotAfterChain(cmp, a, b, c);
  }

  ghost predicate SortedBy<T>(s: seq<T>, cmp: (T, T) -> int) {
    forall i, j :: 0 <= i < j < |s| ==> cmp(s[i], s[j]) <= 0
  }

  /** Keeping some elements of a sorted sequence keeps it sorted. */
  lemma {:induction false} FilterSorted<T>(p: T -> bool, s: seq<T>, cmp: (T, T) -> int)
    requires SortedBy(s, cmp)
    ensures SortedBy(Filter(p, s), cmp)
  {
    if s != [] {
      var rest := Filter(p, s[1..]);
      TailSorted(s, cmp);
      FilterSorted(p, s[1..], cmp);
      if p(s[0]) {
        assert NoneBefore(s[0], s[1..], cmp) by {
          forall k | 0 <= k < |s[1..]| ensures cmp(s[0], s[1..][k]) <= 0 {
            assert s[1..][k] == s[k + 1];
          }
        }
        FilterNoneBefore(p, s[0], s[1..], cmp);
        SortedCons(s[0], rest, cmp);
        assert Filter(p, s) == [s[0]] + rest;
      } else {
        assert Filter(p, s) == rest;
      }
    }
  }

  /** No element of `t` compares less than `x`. */
  ghost predicate NoneBefore<T>(x: T, t: seq<T>, cmp: (T, T) -> int) {
    forall k :: 0 <= k < |t| ==> cmp(x, t[k]) <= 0
  }

  lemma FilterNoneBefore<T>(p: T -> bool, x: T, t: seq<T>, cmp: (T, T) -> int)
    requires NoneBefore(x, t, cmp)
    ensures NoneBefore(x, Filter(p, t), cmp)
  {
    var f := Filter(p, t);
    forall k | 0 <= k < |f| ensures cmp(x, f[k]) <= 0 {
      var m :| 0 <= m < |t| && t[m] == f[k];
    }
  }

  lemma SortedCons<T>(x: T, t: seq<T>, cmp: (T, T) -> int)
    requires NoneBefore(x, t, cmp) && SortedBy(t, cmp)
    ensures SortedBy([x] + t, cmp)
  {
    var r := [x] + t;
    forall i, j | 0 <= i < j < |r| ensures cmp(r[i], r[j]) <= 0 {
      assert r[j] == t[j - 1];
      if i > 0 {
        assert r[i] == t[i - 1];
      }
    }
  }

  /** Both parts of a split of a sorted sequence stay sorted, and the split puts every element
      passing `p` first. */
  lemma PartitionOrdered<T>(p: T -> bool, q: T -> bool, s: seq<T>, cmp: (T, T) -> int, i: nat, j: nat)
    requires forall k :: 0 <= k < |s| ==> q(s[k]) == !p(s[k])
    requires SortedBy(s, cmp)
    requires i < j < |Filter(p, s) + Filter(q, s)|
    ensures var r := Filter(p, s) + Filter(q, s);
            (p(r[i]) == p(r[j]) ==> cmp(r[i], r[j]) <= 0) && (p(r[j]) ==> p(r[i]))
  {
    var first, second := Filter(p, s), Filter(q, s);
    if j < |first| {
      FilterSorted(p, s, cmp);
      PartFirst(first, second, i, j);
    } else if i >= |first| {
      FilterSorted(q, s, cmp);
      ComplementFails(p, q, s, i - |first|);
      ComplementFails(p, q, s, j - |first|);
      PartSecond(first, second, i, j);
    } else {
      ComplementFails(p, q, s, j - |first|);
      PartFirst(first, second, i, i);
      PartSecond(first, second, j, j);
    }
  }

  /** What the filter by the complement keeps fails `p`. */
  lemma ComplementFails<T>(p: T -> bool, q: T -> bool, s: seq<T>, k: nat)
    requires forall k :: 0 <= k < |s| ==> q(s[k]) == !p(s[k])
    requires k < |Filter(q, s)|
    ensures !p(Filter(q, s)[k])
  {
    var m :| 0 <= m < |s| && s[m] == Filter(q, s)[k];
  }

  lemma PartFirst<T>(first: seq<T>, second: seq<T>, i: nat, j: nat)
    requires i <= j < |first|
    ensures (first + second)[i] == first[i] && (first + second)[j] == first[j]
  {
  }

  lemma PartSecond<T>(first: seq<T>, second: seq<T>, i: nat, j: nat)
    requires |first| <= i <= j < |first| + |second|
    ensures (first + second)[i] == second[i - |first|] && (first + second)[j] == second[j - |first|]
  {
  }

  /** The elements of `s` that compare equal to `m`, in their order in `s`. */
  function Ties<T(==)>(s: seq<T>, m: T, cmp: (T, T) -> int): seq<T> {
    Filter(TiesWith(m, cmp), s)
  }

  /** The test "compares equal to `m`". */
  function TiesWith<T>(m: T, cmp: (T, T) -> int): T -> bool {
    x => cmp(x, m) == 0
  }

  /** `r` keeps every group of mutually equal elements of `s` in its original order. */
  ghost predicate StableFor<T(!new)>(r: seq<T>, s: seq<T>, cmp: (T, T) -> int) {
    forall m :: Ties(r, m, cmp) == Ties(s, m, cmp)
  }

  lemma ConsistentZero<T(!new)>(cmp: (T, T) -> int, a: T, b: T)
    requires Consistent(cmp)
    ensures cmp(a, a) == 0
    ensures cmp(a, b) == 0 <==> cmp(b, a) == 0
    ensures cmp(a, b) <= 0 && cmp(b, a) <= 0 ==> cmp(a, b) == 0
  {
  }

  lemma {:induction false} InsertSorted<T(!new)>(x: T, l: seq<T>, cmp: (T, T) -> int)
    requires Consistent(cmp) && SortedBy(l, cmp)
    ensures SortedBy(Insert(x, l, cmp), cmp)
  {
    if l == [] || cmp(l[|l| - 1], x) <= 0 {
      forall i | 0 <= i < |l| ensures cmp(l[i], x) <= 0 {
        if i < |l| - 1 { Transitive(cmp, l[i], l[|l| - 1], x); }
      }
    } else {
      var init, last := l[..|l| - 1], l[|l| - 1];
      assert SortedBy(init, cmp);
      InsertSorted(x, init, cmp);
      var ins := Insert(x, init, cmp);
      InsertPermutes(x, init, cmp);
      forall i | 0 <= i < |ins| ensures cmp(ins[i], last) <= 0 {
        assert ins[i] in multiset(ins);
        if ins[i] != x {
          assert ins[i] in init;
        }
      }
    }
  }

  lemma {:induction false} SortSorted<T(!new)>(s: seq<T>, cmp: (T, T) -> int)
    requires Consistent(cmp)
    ensures SortedBy(StableSort(s, cmp), cmp)
  {
    if s != [] {
      SortSorted(s[..|s| - 1], cmp);
      InsertSorted(s[|s| - 1], StableSort(s[..|s| - 1], cmp), cmp);
    }
  }

  lemma {:induction false} InsertTies<T(!new)>(x: T, l: seq<T>, m: T, cmp: (T, T) -> int)
    requires Consistent(cmp)
    ensures Ties(Insert(x, l, cmp), m, cmp) == Ties(l, m, cmp) + (if cmp(x, m) == 0 then [x] else [])
  {
    var p := TiesWith(m, cmp);
    if l == [] || cmp(l[|l| - 1], x) <= 0 {
      assert Insert(x, l, cmp) == l + [x];
      FilterSnoc(p, l, x);
    } else {
      var init, last := l[..|l| - 1], l[|l| - 1];
      assert l == init + [last];
      assert Insert(x, l, cmp) == Insert(x, init, cmp) + [last];
      InsertTies(x, init, m, cmp);
      FilterSnoc(p, Insert(x, init, cmp), last);
      FilterSnoc(p, init, last);
      NotBothTie(x, last, m, cmp);
      SwapEmpty(Ties(init, m, cmp), if cmp(x, m) == 0 then [x] else [], if cmp(last, m) == 0 then [last] else []);
    }
  }

  /** An element that compares greater than `x` cannot tie with the same value as `x`. */
  lemma NotBothTie<T(!new)>(x: T, y: T, m: T, cmp: (T, T) -> int)
    requires Consistent(cmp) && cmp(y, x) > 0
    ensures !(cmp(x, m) == 0 && cmp(y, m) == 0)
  {
    if cmp(x, m) == 0 && cmp(y, m) == 0 {
      ConsistentZero(cmp, x, m);
      Transitive(cmp, y, m, x);
    }
  }

  lemma SwapEmpty<T>(a: seq<T>, b: seq<T>, c: seq<T>)
    requires b == [] || c == []
    ensures a + b + c == a + c + b
  {
  }

  /** `StableSort` keeps each group of equal elements in input order. */
  lemma {:induction false} SortStable<T(!new)>(s: seq<T>, cmp: (T, T) -> int)
    requires Consistent(cmp)
    ensures StableFor(StableSort(s, cmp), s, cmp)
  {
    forall m ensures Ties(StableSort(s, cmp), m, cmp) == Ties(s, m, cmp) {
      SortStableAt(s, m, cmp);
    }
  }

  lemma {:induction false} SortStableAt<T(!new)>(s: seq<T>, m: T, cmp: (T, T) -> int)
    requires Consistent(cmp)
    ensures Ties(StableSort(s, cmp), m, cmp) == Ties(s, m, cmp)
  {
    if s != [] {
      var init, last := s[..|s| - 1], s[|s| - 1];
      SortStableAt(init, m, cmp);
      InsertTies(last, StableSort(init, cmp), m, cmp);
      assert s == init + [last];
      FilterSnoc(TiesWith(m, cmp), init, last);
    }
  }

  /** Two sorted, stable arrangements of the same elements are equal: for a consistent comparator
      the result of a stable sort is determined. */
  lemma {:induction false} SortUnique<T(!new)>(r1: seq<T>, r2: seq<T>, cmp: (T, T) -> int)
    requires Consistent(cmp)
    requires multiset(r1) == multiset(r2)
    requires SortedBy(r1, cmp) && SortedBy(r2, cmp)
    requires StableFor(r1, r2, cmp)
    ensures r1 == r2
  {
    if r1 == [] || r2 == [] {
      assert |r1| == |multiset(r1)| == |multiset(r2)| == |r2|;
    } else {
      HeadsTie(r1, r2, cmp);
      HeadsEqual(r1, r2, cmp);
      TailsStable(r1, r2, cmp);
      TailsPermute(r1, r2);
      TailSorted(r1, cmp);
      TailSorted(r2, cmp);
      SortUnique(r1[1..], r2[1..], cmp);
      SameHeadSameTail(r1, r2);
    }
  }

  lemma TailsPermute<T>(r1: seq<T>, r2: seq<T>)
    requires multiset(r1) == multiset(r2) && r1 != [] && r2 != [] && r1[0] == r2[0]
    ensures multiset(r1[1..]) == multiset(r2[1..])
  {
    assert r1 == [r1[0]] + r1[1..] && r2 == [r2[0]] + r2[1..];
    assert multiset(r1[1..]) == multiset(r1) - multiset{r1[0]};
    assert multiset(r2[1..]) == multiset(r2) - multiset{r2[0]};
  }

  lemma TailSorted<T>(r: seq<T>, cmp: (T, T) -> int)
    requires SortedBy(r, cmp) && r != []
    ensures SortedBy(r[1..], cmp)
  {
    forall i, j | 0 <= i < j < |r| - 1 ensures cmp(r[1..][i], r[1..][j]) <= 0 {
      assert r[1..][i] == r[i + 1] && r[1..][j] == r[j + 1];
    }
  }

  lemma SameHeadSameTail<T>(r1: seq<T>, r2: seq<T>)
    requires r1 != [] && r2 != [] && r1[0] == r2[0] && r1[1..] == r2[1..]
    ensures r1 == r2
  {
    assert r1 == [r1[0]] + r1[1..] && r2 == [r2[0]] + r2[1..];
  }

  /** Stability forces two arrangements whose first elements tie to start with the same element. */
  lemma HeadsEqual<T(!new)>(r1: seq<T>, r2: seq<T>, cmp: (T, T) -> int)
    requires Consistent(cmp) && r1 != [] && r2 != []
    requires cmp(r1[0], r2[0]) == 0
    requires StableFor(r1, r2, cmp)
    ensures r1[0] == r2[0]
  {
    var x := r1[0];
    ConsistentZero(cmp, x, r2[0]);
    TiesCons(r1, x, cmp);
    TiesCons(r2, x, cmp);
    assert Ties(r1, x, cmp) == Ties(r2, x, cmp);
    assert Ties(r1, x, cmp)[0] == x;
  }

  lemma TailsStable<T(!new)>(r1: seq<T>, r2: seq<T>, cmp: (T, T) -> int)
    requires r1 != [] && r2 != [] && r1[0] == r2[0]
    requires StableFor(r1, r2, cmp)
    ensures StableFor(r1[1..], r2[1..], cmp)
  {
    forall m ensures Ties(r1[1..], m, cmp) == Ties(r2[1..], m, cmp) {
      TiesCons(r1, m, cmp);
      TiesCons(r2, m, cmp);
      var head := if cmp(r1[0], m) == 0 then [r1[0]] else [];
      assert Ties(r1, m, cmp) == Ties(r2, m, cmp);
      assert Ties(r1[1..], m, cmp) == Ties(r1, m, cmp)[|head|..];
      assert Ties(r2[1..], m, cmp) == Ties(r2, m, cmp)[|head|..];
    }
  }

  /** The first elements of two sorted arrangements of the same elements compare equal. */
  lemma HeadsTie<T(!new)>(r1: seq<T>, r2: seq<T>, cmp: (T, T) -> int)
    requires Consistent(cmp)
    requires multiset(r1) == multiset(r2) && r1 != [] && r2 != []
    requires SortedBy(r1, cmp) && SortedBy(r2, cmp)
    ensures cmp(r1[0], r2[0]) == 0
  {
    assert r2[0] in multiset(r1) && r1[0] in multiset(r2);
    var k1 :| 0 <= k1 < |r1| && r1[k1] == r2[0];
    var k2 :| 0 <= k2 < |r2| && r2[k2] == r1[0];
    ConsistentZero(cmp, r1[0], r2[0]);
    assert cmp(r1[0], r2[0]) <= 0 by { if k1 == 0 { ConsistentZero(cmp, r1[0], r1[0]); } }
    assert cmp(r2[0], r1[0]) <= 0 by { if k2 == 0 { ConsistentZero(cmp, r2[0], r2[0]); } }
  }

  lemma TiesCons<T>(r: seq<T>, m: T, cmp: (T, T) -> int)
    requires r != []
    ensures Ties(r, m, cmp) == (if cmp(r[0], m) == 0 then [r[0]] else []) + Ties(r[1..], m, cmp)
  {
  }

  /** Any permutation of `s` that is sorted and keeps equal elements in input order is
      `StableSort(s)`. */
  lemma StableSortCharacterized<T(!new)>(s: seq<T>, r: seq<T>, cmp: (T, T) -> int)
    requires Consistent(cmp)
    requires multiset(r) == multiset(s) && SortedBy(r, cmp) && StableFor(r, s, cmp)
    ensures r == StableSort(s, cmp)
  {
    SortSorted(s, cmp);
    SortStable(s, cmp);
    SortPermutes(s, cmp);
    SortUnique(r, StableSort(s, cmp), cmp);
  }

  /** Sorting what is already sorted changes nothing. */
  lemma SortOfSorted<T(!new)>(s: seq<T>, cmp: (T, T) -> int)
    requires Consistent(cmp) && SortedBy(s, cmp)
    ensures StableSort(s, cmp) == s
  {
    StableSortCharacterized(s, s, cmp);
  }

  /** The in-place sort: `a` afterwards holds `StableSort` of what it held before. */
  method Sort<T>(a: array<T>, cmp: (T, T) -> int)
    modifies a
    ensures a[..] == StableSort(old(a[..]), cmp)
  {
    ghost var s := a[..];
    var i := 0;
    while i < a.Length
      invariant 0 <= i <= a.Length
      invariant a[..i] == StableSort(s[..i], cmp)
      invariant forall k :: i <= k < a.Length ==> a[k] == s[k]
    {
      InsertNext(a, i, cmp);
      SortStep(s, i, cmp);
      i := i + 1;
    }
    assert a[..] == a[..a.Length] && s == s[..a.Length];
  }

  /** Sorting one more element is inserting it into the sorted prefix. */
  lemma SortStep<T>(s: seq<T>, i: nat, cmp: (T, T) -> int)
    requires i < |s|
    ensures StableSort(s[..i + 1], cmp) == Insert(s[i], StableSort(s[..i], cmp), cmp)
  {
    assert s[..i + 1][..i] == s[..i];
  }

  /** One pass of insertion: `a[i]` moves left past every larger element of the sorted `a[..i]`. */
  method InsertNext<T>(a: array<T>, i: nat, cmp: (T, T) -> int)
    requires i < a.Length
    modifies a
    ensures a[..i + 1] == Insert(old(a[i]), old(a[..i]), cmp)
    ensures forall k :: i < k < a.Length ==> a[k] == old(a[k])
  {
    ghost var sorted := a[..i];
    var key := a[i];
    var j := ShiftLarger(a, i, key, cmp);
    InsertPosition(key, sorted, j, cmp);
    a[j] := key;
    Assemble(a[..], sorted, key, i, j);
  }

  /** The loop of the pass: every element of `a[..i]` left of `i` that compares greater than `key`
      moves one place right, starting from the end; `j` is the gap left behind. */
  method ShiftLarger<T>(a: array<T>, i: nat, key: T, cmp: (T, T) -> int) returns (j: nat)
    requires i < a.Length
    modifies a
    ensures j <= i
    ensures forall k :: 0 <= k < j ==> a[k] == old(a[k])
    ensures forall k :: j < k <= i ==> a[k] == old(a[k - 1])
    ensures forall k :: i < k < a.Length ==> a[k] == old(a[k])
    ensures j == 0 || cmp(old(a[j - 1]), key) <= 0
    ensures forall k :: j <= k < i ==> cmp(old(a[k]), key) > 0
  {
    j := i;
    while j > 0 && cmp(a[j - 1], key) > 0
      invariant j <= i
      invariant forall k :: 0 <= k < j ==> a[k] == old(a[k])
      invariant forall k :: j < k <= i ==> a[k] == old(a[k - 1])
      invariant forall k :: i < k < a.Length ==> a[k] == old(a[k])
      invariant forall k :: j <= k < i ==> cmp(old(a[k]), key) > 0
    {
      a[j] := a[j - 1];
      j := j - 1;
    }
  }

  /** `Insert` puts `x` right after the elements that do not compare greater than it, when
      everything from `j` on compares greater. */
  lemma {:induction false} InsertPosition<T>(x: T, l: seq<T>, j: nat, cmp: (T, T) -> int)
    requires j <= |l| && (j == 0 || cmp(l[j - 1], x) <= 0)
    requires forall k :: j <= k < |l| ==> cmp(l[k], x) > 0
    ensures Insert(x, l, cmp) == l[..j] + [x] + l[j..]
  {
    if j == |l| {
      assert l[..j] == l && l[j..] == [];
    } else {
      var init, last := l[..|l| - 1], l[|l| - 1];
      assert Insert(x, l, cmp) == Insert(x, init, cmp) + [last];
      assert j == 0 || init[j - 1] == l[j - 1];
      assert forall k :: j <= k < |init| ==> init[k] == l[k];
      InsertPosition(x, init, j, cmp);
      SplitAround(l, j);
    }
  }

  lemma SplitAround<T>(l: seq<T>, j: nat)
    requires j < |l|
    ensures l[..|l| - 1][..j] == l[..j] && l[..|l| - 1][j..] + [l[|l| - 1]] == l[j..]
  {
  }

  /** The array after the pass, read as a sequence: the sorted prefix with `key` placed at `j`. */
  lemma Assemble<T>(b: seq<T>, sorted: seq<T>, key: T, i: nat, j: nat)
    requires |sorted| == i < |b| && j <= i && b[j] == key
    requires forall k :: 0 <= k < j ==> b[k] == sorted[k]
    requires forall k :: j < k <= i ==> b[k] == sorted[k - 1]
    ensures b[..i + 1] == sorted[..j] + [key] + sorted[j..]
  {
    var r := sorted[..j] + [key] + sorted[j..];
    forall k | 0 <= k <= i ensures b[k] == r[k] {
      if k < j {
        assert r[k] == sorted[k];
      } else if k > j {
        assert r[k] == sorted[k - 1];
      }
    }
  }

}
