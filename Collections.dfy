/** Sequence operations that the JavaScript source uses through Array built-ins:
    `filter`, `map`, `includes`, and the insertion-ordered de-duplication of `new Set(...)`. */
module Collections {

  datatype Option<T> = None | Some(value: T) {
    function GetOr(default: T): T {
      match this
      case Some(v) => v
      case None => default
    }
  }

  /** `Array.prototype.filter`: the elements satisfying `p`, in their original order. */
  function Filter<T(==)>(p: T -> bool, s: seq<T>): (r: seq<T>)
    ensures |r| <= |s|
    ensures forall i :: 0 <= i < |r| ==> r[i] in s && p(r[i])
    ensures forall i :: 0 <= i < |s| && p(s[i]) ==> s[i] in r
  {
    if s == [] then [] else (if p(s[0]) then [s[0]] else []) + Filter(p, s[1..])
  }

  /** `Array.prototype.map`. */
  function Map<T, U>(f: T -> U, s: seq<T>): (r: seq<U>)
    ensures |r| == |s|
    ensures forall i :: 0 <= i < |s| ==> r[i] == f(s[i])
  {
    seq(|s|, i requires 0 <= i < |s| => f(s[i]))
  }

  /** `r` is `s` with some elements left out and the rest in their original order. */
  predicate IsSubsequence<T(==)>(r: seq<T>, s: seq<T>)
    decreases |s|
  {
    if r == [] then true
    else if s == [] then false
    else if r[0] == s[0] then IsSubsequence(r[1..], s[1..])
    else IsSubsequence(r, s[1..])
  }

  predicate NoDuplicates<T(==)>(s: seq<T>) {
    forall i, j :: 0 <= i < j < |s| ==> s[i] != s[j]
  }

  /** The position of the first occurrence of `x` in `s`. */
  function FirstIndex<T(==)>(s: seq<T>, x: T): (k: nat)
    requires x in s
    ensures k < |s| && s[k] == x && x !in s[..k]
  {
    if s[0] == x then 0
    else
      var k := FirstIndex(s[1..], x);
      assert s[..k + 1] == [s[0]] + s[1..][..k];
      k + 1
  }

  /** Appending to `s` does not move the first occurrence of an element `s` already has. */
  lemma {:induction false} FirstIndexOfPrefix<T>(s: seq<T>, x: T, y: T)
    requires y in s
    ensures FirstIndex(s + [x], y) == FirstIndex(s, y)
  {
    if s[0] != y {
      assert (s + [x])[1..] == s[1..] + [x];
      FirstIndexOfPrefix(s[1..], x, y);
    }
  }

  /** An element absent from `s` first occurs in `s + [x]` at the end. */
  lemma {:induction false} FirstIndexOfLast<T>(s: seq<T>, x: T)
    requires x !in s
    ensures FirstIndex(s + [x], x) == |s|
  {
    if s != [] {
      assert (s + [x])[1..] == s[1..] + [x];
      FirstIndexOfLast(s[1..], x);
    }
  }

  /** The iteration order of `new Set(s)`: each value once, at its first occurrence. */
  function Dedup<T(==)>(s: seq<T>): (r: seq<T>)
    ensures NoDuplicates(r)
    ensures forall i :: 0 <= i < |r| ==> r[i] in s
    ensures forall i :: 0 <= i < |s| ==> s[i] in r
  {
    if s == [] then []
    else
      var d := Dedup(s[..|s| - 1]);
      assert forall i :: 0 <= i < |s| - 1 ==> s[i] == s[..|s| - 1][i];
      if s[|s| - 1] in d then d else d + [s[|s| - 1]]
  }

  /** `Dedup` lists the values in the order of their first occurrences in `s`. */
  lemma {:induction false} DedupFirstOrder<T>(s: seq<T>)
    ensures FirstOrdered(Dedup(s), s)
  {
    if s != [] {
      var p, x := s[..|s| - 1], s[|s| - 1];
      DedupFirstOrder(p);
      assert s == p + [x];
      DedupStep(p, x);
    }
  }

  /** Every element of `r` occurs in `s`, and `r` lists them by their first occurrence in `s`. */
  predicate FirstOrdered<T(==)>(r: seq<T>, s: seq<T>) {
    && (forall i :: 0 <= i < |r| ==> r[i] in s)
    && forall i, j :: 0 <= i < j < |r| ==> FirstIndex(s, r[i]) < FirstIndex(s, r[j])
  }

  lemma DedupStep<T>(p: seq<T>, x: T)
    requires FirstOrdered(Dedup(p), p)
    ensures FirstOrdered(Dedup(p + [x]), p + [x])
  {
    var s := p + [x];
    var d := Dedup(p);
    assert s[..|s| - 1] == p && s[|s| - 1] == x;
    var r := Dedup(s);
    assert r == if x in d then d else d + [x];
    if x !in d {
      forall i | 0 <= i < |p| ensures p[i] != x {
        assert p[i] in d;
      }
      assert x !in p;
    }
    forall i, j | 0 <= i < j < |r| ensures FirstIndex(s, r[i]) < FirstIndex(s, r[j]) {
      assert r[i] == d[i];
      if j < |d| {
        assert r[j] == d[j];
        PairOrder(p, x, d[i], d[j]);
      } else {
        LastAfter(p, x, d[i]);
      }
    }
  }

  lemma PairOrder<T>(p: seq<T>, x: T, a: T, b: T)
    requires a in p && b in p && FirstIndex(p, a) < FirstIndex(p, b)
    ensures FirstIndex(p + [x], a) < FirstIndex(p + [x], b)
  {
    FirstIndexOfPrefix(p, x, a);
    FirstIndexOfPrefix(p, x, b);
  }

  lemma LastAfter<T>(p: seq<T>, x: T, a: T)
    requires a in p && x !in p
    ensures FirstIndex(p + [x], a) < FirstIndex(p + [x], x)
  {
    FirstIndexOfPrefix(p, x, a);
    FirstIndexOfLast(p, x);
  }

  lemma {:induction false} FilterAll<T>(p: T -> bool, s: seq<T>)
    requires forall i :: 0 <= i < |s| ==> p(s[i])
    ensures Filter(p, s) == s
  {
    if s != [] {
      FilterAll(p, s[1..]);
    }
  }

  lemma {:induction false} FilterNone<T>(p: T -> bool, s: seq<T>)
    requires forall i :: 0 <= i < |s| ==> !p(s[i])
    ensures Filter(p, s) == []
  {
    if s != [] {
      FilterNone(p, s[1..]);
    }
  }

  lemma {:induction false} FilterConcat<T>(p: T -> bool, s: seq<T>, t: seq<T>)
    ensures Filter(p, s + t) == Filter(p, s) + Filter(p, t)
  {
    if s == [] {
      assert s + t == t;
    } else {
      assert (s + t)[1..] == s[1..] + t;
      FilterConcat(p, s[1..], t);
    }
  }

  /** Filtering the last element off is the same as filtering the prefix and then the last one. */
  lemma FilterSnoc<T>(p: T -> bool, s: seq<T>, x: T)
    ensures Filter(p, s + [x]) == Filter(p, s) + (if p(x) then [x] else [])
  {
    FilterConcat(p, s, [x]);
    assert Filter(p, [x]) == (if p(x) then [x] else []) + Filter(p, []);
  }

  /** Filtering depends only on which elements pass the test. */
  lemma {:induction false} FilterExtensional<T>(p: T -> bool, q: T -> bool, s: seq<T>)
    requires forall i :: 0 <= i < |s| ==> p(s[i]) == q(s[i])
    ensures Filter(p, s) == Filter(q, s)
  {
    if s != [] {
      FilterExtensional(p, q, s[1..]);
    }
  }

  /** Two filters can be applied in either order. */
  lemma {:induction false} FilterCommute<T>(p: T -> bool, q: T -> bool, s: seq<T>)
    ensures Filter(p, Filter(q, s)) == Filter(q, Filter(p, s))
  {
    if s != [] {
      FilterCommute(p, q, s[1..]);
      assert Filter(q, s) == (if q(s[0]) then [s[0]] else []) + Filter(q, s[1..]);
      assert Filter(p, s) == (if p(s[0]) then [s[0]] else []) + Filter(p, s[1..]);
      FilterConcat(p, if q(s[0]) then [s[0]] else [], Filter(q, s[1..]));
      FilterConcat(q, if p(s[0]) then [s[0]] else [], Filter(p, s[1..]));
      assert Filter(p, [s[0]]) == (if p(s[0]) then [s[0]] else []) + Filter(p, []);
      assert Filter(q, [s[0]]) == (if q(s[0]) then [s[0]] else []) + Filter(q, []);
    }
  }

  lemma {:induction false} FilterIsSubsequence<T>(p: T -> bool, s: seq<T>)
    ensures IsSubsequence(Filter(p, s), s)
  {
    if s != [] {
      FilterIsSubsequence(p, s[1..]);
      if p(s[0]) {
        assert Filter(p, s) == [s[0]] + Filter(p, s[1..]);
        assert Filter(p, s)[1..] == Filter(p, s[1..]);
      } else {
        assert Filter(p, s) == Filter(p, s[1..]);
      }
    }
  }

  /** Filtering twice with the same predicate changes nothing the second time. */
  lemma FilterIdempotent<T>(p: T -> bool, s: seq<T>)
    ensures Filter(p, Filter(p, s)) == Filter(p, s)
  {
    FilterAll(p, Filter(p, s));
  }

  /** Filtering by a test and by its negation splits the multiset of `s` in two. */
  lemma FilterComplement<T>(p: T -> bool, q: T -> bool, s: seq<T>)
    requires forall i :: 0 <= i < |s| ==> q(s[i]) == !p(s[i])
    ensures multiset(Filter(p, s)) + multiset(Filter(q, s)) == multiset(s)
  {
    forall x ensures multiset(Filter(p, s))[x] + multiset(Filter(q, s))[x] == multiset(s)[x] {
      FilterCount(p, s, x);
      FilterCount(q, s, x);
      if x in s {
        var i :| 0 <= i < |s| && s[i] == x;
        assert q(s[i]) == !p(s[i]);
      }
    }
    assert multiset(Filter(p, s)) + multiset(Filter(q, s)) == multiset(s);
  }

  /** `Filter` keeps every copy of an element that passes and no copy of one that fails. */
  lemma {:induction false} FilterCount<T>(p: T -> bool, s: seq<T>, x: T)
    ensures multiset(Filter(p, s))[x] == if p(x) then multiset(s)[x] else 0
  {
    if s != [] {
      var t := s[1..];
      FilterCount(p, t, x);
      assert s == [s[0]] + t;
      assert multiset(s) == multiset([s[0]]) + multiset(t);
      if p(s[0]) {
        assert multiset(Filter(p, s)) == multiset([s[0]]) + multiset(Filter(p, t));
      } else {
        assert Filter(p, s) == Filter(p, t);
      }
    }
  }

  /** `FilterCount` for every element at once. */
  lemma FilterCounts<T>(p: T -> bool, s: seq<T>)
    ensures forall x :: multiset(Filter(p, s))[x] == if p(x) then multiset(s)[x] else 0
  {
    forall x ensures multiset(Filter(p, s))[x] == if p(x) then multiset(s)[x] else 0 {
      FilterCount(p, s, x);
    }
  }

  /** Filtering two permutations of each other gives permutations of each other. */
  lemma FilterKeepsPermutation<T>(p: T -> bool, a: seq<T>, b: seq<T>)
    requires multiset(a) == multiset(b)
    ensures multiset(Filter(p, a)) == multiset(Filter(p, b))
  {
    forall x ensures multiset(Filter(p, a))[x] == multiset(Filter(p, b))[x] {
      FilterCount(p, a, x);
      FilterCount(p, b, x);
    }
  }

  /** In `Filter(p, s) + Filter(q, s)` with `q` the negation of `p`, the test `p` keeps the
      first part and `q` the second. */
  lemma {:induction false} PartitionFilter<T(!new)>(p: T -> bool, q: T -> bool, s: seq<T>)
    requires forall x :: q(x) == !p(x)
    ensures Filter(p, Filter(p, s) + Filter(q, s)) == Filter(p, s)
    ensures Filter(q, Filter(p, s) + Filter(q, s)) == Filter(q, s)
  {
    var first, second := Filter(p, s), Filter(q, s);
    FilterConcat(p, first, second);
    FilterConcat(q, first, second);
    FilterIdempotent(p, s);
    FilterIdempotent(q, s);
    FilterNone(p, second);
    FilterNone(q, first);
    assert first + [] == first && [] + second == second;
  }

  lemma {:induction false} SubsequenceElements<T>(r: seq<T>, s: seq<T>)
    requires IsSubsequence(r, s)
    ensures |r| <= |s|
    ensures forall i :: 0 <= i < |r| ==> r[i] in s
    decreases |s|
  {
    if r != [] && s != [] {
      if r[0] == s[0] {
        SubsequenceElements(r[1..], s[1..]);
        assert forall i :: 1 <= i < |r| ==> r[i] == r[1..][i - 1];
      } else {
        SubsequenceElements(r, s[1..]);
      }
    }
  }

  /** A subsequence of a duplicate-free sequence is duplicate-free. */
  lemma {:induction false} SubsequenceNoDuplicates<T>(r: seq<T>, s: seq<T>)
    requires IsSubsequence(r, s) && NoDuplicates(s)
    ensures NoDuplicates(r)
    decreases |s|
  {
    if r != [] && s != [] {
      assert NoDuplicates(s[1..]) by {
        forall i, j | 0 <= i < j < |s[1..]| ensures s[1..][i] != s[1..][j] {
          assert s[1..][i] == s[i + 1] && s[1..][j] == s[j + 1];
        }
      }
      if r[0] == s[0] {
        SubsequenceNoDuplicates(r[1..], s[1..]);
        SubsequenceElements(r[1..], s[1..]);
        forall i, j | 0 <= i < j < |r| ensures r[i] != r[j] {
          if i == 0 {
            assert r[j] == r[1..][j - 1];
            assert r[j] in s[1..];
            var k :| 0 <= k < |s[1..]| && s[1..][k] == r[j];
            assert s[k + 1] == r[j];
          } else {
            assert r[i] == r[1..][i - 1] && r[j] == r[1..][j - 1];
          }
        }
      } else {
        SubsequenceNoDuplicates(r, s[1..]);
      }
    }
  }

  /** A duplicate-free sequence is its own de-duplication. */
  lemma {:induction false} DedupOfDistinct<T>(s: seq<T>)
    requires NoDuplicates(s)
    ensures Dedup(s) == s
  {
    if s != [] {
      var init := s[..|s| - 1];
      assert NoDuplicates(init);
      DedupOfDistinct(init);
      assert s[|s| - 1] !in init;
      assert init + [s[|s| - 1]] == s;
    }
  }
}
