/** Array operations of JavaScript that the engine relies on, over Dafny sequences:
    `Array.prototype.slice` with its negative-index rules, `filter`, and the
    stable `sort` (ECMAScript 2019 and later) driven by a comparator. */
module Seqs {

  /** A value that may be absent, as an optional field of an options object. */
  datatype Option<T> = None | Some(value: T)

  /** A value, or the message of the error thrown instead. */
  datatype Result<T> = Ok(value: T) | Err(message: string)

  /** Normalises one `slice` bound the way ECMAScript does: a negative bound
      counts from the end and is clamped at 0, a positive one is clamped at the length. */
  function ClampIndex(rel: int, len: nat): (r: nat)
    ensures r <= len
    ensures rel < 0 && len + rel >= 0 ==> r == len + rel
    ensures rel < 0 && len + rel < 0 ==> r == 0
    ensures rel >= 0 ==> r == if rel <= len then rel else len
  {
    if rel < 0 then (if len + rel < 0 then 0 else len + rel)
    else if rel <= len then rel else len
  }

  /** `s.slice(start, end)`. */
  function Slice<T>(s: seq<T>, start: int, end: int): (r: seq<T>)
    ensures |r| <= |s|
    ensures ClampIndex(start, |s|) < ClampIndex(end, |s|) ==> r == s[ClampIndex(start, |s|)..ClampIndex(end, |s|)]
    ensures ClampIndex(end, |s|) <= ClampIndex(start, |s|) ==> r == []
  {
    var from := ClampIndex(start, |s|);
    var to := ClampIndex(end, |s|);
    if from < to then s[from..to] else []
  }

  /** `s.slice(start)`. */
  function SliceFrom<T>(s: seq<T>, start: int): (r: seq<T>)
    ensures r == s[ClampIndex(start, |s|)..]
  {
    Slice(s, start, |s|)
  }

  /** A non-negative `slice(k)` drops the first `k` elements; a negative one keeps the
      last `-k` (all of them when `-k` exceeds the length). */
  lemma SliceFromCases<T>(s: seq<T>, k: int)
    ensures 0 <= k <= |s| ==> SliceFrom(s, k) == s[k..] && |SliceFrom(s, k)| == |s| - k
    ensures k > |s| ==> SliceFrom(s, k) == []
    ensures k < 0 && -k <= |s| ==> SliceFrom(s, k) == s[|s| + k..] && |SliceFrom(s, k)| == -k
    ensures k < 0 && -k > |s| ==> SliceFrom(s, k) == s
  {
  }

  /** `s.slice(0, -n)`: for a positive `n` it drops the last `n` elements; for a
      negative `n` it keeps the first `-n` elements. */
  lemma SliceDropLastCases<T>(s: seq<T>, n: int)
    ensures 0 < n <= |s| ==> Slice(s, 0, -n) == s[..|s| - n]
    ensures n > |s| ==> Slice(s, 0, -n) == []
    ensures n == 0 ==> Slice(s, 0, -n) == []
    ensures n < 0 && -n <= |s| ==> Slice(s, 0, -n) == s[..-n]
    ensures n < 0 && -n > |s| ==> Slice(s, 0, -n) == s
  {
  }

  /** `s.filter(keep)`, preserving order. */
  function Filter<T(!new)>(s: seq<T>, keep: T -> bool): (r: seq<T>)
    ensures |r| <= |s|
    ensures forall x :: x in r <==> x in s && keep(x)
  {
    if s == [] then []
    else
      var rest := Filter(s[1..], keep);
      assert s == [s[0]] + s[1..];
      if keep(s[0]) then [s[0]] + rest else rest
  }

  /** Filtering distributes over concatenation. */
  lemma {:induction false} FilterAppend<T(!new)>(a: seq<T>, b: seq<T>, keep: T -> bool)
    ensures Filter(a + b, keep) == Filter(a, keep) + Filter(b, keep)
  {
    if a == [] {
      assert a + b == b;
    } else {
      assert (a + b)[1..] == a[1..] + b;
      FilterAppend(a[1..], b, keep);
    }
  }

  /** `before(a, b)` holds when a comparator returns a negative number for (a, b). A
      comparator the engine uses is a strict weak order: irreflexive and transitive,
      with "incomparable" transitive too. */
  ghost predicate StrictWeakOrder<T(!new)>(before: (T, T) -> bool)
  {
    && (forall a :: !before(a, a))
    && (forall a, b, c :: before(a, b) && before(b, c) ==> before(a, c))
    && (forall a, b, c :: !before(a, b) && !before(b, a) && !before(b, c) && !before(c, b) ==> !before(a, c))
  }

  /** No element is placed after one it must precede. */
  ghost predicate SortedBy<T>(s: seq<T>, before: (T, T) -> bool)
  {
    forall i, j :: 0 <= i < j < |s| ==> !before(s[j], s[i])
  }

  /** Inserts `x` after every element it does not strictly precede. */
  function Insert<T>(x: T, s: seq<T>, before: (T, T) -> bool): (r: seq<T>)
    ensures multiset(r) == multiset(s) + multiset{x}
    ensures |r| == |s| + 1
  {
    if s == [] then [x]
    else if before(x, s[0]) then [x] + s
    else
      assert s == [s[0]] + s[1..];
      [s[0]] + Insert(x, s[1..], before)
  }

  /** The stable sort `Array.prototype.sort(comparator)`: each element, taken in the
      original order, goes after the elements already placed that do not follow it. */
  function Sort<T>(s: seq<T>, before: (T, T) -> bool): (r: seq<T>)
    ensures multiset(r) == multiset(s)
    ensures |r| == |s|
  {
    if s == [] then []
    else
      assert s == s[..|s| - 1] + [s[|s| - 1]];
      Insert(s[|s| - 1], Sort(s[..|s| - 1], before), before)
  }

  /** Sorting keeps exactly the elements it is given. */
  lemma SortMembers<T>(s: seq<T>, before: (T, T) -> bool)
    ensures forall x :: x in Sort(s, before) <==> x in s
  {
    var r := Sort(s, before);
    forall x ensures x in r <==> x in s {
      assert x in r <==> x in multiset(r);
      assert x in s <==> x in multiset(s);
    }
  }

  /** Filtering out everything leaves nothing. */
  lemma FilterNone<T(!new)>(s: seq<T>, keep: T -> bool)
    requires forall x :: x in s ==> !keep(x)
    ensures Filter(s, keep) == []
  {
  }

  lemma {:induction false} InsertSorted<T(!new)>(x: T, s: seq<T>, before: (T, T) -> bool)
    requires StrictWeakOrder(before)
    requires SortedBy(s, before)
    ensures SortedBy(Insert(x, s, before), before)
  {
    if s == [] {
    } else if before(x, s[0]) {
      var r := [x] + s;
      forall i, j | 0 <= i < j < |r| ensures !before(r[j], r[i]) {
        if i == 0 {
          assert r[j] == s[j - 1];
          assert j - 1 == 0 || !before(s[j - 1], s[0]);
        } else {
          assert r[i] == s[i - 1] && r[j] == s[j - 1];
        }
      }
    } else {
      InsertSorted(x, s[1..], before);
      var tail := Insert(x, s[1..], before);
      var r := [s[0]] + tail;
      assert multiset(tail) == multiset(s[1..]) + multiset{x};
      forall i, j | 0 <= i < j < |r| ensures !before(r[j], r[i]) {
        if i == 0 {
          assert r[j] in multiset(tail);
          assert r[j] == x || r[j] in s[1..];
          if r[j] != x {
            var k :| 0 <= k < |s[1..]| && s[1..][k] == r[j];
            assert s[k + 1] == r[j];
          }
        } else {
          assert r[i] == tail[i - 1] && r[j] == tail[j - 1];
        }
      }
    }
  }

  /** The sort's result is ordered by the comparator. */
  lemma {:induction false} SortSorted<T(!new)>(s: seq<T>, before: (T, T) -> bool)
    requires StrictWeakOrder(before)
    ensures SortedBy(Sort(s, before), before)
  {
    if s != [] {
      SortSorted(s[..|s| - 1], before);
      InsertSorted(s[|s| - 1], Sort(s[..|s| - 1], before), before);
    }
  }

  /** Filtering keeps the order of what it keeps. */
  lemma {:induction false} FilterSorted<T(!new)>(s: seq<T>, keep: T -> bool, before: (T, T) -> bool)
    requires SortedBy(s, before)
    ensures SortedBy(Filter(s, keep), before)
  {
    if s != [] {
      FilterSorted(s[1..], keep, before);
      var rest := Filter(s[1..], keep);
      if keep(s[0]) {
        var r := [s[0]] + rest;
        forall i, j | 0 <= i < j < |r| ensures !before(r[j], r[i]) {
          if i == 0 {
            assert r[j] in s[1..];
            var k :| 0 <= k < |s[1..]| && s[1..][k] == r[j];
            assert s[k + 1] == r[j];
          } else {
            assert r[i] == rest[i - 1] && r[j] == rest[j - 1];
          }
        }
      }
    }
  }

  /** No element occurs twice. */
  predicate Distinct<T(==)>(s: seq<T>)
  {
    forall i, j :: 0 <= i < j < |s| ==> s[i] != s[j]
  }

  lemma {:induction false} DistinctCounts<T>(s: seq<T>)
    requires Distinct(s)
    ensures forall x :: multiset(s)[x] <= 1
  {
    if s != [] {
      DistinctCounts(s[1..]);
      assert s == [s[0]] + s[1..];
      assert s[0] !in s[1..];
    }
  }

  lemma CountsDistinct<T>(s: seq<T>)
    requires forall x :: multiset(s)[x] <= 1
    ensures Distinct(s)
  {
    forall i, j | 0 <= i < j < |s| ensures s[i] != s[j] {
      assert s == s[..j] + s[j..];
      assert s[i] in s[..j];
      assert multiset(s)[s[i]] == multiset(s[..j])[s[i]] + multiset(s[j..])[s[i]];
      assert s[i] !in s[j..];
      assert s[j] in s[j..];
    }
  }

  /** Filtering a sequence without repetitions leaves none. */
  lemma {:induction false} FilterIsDistinct<T(!new)>(s: seq<T>, keep: T -> bool)
    requires Distinct(s)
    ensures Distinct(Filter(s, keep))
  {
    if s != [] {
      FilterIsDistinct(s[1..], keep);
      assert s[0] !in s[1..];
      assert s[0] !in Filter(s[1..], keep);
    }
  }

  /** A reordering of a sequence without repetitions has none either. */
  lemma PermutationDistinct<T>(a: seq<T>, b: seq<T>)
    requires multiset(a) == multiset(b) && Distinct(a)
    ensures Distinct(b)
  {
    DistinctCounts(a);
    CountsDistinct(b);
  }
}
