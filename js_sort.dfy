/**
 * `Array.prototype.sort(compare)`. Since ES2019 the sort is required to be
 * stable, so for a consistent comparator its result is fully determined; the
 * model states it as insertion sort, once as a function (`InsertionSort`)
 * and once as the in-place algorithm on an array (`SortInPlace`).
 */
module JsSort {
  import opened JsArray

  /** `compare(a, b) <= 0`: `a` may stay before `b`. */
  ghost predicate Le<T>(cmp: (T, T) -> int, a: T, b: T)
  {
    cmp(a, b) <= 0
  }

  /**
   * `Le` is total and transitive. Transitivity is triggered only by `Le`
   * terms a proof mentions, so it does not feed on its own conclusions.
   */
  ghost predicate IsTotalPreorder<T(!new)>(cmp: (T, T) -> int)
  {
    && (forall a, b :: cmp(a, b) <= 0 || cmp(b, a) <= 0)
    && (forall a, b, c {:trigger Le(cmp, a, b), Le(cmp, b, c)} ::
          Le(cmp, a, b) && Le(cmp, b, c) ==> cmp(a, c) <= 0)
  }

  /** Every adjacent pair is in order. */
  ghost predicate Sorted<T>(s: seq<T>, cmp: (T, T) -> int)
  {
    forall k :: 0 < k < |s| ==> cmp(s[k - 1], s[k]) <= 0
  }

  /** Every earlier element is in order with every later one. */
  ghost predicate SortedPairwise<T>(s: seq<T>, cmp: (T, T) -> int)
  {
    forall i, j :: 0 <= i < j < |s| ==> cmp(s[i], s[j]) <= 0
  }

  /**
   * Inserts `x` into `t` from the right: `x` moves left past every element
   * that compares greater than it, and stops at the first that does not.
   */
  function Insert<T>(t: seq<T>, x: T, cmp: (T, T) -> int): (r: seq<T>)
    ensures |r| == |t| + 1
  {
    if t == [] then [x]
    else if cmp(t[|t| - 1], x) > 0 then Insert(t[..|t| - 1], x, cmp) + [t[|t| - 1]]
    else t + [x]
  }

  /** The stable sort of `s` by `cmp`: each element in turn is inserted into the sorted prefix. */
  function InsertionSort<T>(s: seq<T>, cmp: (T, T) -> int): (r: seq<T>)
    ensures |r| == |s|
  {
    if s == [] then [] else Insert(InsertionSort(s[..|s| - 1], cmp), s[|s| - 1], cmp)
  }

  lemma {:induction false} InsertMultiset<T>(t: seq<T>, x: T, cmp: (T, T) -> int)
    ensures multiset(Insert(t, x, cmp)) == multiset(t) + multiset{x}
  {
    if t != [] && cmp(t[|t| - 1], x) > 0 {
      InsertMultiset(t[..|t| - 1], x, cmp);
      assert t == t[..|t| - 1] + [t[|t| - 1]];
    }
  }

  /** Sorting only reorders: the result is a permutation of the input. */
  lemma {:induction false} InsertionSortPermutes<T>(s: seq<T>, cmp: (T, T) -> int)
    ensures multiset(InsertionSort(s, cmp)) == multiset(s)
  {
    if s != [] {
      var s', x := s[..|s| - 1], s[|s| - 1];
      InsertionSortPermutes(s', cmp);
      InsertMultiset(InsertionSort(s', cmp), x, cmp);
      assert s == s' + [x];
    }
  }

  /** Sorting keeps exactly the elements it was given. */
  lemma InsertionSortMembers<T>(s: seq<T>, cmp: (T, T) -> int)
    ensures forall x :: x in InsertionSort(s, cmp) <==> x in s
  {
    InsertionSortPermutes(s, cmp);
    forall x ensures x in InsertionSort(s, cmp) <==> x in s {
      assert x in InsertionSort(s, cmp) <==> x in multiset(InsertionSort(s, cmp));
      assert x in s <==> x in multiset(s);
    }
  }

  lemma {:induction false} InsertSorted<T(!new)>(t: seq<T>, x: T, cmp: (T, T) -> int)
    requires IsTotalPreorder(cmp)
    requires Sorted(t, cmp)
    ensures var r := Insert(t, x, cmp);
      Sorted(r, cmp) && (r[|r| - 1] == x || (t != [] && r[|r| - 1] == t[|t| - 1]))
  {
    if t != [] && cmp(t[|t| - 1], x) > 0 {
      var t' := t[..|t| - 1];
      InsertSorted(t', x, cmp);
      var r' := Insert(t', x, cmp);
      assert cmp(x, t[|t| - 1]) <= 0;
      assert t' != [] ==> cmp(t'[|t'| - 1], t[|t| - 1]) <= 0;
      assert cmp(r'[|r'| - 1], t[|t| - 1]) <= 0;
    }
  }

  /** The result is in order by `cmp`. */
  lemma {:induction false} InsertionSortSorted<T(!new)>(s: seq<T>, cmp: (T, T) -> int)
    requires IsTotalPreorder(cmp)
    ensures Sorted(InsertionSort(s, cmp), cmp)
  {
    if s != [] {
      InsertionSortSorted(s[..|s| - 1], cmp);
      InsertSorted(InsertionSort(s[..|s| - 1], cmp), s[|s| - 1], cmp);
    }
  }

  /** For a transitive comparator, order of neighbours gives order of every pair. */
  lemma {:induction false} SortedIsPairwise<T(!new)>(s: seq<T>, cmp: (T, T) -> int)
    requires IsTotalPreorder(cmp)
    requires Sorted(s, cmp)
    ensures SortedPairwise(s, cmp)
  {
    if |s| > 1 {
      var s' := s[..|s| - 1];
      assert Sorted(s', cmp);
      SortedIsPairwise(s', cmp);
      forall i | 0 <= i < |s| - 1 ensures cmp(s[i], s[|s| - 1]) <= 0 {
        var i' := i;
        while i' < |s| - 2
          invariant i <= i' <= |s| - 2
          invariant cmp(s[i], s[i']) <= 0 || i == i'
        {
          assert Le(cmp, s[i], s[i']) && Le(cmp, s[i'], s[i' + 1]);
          i' := i' + 1;
        }
        assert Le(cmp, s[i], s[|s| - 2]) && Le(cmp, s[|s| - 2], s[|s| - 1]);
      }
    }
  }

  /** The elements `cmp` cannot tell apart from `x`. */
  function EquivalentTo<T>(cmp: (T, T) -> int, x: T): T -> bool
  {
    e => cmp(e, x) <= 0 && cmp(x, e) <= 0
  }

  /** Where `Insert` puts `x`: just after the last element, counting from the right, that is not greater than `x`. */
  function InsertPos<T>(t: seq<T>, x: T, cmp: (T, T) -> int): (j: nat)
    ensures j <= |t|
  {
    if t == [] then 0
    else if cmp(t[|t| - 1], x) > 0 then InsertPos(t[..|t| - 1], x, cmp)
    else |t|
  }

  /** `Insert` splits `t` at `InsertPos` and passes only elements greater than `x`. */
  lemma {:induction false} InsertSplits<T>(t: seq<T>, x: T, cmp: (T, T) -> int)
    ensures var j := InsertPos(t, x, cmp);
      Insert(t, x, cmp) == t[..j] + [x] + t[j..] &&
      (forall k :: j <= k < |t| ==> cmp(t[k], x) > 0)
  {
    if t != [] && cmp(t[|t| - 1], x) > 0 {
      var t' := t[..|t| - 1];
      InsertSplits(t', x, cmp);
      var j := InsertPos(t', x, cmp);
      assert t[..j] == t'[..j];
      assert t[j..] == t'[j..] + [t[|t| - 1]];
    }
  }

  /** Splicing `y` into `t` at `j` adds `y` at the end of the filtered sequence when no later element passes. */
  lemma FilterSpliced<T>(u: seq<T>, t: seq<T>, j: nat, y: T, p: T -> bool)
    requires j <= |t| && u == t[..j] + [y] + t[j..]
    requires p(y) ==> Filter(t[j..], p) == []
    ensures Filter(u, p) == Filter(t, p) + (if p(y) then [y] else [])
  {
    var front, back := t[..j], t[j..];
    FilterAround(front, y, back, p);
    assert t == front + back;
    FilterConcat(front, back, p);
    var a, b := Filter(front, p), Filter(back, p);
    if p(y) {
      assert a + [y] + b == a + [y];
    } else {
      assert a + [] + b == a + b;
    }
  }

  /** Filtering after an insertion: `y` joins the filtered elements exactly where it passes none of them. */
  lemma InsertFilter<T>(t: seq<T>, y: T, cmp: (T, T) -> int, p: T -> bool)
    requires p(y) ==> Filter(t[InsertPos(t, y, cmp)..], p) == []
    ensures Filter(Insert(t, y, cmp), p) == Filter(t, p) + (if p(y) then [y] else [])
  {
    InsertSplits(t, y, cmp);
    FilterSpliced(Insert(t, y, cmp), t, InsertPos(t, y, cmp), y, p);
  }

  lemma InsertStable<T(!new)>(t: seq<T>, y: T, cmp: (T, T) -> int, x: T)
    requires IsTotalPreorder(cmp)
    ensures var p := EquivalentTo(cmp, x);
      Filter(Insert(t, y, cmp), p) == Filter(t, p) + (if p(y) then [y] else [])
  {
    var p := EquivalentTo(cmp, x);
    var j := InsertPos(t, y, cmp);
    if p(y) {
      InsertSplits(t, y, cmp);
      NoneEquivalentAfterSplit(t[j..], y, cmp, x);
    }
    InsertFilter(t, y, cmp, p);
  }

  /** Elements greater than `y` are never equivalent to anything `y` is equivalent to. */
  lemma NoneEquivalentAfterSplit<T(!new)>(back: seq<T>, y: T, cmp: (T, T) -> int, x: T)
    requires IsTotalPreorder(cmp)
    requires forall k :: 0 <= k < |back| ==> cmp(back[k], y) > 0
    requires EquivalentTo(cmp, x)(y)
    ensures Filter(back, EquivalentTo(cmp, x)) == []
  {
    var p := EquivalentTo(cmp, x);
    forall k | 0 <= k < |back| ensures !p(back[k]) {
      var e := back[k];
      assert Le(cmp, x, y);
      assert Le(cmp, e, x) ==> cmp(e, y) <= 0;
    }
    FilterNone(back, p);
  }

  /**
   * Stability: among elements `cmp` treats as equal, the sorted result keeps
   * their original relative order.
   */
  lemma {:induction false} InsertionSortStable<T(!new)>(s: seq<T>, cmp: (T, T) -> int, x: T)
    requires IsTotalPreorder(cmp)
    ensures Filter(InsertionSort(s, cmp), EquivalentTo(cmp, x)) == Filter(s, EquivalentTo(cmp, x))
  {
    var p := EquivalentTo(cmp, x);
    if s != [] {
      var s' := s[..|s| - 1];
      InsertionSortStable(s', cmp, x);
      InsertStable(InsertionSort(s', cmp), s[|s| - 1], cmp, x);
      FilterConcat(s', [s[|s| - 1]], p);
      assert s == s' + [s[|s| - 1]];
    }
  }

  /** The gap the move left stops at is `InsertPos`: everything right of it is greater than `x`, the element left of it is not. */
  lemma {:induction false} InsertPosAt<T>(t: seq<T>, x: T, cmp: (T, T) -> int, j: nat)
    requires j <= |t| && (j == 0 || cmp(t[j - 1], x) <= 0)
    requires forall k :: j <= k < |t| ==> cmp(t[k], x) > 0
    ensures InsertPos(t, x, cmp) == j
  {
    if j < |t| {
      var t' := t[..|t| - 1];
      assert cmp(t[|t| - 1], x) > 0;
      if j > 0 {
        assert t'[j - 1] == t[j - 1];
      }
      InsertPosAt(t', x, cmp, j);
    }
  }

  /** A sequence that agrees with `t[..j] + [x] + t[j..]` position by position is that sequence. */
  lemma Spliced<T>(u: seq<T>, t: seq<T>, x: T, j: nat)
    requires j <= |t| && |u| == |t| + 1
    requires forall k :: 0 <= k < j ==> u[k] == t[k]
    requires u[j] == x
    requires forall k :: j < k < |u| ==> u[k] == t[k - 1]
    ensures u == t[..j] + [x] + t[j..]
  {
    var v := t[..j] + [x] + t[j..];
    forall k | 0 <= k < |u| ensures u[k] == v[k] {
      if k > j {
        assert v[k] == t[j..][k - j - 1];
      }
    }
  }

  /**
   * Shifts the elements of `a[..i]` greater than `x`, from the right, one
   * place right, and returns the gap they leave, where `x` belongs.
   */
  method ShiftGreater<T>(a: array<T>, i: nat, x: T, cmp: (T, T) -> int) returns (j: nat)
    requires i < a.Length
    modifies a
    ensures j <= i
    ensures forall k :: 0 <= k < j ==> a[k] == old(a[k])
    ensures forall k :: j < k <= i ==> a[k] == old(a[k - 1])
    ensures forall k :: i < k < a.Length ==> a[k] == old(a[k])
    ensures Insert(old(a[..i]), x, cmp) == old(a[..i])[..j] + [x] + old(a[..i])[j..]
  {
    ghost var t := a[..i];
    j := i;
    while j > 0 && cmp(a[j - 1], x) > 0
      invariant 0 <= j <= i
      invariant forall k :: 0 <= k < j ==> a[k] == t[k]
      invariant forall k :: j < k <= i ==> a[k] == t[k - 1]
      invariant forall k :: i < k < a.Length ==> a[k] == old(a[k])
      invariant forall k :: j <= k < i ==> cmp(t[k], x) > 0
    {
      a[j] := a[j - 1];
      j := j - 1;
    }
    InsertPosAt(t, x, cmp, j);
    InsertSplits(t, x, cmp);
  }

  /**
   * Inserts `a[i]` into the sorted prefix `a[..i]` by shifting greater
   * elements one place right; the rest of the array is untouched.
   */
  method InsertInPlace<T>(a: array<T>, i: nat, cmp: (T, T) -> int)
    requires i < a.Length
    modifies a
    ensures a[..i + 1] == Insert(old(a[..i]), old(a[i]), cmp)
    ensures forall k :: i < k < a.Length ==> a[k] == old(a[k])
  {
    ghost var t := a[..i];
    var x := a[i];
    var j := ShiftGreater(a, i, x, cmp);
    a[j] := x;
    Spliced(a[..i + 1], t, x, j);
  }

  /** Sorts `a` in place by `cmp`; the result is exactly the stable sort of the old contents. */
  method SortInPlace<T>(a: array<T>, cmp: (T, T) -> int)
    modifies a
    ensures a[..] == InsertionSort(old(a[..]), cmp)
  {
    ghost var s := a[..];
    var i := 0;
    while i < a.Length
      invariant 0 <= i <= a.Length
      invariant a[..i] == InsertionSort(s[..i], cmp)
      invariant forall k :: i <= k < a.Length ==> a[k] == s[k]
    {
      InsertInPlace(a, i, cmp);
      assert s[..i + 1][..i] == s[..i];
      i := i + 1;
    }
    assert a[..] == a[..a.Length] && s == s[..a.Length];
  }

  /** `[...s].sort(cmp)` done the way the engine does it: copied into an array and sorted there. */
  method SortedCopy<T>(s: seq<T>, cmp: (T, T) -> int) returns (r: seq<T>)
    ensures r == InsertionSort(s, cmp)
  {
    var a := new T[|s|](i requires 0 <= i < |s| => s[i]);
    assert a[..] == s;
    SortInPlace(a, cmp);
    r := a[..];
  }
}
