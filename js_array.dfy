/** `Array.prototype.filter` on sequences, with the facts the pipeline needs about it. */
module JsArray {

  /** The elements of `s` that satisfy `p`, in their original order. */
  function Filter<T>(s: seq<T>, p: T -> bool): (r: seq<T>)
    ensures |r| <= |s|
    ensures forall k :: 0 <= k < |r| ==> p(r[k])
  {
    if s == [] then [] else (if p(s[0]) then [s[0]] else []) + Filter(s[1..], p)
  }

  /** Filtering keeps every satisfying element with its multiplicity and drops the rest. */
  lemma {:induction false} FilterMultiset<T>(s: seq<T>, p: T -> bool)
    ensures forall x {:trigger multiset(Filter(s, p))[x]} :: multiset(Filter(s, p))[x] == if p(x) then multiset(s)[x] else 0
  {
    if s != [] {
      FilterMultiset(s[1..], p);
      assert s == [s[0]] + s[1..];
    }
  }

  /** An element survives filtering exactly when it occurs and satisfies `p`. */
  lemma FilterMembers<T>(s: seq<T>, p: T -> bool)
    ensures forall x :: x in Filter(s, p) <==> x in s && p(x)
  {
    FilterMultiset(s, p);
    forall x ensures x in Filter(s, p) <==> x in s && p(x) {
      assert x in Filter(s, p) <==> x in multiset(Filter(s, p));
      assert x in s <==> x in multiset(s);
    }
  }

  /** Nothing survives when no element satisfies `p`. */
  lemma {:induction false} FilterNone<T>(s: seq<T>, p: T -> bool)
    requires forall k :: 0 <= k < |s| ==> !p(s[k])
    ensures Filter(s, p) == []
  {
    if s != [] {
      FilterNone(s[1..], p);
    }
  }

  /** Filtering distributes over concatenation. */
  lemma {:induction false} FilterConcat<T>(a: seq<T>, b: seq<T>, p: T -> bool)
    ensures Filter(a + b, p) == Filter(a, p) + Filter(b, p)
  {
    if a == [] {
      assert a + b == b;
    } else {
      assert (a + b)[1..] == a[1..] + b;
      FilterConcat(a[1..], b, p);
    }
  }

  /** Filtering `front + [y] + back` filters the three parts separately. */
  lemma FilterAround<T>(front: seq<T>, y: T, back: seq<T>, p: T -> bool)
    ensures Filter(front + [y] + back, p) == Filter(front, p) + (if p(y) then [y] else []) + Filter(back, p)
  {
    FilterConcat(front + [y], back, p);
    FilterConcat(front, [y], p);
    assert Filter([y], p) == if p(y) then [y] else [];
  }

  /** Everything survives when every element satisfies `p`. */
  lemma {:induction false} FilterAll<T>(s: seq<T>, p: T -> bool)
    requires forall k :: 0 <= k < |s| ==> p(s[k])
    ensures Filter(s, p) == s
  {
    if s != [] {
      FilterAll(s[1..], p);
      assert s == [s[0]] + s[1..];
    }
  }

  /** Two tests that agree on every element filter alike. */
  lemma {:induction false} FilterExt<T>(s: seq<T>, p: T -> bool, q: T -> bool)
    requires forall k :: 0 <= k < |s| ==> p(s[k]) == q(s[k])
    ensures Filter(s, p) == Filter(s, q)
  {
    if s != [] {
      FilterExt(s[1..], p, q);
    }
  }

  /** Every element either passes `p` or fails it: the two filtered parts add up to `s`. */
  lemma {:induction false} FilterSplitCount<T>(s: seq<T>, p: T -> bool, q: T -> bool)
    requires forall k :: 0 <= k < |s| ==> q(s[k]) == !p(s[k])
    ensures |Filter(s, p)| + |Filter(s, q)| == |s|
  {
    if s != [] {
      FilterSplitCount(s[1..], p, q);
    }
  }

  /** Every element of the filtered sequence occurs in the original one. */
  lemma FilterFrom<T>(s: seq<T>, p: T -> bool, r: seq<T>, j: nat)
    requires r == Filter(s, p) && j < |r|
    ensures exists m :: 0 <= m < |s| && s[m] == r[j]
  {
    FilterMultiset(s, p);
    assert r[j] in multiset(r);
    assert r[j] in multiset(s);
  }

  /**
   * Filtering keeps order: a relation that holds between every earlier and
   * later element of `s` still holds in the filtered sequence.
   */
  lemma {:induction false} FilterKeepsOrder<T>(s: seq<T>, p: T -> bool, before: (T, T) -> bool)
    requires forall i, j :: 0 <= i < j < |s| ==> before(s[i], s[j])
    ensures forall i, j :: 0 <= i < j < |Filter(s, p)| ==> before(Filter(s, p)[i], Filter(s, p)[j])
  {
    if s != [] {
      var tail := s[1..];
      var rest := Filter(tail, p);
      FilterKeepsOrder(tail, p, before);
      forall j | 0 <= j < |rest| ensures before(s[0], rest[j]) {
        FilterFrom(tail, p, rest, j);
        var m :| 0 <= m < |tail| && tail[m] == rest[j];
        assert s[m + 1] == rest[j];
      }
      var r := Filter(s, p);
      if p(s[0]) {
        assert r == [s[0]] + rest;
        forall i, j | 0 <= i < j < |r| ensures before(r[i], r[j]) {
          assert r[j] == rest[j - 1];
          if i > 0 {
            assert r[i] == rest[i - 1];
          }
        }
      } else {
        assert r == rest;
      }
    }
  }
}
