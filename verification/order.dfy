/** Comparators, sorted sequences and the range queries that the block
    structures are specified against.

    Every container of the storage engine is generic over an element type
    with an `operator<`. The element types the program instantiates it with
    (fixed strings, accounts, key/value pairs, index entries) all define
    `==` from the same comparison, so two elements are "equal" for the
    containers exactly when neither is less than the other. The model
    therefore takes the comparison as a parameter `lt`, asks only that it be
    a strict weak order, and uses order-equivalence wherever the program
    tests equality. */
module Order {

  /** `lt` is irreflexive, asymmetric and transitive, and its incomparability
      is transitive. */
  ghost predicate WeakOrder<T(!new)>(lt: (T, T) -> bool) {
    && (forall a :: !lt(a, a))
    && (forall a, b :: lt(a, b) ==> !lt(b, a))
    && (forall a, b, c {:trigger lt(a, b), lt(b, c), lt(a, c)} :: lt(a, b) && lt(b, c) ==> lt(a, c))
    && (forall a, b, c {:trigger lt(a, b), lt(b, c), lt(a, c)} :: !lt(a, b) && !lt(b, c) ==> !lt(a, c))
  }

  /** Neither element is less than the other. */
  predicate Equiv<T>(lt: (T, T) -> bool, a: T, b: T) {
    !lt(a, b) && !lt(b, a)
  }

  /** Strictly ascending: every earlier element is less than every later one. */
  ghost predicate Sorted<T>(s: seq<T>, lt: (T, T) -> bool) {
    forall i, j :: 0 <= i < j < |s| ==> lt(s[i], s[j])
  }

  /** Some element of `s` is equivalent to `t`. */
  ghost predicate Holds<T>(s: seq<T>, t: T, lt: (T, T) -> bool) {
    exists i :: 0 <= i < |s| && Equiv(lt, s[i], t)
  }

  /** `lo <= x <= hi` in the order `lt`. */
  predicate InRange<T>(lt: (T, T) -> bool, x: T, lo: T, hi: T) {
    !lt(x, lo) && !lt(hi, x)
  }

  /** Reference semantics of a range query: the elements of `s` lying in
      `[lo, hi]`, in their original order. */
  function Filter<T>(s: seq<T>, lo: T, hi: T, lt: (T, T) -> bool): (r: seq<T>)
    ensures |r| <= |s|
  {
    if |s| == 0 then []
    else (if InRange(lt, s[0], lo, hi) then [s[0]] else []) + Filter(s[1..], lo, hi, lt)
  }

  /** The longest prefix of `s` none of whose elements exceeds `hi`: a scan
      that stops at the first element greater than `hi`. */
  function TakeUpTo<T>(s: seq<T>, hi: T, lt: (T, T) -> bool): (r: seq<T>)
    ensures |r| <= |s| && r == s[..|r|]
    ensures forall i :: 0 <= i < |r| ==> !lt(hi, r[i])
    ensures |r| < |s| ==> lt(hi, s[|r|])
  {
    if |s| == 0 || lt(hi, s[0]) then [] else [s[0]] + TakeUpTo(s[1..], hi, lt)
  }

  /** `std::lower_bound`: the number of leading elements less than `t`. */
  function LowerBound<T>(s: seq<T>, t: T, lt: (T, T) -> bool): (p: nat)
    ensures p <= |s|
    ensures forall i :: 0 <= i < p ==> lt(s[i], t)
    ensures p < |s| ==> !lt(s[p], t)
  {
    if |s| == 0 || !lt(s[0], t) then 0 else 1 + LowerBound(s[1..], t, lt)
  }

  /** `std::upper_bound`: the number of leading elements not greater than `t`. */
  function UpperBound<T>(s: seq<T>, t: T, lt: (T, T) -> bool): (p: nat)
    ensures p <= |s|
    ensures forall i :: 0 <= i < p ==> !lt(t, s[i])
    ensures p < |s| ==> lt(t, s[p])
  {
    if |s| == 0 || lt(t, s[0]) then 0 else 1 + UpperBound(s[1..], t, lt)
  }

  // ---------------------------------------------------------------------
  // Facts about sorted sequences
  // ---------------------------------------------------------------------

  /** In a sorted sequence everything at or after the lower bound is `>= t`. */
  lemma LowerBoundSplits<T(!new)>(s: seq<T>, t: T, lt: (T, T) -> bool)
    requires WeakOrder(lt) && Sorted(s, lt)
    ensures forall i :: LowerBound(s, t, lt) <= i < |s| ==> !lt(s[i], t)
  {
    var p := LowerBound(s, t, lt);
    forall i | p <= i < |s|
      ensures !lt(s[i], t)
    {
      if i > p {
        assert lt(s[p], s[i]);
      }
    }
  }

  /** In a sorted sequence everything at or after the upper bound is `> t`. */
  lemma UpperBoundSplits<T(!new)>(s: seq<T>, t: T, lt: (T, T) -> bool)
    requires WeakOrder(lt) && Sorted(s, lt)
    ensures forall i :: UpperBound(s, t, lt) <= i < |s| ==> lt(t, s[i])
  {
    var p := UpperBound(s, t, lt);
    forall i | p <= i < |s|
      ensures lt(t, s[i])
    {
      if i > p {
        assert lt(s[p], s[i]);
      }
    }
  }

  /** A position that splits `s` into "less than t" and "not less than t" is
      the lower bound. */
  lemma {:induction false} LowerBoundUnique<T>(s: seq<T>, t: T, lt: (T, T) -> bool, p: nat)
    requires p <= |s|
    requires forall i :: 0 <= i < p ==> lt(s[i], t)
    requires forall i :: p <= i < |s| ==> !lt(s[i], t)
    ensures LowerBound(s, t, lt) == p
  {
    if p > 0 {
      LowerBoundUnique(s[1..], t, lt, p - 1);
    }
  }

  lemma {:induction false} UpperBoundUnique<T>(s: seq<T>, t: T, lt: (T, T) -> bool, p: nat)
    requires p <= |s|
    requires forall i :: 0 <= i < p ==> !lt(t, s[i])
    requires forall i :: p <= i < |s| ==> lt(t, s[i])
    ensures UpperBound(s, t, lt) == p
  {
    if p > 0 {
      UpperBoundUnique(s[1..], t, lt, p - 1);
    }
  }

  /** The first element of a sorted sequence is not above any element. */
  lemma SortedFirstLeast<T>(a: seq<T>, x: T, lt: (T, T) -> bool)
    requires Sorted(a, lt) && x in a
    ensures a[0] == x || lt(a[0], x)
  {
    var i :| 0 <= i < |a| && a[i] == x;
    if i > 0 {
      assert lt(a[0], a[i]);
    }
  }

  /** Two sorted sequences with the same elements are the same sequence. */
  lemma {:induction false} SortedUnique<T(!new)>(a: seq<T>, b: seq<T>, lt: (T, T) -> bool)
    requires WeakOrder(lt) && Sorted(a, lt) && Sorted(b, lt)
    requires multiset(a) == multiset(b)
    ensures a == b
  {
    if |a| == 0 {
      assert |b| == |multiset(b)| == 0;
    } else {
      assert |b| == |multiset(b)| == |multiset(a)| == |a|;
      assert a[0] in multiset(b) && b[0] in multiset(a);
      SortedFirstLeast(a, b[0], lt);
      SortedFirstLeast(b, a[0], lt);
      assert a[0] == b[0];
      assert a == [a[0]] + a[1..] && b == [b[0]] + b[1..];
      assert multiset(a[1..]) == multiset(a) - multiset{a[0]};
      assert multiset(b[1..]) == multiset(b) - multiset{b[0]};
      SortedUnique(a[1..], b[1..], lt);
    }
  }

  /** Equivalent elements are interchangeable in comparisons. */
  lemma EquivSubstitutes<T(!new)>(lt: (T, T) -> bool, a: T, b: T, c: T)
    requires WeakOrder(lt) && Equiv(lt, a, b)
    ensures lt(a, c) <==> lt(b, c)
    ensures lt(c, a) <==> lt(c, b)
  {
  }

  /** In a sorted sequence no two elements are equivalent. */
  lemma SortedDistinct<T(!new)>(s: seq<T>, lt: (T, T) -> bool, i: int, j: int)
    requires WeakOrder(lt) && Sorted(s, lt)
    requires 0 <= i < |s| && 0 <= j < |s| && Equiv(lt, s[i], s[j])
    ensures i == j
  {
  }

  /** Both halves of a sorted concatenation are sorted, and every element
      of the first lies below every element of the second. */
  lemma SortedParts<T>(a: seq<T>, b: seq<T>, lt: (T, T) -> bool)
    requires Sorted(a + b, lt)
    ensures Sorted(a, lt) && Sorted(b, lt)
    ensures forall i, j :: 0 <= i < |a| && 0 <= j < |b| ==> lt(a[i], b[j])
  {
    var s := a + b;
    forall i, j | 0 <= i < j < |a| ensures lt(a[i], a[j]) {
      assert a[i] == s[i] && a[j] == s[j];
    }
    forall i, j | 0 <= i < j < |b| ensures lt(b[i], b[j]) {
      assert b[i] == s[|a| + i] && b[j] == s[|a| + j];
    }
    forall i, j | 0 <= i < |a| && 0 <= j < |b| ensures lt(a[i], b[j]) {
      assert a[i] == s[i] && b[j] == s[|a| + j];
    }
  }

  lemma SortedAppend<T(!new)>(a: seq<T>, b: seq<T>, lt: (T, T) -> bool)
    requires Sorted(a, lt) && Sorted(b, lt)
    requires forall i, j :: 0 <= i < |a| && 0 <= j < |b| ==> lt(a[i], b[j])
    ensures Sorted(a + b, lt)
  {
  }

  /** Taking the middle out of a sorted sequence leaves it sorted. */
  lemma SortedWithout<T(!new)>(a: seq<T>, l: seq<T>, b: seq<T>, lt: (T, T) -> bool)
    requires Sorted(a + l + b, lt)
    ensures Sorted(a + b, lt)
  {
    SortedParts(a + l, b, lt);
    SortedParts(a, l, lt);
    forall i, j | 0 <= i < |a| && 0 <= j < |b| ensures lt(a[i], b[j]) {
      assert a[i] == (a + l)[i];
    }
    SortedAppend(a, b, lt);
  }

  // ---------------------------------------------------------------------
  // Facts about Filter and TakeUpTo
  // ---------------------------------------------------------------------

  lemma {:induction false} FilterAppend<T>(a: seq<T>, b: seq<T>, lo: T, hi: T, lt: (T, T) -> bool)
    ensures Filter(a + b, lo, hi, lt) == Filter(a, lo, hi, lt) + Filter(b, lo, hi, lt)
  {
    if |a| == 0 {
      assert a + b == b;
    } else {
      var head := if InRange(lt, a[0], lo, hi) then [a[0]] else [];
      assert (a + b)[0] == a[0];
      assert (a + b)[1..] == a[1..] + b;
      FilterAppend(a[1..], b, lo, hi, lt);
      assert Filter(a + b, lo, hi, lt) == head + Filter(a[1..] + b, lo, hi, lt);
    }
  }

  /** The range query keeps only elements of `s` that lie in `[lo, hi]`,
      and keeps every such element. */
  lemma {:induction false} FilterMembers<T>(s: seq<T>, lo: T, hi: T, lt: (T, T) -> bool)
    ensures forall i :: 0 <= i < |Filter(s, lo, hi, lt)| ==>
              Filter(s, lo, hi, lt)[i] in s && InRange(lt, Filter(s, lo, hi, lt)[i], lo, hi)
    ensures forall i :: 0 <= i < |s| && InRange(lt, s[i], lo, hi) ==> s[i] in Filter(s, lo, hi, lt)
  {
    if |s| > 0 {
      FilterMembers(s[1..], lo, hi, lt);
      var head := if InRange(lt, s[0], lo, hi) then [s[0]] else [];
      var r, rest := Filter(s, lo, hi, lt), Filter(s[1..], lo, hi, lt);
      assert r == head + rest;
      forall i | 0 <= i < |r| ensures r[i] in s && InRange(lt, r[i], lo, hi) {
        if i >= |head| {
          assert r[i] == rest[i - |head|];
          assert rest[i - |head|] in s[1..];
        }
      }
      forall i | 0 < i < |s| && InRange(lt, s[i], lo, hi) ensures s[i] in r {
        assert s[i] == s[1..][i - 1];
      }
    }
  }

  /** Nothing below `lo` survives the filter. */
  lemma {:induction false} FilterBelow<T>(s: seq<T>, lo: T, hi: T, lt: (T, T) -> bool)
    requires forall i :: 0 <= i < |s| ==> lt(s[i], lo)
    ensures Filter(s, lo, hi, lt) == []
  {
    if |s| > 0 {
      FilterBelow(s[1..], lo, hi, lt);
    }
  }

  /** A prefix lying below `lo` does not change the range query. */
  lemma FilterDropsBelow<T>(a: seq<T>, s: seq<T>, lo: T, hi: T, lt: (T, T) -> bool)
    requires forall i :: 0 <= i < |a| ==> lt(a[i], lo)
    ensures Filter(a + s, lo, hi, lt) == Filter(s, lo, hi, lt)
  {
    FilterAppend(a, s, lo, hi, lt);
    FilterBelow(a, lo, hi, lt);
  }

  /** On a sorted sequence with nothing below `lo`, the filter is the scan
      that stops at the first element above `hi`. */
  lemma {:induction false} FilterIsScan<T(!new)>(s: seq<T>, lo: T, hi: T, lt: (T, T) -> bool)
    requires WeakOrder(lt) && Sorted(s, lt)
    requires forall i :: 0 <= i < |s| ==> !lt(s[i], lo)
    ensures Filter(s, lo, hi, lt) == TakeUpTo(s, hi, lt)
  {
    if |s| > 0 {
      if lt(hi, s[0]) {
        assert forall i :: 0 <= i < |s| ==> lt(hi, s[i]) by {
          forall i | 0 < i < |s| ensures lt(hi, s[i]) {
            assert lt(s[0], s[i]);
          }
        }
        FilterNoneAbove(s, lo, hi, lt);
      } else {
        FilterIsScan(s[1..], lo, hi, lt);
      }
    }
  }

  lemma {:induction false} FilterNoneAbove<T>(s: seq<T>, lo: T, hi: T, lt: (T, T) -> bool)
    requires forall i :: 0 <= i < |s| ==> lt(hi, s[i])
    ensures Filter(s, lo, hi, lt) == []
  {
    if |s| > 0 {
      FilterNoneAbove(s[1..], lo, hi, lt);
    }
  }

  /** A range query over a sorted sequence is ascending. */
  lemma {:induction false} FilterSorted<T(!new)>(s: seq<T>, lo: T, hi: T, lt: (T, T) -> bool)
    requires Sorted(s, lt)
    ensures Sorted(Filter(s, lo, hi, lt), lt)
  {
    if |s| > 0 {
      FilterSorted(s[1..], lo, hi, lt);
      FilterMembers(s[1..], lo, hi, lt);
      var rest := Filter(s[1..], lo, hi, lt);
      forall j | 0 <= j < |rest| ensures lt(s[0], rest[j]) {
        assert rest[j] in s[1..];
      }
    }
  }

  /** On a sorted sequence the range query is the slice between
      `lower_bound(lo)` and `upper_bound(hi)`: what an ordered set answers
      when asked for `[lower_bound(lo), upper_bound(hi))`. */
  lemma FilterIsSlice<T(!new)>(s: seq<T>, lo: T, hi: T, lt: (T, T) -> bool)
    requires WeakOrder(lt) && Sorted(s, lt) && !lt(hi, lo)
    ensures LowerBound(s, lo, lt) <= UpperBound(s, hi, lt)
    ensures Filter(s, lo, hi, lt) == s[LowerBound(s, lo, lt)..UpperBound(s, hi, lt)]
  {
    var a := LowerBound(s, lo, lt);
    var b := UpperBound(s, hi, lt);
    BoundsOrdered(s, lo, hi, lt);
    FilterSkipsBelow(s, lo, hi, lt);
    LowerBoundSplits(s, lo, lt);
    UpperBoundSplits(s, hi, lt);
    FilterSuffixIsSlice(s, lo, hi, lt, a, b);
  }

  lemma FilterSkipsBelow<T(!new)>(s: seq<T>, lo: T, hi: T, lt: (T, T) -> bool)
    ensures Filter(s, lo, hi, lt) == Filter(s[LowerBound(s, lo, lt)..], lo, hi, lt)
  {
    var a := LowerBound(s, lo, lt);
    assert s == s[..a] + s[a..];
    FilterAppend(s[..a], s[a..], lo, hi, lt);
    FilterBelow(s[..a], lo, hi, lt);
  }

  lemma FilterSuffixIsSlice<T(!new)>(s: seq<T>, lo: T, hi: T, lt: (T, T) -> bool, a: nat, b: nat)
    requires WeakOrder(lt) && Sorted(s, lt)
    requires a <= b <= |s|
    requires forall i :: a <= i < |s| ==> !lt(s[i], lo)
    requires forall i :: a <= i < b ==> !lt(hi, s[i])
    requires b < |s| ==> lt(hi, s[b])
    ensures Filter(s[a..], lo, hi, lt) == s[a..b]
  {
    var post := s[a..];
    assert Sorted(post, lt);
    FilterIsScan(post, lo, hi, lt);
    TakeUpToStops(post, hi, lt, b - a);
    assert post[..b - a] == s[a..b];
  }

  lemma BoundsOrdered<T(!new)>(s: seq<T>, lo: T, hi: T, lt: (T, T) -> bool)
    requires WeakOrder(lt) && Sorted(s, lt) && !lt(hi, lo)
    ensures LowerBound(s, lo, lt) <= UpperBound(s, hi, lt)
  {
  }

  /** Scanning `a + b` scans `a`, and goes on into `b` only when it did not
      stop inside `a`. */
  lemma {:induction false} TakeUpToAppend<T>(a: seq<T>, b: seq<T>, hi: T, lt: (T, T) -> bool)
    ensures TakeUpTo(a + b, hi, lt) ==
            if |TakeUpTo(a, hi, lt)| < |a| then TakeUpTo(a, hi, lt) else a + TakeUpTo(b, hi, lt)
  {
    if |a| == 0 {
      assert a + b == b;
    } else {
      assert (a + b)[0] == a[0];
      assert (a + b)[1..] == a[1..] + b;
      TakeUpToAppend(a[1..], b, hi, lt);
    }
  }

  /** The scan stops exactly at the first element above `hi`. */
  lemma {:induction false} TakeUpToStops<T>(s: seq<T>, hi: T, lt: (T, T) -> bool, k: nat)
    requires k <= |s|
    requires forall i :: 0 <= i < k ==> !lt(hi, s[i])
    requires k < |s| ==> lt(hi, s[k])
    ensures TakeUpTo(s, hi, lt) == s[..k]
  {
    if k > 0 {
      TakeUpToStops(s[1..], hi, lt, k - 1);
      assert s[..k] == [s[0]] + s[1..][..k - 1];
    }
  }

  // ---------------------------------------------------------------------
  // Building orders
  // ---------------------------------------------------------------------

  /** Lexicographic comparison of pairs, as `std::pair::operator<`. */
  predicate PairLess<K, V>(klt: (K, K) -> bool, vlt: (V, V) -> bool, p: (K, V), q: (K, V)) {
    klt(p.0, q.0) || (!klt(q.0, p.0) && vlt(p.1, q.1))
  }

  function PairLt<K, V>(klt: (K, K) -> bool, vlt: (V, V) -> bool): ((K, V), (K, V)) -> bool {
    (p: (K, V), q: (K, V)) => PairLess(klt, vlt, p, q)
  }

  lemma PairLessTransitive<K(!new), V(!new)>(klt: (K, K) -> bool, vlt: (V, V) -> bool, a: (K, V), b: (K, V), c: (K, V))
    requires WeakOrder(klt) && WeakOrder(vlt)
    requires PairLess(klt, vlt, a, b) && PairLess(klt, vlt, b, c)
    ensures PairLess(klt, vlt, a, c)
  {
    if klt(a.0, b.0) {
      if !klt(b.0, c.0) {
        assert !klt(c.0, b.0);
      }
      assert klt(a.0, c.0);
    } else if klt(b.0, c.0) {
      assert klt(a.0, c.0);
    } else {
      assert Equiv(klt, a.0, c.0);
    }
  }

  lemma PairLessNegTransitive<K(!new), V(!new)>(klt: (K, K) -> bool, vlt: (V, V) -> bool, a: (K, V), b: (K, V), c: (K, V))
    requires WeakOrder(klt) && WeakOrder(vlt)
    requires PairLess(klt, vlt, a, c)
    ensures PairLess(klt, vlt, a, b) || PairLess(klt, vlt, b, c)
  {
    if klt(a.0, c.0) {
      assert klt(a.0, b.0) || klt(b.0, c.0);
    } else if klt(a.0, b.0) {
    } else if klt(b.0, a.0) {
      assert klt(b.0, c.0);
    } else {
      assert Equiv(klt, b.0, c.0);
      assert vlt(a.1, b.1) || vlt(b.1, c.1);
    }
  }

  lemma PairLtIsWeakOrder<K(!new), V(!new)>(klt: (K, K) -> bool, vlt: (V, V) -> bool)
    requires WeakOrder(klt) && WeakOrder(vlt)
    ensures WeakOrder(PairLt(klt, vlt))
  {
    var lt := PairLt(klt, vlt);
    forall a: (K, V), b: (K, V), c: (K, V) | lt(a, b) && lt(b, c)
      ensures lt(a, c)
    {
      PairLessTransitive(klt, vlt, a, b, c);
    }
    forall a: (K, V), b: (K, V), c: (K, V) | lt(a, c)
      ensures lt(a, b) || lt(b, c)
    {
      PairLessNegTransitive(klt, vlt, a, b, c);
    }
  }

  /** Comparing records by one projected field, as the index entries and the
      accounts of the program compare. */
  function ByKey<E, K>(key: E -> K, lt: (K, K) -> bool): (E, E) -> bool {
    (a: E, b: E) => lt(key(a), key(b))
  }

  lemma ByKeyIsWeakOrder<E(!new), K(!new)>(key: E -> K, lt: (K, K) -> bool)
    requires WeakOrder(lt)
    ensures WeakOrder(ByKey(key, lt))
  {
    var blt := ByKey(key, lt);
    forall a: E, b: E, c: E | blt(a, b) && blt(b, c)
      ensures blt(a, c)
    {
      assert lt(key(a), key(b)) && lt(key(b), key(c));
    }
    forall a: E, b: E, c: E | !blt(a, b) && !blt(b, c)
      ensures !blt(a, c)
    {
      assert !lt(key(a), key(b)) && !lt(key(b), key(c));
    }
  }

  /** The usual order on integers. */
  function IntLt(): (int, int) -> bool {
    (a: int, b: int) => a < b
  }

  lemma IntLtIsWeakOrder()
    ensures WeakOrder(IntLt())
  {
  }
}
