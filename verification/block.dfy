/** `Block<T, BLOCK_SIZE>` of src/PersistentSet.hpp: at most `cap` elements
    kept strictly ascending, the unit both the index and the leaves of the
    persistent set are made of. The fixed array with its `size` field is a
    sequence here; `cap` is `BLOCK_SIZE`. */
module Blocks {
  import opened Order

  /** The invariant every block keeps. */
  ghost predicate Inv<T(!new)>(s: seq<T>, cap: nat, lt: (T, T) -> bool) {
    WeakOrder(lt) && Sorted(s, lt) && |s| <= cap
  }

  /** Position `p` is where `t` belongs: everything before it is smaller. */
  lemma LowerBoundFinds<T(!new)>(s: seq<T>, t: T, lt: (T, T) -> bool)
    requires WeakOrder(lt) && Sorted(s, lt)
    ensures Holds(s, t, lt) <==> (LowerBound(s, t, lt) < |s| && Equiv(lt, s[LowerBound(s, t, lt)], t))
  {
    var p := LowerBound(s, t, lt);
    LowerBoundSplits(s, t, lt);
    if Holds(s, t, lt) {
      var i :| 0 <= i < |s| && Equiv(lt, s[i], t);
      EquivSubstitutes(lt, s[i], t, s[p]);
    }
  }

  /** Putting `t` at its lower bound keeps the block sorted when no element
      equivalent to `t` is there. */
  lemma InsertAtSorted<T(!new)>(s: seq<T>, t: T, lt: (T, T) -> bool, p: nat)
    requires WeakOrder(lt) && Sorted(s, lt)
    requires p == LowerBound(s, t, lt)
    requires !(p < |s| && Equiv(lt, s[p], t))
    ensures Sorted(s[..p] + [t] + s[p..], lt)
  {
    LowerBoundSplits(s, t, lt);
    var r := s[..p] + [t] + s[p..];
    forall i, j | 0 <= i < j < |r| ensures lt(r[i], r[j]) {
      if j == p {
        assert r[i] == s[i];
      } else if i == p {
        assert r[j] == s[j - 1];
        assert lt(t, s[p]);
        if j - 1 > p {
          assert lt(s[p], s[j - 1]);
        }
      } else if i < p < j {
        assert lt(s[i], t) && lt(t, s[p]);
        if j - 1 > p {
          assert lt(s[p], s[j - 1]);
        }
      }
    }
  }

  lemma LowerBoundAll<T(!new)>(s: seq<T>, t: T, lt: (T, T) -> bool)
    ensures WeakOrder(lt) && Sorted(s, lt) ==> forall i :: LowerBound(s, t, lt) <= i < |s| ==> !lt(s[i], t)
  {
    if WeakOrder(lt) && Sorted(s, lt) {
      LowerBoundSplits(s, t, lt);
    }
  }

  lemma UpperBoundAll<T(!new)>(s: seq<T>, t: T, lt: (T, T) -> bool)
    ensures WeakOrder(lt) && Sorted(s, lt) ==> forall i :: UpperBound(s, t, lt) <= i < |s| ==> lt(t, s[i])
  {
    if WeakOrder(lt) && Sorted(s, lt) {
      UpperBoundSplits(s, t, lt);
    }
  }

  /** What the lower bound tells on a sorted block: whether an equivalent
      element is present, and that `t` can go in there. */
  lemma AtLowerBound<T(!new)>(s: seq<T>, t: T, lt: (T, T) -> bool, p: nat)
    requires p == LowerBound(s, t, lt)
    ensures WeakOrder(lt) && Sorted(s, lt) ==> (Holds(s, t, lt) <==> p < |s| && Equiv(lt, s[p], t))
    ensures WeakOrder(lt) && Sorted(s, lt) && !(p < |s| && Equiv(lt, s[p], t)) ==> Sorted(s[..p] + [t] + s[p..], lt)
    ensures WeakOrder(lt) && Sorted(s, lt) && p < |s| ==> Sorted(s[..p] + s[p + 1..], lt)
  {
    if WeakOrder(lt) && Sorted(s, lt) {
      LowerBoundFinds(s, t, lt);
      if !(p < |s| && Equiv(lt, s[p], t)) {
        InsertAtSorted(s, t, lt, p);
      }
      if p < |s| {
        EraseSorted(s, p, lt);
      }
    }
  }

  /** `Block::insert`: refuses when the block is full or already holds an
      equivalent element; otherwise `t` goes in at its place. */
  function Insert<T(!new)>(s: seq<T>, t: T, cap: nat, lt: (T, T) -> bool): (r: (bool, seq<T>))
    ensures !r.0 ==> r.1 == s
    ensures r.0 ==> |s| < cap && |r.1| == |s| + 1 && multiset(r.1) == multiset(s) + multiset{t}
    ensures r.0 ==> exists i :: 0 <= i <= |s| && r.1 == s[..i] + [t] + s[i..]
    ensures Inv(s, cap, lt) ==> (r.0 <==> |s| < cap && !Holds(s, t, lt))
    ensures Inv(s, cap, lt) && r.0 ==> Sorted(r.1, lt)
  {
    if |s| >= cap then (false, s)
    else
      var p := LowerBound(s, t, lt);
      AtLowerBound(s, t, lt, p);
      if p < |s| && Equiv(lt, s[p], t) then (false, s)
      else
        assert s == s[..p] + s[p..];
        (true, s[..p] + [t] + s[p..])
  }

  /** `Block::erase`: removes the element equivalent to `t`, if any. */
  function Erase<T(!new)>(s: seq<T>, t: T, lt: (T, T) -> bool): (r: (bool, seq<T>))
    ensures !r.0 ==> r.1 == s
    ensures r.0 ==> exists i :: 0 <= i < |s| && Equiv(lt, s[i], t) && r.1 == s[..i] + s[i + 1..]
    ensures WeakOrder(lt) && Sorted(s, lt) ==> (r.0 <==> Holds(s, t, lt))
    ensures WeakOrder(lt) && Sorted(s, lt) && r.0 ==> Sorted(r.1, lt) && !Holds(r.1, t, lt)
  {
    var p := LowerBound(s, t, lt);
    AtLowerBound(s, t, lt, p);
    if p >= |s| || !Equiv(lt, s[p], t) then (false, s)
    else
      (true, s[..p] + s[p + 1..])
  }

  lemma EraseSorted<T>(s: seq<T>, p: nat, lt: (T, T) -> bool)
    requires Sorted(s, lt) && p < |s|
    ensures Sorted(s[..p] + s[p + 1..], lt)
  {
    var r := s[..p] + s[p + 1..];
    forall i, j | 0 <= i < j < |r| ensures lt(r[i], r[j]) {
      var i' := if i < p then i else i + 1;
      var j' := if j < p then j else j + 1;
      assert r[i] == s[i'] && r[j] == s[j'];
    }
  }

  /** `Block::getLastNoGreater`: the index of the last element not greater
      than `t`, `-1` when every element is greater. */
  function LastNoGreater<T(!new)>(s: seq<T>, t: T, lt: (T, T) -> bool): (r: int)
    ensures -1 <= r < |s|
    ensures forall i :: 0 <= i <= r ==> !lt(t, s[i])
    ensures r + 1 < |s| ==> lt(t, s[r + 1])
    ensures WeakOrder(lt) && Sorted(s, lt) ==> forall i :: r < i < |s| ==> lt(t, s[i])
  {
    UpperBoundAll(s, t, lt);
    UpperBound(s, t, lt) - 1
  }

  /** `Block::getFirstNoSmaller`: the index of the first element not smaller
      than `t`, `|s|` when every element is smaller. */
  function FirstNoSmaller<T(!new)>(s: seq<T>, t: T, lt: (T, T) -> bool): (r: nat)
    ensures r <= |s|
    ensures forall i :: 0 <= i < r ==> lt(s[i], t)
    ensures r < |s| ==> !lt(s[r], t)
    ensures WeakOrder(lt) && Sorted(s, lt) ==> forall i :: r <= i < |s| ==> !lt(s[i], t)
  {
    LowerBoundAll(s, t, lt);
    LowerBound(s, t, lt)
  }

  /** `Block::min`: the first element, which is the least one of a sorted
      block. */
  function Min<T>(s: seq<T>, lt: (T, T) -> bool): (r: T)
    requires |s| > 0
    ensures r in s
    ensures Sorted(s, lt) ==> forall i :: 0 < i < |s| ==> lt(r, s[i])
  {
    s[0]
  }

  /** `Block::split`: the upper `|s| / 2` elements move to a new block. */
  function Split<T>(s: seq<T>): (r: (seq<T>, seq<T>))
    ensures r.0 + r.1 == s
    ensures |r.1| == |s| / 2 && |r.0| == |s| - |s| / 2
  {
    (s[..|s| - |s| / 2], s[|s| - |s| / 2..])
  }

  /** Both halves of a split sorted block are sorted, each nonempty when the
      block had two elements, and all of the kept half lies below the moved
      half. */
  lemma SplitSorted<T>(s: seq<T>, lt: (T, T) -> bool)
    requires Sorted(s, lt)
    ensures Sorted(Split(s).0, lt) && Sorted(Split(s).1, lt)
    ensures |s| >= 2 ==> |Split(s).0| > 0 && |Split(s).1| > 0
    ensures forall i, j :: 0 <= i < |Split(s).0| && 0 <= j < |Split(s).1| ==> lt(Split(s).0[i], Split(s).1[j])
  {
    var (a, b) := Split(s);
    forall i, j | 0 <= i < |a| && 0 <= j < |b| ensures lt(a[i], b[j]) {
      assert a[i] == s[i] && b[j] == s[|a| + j];
    }
  }

  /** `erase` when the lower bound holds an equivalent element. */
  lemma EraseAt<T(!new)>(s: seq<T>, t: T, lt: (T, T) -> bool)
    requires LowerBound(s, t, lt) < |s| && Equiv(lt, s[LowerBound(s, t, lt)], t)
    ensures Erase(s, t, lt) == (true, s[..LowerBound(s, t, lt)] + s[LowerBound(s, t, lt) + 1..])
  {
  }

  /** `insert` when the block has room and its lower bound holds nothing
      equivalent to `t`. */
  lemma InsertAt<T(!new)>(s: seq<T>, t: T, cap: nat, lt: (T, T) -> bool)
    requires |s| < cap
    requires !(LowerBound(s, t, lt) < |s| && Equiv(lt, s[LowerBound(s, t, lt)], t))
    ensures Insert(s, t, cap, lt) == (true, s[..LowerBound(s, t, lt)] + [t] + s[LowerBound(s, t, lt)..])
  {
  }

  /** `insert` puts `t` at its lower bound, which stays its lower bound in
      the new block. */
  lemma InsertedAt<T(!new)>(s: seq<T>, t: T, cap: nat, lt: (T, T) -> bool)
    requires Inv(s, cap, lt)
    requires Insert(s, t, cap, lt).0
    ensures var p := LowerBound(s, t, lt);
            && Insert(s, t, cap, lt).1 == s[..p] + [t] + s[p..]
            && LowerBound(Insert(s, t, cap, lt).1, t, lt) == p
  {
    var r := Insert(s, t, cap, lt).1;
    var p := LowerBound(s, t, lt);
    assert r == s[..p] + [t] + s[p..];
    LowerBoundSplits(s, t, lt);
    forall i | 0 <= i < p ensures lt(r[i], t) {
      assert r[i] == s[i];
    }
    forall i | p <= i < |r| ensures !lt(r[i], t) {
      if i > p {
        assert r[i] == s[i - 1];
      }
    }
    LowerBoundUnique(r, t, lt, p);
  }

  /** Inserting at `p` and deleting at `p` cancel out. */
  lemma InsertDelete<T>(s: seq<T>, t: T, p: nat)
    requires p <= |s|
    ensures (s[..p] + [t] + s[p..])[p] == t
    ensures (s[..p] + [t] + s[p..])[..p] + (s[..p] + [t] + s[p..])[p + 1..] == s
  {
    var r := s[..p] + [t] + s[p..];
    assert r[..p] == s[..p] && r[p + 1..] == s[p..];
  }

  /** Deleting at `p` and putting the element back at `p` cancel out. */
  lemma DeleteInsert<T>(s: seq<T>, p: nat)
    requires p < |s|
    ensures (s[..p] + s[p + 1..])[..p] + [s[p]] + (s[..p] + s[p + 1..])[p..] == s
    ensures p + 1 < |s| ==> (s[..p] + s[p + 1..])[p] == s[p + 1]
  {
    var r := s[..p] + s[p + 1..];
    assert r[..p] == s[..p] && r[p..] == s[p + 1..];
  }

  /** Taking `t` out again at the position where it went in. */
  lemma EraseAfterInsertAt<T(!new)>(s: seq<T>, t: T, lt: (T, T) -> bool, p: nat)
    requires p <= |s| && Equiv(lt, t, t)
    requires LowerBound(s[..p] + [t] + s[p..], t, lt) == p
    ensures Erase(s[..p] + [t] + s[p..], t, lt) == (true, s)
  {
    InsertDelete(s, t, p);
    EraseAt(s[..p] + [t] + s[p..], t, lt);
  }

  /** Putting `t` back at the position it was taken from. */
  lemma InsertAfterEraseAt<T(!new)>(s: seq<T>, t: T, cap: nat, lt: (T, T) -> bool, p: nat)
    requires p < |s| <= cap && s[p] == t
    requires LowerBound(s[..p] + s[p + 1..], t, lt) == p
    requires p + 1 < |s| ==> lt(t, s[p + 1])
    ensures Insert(s[..p] + s[p + 1..], t, cap, lt) == (true, s)
  {
    DeleteInsert(s, p);
    InsertAt(s[..p] + s[p + 1..], t, cap, lt);
  }

  /** Erasing what was just inserted gives the block back. */
  lemma {:induction false} EraseUndoesInsert<T(!new)>(s: seq<T>, t: T, cap: nat, lt: (T, T) -> bool)
    requires Inv(s, cap, lt)
    requires Insert(s, t, cap, lt).0
    ensures Erase(Insert(s, t, cap, lt).1, t, lt) == (true, s)
  {
    InsertedAt(s, t, cap, lt);
    EraseAfterInsertAt(s, t, lt, LowerBound(s, t, lt));
  }

  /** Inserting the element just erased gives the block back. */
  lemma {:induction false} InsertUndoesErase<T(!new)>(s: seq<T>, t: T, cap: nat, lt: (T, T) -> bool)
    requires Inv(s, cap, lt) && t in s
    ensures Erase(s, t, lt).0
    ensures Insert(Erase(s, t, lt).1, t, cap, lt) == (true, s)
  {
    var i :| 0 <= i < |s| && s[i] == t;
    assert Holds(s, t, lt);
    var p := LowerBound(s, t, lt);
    LowerBoundFinds(s, t, lt);
    SortedDistinct(s, lt, i, p);
    EraseAt(s, t, lt);
    ErasedLowerBound(s, t, lt, p);
    InsertAfterEraseAt(s, t, cap, lt, p);
  }

  /** Removing the element at the lower bound of `t` leaves the lower bound
      where it was. */
  lemma ErasedLowerBound<T(!new)>(s: seq<T>, t: T, lt: (T, T) -> bool, p: nat)
    requires WeakOrder(lt) && Sorted(s, lt)
    requires p == LowerBound(s, t, lt) && p < |s|
    ensures LowerBound(s[..p] + s[p + 1..], t, lt) == p
  {
    var r := s[..p] + s[p + 1..];
    LowerBoundSplits(s, t, lt);
    forall j | 0 <= j < p ensures lt(r[j], t) {
      assert r[j] == s[j];
    }
    forall j | p <= j < |r| ensures !lt(r[j], t) {
      assert r[j] == s[j + 1];
    }
    LowerBoundUnique(r, t, lt, p);
  }

  /** `std::lower_bound` as the binary search it is. */
  method BinaryLowerBound<T(!new)>(s: seq<T>, t: T, lt: (T, T) -> bool) returns (p: nat)
    requires WeakOrder(lt) && Sorted(s, lt)
    ensures p == LowerBound(s, t, lt)
  {
    var lo, hi := 0, |s|;
    while lo < hi
      invariant 0 <= lo <= hi <= |s|
      invariant forall i :: 0 <= i < lo ==> lt(s[i], t)
      invariant forall i :: hi <= i < |s| ==> !lt(s[i], t)
      decreases hi - lo
    {
      var mid := lo + (hi - lo) / 2;
      if lt(s[mid], t) {
        lo := mid + 1;
      } else {
        hi := mid;
      }
    }
    p := lo;
    LowerBoundUnique(s, t, lt, p);
  }

  /** `std::upper_bound` as the binary search it is. */
  method BinaryUpperBound<T(!new)>(s: seq<T>, t: T, lt: (T, T) -> bool) returns (p: nat)
    requires WeakOrder(lt) && Sorted(s, lt)
    ensures p == UpperBound(s, t, lt)
  {
    var lo, hi := 0, |s|;
    while lo < hi
      invariant 0 <= lo <= hi <= |s|
      invariant forall i :: 0 <= i < lo ==> !lt(t, s[i])
      invariant forall i :: hi <= i < |s| ==> lt(t, s[i])
      decreases hi - lo
    {
      var mid := lo + (hi - lo) / 2;
      if lt(t, s[mid]) {
        hi := mid;
      } else {
        lo := mid + 1;
      }
    }
    p := lo;
    UpperBoundUnique(s, t, lt, p);
  }
}
