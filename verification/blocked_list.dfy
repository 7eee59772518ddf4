/** `BlockedList<T, SIZE>`, the two earlier versions of the persistent set:
    src/database/BlockedList.hpp and the oldest copy, BlockedList.hpp.

    The copy in src/database/BlockedList.hpp differs from
    `PersistentSets` only in its `search`, which has no guard for an empty
    index. The oldest copy also has a `void` `Block::insert`, a `void`
    `insert` that always writes the leaf back, and a `Block::erase` whose
    "not found" test only fires when the lower bound lies inside the block. */
module BlockedLists {
  import opened Order
  import Blocks
  import Storage
  import PS = PersistentSets

  // ---------------------------------------------------------------------
  // The oldest Block
  // ---------------------------------------------------------------------

  /** The `void` `Block::insert` of BlockedList.hpp: the block with `t` put
      in, or the same block when it is full or holds an equivalent element. */
  function OldBlockInsert<T(!new)>(s: seq<T>, t: T, cap: nat, lt: (T, T) -> bool): (r: seq<T>)
    ensures Blocks.Inv(s, cap, lt) ==> (r == s <==> |s| >= cap || Holds(s, t, lt))
    ensures r != s ==> multiset(r) == multiset(s) + multiset{t}
    ensures Blocks.Inv(s, cap, lt) ==> Sorted(r, lt)
  {
    Blocks.Insert(s, t, cap, lt).1
  }

  /** What `Block::erase` of BlockedList.hpp does to the block: nothing
      (`NotFound`, returns false), remove one element (`Removed`, returns
      true), or decrement the size of an empty block below zero
      (`Underflow`, returns true). */
  datatype Erased<T> = NotFound | Removed(rest: seq<T>) | Underflow

  /** `Block::erase` of BlockedList.hpp, as written: when the lower bound is
      past the end the guard does not fire, nothing is moved and the size
      still drops, which loses the last element. */
  function OldBlockErase<T(!new)>(s: seq<T>, t: T, lt: (T, T) -> bool): (r: Erased<T>)
    ensures r.Removed? ==> exists i :: 0 <= i < |s| && r.rest == s[..i] + s[i + 1..]
    ensures r == Underflow <==> |s| == 0
    ensures WeakOrder(lt) && Sorted(s, lt) && r == NotFound ==> !Holds(s, t, lt)
    ensures WeakOrder(lt) && Sorted(s, lt) && Holds(s, t, lt) ==> r == Removed(Blocks.Erase(s, t, lt).1)
  {
    var p := LowerBound(s, t, lt);
    Blocks.AtLowerBound(s, t, lt, p);
    if p < |s| && !Equiv(lt, s[p], t) then NotFound
    else if |s| == 0 then Underflow
    else if p == |s| then
      assert s[..|s| - 1] == s[..|s| - 1] + s[|s|..];
      Removed(s[..|s| - 1])
    else Removed(s[..p] + s[p + 1..])
  }

  /** When `t` is greater than every element, the oldest `Block::erase`
      drops the last element and reports success, where the corrected
      `Blocks.Erase` reports that `t` is absent and keeps the block. */
  lemma OldBlockEraseDropsLast<T(!new)>(s: seq<T>, t: T, lt: (T, T) -> bool)
    requires |s| > 0 && forall i :: 0 <= i < |s| ==> lt(s[i], t)
    ensures OldBlockErase(s, t, lt) == Removed(s[..|s| - 1])
    ensures Blocks.Erase(s, t, lt) == (false, s)
  {
    LowerBoundUnique(s, t, lt, |s|);
  }

  /** The smallest case: erasing 5 from the block [1, 2]. */
  lemma OldBlockEraseCounterexample()
    ensures OldBlockErase([1, 2], 5, IntLt()) == Removed([1])
    ensures Blocks.Erase([1, 2], 5, IntLt()) == (false, [1, 2])
  {
    OldBlockEraseDropsLast([1, 2], 5, IntLt());
  }

  // ---------------------------------------------------------------------
  // The oldest BlockedList
  // ---------------------------------------------------------------------

  /** `BlockedList::insert` of BlockedList.hpp: returns nothing and writes
      the leaf back and refreshes its entry even when `t` was already
      there. The index block gains at most one entry and never loses one. */
  function OldInsert<T(!new)>(p: PS.PSet<T>, t: T, cap: nat, lt: (T, T) -> bool): (r: PS.PSet<T>)
    requires PS.Inv(p, cap, lt)
    ensures |p.index| <= |r.index| <= |p.index| + 1
  {
    if |p.index| == 0 then
      Storage.AddFresh(p.store, [t]);
      var (pos, st) := Storage.Add(p.store, [t]);
      PS.PSet(Blocks.Insert(p.index, PS.Entry(t, pos), cap, PS.EntryLt(lt)).1, st)
    else
      var i := Blocks.LastNoGreater(p.index, PS.Entry(t, 0), PS.EntryLt(lt));
      var k := if i < 0 then 0 else i;
      var pos := p.index[k].pos;
      var leaf := OldBlockInsert(Storage.Get(p.store, pos), t, cap, lt);
      assert PS.LeafOk(Storage.Records(p.store)[pos], p.index[k].min, cap);
      var p1 := PS.WriteBack(p, k, leaf, lt);
      if |leaf| < cap then p1
      else
        Storage.SetKeepsValid(p.store, leaf, pos);
        PS.SplitOff(p1, k, cap, lt)
  }

  /** The oldest `insert` leaves the set exactly as `PersistentSet::insert`
      does, so everything `PS.InsertSpec` proves holds of it. */
  lemma OldInsertAgrees<T(!new)>(p: PS.PSet<T>, t: T, cap: nat, lt: (T, T) -> bool)
    requires PS.Inv(p, cap, lt)
    ensures OldInsert(p, t, cap, lt) == PS.Insert(p, t, cap, lt).1
  {
    if |p.index| > 0 {
      var i := Blocks.LastNoGreater(p.index, PS.Entry(t, 0), PS.EntryLt(lt));
      var k := if i < 0 then 0 else i;
      var pos := p.index[k].pos;
      var leaf := Storage.Get(p.store, pos);
      if !Blocks.Insert(leaf, t, cap, lt).0 {
        assert PS.LeafOk(leaf, p.index[k].min, cap);
        Storage.SetSame(p.store, leaf, pos);
        assert p.index[k := PS.Entry(leaf[0], pos)] == p.index;
      }
    }
  }

  /** `BlockedList::erase` of BlockedList.hpp, with the oldest
      `Block::erase`. Leaves are never empty, so `Underflow` cannot occur.
      `OldEraseSpec` states what it does for every `t`. */
  function OldErase<T(!new)>(p: PS.PSet<T>, t: T, cap: nat, lt: (T, T) -> bool): (r: (bool, PS.PSet<T>))
    requires PS.Inv(p, cap, lt)
    ensures !r.0 ==> r.1 == p
  {
    if |p.index| == 0 then (false, p)
    else
      var k := Blocks.LastNoGreater(p.index, PS.Entry(t, 0), PS.EntryLt(lt));
      if k < 0 then (false, p)
      else
        var pos := p.index[k].pos;
        assert PS.LeafOk(Storage.Records(p.store)[pos], p.index[k].min, cap);
        match OldBlockErase(Storage.Get(p.store, pos), t, lt)
        case NotFound => (false, p)
        case Underflow => assert false; (false, p)
        case Removed(leaf) =>
          if |leaf| == 0 then
            (true, PS.PSet(Blocks.Erase(p.index, p.index[k], PS.EntryLt(lt)).1, Storage.Remove(p.store, pos)))
          else
            (true, PS.WriteBack(p, k, leaf, lt))
  }

  /** When the set holds `t`, the oldest `erase` does what the corrected
      `PersistentSet::erase` does. */
  lemma OldEraseAgreesWhenPresent<T(!new)>(p: PS.PSet<T>, t: T, cap: nat, lt: (T, T) -> bool)
    requires PS.Inv(p, cap, lt) && Holds(PS.Elements(p), t, lt)
    ensures OldErase(p, t, cap, lt) == PS.Erase(p, t, cap, lt)
  {
    PS.ChosenLeaf(p, t, cap, lt);
    var k := Blocks.LastNoGreater(p.index, PS.Entry(t, 0), PS.EntryLt(lt));
    if k < 0 {
      PS.EraseNothing(p, t, cap, lt);
    } else {
      PS.VisitLeaf(p, t, cap, lt, k);
    }
  }

  /** A value above every element leads to the last leaf. */
  lemma LastLeafChosen<T(!new)>(p: PS.PSet<T>, t: T, cap: nat, lt: (T, T) -> bool)
    requires PS.Inv(p, cap, lt) && |p.index| > 0
    requires forall i :: 0 <= i < |PS.Elements(p)| ==> lt(PS.Elements(p)[i], t)
    ensures Blocks.LastNoGreater(p.index, PS.Entry(t, 0), PS.EntryLt(lt)) == |p.index| - 1
  {
    forall j | 0 <= j < |p.index| ensures !lt(t, p.index[j].min) {
      PS.MinIsElement(p, cap, lt, j);
      var i :| 0 <= i < |PS.Elements(p)| && PS.Elements(p)[i] == p.index[j].min;
    }
  }

  /** The leaf the oldest `erase` visits has every element below `t`: then
      its `Block::erase` drops the leaf's last element. */
  ghost predicate BelowChosenLeaf<T(!new)>(p: PS.PSet<T>, t: T, cap: nat, lt: (T, T) -> bool)
    requires PS.Inv(p, cap, lt)
  {
    && |p.index| > 0
    && var k := Blocks.LastNoGreater(p.index, PS.Entry(t, 0), PS.EntryLt(lt));
       && k >= 0
       && forall i :: 0 <= i < |PS.LeafAt(p, k)| ==> lt(PS.LeafAt(p, k)[i], t)
  }

  /** When the visited leaf lies wholly below `t`, the oldest `erase`
      drops that leaf's last element: it frees the leaf when that was its
      only element, and otherwise writes the rest back. */
  lemma OldEraseLeafResult<T(!new)>(p: PS.PSet<T>, t: T, cap: nat, lt: (T, T) -> bool, k: int)
    requires PS.Inv(p, cap, lt) && |p.index| > 0
    requires k == Blocks.LastNoGreater(p.index, PS.Entry(t, 0), PS.EntryLt(lt)) && k >= 0
    requires forall i :: 0 <= i < |PS.LeafAt(p, k)| ==> lt(PS.LeafAt(p, k)[i], t)
    ensures var l := PS.LeafAt(p, k);
            && |l| > 0
            && OldErase(p, t, cap, lt)
               == if |l| == 1
                  then (true, PS.PSet(Blocks.Erase(p.index, p.index[k], PS.EntryLt(lt)).1,
                                      Storage.Remove(p.store, p.index[k].pos)))
                  else (true, PS.WriteBack(p, k, l[..|l| - 1], lt))
  {
    var l := PS.LeafAt(p, k);
    assert PS.LeafOk(Storage.Records(p.store)[p.index[k].pos], p.index[k].min, cap);
    OldBlockEraseDropsLast(l, t, lt);
  }

  /** When the visited leaf lies wholly below `t`, the oldest `erase`
      reports success and removes that leaf's greatest element. */
  lemma OldEraseDropsLeafMax<T(!new)>(p: PS.PSet<T>, t: T, cap: nat, lt: (T, T) -> bool, k: int)
    requires PS.Inv(p, cap, lt) && |p.index| > 0
    requires k == Blocks.LastNoGreater(p.index, PS.Entry(t, 0), PS.EntryLt(lt)) && k >= 0
    requires forall i :: 0 <= i < |PS.LeafAt(p, k)| ==> lt(PS.LeafAt(p, k)[i], t)
    ensures OldErase(p, t, cap, lt).0
    ensures PS.Inv(OldErase(p, t, cap, lt).1, cap, lt)
    ensures var l := PS.LeafAt(p, k);
            && |l| > 0
            && PS.Elements(OldErase(p, t, cap, lt).1) == PS.Before(p, k) + l[..|l| - 1] + PS.After(p, k)
  {
    OldEraseLeafResult(p, t, cap, lt, k);
    PS.ChosenLeaf(p, t, cap, lt);
    PS.VisitLeaf(p, t, cap, lt, k);
    var l := PS.LeafAt(p, k);
    var l2 := l[..|l| - 1];
    if |l| == 1 {
      OldLeafEmptied(p, cap, lt, k);
    } else {
      OldLeafShrinks(p, t, cap, lt, k);
    }
  }

  /** Freeing a leaf of one element keeps the set well-formed. */
  lemma OldLeafEmptied<T(!new)>(p: PS.PSet<T>, cap: nat, lt: (T, T) -> bool, k: int)
    requires PS.Inv(p, cap, lt) && 0 <= k < |p.index| && |PS.LeafAt(p, k)| == 1
    ensures var q := PS.PSet(Blocks.Erase(p.index, p.index[k], PS.EntryLt(lt)).1,
                             Storage.Remove(p.store, p.index[k].pos));
            && PS.Inv(q, cap, lt)
            && PS.Elements(q) == PS.Before(p, k) + PS.LeafAt(p, k)[..0] + PS.After(p, k)
  {
    PS.DropSpec(p, cap, lt, k);
    assert PS.Before(p, k) + PS.LeafAt(p, k)[..0] + PS.After(p, k) == PS.Before(p, k) + PS.After(p, k);
  }

  /** Dropping the last element of a leaf of two or more keeps the set
      well-formed. */
  lemma OldLeafShrinks<T(!new)>(p: PS.PSet<T>, t: T, cap: nat, lt: (T, T) -> bool, k: int)
    requires PS.Inv(p, cap, lt) && 0 <= k < |p.index|
    requires k > 0 ==> !lt(t, p.index[k].min)
    requires k + 1 < |p.index| ==> lt(t, p.index[k + 1].min)
    requires 1 < |PS.LeafAt(p, k)| < cap && Sorted(PS.LeafAt(p, k), lt)
    ensures var l := PS.LeafAt(p, k);
            && PS.Inv(PS.WriteBack(p, k, l[..|l| - 1], lt), cap, lt)
            && PS.Elements(PS.WriteBack(p, k, l[..|l| - 1], lt)) == PS.Before(p, k) + l[..|l| - 1] + PS.After(p, k)
  {
    var l := PS.LeafAt(p, k);
    var l2 := l[..|l| - 1];
    PS.ErasedDrawn(l, t, |l| - 1);
    assert l2 == l[..|l| - 1] + l[|l|..];
    Blocks.EraseSorted(l, |l| - 1, lt);
    PS.KeepSpec(p, t, cap, lt, k, l2);
  }

  /** The finding at the level of the set: erasing a value above every
      element reports success and removes the greatest element, where the
      corrected `erase` reports failure and changes nothing. */
  lemma OldEraseDropsMax<T(!new)>(p: PS.PSet<T>, t: T, cap: nat, lt: (T, T) -> bool)
    requires PS.Inv(p, cap, lt) && |PS.Elements(p)| > 0
    requires forall i :: 0 <= i < |PS.Elements(p)| ==> lt(PS.Elements(p)[i], t)
    ensures OldErase(p, t, cap, lt).0
    ensures PS.Inv(OldErase(p, t, cap, lt).1, cap, lt)
    ensures PS.Elements(OldErase(p, t, cap, lt).1) == PS.Elements(p)[..|PS.Elements(p)| - 1]
    ensures PS.Erase(p, t, cap, lt) == (false, p)
  {
    var e := PS.Elements(p);
    var n := |p.index| - 1;
    PS.ChosenLeaf(p, t, cap, lt);
    LastLeafChosen(p, t, cap, lt);
    PS.VisitLeaf(p, t, cap, lt, n);
    var a, l := PS.Before(p, n), PS.LeafAt(p, n);
    assert p.index[n + 1..] == [];
    assert e == a + l;
    forall j | 0 <= j < |l| ensures lt(l[j], t) {
      assert e[|a| + j] == l[j];
    }
    OldEraseDropsLeafMax(p, t, cap, lt, n);
    assert e[..|e| - 1] == a + l[..|l| - 1];
    assert !Holds(e, t, lt);
    PS.EraseSpec(p, t, cap, lt);
  }

  /** The oldest `erase`, for every `t`: it keeps the set well-formed; it
      reports success exactly when `t` is present or the leaf it visits
      lies wholly below `t`; and then exactly one element goes, one
      equivalent to `t` when there is one, otherwise one below `t`. */
  lemma OldEraseSpec<T(!new)>(p: PS.PSet<T>, t: T, cap: nat, lt: (T, T) -> bool)
    requires PS.Inv(p, cap, lt)
    ensures var r := OldErase(p, t, cap, lt);
            && PS.Inv(r.1, cap, lt)
            && (r.0 <==> Holds(PS.Elements(p), t, lt) || BelowChosenLeaf(p, t, cap, lt))
            && (r.0 ==>
                  exists j :: 0 <= j < |PS.Elements(p)|
                              && PS.Elements(r.1) == PS.Elements(p)[..j] + PS.Elements(p)[j + 1..]
                              && (if Holds(PS.Elements(p), t, lt) then Equiv(lt, PS.Elements(p)[j], t)
                                  else lt(PS.Elements(p)[j], t)))
  {
    if Holds(PS.Elements(p), t, lt) {
      OldEraseAgreesWhenPresent(p, t, cap, lt);
      PS.EraseSpec(p, t, cap, lt);
    } else if |p.index| > 0 {
      var k := Blocks.LastNoGreater(p.index, PS.Entry(t, 0), PS.EntryLt(lt));
      if k >= 0 {
        OldEraseAbsent(p, t, cap, lt, k);
      }
    }
  }

  /** The oldest `erase` of an absent `t` from a visited leaf `k`: it fails
      and changes nothing, unless the leaf lies wholly below `t`. */
  lemma OldEraseAbsent<T(!new)>(p: PS.PSet<T>, t: T, cap: nat, lt: (T, T) -> bool, k: int)
    requires PS.Inv(p, cap, lt) && |p.index| > 0 && !Holds(PS.Elements(p), t, lt)
    requires k == Blocks.LastNoGreater(p.index, PS.Entry(t, 0), PS.EntryLt(lt)) && k >= 0
    ensures var r := OldErase(p, t, cap, lt);
            && PS.Inv(r.1, cap, lt)
            && (r.0 <==> BelowChosenLeaf(p, t, cap, lt))
            && (r.0 ==>
                  exists j :: 0 <= j < |PS.Elements(p)| && lt(PS.Elements(p)[j], t)
                              && PS.Elements(r.1) == PS.Elements(p)[..j] + PS.Elements(p)[j + 1..])
  {
    if BelowChosenLeaf(p, t, cap, lt) {
      OldEraseBelow(p, t, cap, lt, k);
    } else {
      OldEraseMisses(p, t, cap, lt, k);
    }
  }

  /** A leaf with an element not below the absent `t`: `Block::erase`
      reports "not found" and nothing changes. */
  lemma OldEraseMisses<T(!new)>(p: PS.PSet<T>, t: T, cap: nat, lt: (T, T) -> bool, k: int)
    requires PS.Inv(p, cap, lt) && |p.index| > 0 && !Holds(PS.Elements(p), t, lt)
    requires k == Blocks.LastNoGreater(p.index, PS.Entry(t, 0), PS.EntryLt(lt)) && k >= 0
    requires !BelowChosenLeaf(p, t, cap, lt)
    ensures OldErase(p, t, cap, lt) == (false, p)
  {
    PS.ChosenLeaf(p, t, cap, lt);
    PS.VisitLeaf(p, t, cap, lt, k);
    var l := PS.LeafAt(p, k);
    var q := LowerBound(l, t, lt);
    Blocks.AtLowerBound(l, t, lt, q);
    assert q < |l|;
    assert OldBlockErase(l, t, lt) == NotFound;
  }

  /** A leaf wholly below the absent `t`: its last element goes. */
  lemma OldEraseBelow<T(!new)>(p: PS.PSet<T>, t: T, cap: nat, lt: (T, T) -> bool, k: int)
    requires PS.Inv(p, cap, lt) && |p.index| > 0
    requires k == Blocks.LastNoGreater(p.index, PS.Entry(t, 0), PS.EntryLt(lt)) && k >= 0
    requires BelowChosenLeaf(p, t, cap, lt)
    ensures OldErase(p, t, cap, lt).0 && PS.Inv(OldErase(p, t, cap, lt).1, cap, lt)
    ensures exists j :: 0 <= j < |PS.Elements(p)| && lt(PS.Elements(p)[j], t)
                        && PS.Elements(OldErase(p, t, cap, lt).1) == PS.Elements(p)[..j] + PS.Elements(p)[j + 1..]
  {
    OldEraseDropsLeafMax(p, t, cap, lt, k);
    PS.ChosenLeaf(p, t, cap, lt);
    PS.VisitLeaf(p, t, cap, lt, k);
    var a, l, b := PS.Before(p, k), PS.LeafAt(p, k), PS.After(p, k);
    DropLastOfMiddle(a, l, b);
    assert lt(l[|l| - 1], t);
  }

  /** Removing the last element of the middle part of `a + l + b`. */
  lemma DropLastOfMiddle<T>(a: seq<T>, l: seq<T>, b: seq<T>)
    requires |l| > 0
    ensures var e, j := a + l + b, |a| + |l| - 1;
            && 0 <= j < |e| && e[j] == l[|l| - 1]
            && e[..j] + e[j + 1..] == a + l[..|l| - 1] + b
  {
    var e, j := a + l + b, |a| + |l| - 1;
    assert e[..j] == a + l[..|l| - 1];
    assert e[j + 1..] == b;
  }

  // ---------------------------------------------------------------------
  // search without the empty-index guard
  // ---------------------------------------------------------------------

  /** `BlockedList::search` (both earlier copies): the scan of
      `PersistentSet::search` without its guard, so the caller must not ask
      an empty list. */
  function UnguardedSearch<T(!new)>(p: PS.PSet<T>, lo: T, hi: T, cap: nat, lt: (T, T) -> bool): (r: seq<T>)
    requires PS.Inv(p, cap, lt) && |p.index| > 0
    ensures forall i :: 0 <= i < |r| ==> !lt(hi, r[i])
  {
    var i := Blocks.LastNoGreater(p.index, PS.Entry(lo, 0), PS.EntryLt(lt));
    var s := if i < 0 then 0 else i;
    var leaf := Storage.Get(p.store, p.index[s].pos);
    var f := Blocks.FirstNoSmaller(leaf, lo, lt);
    TakeUpTo(leaf[f..] + PS.Flatten(Storage.Records(p.store), p.index[s + 1..]), hi, lt)
  }

  /** On a non-empty list the unguarded search answers the range query. */
  lemma UnguardedSearchSpec<T(!new)>(p: PS.PSet<T>, lo: T, hi: T, cap: nat, lt: (T, T) -> bool)
    requires PS.Inv(p, cap, lt) && |p.index| > 0
    ensures UnguardedSearch(p, lo, hi, cap, lt) == Filter(PS.Elements(p), lo, hi, lt)
  {
    PS.SearchSpec(p, lo, hi, cap, lt);
  }
}
