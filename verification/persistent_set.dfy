/** `PersistentSet<T, SIZE>` of src/PersistentSet.hpp: an ordered set kept
    as leaf blocks in a storage file, found through one index block of
    `(min, pos)` entries that lives in memory and is written to the file
    header when the set is closed.

    The leaves are records of a `Storage.Store`; an open set is its
    in-memory index together with that store. `cap` is `SIZE`, the capacity
    of the index block and of every leaf. */
module PersistentSets {
  import opened Order
  import Blocks
  import Storage

  /** An index entry: the least element of a leaf and the leaf's offset. */
  datatype Entry<T> = Entry(min: T, pos: int)

  /** Index entries compare by their `min` alone, as `Index::operator<=>`
      does. */
  function EntryLt<T>(lt: (T, T) -> bool): (Entry<T>, Entry<T>) -> bool {
    (a: Entry<T>, b: Entry<T>) => lt(a.min, b.min)
  }

  lemma EntryLtIsWeakOrder<T(!new)>(lt: (T, T) -> bool)
    requires WeakOrder(lt)
    ensures WeakOrder(EntryLt(lt))
  {
    var elt := EntryLt(lt);
    forall a: Entry<T> ensures !elt(a, a) {
      assert !lt(a.min, a.min);
    }
    forall a: Entry<T>, b: Entry<T>, c: Entry<T> | elt(a, b) && elt(b, c)
      ensures elt(a, c)
    {
      assert lt(a.min, b.min) && lt(b.min, c.min);
    }
    forall a: Entry<T>, b: Entry<T>, c: Entry<T> | !elt(a, b) && !elt(b, c)
      ensures !elt(a, c)
    {
      assert !lt(a.min, b.min) && !lt(b.min, c.min);
    }
  }

  /** The file of one set: leaves as records, the index block as header. */
  type LeafStore<T> = Storage.Store<seq<T>, seq<Entry<T>>>

  /** An open set: the cached index block and the storage file. */
  datatype PSet<T> = PSet(index: seq<Entry<T>>, store: LeafStore<T>)

  /** Every entry points at a live leaf. */
  ghost predicate Indexed<T>(recs: map<int, seq<T>>, idx: seq<Entry<T>>) {
    forall k :: 0 <= k < |idx| ==> idx[k].pos in recs
  }

  /** No two entries share a leaf. */
  ghost predicate DistinctPos<T>(idx: seq<Entry<T>>) {
    forall i, j :: 0 <= i < j < |idx| ==> idx[i].pos != idx[j].pos
  }

  /** The leaves named by `idx`, concatenated in index order. */
  function Flatten<T>(recs: map<int, seq<T>>, idx: seq<Entry<T>>): seq<T>
    requires Indexed(recs, idx)
    decreases |idx|
  {
    if |idx| == 0 then [] else recs[idx[0].pos] + Flatten(recs, idx[1..])
  }

  /** A leaf is never empty and never full (a full leaf is split at once),
      and its entry records its first element. */
  ghost predicate LeafOk<T>(leaf: seq<T>, m: T, cap: nat) {
    0 < |leaf| < cap && leaf[0] == m
  }

  /** Every entry of `idx` names a well-formed leaf. */
  ghost predicate LeavesOk<T>(recs: map<int, seq<T>>, idx: seq<Entry<T>>, cap: nat)
    requires Indexed(recs, idx)
  {
    forall k :: 0 <= k < |idx| ==> LeafOk(recs[idx[k].pos], idx[k].min, cap)
  }

  /** The shape of the structure: the index fits its block, its entries
      point at distinct live leaves that satisfy `LeafOk`, and reading the
      leaves in index order yields a strictly ascending sequence. */
  ghost predicate Shape<T>(recs: map<int, seq<T>>, idx: seq<Entry<T>>, cap: nat, lt: (T, T) -> bool) {
    && |idx| <= cap
    && Indexed(recs, idx)
    && DistinctPos(idx)
    && (forall k :: 0 <= k < |idx| ==> LeafOk(recs[idx[k].pos], idx[k].min, cap))
    && Sorted(Flatten(recs, idx), lt)
  }

  /** The invariant of an open set. */
  ghost predicate Inv<T(!new)>(p: PSet<T>, cap: nat, lt: (T, T) -> bool) {
    && WeakOrder(lt)
    && cap >= 2
    && Storage.Valid(p.store)
    && Shape(Storage.Records(p.store), p.index, cap, lt)
  }

  /** The contents of the set, in ascending order. */
  function Elements<T>(p: PSet<T>): seq<T>
    requires Indexed(Storage.Records(p.store), p.index)
  {
    Flatten(Storage.Records(p.store), p.index)
  }

  // ---------------------------------------------------------------------
  // Reading the leaves in order
  // ---------------------------------------------------------------------

  lemma {:induction false} FlattenAppend<T>(recs: map<int, seq<T>>, a: seq<Entry<T>>, b: seq<Entry<T>>)
    requires Indexed(recs, a) && Indexed(recs, b)
    ensures Indexed(recs, a + b)
    ensures Flatten(recs, a + b) == Flatten(recs, a) + Flatten(recs, b)
    decreases |a|
  {
    if |a| == 0 {
      assert a + b == b;
    } else {
      assert (a + b)[1..] == a[1..] + b;
      FlattenAppend(recs, a[1..], b);
    }
  }

  lemma FlattenAt<T>(recs: map<int, seq<T>>, idx: seq<Entry<T>>, k: int)
    requires Indexed(recs, idx) && 0 <= k < |idx|
    ensures Flatten(recs, idx) == Flatten(recs, idx[..k]) + recs[idx[k].pos] + Flatten(recs, idx[k + 1..])
  {
    var rest := [idx[k]] + idx[k + 1..];
    assert idx == idx[..k] + rest;
    assert rest[1..] == idx[k + 1..];
    FlattenAppend(recs, idx[..k], rest);
  }

  /** Two maps that agree on the leaves `idx` names flatten alike. */
  lemma {:induction false} FlattenFrame<T>(recs: map<int, seq<T>>, recs2: map<int, seq<T>>, idx: seq<Entry<T>>)
    requires Indexed(recs, idx)
    requires forall k :: 0 <= k < |idx| ==> idx[k].pos in recs2 && recs2[idx[k].pos] == recs[idx[k].pos]
    ensures Indexed(recs2, idx)
    ensures Flatten(recs2, idx) == Flatten(recs, idx)
    decreases |idx|
  {
    if |idx| > 0 {
      FlattenFrame(recs, recs2, idx[1..]);
    }
  }

  /** Every element of `a` is less than `t`. */
  ghost predicate AllBelow<T>(a: seq<T>, t: T, lt: (T, T) -> bool) {
    forall i :: 0 <= i < |a| ==> lt(a[i], t)
  }

  /** Every element of `b` is greater than `t`. */
  ghost predicate AllAbove<T>(b: seq<T>, t: T, lt: (T, T) -> bool) {
    forall i :: 0 <= i < |b| ==> lt(t, b[i])
  }

  /** In a well-shaped structure the index block is sorted by `min`. */
  lemma IndexSorted<T(!new)>(recs: map<int, seq<T>>, idx: seq<Entry<T>>, cap: nat, lt: (T, T) -> bool)
    requires WeakOrder(lt) && Shape(recs, idx, cap, lt)
    ensures Sorted(idx, EntryLt(lt))
  {
    forall i, j | 0 <= i < j < |idx| ensures EntryLt(lt)(idx[i], idx[j]) {
      FlattenAt(recs, idx, j);
      var pre := idx[..j];
      FlattenAt(recs, pre, i);
      assert pre[..i] == idx[..i] && pre[i] == idx[i];
      var e := Flatten(recs, idx);
      var x := Flatten(recs, idx[..i]);
      var li := recs[idx[i].pos];
      var y := Flatten(recs, pre[i + 1..]);
      var lj := recs[idx[j].pos];
      assert LeafOk(li, idx[i].min, cap) && LeafOk(lj, idx[j].min, cap);
      assert e == x + li + y + lj + Flatten(recs, idx[j + 1..]);
      assert e[|x|] == li[0];
      assert e[|x| + |li| + |y|] == lj[0];
    }
  }

  /** The leaf an operation on `t` visits splits the contents into the
      part below `t`, the leaf itself, and the part above `t`. Entry `k` is
      the last one whose `min` is not greater than `t`, or the first entry
      when there is none. */
  lemma Locate<T(!new)>(recs: map<int, seq<T>>, idx: seq<Entry<T>>, cap: nat, lt: (T, T) -> bool, t: T, k: int)
    requires WeakOrder(lt) && Shape(recs, idx, cap, lt)
    requires 0 <= k < |idx|
    requires k > 0 ==> !lt(t, idx[k].min)
    requires k + 1 < |idx| ==> lt(t, idx[k + 1].min)
    ensures Flatten(recs, idx) == Flatten(recs, idx[..k]) + recs[idx[k].pos] + Flatten(recs, idx[k + 1..])
    ensures AllBelow(Flatten(recs, idx[..k]), t, lt)
    ensures AllAbove(Flatten(recs, idx[k + 1..]), t, lt)
  {
    FlattenAt(recs, idx, k);
    var a := Flatten(recs, idx[..k]);
    var l := recs[idx[k].pos];
    var b := Flatten(recs, idx[k + 1..]);
    assert LeafOk(l, idx[k].min, cap);
    SortedParts(a + l, b, lt);
    SortedParts(a, l, lt);
    if k == 0 {
      assert a == [];
    } else {
      forall i | 0 <= i < |a| ensures lt(a[i], t) {
        assert lt(a[i], l[0]);
      }
    }
    if |b| > 0 {
      var rest := idx[k + 1..];
      assert |rest| > 0;
      assert rest[0] == idx[k + 1];
      assert LeafOk(recs[rest[0].pos], idx[k + 1].min, cap);
      assert b[0] == idx[k + 1].min;
      forall i | 0 <= i < |b| ensures lt(t, b[i]) {
        if i > 0 {
          assert lt(b[0], b[i]);
        }
      }
    }
  }

  /** Only the middle part can hold an element equivalent to `t`. */
  lemma HoldsMiddle<T(!new)>(a: seq<T>, l: seq<T>, b: seq<T>, t: T, lt: (T, T) -> bool)
    requires WeakOrder(lt)
    requires AllBelow(a, t, lt) && AllAbove(b, t, lt)
    ensures Holds(a + l + b, t, lt) <==> Holds(l, t, lt)
  {
    var s := a + l + b;
    if Holds(s, t, lt) {
      var i :| 0 <= i < |s| && Equiv(lt, s[i], t);
      if |a| <= i < |a| + |l| {
        assert s[i] == l[i - |a|];
      }
    }
    if Holds(l, t, lt) {
      var j :| 0 <= j < |l| && Equiv(lt, l[j], t);
      assert s[|a| + j] == l[j];
    }
  }

  /** Every element of `l2` is `t` or an element of `l`. */
  ghost predicate DrawnFrom<T>(l2: seq<T>, l: seq<T>, t: T) {
    forall j :: 0 <= j < |l2| ==> l2[j] == t || l2[j] in l
  }

  lemma InsertedDrawn<T>(l: seq<T>, t: T, l2: seq<T>)
    requires exists i :: 0 <= i <= |l| && l2 == l[..i] + [t] + l[i..]
    ensures DrawnFrom(l2, l, t)
  {
    var i :| 0 <= i <= |l| && l2 == l[..i] + [t] + l[i..];
    forall j | 0 <= j < |l2| ensures l2[j] == t || l2[j] in l {
      if j < i {
        assert l2[j] == l[j];
      } else if j > i {
        assert l2[j] == l[j - 1];
      }
    }
  }

  lemma ErasedDrawn<T>(l: seq<T>, t: T, i: int)
    requires 0 <= i < |l|
    ensures DrawnFrom(l[..i] + l[i + 1..], l, t)
  {
    var l2 := l[..i] + l[i + 1..];
    forall j | 0 <= j < |l2| ensures l2[j] in l {
      if j < i {
        assert l2[j] == l[j];
      } else {
        assert l2[j] == l[j + 1];
      }
    }
  }

  /** Replacing the middle part by elements drawn from it and from `t`
      keeps the whole sorted when `t` lies between the outer parts. */
  lemma SortedMiddle<T(!new)>(a: seq<T>, l: seq<T>, l2: seq<T>, b: seq<T>, t: T, lt: (T, T) -> bool)
    requires WeakOrder(lt) && Sorted(a + l + b, lt) && Sorted(l2, lt)
    requires DrawnFrom(l2, l, t)
    requires AllBelow(a, t, lt) && AllAbove(b, t, lt)
    ensures Sorted(a + l2 + b, lt)
  {
    SortedParts(a + l, b, lt);
    SortedParts(a, l, lt);
    forall i, j | 0 <= i < |a| && 0 <= j < |l2| ensures lt(a[i], l2[j]) {
      if l2[j] != t {
        var m :| 0 <= m < |l| && l[m] == l2[j];
      }
    }
    SortedAppend(a, l2, lt);
    forall i, j | 0 <= i < |a + l2| && 0 <= j < |b| ensures lt((a + l2)[i], b[j]) {
      if i < |a| {
        assert (a + l2)[i] == a[i] == (a + l)[i];
      } else {
        var y := l2[i - |a|];
        assert (a + l2)[i] == y;
        if y != t {
          var m :| 0 <= m < |l| && l[m] == y;
          assert (a + l)[|a| + m] == y;
        }
      }
    }
    SortedAppend(a + l2, b, lt);
  }

  /** Entry `k` now names the leaf `l2`, stored at the same offset. */
  lemma ReplaceLeaf<T(!new)>(recs: map<int, seq<T>>, recs2: map<int, seq<T>>, idx: seq<Entry<T>>, cap: nat,
                             lt: (T, T) -> bool, k: int, l2: seq<T>)
    requires WeakOrder(lt) && Shape(recs, idx, cap, lt) && 0 <= k < |idx|
    requires 0 < |l2| < cap
    requires idx[k].pos in recs2 && recs2[idx[k].pos] == l2
    requires forall j :: 0 <= j < |idx| && j != k ==> idx[j].pos in recs2 && recs2[idx[j].pos] == recs[idx[j].pos]
    requires Sorted(Flatten(recs, idx[..k]) + l2 + Flatten(recs, idx[k + 1..]), lt)
    ensures Shape(recs2, idx[k := Entry(l2[0], idx[k].pos)], cap, lt)
    ensures Flatten(recs2, idx[k := Entry(l2[0], idx[k].pos)])
            == Flatten(recs, idx[..k]) + l2 + Flatten(recs, idx[k + 1..])
  {
    var pos := idx[k].pos;
    var idx2 := idx[k := Entry(l2[0], pos)];
    assert idx2[..k] == idx[..k] && idx2[k + 1..] == idx[k + 1..];
    var pre, post := idx[..k], idx[k + 1..];
    forall j | 0 <= j < |pre| ensures pre[j].pos in recs2 && recs2[pre[j].pos] == recs[pre[j].pos] {
      assert pre[j] == idx[j];
    }
    forall j | 0 <= j < |post| ensures post[j].pos in recs2 && recs2[post[j].pos] == recs[post[j].pos] {
      assert post[j] == idx[k + 1 + j];
    }
    FlattenFrame(recs, recs2, pre);
    FlattenFrame(recs, recs2, post);
    FlattenAt(recs2, idx2, k);
    forall j | 0 <= j < |idx2| ensures LeafOk(recs2[idx2[j].pos], idx2[j].min, cap) {
      if j != k {
        assert idx2[j] == idx[j];
      }
    }
  }

  /** Dropping entry `k` drops its leaf from the concatenation; the other
      leaves may be read from any map that keeps them. */
  lemma DropFlatten<T>(recs: map<int, seq<T>>, recs2: map<int, seq<T>>, idx: seq<Entry<T>>, k: int)
    requires Indexed(recs, idx) && 0 <= k < |idx|
    requires forall j :: 0 <= j < |idx| && j != k ==> idx[j].pos in recs2 && recs2[idx[j].pos] == recs[idx[j].pos]
    ensures Indexed(recs2, idx[..k] + idx[k + 1..])
    ensures Flatten(recs2, idx[..k] + idx[k + 1..]) == Flatten(recs, idx[..k]) + Flatten(recs, idx[k + 1..])
  {
    var pre, post := idx[..k], idx[k + 1..];
    forall j | 0 <= j < |pre| ensures pre[j].pos in recs2 && recs2[pre[j].pos] == recs[pre[j].pos] {
      assert pre[j] == idx[j];
    }
    forall j | 0 <= j < |post| ensures post[j].pos in recs2 && recs2[post[j].pos] == recs[post[j].pos] {
      assert post[j] == idx[k + 1 + j];
    }
    FlattenFrame(recs, recs2, pre);
    FlattenFrame(recs, recs2, post);
    FlattenAppend(recs2, pre, post);
  }

  /** Dropping entry `k` keeps the other entries' leaves well formed and
      their positions distinct. */
  lemma DropEntry<T>(recs: map<int, seq<T>>, recs2: map<int, seq<T>>, idx: seq<Entry<T>>, cap: nat, k: int)
    requires Indexed(recs, idx) && DistinctPos(idx) && 0 <= k < |idx|
    requires forall j :: 0 <= j < |idx| ==> LeafOk(recs[idx[j].pos], idx[j].min, cap)
    requires forall j :: 0 <= j < |idx| && j != k ==> idx[j].pos in recs2 && recs2[idx[j].pos] == recs[idx[j].pos]
    ensures Indexed(recs2, idx[..k] + idx[k + 1..])
    ensures DistinctPos(idx[..k] + idx[k + 1..])
    ensures LeavesOk(recs2, idx[..k] + idx[k + 1..], cap)
  {
    var idx2 := idx[..k] + idx[k + 1..];
    forall j | 0 <= j < |idx2| ensures idx2[j].pos in recs2 && LeafOk(recs2[idx2[j].pos], idx2[j].min, cap) {
      var i := if j < k then j else j + 1;
      assert idx2[j] == idx[i];
    }
    forall a, b | 0 <= a < b < |idx2| ensures idx2[a].pos != idx2[b].pos {
      assert idx2[a] == idx[if a < k then a else a + 1];
      assert idx2[b] == idx[if b < k then b else b + 1];
    }
  }

  /** Entry `k` and its leaf disappear; the leaf's slot is released. */
  lemma DropLeaf<T(!new)>(recs: map<int, seq<T>>, recs2: map<int, seq<T>>, idx: seq<Entry<T>>, cap: nat,
                          lt: (T, T) -> bool, k: int)
    requires Shape(recs, idx, cap, lt) && 0 <= k < |idx|
    requires forall j :: 0 <= j < |idx| && j != k ==> idx[j].pos in recs2 && recs2[idx[j].pos] == recs[idx[j].pos]
    ensures Shape(recs2, idx[..k] + idx[k + 1..], cap, lt)
    ensures Flatten(recs2, idx[..k] + idx[k + 1..]) == Flatten(recs, idx[..k]) + Flatten(recs, idx[k + 1..])
  {
    DropEntry(recs, recs2, idx, cap, k);
    DropFlatten(recs, recs2, idx, k);
    FlattenAt(recs, idx, k);
    SortedWithout(Flatten(recs, idx[..k]), recs[idx[k].pos], Flatten(recs, idx[k + 1..]), lt);
  }

  /** Entry `k` keeps the lower part `kl` of a split leaf at its offset and
      a new entry right after it names the upper part `ml` at `npos`. */
  lemma SplitLeaf<T(!new)>(recs: map<int, seq<T>>, recs2: map<int, seq<T>>, idx: seq<Entry<T>>, cap: nat,
                           lt: (T, T) -> bool, k: int, kl: seq<T>, ml: seq<T>, npos: int)
    requires WeakOrder(lt) && Shape(recs, idx, cap, lt) && 0 <= k < |idx| && |idx| < cap
    requires 0 < |kl| < cap && 0 < |ml| < cap
    requires npos !in recs
    requires idx[k].pos in recs2 && recs2[idx[k].pos] == kl
    requires npos in recs2 && recs2[npos] == ml
    requires forall j :: 0 <= j < |idx| && j != k ==> idx[j].pos in recs2 && recs2[idx[j].pos] == recs[idx[j].pos]
    requires Sorted(Flatten(recs, idx[..k]) + (kl + ml) + Flatten(recs, idx[k + 1..]), lt)
    ensures Shape(recs2, idx[..k] + [Entry(kl[0], idx[k].pos), Entry(ml[0], npos)] + idx[k + 1..], cap, lt)
    ensures Flatten(recs2, idx[..k] + [Entry(kl[0], idx[k].pos), Entry(ml[0], npos)] + idx[k + 1..])
            == Flatten(recs, idx[..k]) + (kl + ml) + Flatten(recs, idx[k + 1..])
  {
    var pos := idx[k].pos;
    var pre, post := idx[..k], idx[k + 1..];
    var mid := [Entry(kl[0], pos), Entry(ml[0], npos)];
    var idx2 := pre + mid + post;
    forall j | 0 <= j < |pre| ensures pre[j].pos in recs2 && recs2[pre[j].pos] == recs[pre[j].pos] {
      assert pre[j] == idx[j];
    }
    forall j | 0 <= j < |post| ensures post[j].pos in recs2 && recs2[post[j].pos] == recs[post[j].pos] {
      assert post[j] == idx[k + 1 + j];
    }
    FlattenFrame(recs, recs2, pre);
    FlattenFrame(recs, recs2, post);
    var last := [mid[1]];
    assert last[1..] == [];
    assert Flatten(recs2, last) == ml;
    assert mid[1..] == last;
    assert Flatten(recs2, mid) == kl + ml;
    FlattenAppend(recs2, pre, mid);
    FlattenAppend(recs2, pre + mid, post);
    SplitEntries(recs, recs2, idx, cap, k, kl, ml, npos);
  }

  /** Splitting entry `k` into two keeps every entry's leaf well formed and
      the positions distinct. */
  lemma SplitEntries<T>(recs: map<int, seq<T>>, recs2: map<int, seq<T>>, idx: seq<Entry<T>>, cap: nat,
                        k: int, kl: seq<T>, ml: seq<T>, npos: int)
    requires Indexed(recs, idx) && DistinctPos(idx) && LeavesOk(recs, idx, cap) && 0 <= k < |idx|
    requires 0 < |kl| < cap && 0 < |ml| < cap
    requires npos !in recs
    requires idx[k].pos in recs2 && recs2[idx[k].pos] == kl
    requires npos in recs2 && recs2[npos] == ml
    requires forall j :: 0 <= j < |idx| && j != k ==> idx[j].pos in recs2 && recs2[idx[j].pos] == recs[idx[j].pos]
    ensures var idx2 := idx[..k] + [Entry(kl[0], idx[k].pos), Entry(ml[0], npos)] + idx[k + 1..];
            Indexed(recs2, idx2) && DistinctPos(idx2) && LeavesOk(recs2, idx2, cap)
  {
    var mid := [Entry(kl[0], idx[k].pos), Entry(ml[0], npos)];
    var idx2 := idx[..k] + mid + idx[k + 1..];
    forall j | 0 <= j < |idx2|
      ensures idx2[j] == if j < k then idx[j] else if j == k then mid[0] else if j == k + 1 then mid[1] else idx[j - 1]
    {
    }
    forall i, j | 0 <= i < j < |idx2| ensures idx2[i].pos != idx2[j].pos {
      assert idx[k].pos in recs;
      if j - 1 < |idx| && j > k + 1 {
        assert idx[j - 1].pos in recs;
      }
      if i < k {
        assert idx[i].pos in recs;
      }
    }
    forall j | 0 <= j < |idx2| ensures idx2[j].pos in recs2 && LeafOk(recs2[idx2[j].pos], idx2[j].min, cap) {
      if j < k {
        assert idx2[j] == idx[j];
      } else if j > k + 1 {
        assert idx2[j] == idx[j - 1];
      }
    }
  }

  /** The entry of a split-off leaf lands right after the entry of the leaf
      it came from. */
  lemma IndexInsertAfter<T(!new)>(idx1: seq<Entry<T>>, target: seq<Entry<T>>, e: Entry<T>, k: int, cap: nat,
                                  lt: (T, T) -> bool)
    requires WeakOrder(EntryLt(lt)) && |idx1| < cap && Sorted(idx1, EntryLt(lt))
    requires 0 <= k < |idx1|
    requires target == idx1[..k + 1] + [e] + idx1[k + 1..]
    requires Sorted(target, EntryLt(lt))
    ensures Blocks.Insert(idx1, e, cap, EntryLt(lt)) == (true, target)
  {
    var elt := EntryLt(lt);
    assert target[k + 1] == e;
    forall m | 0 <= m < |idx1| ensures !Equiv(elt, idx1[m], e) {
      var m' := if m <= k then m else m + 1;
      assert target[m'] == idx1[m];
    }
    var r := Blocks.Insert(idx1, e, cap, elt).1;
    assert idx1 == idx1[..k + 1] + idx1[k + 1..];
    assert multiset(target) == multiset(idx1) + multiset{e};
    SortedUnique(r, target, elt);
  }

  lemma MiddleMultiset<T>(a: seq<T>, l: seq<T>, l2: seq<T>, b: seq<T>, t: T)
    ensures multiset(l2) == multiset(l) + multiset{t} ==> multiset(a + l2 + b) == multiset(a + l + b) + multiset{t}
    ensures multiset(l2) <= multiset(l) + multiset{t} ==> multiset(a + l2 + b) <= multiset(a + l + b) + multiset{t}
  {
  }

  lemma UpdateThenInsert<E>(idx: seq<E>, k: int, x: E, y: E)
    requires 0 <= k < |idx|
    ensures idx[k := x][..k + 1] + [y] + idx[k := x][k + 1..] == idx[..k] + [x, y] + idx[k + 1..]
  {
    var idx1 := idx[k := x];
    assert idx1[..k + 1] == idx[..k] + [x];
    assert idx1[k + 1..] == idx[k + 1..];
  }

  // ---------------------------------------------------------------------
  // Operations
  // ---------------------------------------------------------------------

  /** Write a changed leaf back over entry `k` and record its new least
      element, as `insert` and `erase` do. */
  function WriteBack<T>(p: PSet<T>, k: int, leaf: seq<T>, lt: (T, T) -> bool): (r: PSet<T>)
    requires 0 <= k < |p.index| && p.index[k].pos in Storage.Records(p.store) && |leaf| > 0
    ensures r.index == p.index[k := Entry(leaf[0], p.index[k].pos)]
    ensures Storage.Records(r.store) == Storage.Records(p.store)[p.index[k].pos := leaf]
  {
    var pos := p.index[k].pos;
    PSet(p.index[k := Entry(Blocks.Min(leaf, lt), pos)], Storage.Set(p.store, leaf, pos))
  }

  /** The split step of `insert`: the full leaf of entry `k` keeps its
      lower half, the upper half is added as a new leaf, and an entry for it
      is offered to the index block, which refuses it when full. */
  function SplitOff<T(!new)>(p: PSet<T>, k: int, cap: nat, lt: (T, T) -> bool): (r: PSet<T>)
    requires 0 <= k < |p.index| && p.index[k].pos in Storage.Records(p.store)
    requires Storage.Valid(p.store) && |Storage.Records(p.store)[p.index[k].pos]| >= 2
  {
    var pos := p.index[k].pos;
    var (kl, ml) := Blocks.Split(Storage.Get(p.store, pos));
    Storage.SetKeepsValid(p.store, kl, pos);
    var st := Storage.Set(p.store, kl, pos);
    Storage.AddFresh(st, ml);
    var (npos, st2) := Storage.Add(st, ml);
    PSet(Blocks.Insert(p.index, Entry(Blocks.Min(ml, lt), npos), cap, EntryLt(lt)).1, st2)
  }

  /** `PersistentSet::insert`. */
  function Insert<T(!new)>(p: PSet<T>, t: T, cap: nat, lt: (T, T) -> bool): (r: (bool, PSet<T>))
    requires Inv(p, cap, lt)
    ensures !r.0 ==> r.1 == p
  {
    if |p.index| == 0 then
      Storage.AddFresh(p.store, [t]);
      var (pos, st) := Storage.Add(p.store, [t]);
      (true, PSet(Blocks.Insert(p.index, Entry(t, pos), cap, EntryLt(lt)).1, st))
    else
      var i := Blocks.LastNoGreater(p.index, Entry(t, 0), EntryLt(lt));
      var k := if i < 0 then 0 else i;
      var pos := p.index[k].pos;
      var (ok, leaf) := Blocks.Insert(Storage.Get(p.store, pos), t, cap, lt);
      if !ok then (false, p)
      else
        var p1 := WriteBack(p, k, leaf, lt);
        if |leaf| < cap then (true, p1)
        else
          Storage.SetKeepsValid(p.store, leaf, pos);
          (true, SplitOff(p1, k, cap, lt))
  }

  /** `PersistentSet::erase`. */
  function Erase<T(!new)>(p: PSet<T>, t: T, cap: nat, lt: (T, T) -> bool): (r: (bool, PSet<T>))
    requires Inv(p, cap, lt)
    ensures !r.0 ==> r.1 == p
    ensures |r.1.index| <= |p.index|
  {
    if |p.index| == 0 then (false, p)
    else
      var k := Blocks.LastNoGreater(p.index, Entry(t, 0), EntryLt(lt));
      if k < 0 then (false, p)
      else
        var pos := p.index[k].pos;
        var (ok, leaf) := Blocks.Erase(Storage.Get(p.store, pos), t, lt);
        if !ok then (false, p)
        else if |leaf| == 0 then
          (true, PSet(Blocks.Erase(p.index, p.index[k], EntryLt(lt)).1, Storage.Remove(p.store, pos)))
        else
          (true, WriteBack(p, k, leaf, lt))
  }

  /** `PersistentSet::search`: start in the leaf whose entry is the last
      one not greater than `lo` (or the first leaf), skip the elements below
      `lo` there, then read on through the following leaves until an
      element exceeds `hi`. */
  function Search<T(!new)>(p: PSet<T>, lo: T, hi: T, cap: nat, lt: (T, T) -> bool): (r: seq<T>)
    requires Inv(p, cap, lt)
    ensures forall i :: 0 <= i < |r| ==> !lt(hi, r[i])
  {
    if |p.index| == 0 then []
    else
      var i := Blocks.LastNoGreater(p.index, Entry(lo, 0), EntryLt(lt));
      var s := if i < 0 then 0 else i;
      var leaf := Storage.Get(p.store, p.index[s].pos);
      var f := Blocks.FirstNoSmaller(leaf, lo, lt);
      TakeUpTo(leaf[f..] + Flatten(Storage.Records(p.store), p.index[s + 1..]), hi, lt)
  }

  // ---------------------------------------------------------------------
  // Correctness of the operations
  // ---------------------------------------------------------------------

  /** The elements held by the leaves before entry `k`. */
  function Before<T>(p: PSet<T>, k: int): seq<T>
    requires Indexed(Storage.Records(p.store), p.index) && 0 <= k <= |p.index|
  {
    Flatten(Storage.Records(p.store), p.index[..k])
  }

  /** The leaf of entry `k`. */
  function LeafAt<T>(p: PSet<T>, k: int): seq<T>
    requires Indexed(Storage.Records(p.store), p.index) && 0 <= k < |p.index|
  {
    Storage.Records(p.store)[p.index[k].pos]
  }

  /** The elements held by the leaves after entry `k`. */
  function After<T>(p: PSet<T>, k: int): seq<T>
    requires Indexed(Storage.Records(p.store), p.index) && 0 <= k < |p.index|
  {
    Flatten(Storage.Records(p.store), p.index[k + 1..])
  }

  /** The entry `insert`, `erase` and `search` pick for a value `t`: the
      last entry whose `min` is not greater than `t`, clamped to the first. */
  lemma ChosenLeaf<T(!new)>(p: PSet<T>, t: T, cap: nat, lt: (T, T) -> bool)
    requires Inv(p, cap, lt) && |p.index| > 0
    ensures var i := Blocks.LastNoGreater(p.index, Entry(t, 0), EntryLt(lt));
            var k := if i < 0 then 0 else i;
            && (k > 0 ==> !lt(t, p.index[k].min))
            && (k + 1 < |p.index| ==> lt(t, p.index[k + 1].min))
            && (i < 0 ==> lt(t, p.index[0].min))
  {
    EntryLtIsWeakOrder(lt);
    IndexSorted(Storage.Records(p.store), p.index, cap, lt);
  }

  /** The `min` of every entry is an element of the set. */
  lemma MinIsElement<T(!new)>(p: PSet<T>, cap: nat, lt: (T, T) -> bool, j: int)
    requires Inv(p, cap, lt) && 0 <= j < |p.index|
    ensures p.index[j].min in Elements(p)
  {
    var recs := Storage.Records(p.store);
    FlattenAt(recs, p.index, j);
    assert LeafOk(recs[p.index[j].pos], p.index[j].min, cap);
    assert Elements(p)[|Flatten(recs, p.index[..j])|] == p.index[j].min;
  }

  /** What the visited leaf tells about the whole set. */
  lemma VisitLeaf<T(!new)>(p: PSet<T>, t: T, cap: nat, lt: (T, T) -> bool, k: int)
    requires Inv(p, cap, lt) && 0 <= k < |p.index|
    requires k > 0 ==> !lt(t, p.index[k].min)
    requires k + 1 < |p.index| ==> lt(t, p.index[k + 1].min)
    ensures Elements(p) == Before(p, k) + LeafAt(p, k) + After(p, k)
    ensures AllBelow(Before(p, k), t, lt) && AllAbove(After(p, k), t, lt)
    ensures Blocks.Inv(LeafAt(p, k), cap, lt) && 0 < |LeafAt(p, k)| < cap
    ensures LeafAt(p, k)[0] == p.index[k].min
    ensures Holds(Elements(p), t, lt) <==> Holds(LeafAt(p, k), t, lt)
  {
    var recs := Storage.Records(p.store);
    Locate(recs, p.index, cap, lt, t, k);
    var a, l, b := Before(p, k), LeafAt(p, k), After(p, k);
    assert LeafOk(l, p.index[k].min, cap);
    SortedParts(a + l, b, lt);
    SortedParts(a, l, lt);
    HoldsMiddle(a, l, b, t, lt);
  }

  /** Writing back a changed leaf that is neither empty nor full keeps the
      invariant; the contents change only in that leaf. */
  lemma KeepSpec<T(!new)>(p: PSet<T>, t: T, cap: nat, lt: (T, T) -> bool, k: int, leaf2: seq<T>)
    requires Inv(p, cap, lt) && 0 <= k < |p.index|
    requires k > 0 ==> !lt(t, p.index[k].min)
    requires k + 1 < |p.index| ==> lt(t, p.index[k + 1].min)
    requires 0 < |leaf2| < cap && Sorted(leaf2, lt)
    requires DrawnFrom(leaf2, LeafAt(p, k), t)
    ensures Inv(WriteBack(p, k, leaf2, lt), cap, lt)
    ensures Elements(WriteBack(p, k, leaf2, lt)) == Before(p, k) + leaf2 + After(p, k)
  {
    var recs := Storage.Records(p.store);
    var pos := p.index[k].pos;
    VisitLeaf(p, t, cap, lt, k);
    SortedMiddle(Before(p, k), LeafAt(p, k), leaf2, After(p, k), t, lt);
    var p2 := WriteBack(p, k, leaf2, lt);
    Storage.SetKeepsValid(p.store, leaf2, pos);
    assert forall j :: 0 <= j < |p.index| && j != k ==> p.index[j].pos != pos;
    ReplaceLeaf(recs, Storage.Records(p2.store), p.index, cap, lt, k, leaf2);
  }

  /** The storage side of the split step: the lower half overwrites the
      leaf, the upper half lands in a slot no leaf used before. */
  lemma SplitStore<T(!new)>(p1: PSet<T>, k: int, cap: nat, lt: (T, T) -> bool)
    requires 0 <= k < |p1.index| && p1.index[k].pos in Storage.Records(p1.store)
    requires Storage.Valid(p1.store) && |Storage.Records(p1.store)[p1.index[k].pos]| >= 2
    ensures var pos := p1.index[k].pos;
            var recs := Storage.Records(p1.store);
            var (kl, ml) := Blocks.Split(recs[pos]);
            var st := Storage.Set(p1.store, kl, pos);
            && Storage.Valid(st)
            && Storage.HeadReadable(st)
            && var (npos, st2) := Storage.Add(st, ml);
            && npos !in recs
            && Storage.Valid(st2)
            && Storage.Records(st2) == recs[pos := kl][npos := ml]
  {
    var pos := p1.index[k].pos;
    var recs := Storage.Records(p1.store);
    var (kl, ml) := Blocks.Split(recs[pos]);
    Storage.SetKeepsValid(p1.store, kl, pos);
    var st := Storage.Set(p1.store, kl, pos);
    Storage.AddFresh(st, ml);
  }

  /** After the split step the index, with entry `k` now naming the lower
      half, describes a well-shaped structure holding all but the upper
      half. */
  lemma SplitShape<T(!new)>(p: PSet<T>, t: T, cap: nat, lt: (T, T) -> bool, k: int, leaf2: seq<T>,
                            kl: seq<T>, ml: seq<T>, npos: int, recs3: map<int, seq<T>>)
    requires Inv(p, cap, lt) && 0 <= k < |p.index|
    requires k > 0 ==> !lt(t, p.index[k].min)
    requires k + 1 < |p.index| ==> lt(t, p.index[k + 1].min)
    requires |leaf2| == cap && Sorted(leaf2, lt)
    requires DrawnFrom(leaf2, LeafAt(p, k), t)
    requires (kl, ml) == Blocks.Split(leaf2)
    requires npos !in Storage.Records(p.store)
    requires recs3 == Storage.Records(p.store)[p.index[k].pos := kl][npos := ml]
    ensures Shape(recs3, p.index[k := Entry(leaf2[0], p.index[k].pos)], cap, lt)
    ensures Flatten(recs3, p.index[k := Entry(leaf2[0], p.index[k].pos)]) == Before(p, k) + kl + After(p, k)
    ensures Sorted(p.index[k := Entry(leaf2[0], p.index[k].pos)], EntryLt(lt))
  {
    var recs := Storage.Records(p.store);
    var pos := p.index[k].pos;
    var a, leaf, b := Before(p, k), LeafAt(p, k), After(p, k);
    VisitLeaf(p, t, cap, lt, k);
    Blocks.SplitSorted(leaf2, lt);
    assert DrawnFrom(kl, leaf, t) by {
      forall j | 0 <= j < |kl| ensures kl[j] == t || kl[j] in leaf {
        assert kl[j] == leaf2[j];
      }
    }
    SortedMiddle(a, leaf, kl, b, t, lt);
    assert forall j :: 0 <= j < |p.index| && j != k ==> p.index[j].pos != pos && p.index[j].pos in recs;
    ReplaceLeaf(recs, recs3, p.index, cap, lt, k, kl);
    assert kl[0] == leaf2[0];
    IndexSorted(recs3, p.index[k := Entry(kl[0], pos)], cap, lt);
  }

  /** With room in the index block, the entry of the upper half goes right
      after entry `k` and nothing is lost. */
  lemma SplitRoom<T(!new)>(p: PSet<T>, t: T, cap: nat, lt: (T, T) -> bool, k: int, leaf2: seq<T>,
                           kl: seq<T>, ml: seq<T>, npos: int, recs3: map<int, seq<T>>)
    requires Inv(p, cap, lt) && 0 <= k < |p.index| && |p.index| < cap
    requires |leaf2| == cap
    requires Sorted(Before(p, k) + leaf2 + After(p, k), lt)
    requires (kl, ml) == Blocks.Split(leaf2)
    requires npos !in Storage.Records(p.store)
    requires recs3 == Storage.Records(p.store)[p.index[k].pos := kl][npos := ml]
    requires Sorted(p.index[k := Entry(leaf2[0], p.index[k].pos)], EntryLt(lt))
    ensures var idx2 := Blocks.Insert(p.index[k := Entry(leaf2[0], p.index[k].pos)], Entry(ml[0], npos), cap, EntryLt(lt)).1;
            Shape(recs3, idx2, cap, lt) && Flatten(recs3, idx2) == Before(p, k) + leaf2 + After(p, k)
  {
    var recs := Storage.Records(p.store);
    var pos := p.index[k].pos;
    var idx1 := p.index[k := Entry(leaf2[0], pos)];
    var e := Entry(ml[0], npos);
    assert leaf2 == kl + ml;
    assert kl[0] == leaf2[0];
    assert forall j :: 0 <= j < |p.index| && j != k ==> p.index[j].pos != pos && p.index[j].pos in recs;
    SplitLeaf(recs, recs3, p.index, cap, lt, k, kl, ml, npos);
    var target := p.index[..k] + [Entry(kl[0], pos), e] + p.index[k + 1..];
    UpdateThenInsert(p.index, k, Entry(kl[0], pos), e);
    IndexSorted(recs3, target, cap, lt);
    EntryLtIsWeakOrder(lt);
    IndexInsertAfter(idx1, target, e, k, cap, lt);
  }

  lemma PartMultiset<T>(a: seq<T>, kl: seq<T>, ml: seq<T>, b: seq<T>)
    ensures multiset(a + kl + b) <= multiset(a + (kl + ml) + b)
  {
  }

  /** Splitting a full leaf keeps the invariant. Unless the index block was
      already full, the contents are exactly the leaves' contents before the
      split; when it was full, the upper half drops out of the set. */
  lemma SplitSpec<T(!new)>(p: PSet<T>, t: T, cap: nat, lt: (T, T) -> bool, k: int, leaf2: seq<T>)
    requires Inv(p, cap, lt) && 0 <= k < |p.index|
    requires k > 0 ==> !lt(t, p.index[k].min)
    requires k + 1 < |p.index| ==> lt(t, p.index[k + 1].min)
    requires |leaf2| == cap && Sorted(leaf2, lt)
    requires DrawnFrom(leaf2, LeafAt(p, k), t)
    requires Sorted(Before(p, k) + leaf2 + After(p, k), lt)
    requires Storage.Valid(WriteBack(p, k, leaf2, lt).store)
    ensures Inv(SplitOff(WriteBack(p, k, leaf2, lt), k, cap, lt), cap, lt)
    ensures multiset(Elements(SplitOff(WriteBack(p, k, leaf2, lt), k, cap, lt)))
            <= multiset(Before(p, k) + leaf2 + After(p, k))
    ensures |p.index| < cap ==>
            Elements(SplitOff(WriteBack(p, k, leaf2, lt), k, cap, lt)) == Before(p, k) + leaf2 + After(p, k)
  {
    var recs := Storage.Records(p.store);
    var pos := p.index[k].pos;
    var p1 := WriteBack(p, k, leaf2, lt);
    SplitStore(p1, k, cap, lt);
    var (kl, ml) := Blocks.Split(leaf2);
    var st := Storage.Set(p1.store, kl, pos);
    var (npos, st2) := Storage.Add(st, ml);
    var recs3 := Storage.Records(st2);
    assert recs3 == recs[pos := kl][npos := ml];
    var idx2 := Blocks.Insert(p1.index, Entry(ml[0], npos), cap, EntryLt(lt)).1;
    assert SplitOff(p1, k, cap, lt) == PSet(idx2, st2);
    SplitShape(p, t, cap, lt, k, leaf2, kl, ml, npos, recs3);
    if |p.index| < cap {
      SplitRoom(p, t, cap, lt, k, leaf2, kl, ml, npos, recs3);
    } else {
      assert idx2 == p1.index;
      PartMultiset(Before(p, k), kl, ml, After(p, k));
    }
  }

  /** The first `insert` into an empty set creates one leaf holding `t`. */
  lemma InsertFirstSpec<T(!new)>(p: PSet<T>, t: T, cap: nat, lt: (T, T) -> bool)
    requires Inv(p, cap, lt) && |p.index| == 0
    ensures Insert(p, t, cap, lt).0
    ensures Inv(Insert(p, t, cap, lt).1, cap, lt)
    ensures Elements(Insert(p, t, cap, lt).1) == [t]
  {
    Storage.AddFresh(p.store, [t]);
    var (pos, st) := Storage.Add(p.store, [t]);
    var e := Entry(t, pos);
    EntryLtIsWeakOrder(lt);
    var r := Blocks.Insert(p.index, e, cap, EntryLt(lt));
    assert r.1 == [e];
    var recs := Storage.Records(st);
    assert Flatten(recs, [e]) == [t] + Flatten(recs, []);
  }

  /** The leaf `insert` picks accepts `t` exactly when the set lacks it. */
  lemma InsertLeaf<T(!new)>(p: PSet<T>, t: T, cap: nat, lt: (T, T) -> bool, k: int)
    requires Inv(p, cap, lt) && 0 <= k < |p.index|
    requires k > 0 ==> !lt(t, p.index[k].min)
    requires k + 1 < |p.index| ==> lt(t, p.index[k + 1].min)
    ensures var r := Blocks.Insert(LeafAt(p, k), t, cap, lt);
            && (r.0 <==> !Holds(Elements(p), t, lt))
            && (r.0 ==> && Sorted(r.1, lt) && 0 < |r.1| <= cap
                        && DrawnFrom(r.1, LeafAt(p, k), t)
                        && Sorted(Before(p, k) + r.1 + After(p, k), lt)
                        && multiset(Before(p, k) + r.1 + After(p, k)) == multiset(Elements(p)) + multiset{t})
  {
    VisitLeaf(p, t, cap, lt, k);
    var l := LeafAt(p, k);
    var r := Blocks.Insert(l, t, cap, lt);
    if r.0 {
      InsertedDrawn(l, t, r.1);
      SortedMiddle(Before(p, k), l, r.1, After(p, k), t, lt);
      MiddleMultiset(Before(p, k), l, r.1, After(p, k), t);
    }
  }

  /** `insert` keeps the invariant and adds `t` exactly when the set lacks
      it. The contents grow by `t` alone unless a split met a full index
      block, which drops the upper half of the split leaf. */
  lemma InsertSpec<T(!new)>(p: PSet<T>, t: T, cap: nat, lt: (T, T) -> bool)
    requires Inv(p, cap, lt)
    ensures Inv(Insert(p, t, cap, lt).1, cap, lt)
    ensures Insert(p, t, cap, lt).0 <==> !Holds(Elements(p), t, lt)
    ensures Insert(p, t, cap, lt).0 ==>
            multiset(Elements(Insert(p, t, cap, lt).1)) <= multiset(Elements(p)) + multiset{t}
    ensures Insert(p, t, cap, lt).0 && |p.index| < cap ==>
            multiset(Elements(Insert(p, t, cap, lt).1)) == multiset(Elements(p)) + multiset{t}
  {
    if |p.index| == 0 {
      InsertFirstSpec(p, t, cap, lt);
    } else {
      ChosenLeaf(p, t, cap, lt);
      var i := Blocks.LastNoGreater(p.index, Entry(t, 0), EntryLt(lt));
      var k := if i < 0 then 0 else i;
      var (ok, leaf) := Blocks.Insert(LeafAt(p, k), t, cap, lt);
      if !ok {
        InsertLeaf(p, t, cap, lt, k);
        assert Insert(p, t, cap, lt) == (false, p);
      } else if |leaf| < cap {
        InsertKeepCase(p, t, cap, lt, k);
        assert Insert(p, t, cap, lt) == (true, WriteBack(p, k, leaf, lt));
      } else {
        InsertSplitCase(p, t, cap, lt, k);
        assert Insert(p, t, cap, lt) == (true, SplitOff(WriteBack(p, k, leaf, lt), k, cap, lt));
      }
    }
  }

  /** `insert` into a leaf that stays below capacity: the leaf is written
      back and the contents grow by `t`. */
  lemma InsertKeepCase<T(!new)>(p: PSet<T>, t: T, cap: nat, lt: (T, T) -> bool, k: int)
    requires Inv(p, cap, lt) && 0 <= k < |p.index|
    requires k > 0 ==> !lt(t, p.index[k].min)
    requires k + 1 < |p.index| ==> lt(t, p.index[k + 1].min)
    requires Blocks.Insert(LeafAt(p, k), t, cap, lt).0 && |Blocks.Insert(LeafAt(p, k), t, cap, lt).1| < cap
    ensures var q := WriteBack(p, k, Blocks.Insert(LeafAt(p, k), t, cap, lt).1, lt);
            && Inv(q, cap, lt)
            && !Holds(Elements(p), t, lt)
            && multiset(Elements(q)) == multiset(Elements(p)) + multiset{t}
  {
    InsertLeaf(p, t, cap, lt, k);
    KeepSpec(p, t, cap, lt, k, Blocks.Insert(LeafAt(p, k), t, cap, lt).1);
  }

  /** `insert` into a leaf that becomes full: the leaf is written back and
      split. */
  lemma InsertSplitCase<T(!new)>(p: PSet<T>, t: T, cap: nat, lt: (T, T) -> bool, k: int)
    requires Inv(p, cap, lt) && 0 <= k < |p.index|
    requires k > 0 ==> !lt(t, p.index[k].min)
    requires k + 1 < |p.index| ==> lt(t, p.index[k + 1].min)
    requires Blocks.Insert(LeafAt(p, k), t, cap, lt).0 && |Blocks.Insert(LeafAt(p, k), t, cap, lt).1| >= cap
    ensures var p1 := WriteBack(p, k, Blocks.Insert(LeafAt(p, k), t, cap, lt).1, lt);
            && !Holds(Elements(p), t, lt)
            && Storage.Valid(p1.store)
            && Inv(SplitOff(p1, k, cap, lt), cap, lt)
            && multiset(Elements(SplitOff(p1, k, cap, lt))) <= multiset(Elements(p)) + multiset{t}
            && (|p.index| < cap ==>
                  multiset(Elements(SplitOff(p1, k, cap, lt))) == multiset(Elements(p)) + multiset{t})
  {
    var leaf := Blocks.Insert(LeafAt(p, k), t, cap, lt).1;
    InsertLeaf(p, t, cap, lt, k);
    Storage.SetKeepsValid(p.store, leaf, p.index[k].pos);
    SplitSpec(p, t, cap, lt, k, leaf);
  }

  /** Erasing entry `k` from a sorted index removes exactly that entry:
      entries have pairwise distinct `min`s. */
  lemma IndexEraseAt<T(!new)>(idx: seq<Entry<T>>, k: int, lt: (T, T) -> bool)
    requires WeakOrder(EntryLt(lt)) && Sorted(idx, EntryLt(lt)) && 0 <= k < |idx|
    ensures Blocks.Erase(idx, idx[k], EntryLt(lt)) == (true, idx[..k] + idx[k + 1..])
  {
    var elt := EntryLt(lt);
    var r := Blocks.Erase(idx, idx[k], elt);
    assert Holds(idx, idx[k], elt) by {
      assert Equiv(elt, idx[k], idx[k]);
    }
    var j :| 0 <= j < |idx| && Equiv(elt, idx[j], idx[k]) && r.1 == idx[..j] + idx[j + 1..];
    SortedDistinct(idx, elt, j, k);
  }

  /** Removing the element at offset `i` of the middle part removes the
      element at offset `|a| + i` of the whole. */
  lemma DeleteMiddle<T>(a: seq<T>, l: seq<T>, b: seq<T>, i: int)
    requires 0 <= i < |l|
    ensures (a + l + b)[|a| + i] == l[i]
    ensures a + (l[..i] + l[i + 1..]) + b == (a + l + b)[..|a| + i] + (a + l + b)[|a| + i + 1..]
  {
    var s := a + l + b;
    assert s[..|a| + i] == a + l[..i];
    assert s[|a| + i + 1..] == l[i + 1..] + b;
  }

  /** The leaf `erase` visits gives up `t` exactly when the set holds it. */
  lemma EraseLeaf<T(!new)>(p: PSet<T>, t: T, cap: nat, lt: (T, T) -> bool, k: int)
    requires Inv(p, cap, lt) && 0 <= k < |p.index|
    requires k > 0 ==> !lt(t, p.index[k].min)
    requires k + 1 < |p.index| ==> lt(t, p.index[k + 1].min)
    ensures var r := Blocks.Erase(LeafAt(p, k), t, lt);
            && (r.0 <==> Holds(Elements(p), t, lt))
            && (r.0 ==> && Sorted(r.1, lt) && |r.1| < cap
                        && DrawnFrom(r.1, LeafAt(p, k), t)
                        && exists j :: 0 <= j < |Elements(p)| && Equiv(lt, Elements(p)[j], t)
                                       && Before(p, k) + r.1 + After(p, k) == Elements(p)[..j] + Elements(p)[j + 1..])
  {
    VisitLeaf(p, t, cap, lt, k);
    var l := LeafAt(p, k);
    var r := Blocks.Erase(l, t, lt);
    if r.0 {
      var i :| 0 <= i < |l| && Equiv(lt, l[i], t) && r.1 == l[..i] + l[i + 1..];
      ErasedDrawn(l, t, i);
      DeleteMiddle(Before(p, k), l, After(p, k), i);
      assert Elements(p)[|Before(p, k)| + i] == l[i];
    }
  }

  /** When every entry's `min` is greater than `t`, the set lacks `t`. */
  lemma EraseNothing<T(!new)>(p: PSet<T>, t: T, cap: nat, lt: (T, T) -> bool)
    requires Inv(p, cap, lt) && |p.index| > 0
    requires lt(t, p.index[0].min)
    requires 1 < |p.index| ==> lt(t, p.index[1].min)
    ensures !Holds(Elements(p), t, lt)
  {
    VisitLeaf(p, t, cap, lt, 0);
    var l := LeafAt(p, 0);
    forall j | 0 <= j < |l| ensures !Equiv(lt, l[j], t) {
      if j > 0 {
        assert lt(l[0], l[j]);
      }
    }
  }

  /** Dropping an emptied leaf and its entry keeps the invariant; the
      contents lose that leaf. */
  lemma DropSpec<T(!new)>(p: PSet<T>, cap: nat, lt: (T, T) -> bool, k: int)
    requires Inv(p, cap, lt) && 0 <= k < |p.index|
    ensures var q := PSet(Blocks.Erase(p.index, p.index[k], EntryLt(lt)).1,
                          Storage.Remove(p.store, p.index[k].pos));
            && Inv(q, cap, lt)
            && Elements(q) == Before(p, k) + After(p, k)
  {
    var recs := Storage.Records(p.store);
    var pos := p.index[k].pos;
    EntryLtIsWeakOrder(lt);
    IndexSorted(recs, p.index, cap, lt);
    IndexEraseAt(p.index, k, lt);
    Storage.RemoveKeepsValid(p.store, pos);
    var recs2 := Storage.Records(Storage.Remove(p.store, pos));
    assert forall j :: 0 <= j < |p.index| && j != k ==> p.index[j].pos != pos && p.index[j].pos in recs;
    DropLeaf(recs, recs2, p.index, cap, lt, k);
  }

  /** The chosen leaf gives up its last element: the leaf and its entry
      are dropped, and the set loses one element equivalent to `t`. */
  lemma EraseDropCase<T(!new)>(p: PSet<T>, t: T, cap: nat, lt: (T, T) -> bool, k: int)
    requires Inv(p, cap, lt) && 0 <= k < |p.index|
    requires k > 0 ==> !lt(t, p.index[k].min)
    requires k + 1 < |p.index| ==> lt(t, p.index[k + 1].min)
    requires Blocks.Erase(LeafAt(p, k), t, lt).0 && |Blocks.Erase(LeafAt(p, k), t, lt).1| == 0
    ensures var q := PSet(Blocks.Erase(p.index, p.index[k], EntryLt(lt)).1,
                          Storage.Remove(p.store, p.index[k].pos));
            && Inv(q, cap, lt)
            && Holds(Elements(p), t, lt)
            && exists j :: 0 <= j < |Elements(p)| && Equiv(lt, Elements(p)[j], t)
                           && Elements(q) == Elements(p)[..j] + Elements(p)[j + 1..]
  {
    EraseLeaf(p, t, cap, lt, k);
    DropSpec(p, cap, lt, k);
    var leaf := Blocks.Erase(LeafAt(p, k), t, lt).1;
    assert Before(p, k) + leaf + After(p, k) == Before(p, k) + After(p, k);
  }

  /** The chosen leaf keeps some elements: it is written back, and the set
      loses one element equivalent to `t`. */
  lemma EraseKeepCase<T(!new)>(p: PSet<T>, t: T, cap: nat, lt: (T, T) -> bool, k: int)
    requires Inv(p, cap, lt) && 0 <= k < |p.index|
    requires k > 0 ==> !lt(t, p.index[k].min)
    requires k + 1 < |p.index| ==> lt(t, p.index[k + 1].min)
    requires Blocks.Erase(LeafAt(p, k), t, lt).0 && |Blocks.Erase(LeafAt(p, k), t, lt).1| > 0
    ensures var q := WriteBack(p, k, Blocks.Erase(LeafAt(p, k), t, lt).1, lt);
            && Inv(q, cap, lt)
            && Holds(Elements(p), t, lt)
            && exists j :: 0 <= j < |Elements(p)| && Equiv(lt, Elements(p)[j], t)
                           && Elements(q) == Elements(p)[..j] + Elements(p)[j + 1..]
  {
    EraseLeaf(p, t, cap, lt, k);
    KeepSpec(p, t, cap, lt, k, Blocks.Erase(LeafAt(p, k), t, lt).1);
  }

  /** `erase` keeps the invariant, succeeds exactly when the set holds an
      element equivalent to `t`, and then removes that one element. */
  lemma EraseSpec<T(!new)>(p: PSet<T>, t: T, cap: nat, lt: (T, T) -> bool)
    requires Inv(p, cap, lt)
    ensures Inv(Erase(p, t, cap, lt).1, cap, lt)
    ensures Erase(p, t, cap, lt).0 <==> Holds(Elements(p), t, lt)
    ensures Erase(p, t, cap, lt).0 ==>
            exists j :: 0 <= j < |Elements(p)| && Equiv(lt, Elements(p)[j], t)
                        && Elements(Erase(p, t, cap, lt).1) == Elements(p)[..j] + Elements(p)[j + 1..]
  {
    if |p.index| > 0 {
      ChosenLeaf(p, t, cap, lt);
      var k := Blocks.LastNoGreater(p.index, Entry(t, 0), EntryLt(lt));
      if k < 0 {
        EraseNothing(p, t, cap, lt);
      } else {
        var (ok, leaf) := Blocks.Erase(LeafAt(p, k), t, lt);
        if !ok {
          EraseLeaf(p, t, cap, lt, k);
        } else if |leaf| == 0 {
          EraseDropCase(p, t, cap, lt, k);
        } else {
          EraseKeepCase(p, t, cap, lt, k);
        }
      }
    }
  }

  /** On parts `a`, `l`, `b` split around `lo`, the range query is the
      scan of `l` from the first element not below `lo`, then of `b`. */
  lemma ScanFromLeaf<T(!new)>(a: seq<T>, l: seq<T>, b: seq<T>, lo: T, hi: T, lt: (T, T) -> bool)
    requires WeakOrder(lt) && Sorted(a + l + b, lt)
    requires AllBelow(a, lo, lt) && AllAbove(b, lo, lt)
    ensures Filter(a + l + b, lo, hi, lt) == TakeUpTo(l[LowerBound(l, lo, lt)..] + b, hi, lt)
  {
    SkipBelow(a, l, b, lo, hi, lt);
    TailFrom(a, l, b, lo, lt);
    FilterIsScan(l[LowerBound(l, lo, lt)..] + b, lo, hi, lt);
  }

  /** What is left after skipping to `lo` is sorted and not below `lo`. */
  lemma TailFrom<T(!new)>(a: seq<T>, l: seq<T>, b: seq<T>, lo: T, lt: (T, T) -> bool)
    requires WeakOrder(lt) && Sorted(a + l + b, lt) && AllAbove(b, lo, lt)
    ensures var w := l[LowerBound(l, lo, lt)..] + b;
            Sorted(w, lt) && forall j :: 0 <= j < |w| ==> !lt(w[j], lo)
  {
    var f := LowerBound(l, lo, lt);
    var w := l[f..] + b;
    assert a + l + b == a + (l + b);
    SortedParts(a, l + b, lt);
    assert l + b == l[..f] + w by {
      assert l == l[..f] + l[f..];
    }
    SortedParts(l[..f], w, lt);
    NotBelow(l, b, lo, lt);
  }

  /** The range query skips `a` and the head of `l` below `lo`. */
  lemma SkipBelow<T(!new)>(a: seq<T>, l: seq<T>, b: seq<T>, lo: T, hi: T, lt: (T, T) -> bool)
    requires AllBelow(a, lo, lt)
    ensures Filter(a + l + b, lo, hi, lt) == Filter(l[LowerBound(l, lo, lt)..] + b, lo, hi, lt)
  {
    assert a + l + b == a + (l + b);
    FilterDropsBelow(a, l + b, lo, hi, lt);
    FilterSkipsPrefix(l, b, lo, hi, lt);
  }

  /** The head of `l` below `lo` does not change the range query over
      `l + b`. */
  lemma FilterSkipsPrefix<T>(l: seq<T>, b: seq<T>, lo: T, hi: T, lt: (T, T) -> bool)
    ensures Filter(l + b, lo, hi, lt) == Filter(l[LowerBound(l, lo, lt)..] + b, lo, hi, lt)
  {
    var f := LowerBound(l, lo, lt);
    assert l + b == l[..f] + (l[f..] + b) by {
      assert l == l[..f] + l[f..];
    }
    forall i | 0 <= i < f ensures lt(l[..f][i], lo) {
      assert l[..f][i] == l[i];
    }
    FilterDropsBelow(l[..f], l[f..] + b, lo, hi, lt);
  }

  /** Nothing from the first element of `l` not below `lo` onwards is below
      `lo`, when `l` is sorted and `b` lies above `lo`. */
  lemma NotBelow<T(!new)>(l: seq<T>, b: seq<T>, lo: T, lt: (T, T) -> bool)
    requires WeakOrder(lt) && Sorted(l + b, lt) && AllAbove(b, lo, lt)
    ensures var w := l[LowerBound(l, lo, lt)..] + b;
            forall j :: 0 <= j < |w| ==> !lt(w[j], lo)
  {
    var f := LowerBound(l, lo, lt);
    var w := l[f..] + b;
    SortedParts(l, b, lt);
    LowerBoundSplits(l, lo, lt);
    forall j | 0 <= j < |w| ensures !lt(w[j], lo) {
      if j >= |l| - f {
        assert lt(lo, b[j - (|l| - f)]);
      } else {
        assert w[j] == l[f + j];
      }
    }
  }

  /** `search` answers the range query: exactly the elements in
      `[lo, hi]`, in ascending order. */
  lemma SearchSpec<T(!new)>(p: PSet<T>, lo: T, hi: T, cap: nat, lt: (T, T) -> bool)
    requires Inv(p, cap, lt)
    ensures Search(p, lo, hi, cap, lt) == Filter(Elements(p), lo, hi, lt)
  {
    if |p.index| > 0 {
      ChosenLeaf(p, lo, cap, lt);
      var i := Blocks.LastNoGreater(p.index, Entry(lo, 0), EntryLt(lt));
      var s := if i < 0 then 0 else i;
      VisitLeaf(p, lo, cap, lt, s);
      ScanFromLeaf(Before(p, s), LeafAt(p, s), After(p, s), lo, hi, lt);
    }
  }

  /** The leaves from entry `g` on: the leaf of entry `g`, then the rest. */
  lemma FlattenStep<T>(recs: map<int, seq<T>>, idx: seq<Entry<T>>, g: int)
    requires Indexed(recs, idx) && 0 <= g < |idx|
    ensures Flatten(recs, idx[g..]) == recs[idx[g].pos] + Flatten(recs, idx[g + 1..])
  {
    assert idx[g..][0] == idx[g] && idx[g..][1..] == idx[g + 1..];
  }

  /** One inner loop of `search`: read `cur` up to the first element above
      `hi`. */
  method ScanRun<T>(cur: seq<T>, hi: T, lt: (T, T) -> bool) returns (taken: seq<T>)
    ensures taken == TakeUpTo(cur, hi, lt)
  {
    taken := [];
    var c := 0;
    while c < |cur|
      invariant 0 <= c <= |cur| && taken == cur[..c]
      invariant forall m :: 0 <= m < c ==> !lt(hi, cur[m])
    {
      if lt(hi, cur[c]) {
        TakeUpToStops(cur, hi, lt, c);
        return;
      }
      taken := taken + [cur[c]];
      c := c + 1;
    }
    TakeUpToStops(cur, hi, lt, c);
  }

  /** The loops of `search`: read `first`, then the leaves of the entries
      from `from` on, stopping before the first element above `hi`. */
  method ScanLeaves<T>(st: LeafStore<T>, idx: seq<Entry<T>>, from: int, first: seq<T>, hi: T, lt: (T, T) -> bool)
    returns (ret: seq<T>)
    requires Indexed(Storage.Records(st), idx) && 0 <= from <= |idx|
    ensures ret == TakeUpTo(first + Flatten(Storage.Records(st), idx[from..]), hi, lt)
  {
    var recs := Storage.Records(st);
    ghost var w := first + Flatten(recs, idx[from..]);
    ret := ScanRun(first, hi, lt);
    TakeUpToAppend(first, Flatten(recs, idx[from..]), hi, lt);
    if |ret| < |first| {
      return;
    }
    var g := from;
    while g < |idx|
      invariant from <= g <= |idx|
      invariant TakeUpTo(w, hi, lt) == ret + TakeUpTo(Flatten(recs, idx[g..]), hi, lt)
    {
      FlattenStep(recs, idx, g);
      var cur := Storage.Get(st, idx[g].pos);
      var taken := ScanRun(cur, hi, lt);
      TakeUpToAppend(cur, Flatten(recs, idx[g + 1..]), hi, lt);
      if |taken| < |cur| {
        ret := ret + taken;
        return;
      }
      ret := ret + cur;
      g := g + 1;
    }
    assert idx[g..] == [];
  }

  /** `search` as the loops run it; it answers the range query. */
  method SearchScan<T(!new)>(p: PSet<T>, lo: T, hi: T, cap: nat, lt: (T, T) -> bool) returns (ret: seq<T>)
    requires Inv(p, cap, lt)
    ensures ret == Filter(Elements(p), lo, hi, lt)
  {
    SearchSpec(p, lo, hi, cap, lt);
    if |p.index| == 0 {
      return [];
    }
    var i := Blocks.LastNoGreater(p.index, Entry(lo, 0), EntryLt(lt));
    var s := if i < 0 then 0 else i;
    var leaf := Storage.Get(p.store, p.index[s].pos);
    var f := Blocks.FirstNoSmaller(leaf, lo, lt);
    ret := ScanLeaves(p.store, p.index, s + 1, leaf[f..], hi, lt);
  }

  // ---------------------------------------------------------------------
  // Opening and closing the file
  // ---------------------------------------------------------------------

  /** The constructor: the index block is read from the file header. */
  function Open<T>(st: LeafStore<T>): (p: PSet<T>)
    ensures p.store == st
  {
    PSet(Storage.GetInfo(st), st)
  }

  /** The destructor: the index block is written to the file header. */
  function Close<T>(p: PSet<T>): (st: LeafStore<T>)
    ensures Storage.Records(st) == Storage.Records(p.store)
  {
    Storage.SetInfo(p.store, p.index)
  }

  /** Closing a set and opening its file again gives back the same set. */
  lemma ReopenSpec<T(!new)>(p: PSet<T>, cap: nat, lt: (T, T) -> bool)
    requires Inv(p, cap, lt)
    ensures Open(Close(p)).index == p.index
    ensures Inv(Open(Close(p)), cap, lt)
    ensures Elements(Open(Close(p))) == Elements(p)
  {
    Storage.InfoRoundTrip(p.store, p.index, [], 0);
    Storage.SetInfoKeepsValid(p.store, p.index);
  }

  /** A fresh file, whose header reads as an empty index block, opens as
      an empty set. */
  lemma NewSetSpec<T(!new)>(l: Storage.Layout, cap: nat, lt: (T, T) -> bool)
    requires Storage.ValidLayout(l) && WeakOrder(lt) && cap >= 2
    ensures Inv(Open(Storage.Init<seq<T>, seq<Entry<T>>>(l, [])), cap, lt)
    ensures Elements(Open(Storage.Init<seq<T>, seq<Entry<T>>>(l, []))) == []
  {
  }
}
