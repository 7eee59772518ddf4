/** `PersistentVector<T>` of src/PersistentVector.hpp: an append-only log
    of records in a storage file, read back newest first. The header holds
    `{last, size}`: the offset of the newest record and the number of
    records. */
module PersistentVectors {
  import opened Wrappers
  import Storage
  import opened Seqs

  datatype Info = Info(last: int, size: int)

  /** An open vector: its cached header and the storage file. */
  datatype PVec<T> = PVec(info: Info, store: Storage.Store<T, Info>)

  /** The header of a fresh file: all zero bytes. */
  const Zero: Info := Info(0, 0)

  /** Offset of the `j`-th slot of the file. */
  function SlotAt(l: Storage.Layout, j: int): int {
    Storage.FirstSlot(l) + j * l.recSize
  }

  lemma SlotNext(l: Storage.Layout, j: int)
    ensures SlotAt(l, j + 1) == SlotAt(l, j) + l.recSize
  {
    assert (j + 1) * l.recSize == j * l.recSize + l.recSize;
  }

  lemma SlotBack(l: Storage.Layout, n: int, i: int)
    ensures SlotAt(l, n - 1) - i * l.recSize == SlotAt(l, n - 1 - i)
  {
    assert (n - 1 - i) * l.recSize == (n - 1) * l.recSize - i * l.recSize;
  }

  lemma SlotBelow(l: Storage.Layout, j: int, k: int)
    requires l.recSize > 0 && j < k
    ensures SlotAt(l, j) < SlotAt(l, k)
  {
    Storage.MulMono(j + 1, k, l.recSize);
    assert (j + 1) * l.recSize == j * l.recSize + l.recSize;
  }

  /** Nothing is ever removed from a vector, so its records fill the slots
      from the first one on, the newest last, and the free list is empty. */
  ghost predicate Log<T>(v: PVec<T>) {
    var l := v.store.layout;
    && Storage.Valid(v.store)
    && v.info.size >= 0
    && v.store.head == v.store.end == SlotAt(l, v.info.size)
    && (v.info.size > 0 ==> v.info.last == SlotAt(l, v.info.size - 1))
    && forall j :: 0 <= j < v.info.size ==> SlotAt(l, j) in Storage.Records(v.store)
  }

  /** The records pushed so far, oldest first. */
  ghost function Items<T>(v: PVec<T>): seq<T>
    requires Log(v)
  {
    seq(v.info.size, j requires 0 <= j < v.info.size => Storage.Records(v.store)[SlotAt(v.store.layout, j)])
  }

  /** The constructor reads the header. */
  function Open<T>(st: Storage.Store<T, Info>): (v: PVec<T>)
    ensures v.store == st
  {
    PVec(Storage.GetInfo(st), st)
  }

  /** The destructor writes the header. */
  function Close<T>(v: PVec<T>): (st: Storage.Store<T, Info>)
    ensures Storage.Records(st) == Storage.Records(v.store)
  {
    Storage.SetInfo(v.store, v.info)
  }

  /** `push_back`: one more record, and `last` becomes the offset `add`
      returned. */
  function PushBack<T>(v: PVec<T>, t: T): (r: PVec<T>)
    requires Storage.HeadReadable(v.store)
    ensures r.info.size == v.info.size + 1
    ensures r.info.last == v.store.head
    ensures Storage.Records(r.store) == Storage.Records(v.store)[r.info.last := t]
  {
    var (pos, st) := Storage.Add(v.store, t);
    PVec(Info(pos, v.info.size + 1), st)
  }

  /** The `i`-th to `n`-th visits of the loop in `iterate`: the visit `i`
      reads the record `i` steps of `sizeof(T)` below `last`, which is the
      `i`-th newest one. */
  function Visits<T>(v: PVec<T>, i: int, n: int): (r: seq<T>)
    requires Log(v) && 0 <= i <= n <= v.info.size
    ensures |r| == n - i
    ensures forall m :: 0 <= m < |r| ==> r[m] == Items(v)[v.info.size - 1 - (i + m)]
    decreases n - i
  {
    if i == n then []
    else
      var l := v.store.layout;
      SlotBack(l, v.info.size, i);
      [Storage.Get(v.store, v.info.last - i * l.recSize)] + Visits(v, i + 1, n)
  }

  /** `iterate(cnt, f)`: the records passed to `f`, in order; `-1` stands
      for all of them, and a count above the size throws before any
      visit. */
  function Iterate<T>(v: PVec<T>, cnt: int): (r: Result<seq<T>>)
    requires Log(v)
    ensures r.Err? <==> cnt > v.info.size
  {
    if cnt > v.info.size then Err("cnt > size")
    else
      var n := if cnt == -1 then v.info.size else cnt;
      if n <= 0 then Ok([]) else Ok(Visits(v, 0, n))
  }

  // ---------------------------------------------------------------------
  // Correctness
  // ---------------------------------------------------------------------

  /** `push_back` appends to the log. */
  lemma PushBackSpec<T>(v: PVec<T>, t: T)
    requires Log(v)
    ensures Storage.HeadReadable(v.store)
    ensures Log(PushBack(v, t))
    ensures Items(PushBack(v, t)) == Items(v) + [t]
  {
    var l := v.store.layout;
    var n := v.info.size;
    Storage.AddFresh(v.store, t);
    var r := PushBack(v, t);
    SlotNext(l, n);
    forall j | 0 <= j < n
      ensures SlotAt(l, j) in Storage.Records(r.store)
      ensures Storage.Records(r.store)[SlotAt(l, j)] == Storage.Records(v.store)[SlotAt(l, j)]
    {
      SlotBelow(l, j, n);
    }
    assert Items(r) == Items(v) + [t];
  }

  /** `iterate` visits the `cnt` newest records, newest first; `-1` visits
      all of them and any other negative count none. */
  lemma IterateSpec<T>(v: PVec<T>, cnt: int)
    requires Log(v)
    ensures cnt == -1 ==> Iterate(v, cnt) == Ok(Reverse(Items(v)))
    ensures 0 <= cnt <= v.info.size ==> Iterate(v, cnt) == Ok(Reverse(Items(v))[..cnt])
    ensures cnt < -1 ==> Iterate(v, cnt) == Ok([])
  {
    var n := v.info.size;
    var rev := Reverse(Items(v));
    if cnt == -1 && n > 0 {
      var r := Visits(v, 0, n);
      assert forall m | 0 <= m < n :: r[m] == rev[m];
      assert r == rev;
    } else if 0 < cnt <= n {
      var r := Visits(v, 0, cnt);
      assert forall m | 0 <= m < cnt :: r[m] == rev[..cnt][m];
      assert r == rev[..cnt];
    }
  }

  /** A fresh file, with its zeroed header, opens as an empty vector. */
  lemma NewVectorSpec<T>(l: Storage.Layout)
    requires Storage.ValidLayout(l)
    ensures Log(Open(Storage.Init<T, Info>(l, Zero)))
    ensures Items(Open(Storage.Init<T, Info>(l, Zero))) == []
  {
  }

  /** Closing a vector and opening its file again gives back the same
      header and the same log. */
  lemma ReopenSpec<T>(v: PVec<T>)
    requires Log(v)
    ensures Open(Close(v)).info == v.info
    ensures Log(Open(Close(v)))
    ensures Items(Open(Close(v))) == Items(v)
  {
    Storage.SetInfoKeepsValid(v.store, v.info);
  }
}
