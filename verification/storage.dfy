/** The slot allocator behind every persistent container (`FileStorage`).

    A storage file is a fixed-size header (`INFO`), then one `int` holding
    the head of the free list, then fixed-width record slots. A slot holds
    either a live record or, once freed, the offset of the next free slot.
    The free list ends at the end of the file: a head that sits at end of
    file means "append a fresh slot".

    The byte file is modelled by the offsets it gives meaning to: `slots`
    maps each slot offset to its contents and `end` is the file length. */
module Storage {

  /** `sizeof(int)` on the platforms the program is built for. */
  const IntSize: nat := 4

  /** `sizeof(INFO)` and `sizeof(T)` of one instantiation. */
  datatype Layout = Layout(infoLen: nat, recSize: nat)

  /** A freed slot must be wide enough to hold the link to the next one. */
  predicate ValidLayout(l: Layout) {
    l.recSize >= IntSize
  }

  /** Offset of the first slot: just past the header and the head field. */
  function FirstSlot(l: Layout): nat {
    l.infoLen + IntSize
  }

  /** Offsets at which a slot can start. */
  predicate Aligned(l: Layout, o: int) {
    l.recSize > 0 && o >= FirstSlot(l) && (o - FirstSlot(l)) % l.recSize == 0
  }

  datatype Slot<R> = Live(rec: R) | Free(next: int)

  /** One open storage file: the header value, the free-list head, the file
      length and the slots. */
  datatype Store<R, I> = Store(layout: Layout, info: I, head: int, end: int, slots: map<int, Slot<R>>)

  /** The live records by offset: what `get` can read back. */
  function Records<R, I>(s: Store<R, I>): map<int, R> {
    map o | o in s.slots && s.slots[o].Live? :: s.slots[o].rec
  }

  /** `fl` lists the free slots in chain order, starting at the head and
      ending with a link to end of file, with no slot twice. */
  ghost predicate FreeChain<R, I>(s: Store<R, I>, fl: seq<int>) {
    && s.head == (if |fl| == 0 then s.end else fl[0])
    && Linked(s.slots, s.end, fl)
    && Distinct(fl)
  }

  /** Each listed slot is free and links to the next one, the last to `end`. */
  ghost predicate Linked<R>(slots: map<int, Slot<R>>, end: int, fl: seq<int>) {
    forall i :: 0 <= i < |fl| ==>
      fl[i] in slots && slots[fl[i]] == Free(if i + 1 < |fl| then fl[i + 1] else end)
  }

  ghost predicate Distinct(fl: seq<int>) {
    forall i, j :: 0 <= i < j < |fl| ==> fl[i] != fl[j]
  }

  lemma LinkedAt<R>(slots: map<int, Slot<R>>, end: int, fl: seq<int>, i: int)
    requires Linked(slots, end, fl) && 0 <= i < |fl|
    ensures fl[i] in slots && slots[fl[i]] == Free(if i + 1 < |fl| then fl[i + 1] else end)
  {
  }

  /** A well-formed file: slots tile the file from `FirstSlot` to `end`,
      and the free list is a finite chain through free slots. */
  ghost predicate Valid<R, I>(s: Store<R, I>) {
    && ValidLayout(s.layout)
    && Aligned(s.layout, s.end)
    && (forall o :: o in s.slots <==> Aligned(s.layout, o) && o < s.end)
    && exists fl :: FreeChain(s, fl)
  }

  /** `add` can read the head: it is either end of file or a free slot. */
  predicate HeadReadable<R, I>(s: Store<R, I>) {
    s.head == s.end || (s.head in s.slots && s.slots[s.head].Free?)
  }

  /** `init` on a missing file: a zeroed header and a head that points at the
      first slot, which is also end of file. */
  function Init<R, I>(l: Layout, zero: I): (s: Store<R, I>)
    requires ValidLayout(l)
    ensures Valid(s)
    ensures s.info == zero && Records(s) == map[]
    ensures s.head == s.end == l.infoLen + IntSize
  {
    var s := Store(l, zero, FirstSlot(l), FirstSlot(l), map[]);
    assert FreeChain(s, []);
    s
  }

  /** `getInfo`: read the header. Writing back the header just read leaves
      the file as it was. */
  function GetInfo<R, I>(s: Store<R, I>): (h: I)
    ensures SetInfo(s, h) == s
  {
    s.info
  }

  /** `setInfo`: replace the header; no slot and no link changes. */
  function SetInfo<R, I>(s: Store<R, I>, h: I): (r: Store<R, I>)
    ensures r.info == h
    ensures Records(r) == Records(s) && r.head == s.head && r.end == s.end
  {
    s.(info := h)
  }

  /** `add`: pop the head of the free list, or grow the file by one slot when
      the head is at end of file, and write `t` there. */
  function Add<R, I>(s: Store<R, I>, t: R): (r: (int, Store<R, I>))
    requires HeadReadable(s)
    ensures r.0 == s.head
    ensures Records(r.1) == Records(s)[r.0 := t]
    ensures r.1.info == s.info
  {
    var index := s.head;
    if index == s.end then
      (index, s.(slots := s.slots[index := Live(t)], head := index + s.layout.recSize, end := s.end + s.layout.recSize))
    else
      (index, s.(slots := s.slots[index := Live(t)], head := s.slots[index].next))
  }

  /** `set`: overwrite the live record at `i`. */
  function Set<R, I>(s: Store<R, I>, t: R, i: int): (r: Store<R, I>)
    requires i in Records(s)
    ensures Records(r) == Records(s)[i := t]
    ensures r.head == s.head && r.end == s.end && r.info == s.info
  {
    s.(slots := s.slots[i := Live(t)])
  }

  /** `get`: read the live record at `i`. */
  function Get<R, I>(s: Store<R, I>, i: int): (r: R)
    requires i in Records(s)
    ensures r == Records(s)[i]
  {
    s.slots[i].rec
  }

  /** `remove`: link slot `i` in front of the free list. Nothing is checked,
      exactly as in the program. */
  function Remove<R, I>(s: Store<R, I>, i: int): (r: Store<R, I>)
    ensures r.head == i && i in r.slots && r.slots[i] == Free(s.head)
    ensures Records(r) == Records(s) - {i}
    ensures r.end == s.end && r.info == s.info
  {
    s.(slots := s.slots[i := Free(s.head)], head := i)
  }

  // ---------------------------------------------------------------------
  // Well-formedness is preserved
  // ---------------------------------------------------------------------

  /** In a valid file the head is readable, so `add` is always defined. */
  lemma ValidHeadReadable<R, I>(s: Store<R, I>)
    requires Valid(s)
    ensures HeadReadable(s)
  {
    var fl :| FreeChain(s, fl);
    if |fl| > 0 {
      LinkedAt(s.slots, s.end, fl, 0);
    }
  }

  /** `add` pops exactly the first free slot, or appends when the list is
      empty; either way the rest of the chain is untouched. */
  lemma AddPops<R, I>(s: Store<R, I>, t: R, fl: seq<int>)
    requires Valid(s) && FreeChain(s, fl)
    ensures HeadReadable(s)
    ensures |fl| == 0 ==> Add(s, t).0 == s.end && Add(s, t).1.end == s.end + s.layout.recSize
    ensures |fl| == 0 ==> FreeChain(Add(s, t).1, [])
    ensures |fl| > 0 ==> Add(s, t).0 == fl[0] && Add(s, t).1.end == s.end
    ensures |fl| > 0 ==> FreeChain(Add(s, t).1, fl[1..])
  {
    if |fl| > 0 {
      LinkedAt(s.slots, s.end, fl, 0);
      assert s.head != s.end;
      var r := Add(s, t).1;
      var tl := fl[1..];
      assert r.head == (if |tl| == 0 then r.end else tl[0]);
      forall i | 0 <= i < |tl|
        ensures tl[i] in r.slots && r.slots[tl[i]] == Free(if i + 1 < |tl| then tl[i + 1] else r.end)
      {
        LinkedAt(s.slots, s.end, fl, i + 1);
        assert tl[i] == fl[i + 1] != fl[0];
      }
      assert Linked(r.slots, r.end, tl);
    }
  }

  /** `add` keeps the file well-formed and hands out an aligned offset that
      no live record occupies. */
  lemma AddFresh<R, I>(s: Store<R, I>, t: R)
    requires Valid(s)
    ensures HeadReadable(s)
    ensures Aligned(s.layout, Add(s, t).0)
    ensures Add(s, t).0 !in Records(s)
    ensures Valid(Add(s, t).1)
  {
    var fl :| FreeChain(s, fl);
    AddPops(s, t, fl);
    var r := Add(s, t).1;
    if |fl| == 0 {
      assert FreeChain(r, []);
      forall o ensures o in r.slots <==> Aligned(r.layout, o) && o < r.end {
        if Aligned(r.layout, o) && o < r.end && o != s.end {
          assert o < s.end by {
            assert (o - FirstSlot(s.layout)) % s.layout.recSize == 0;
            assert (s.end - FirstSlot(s.layout)) % s.layout.recSize == 0;
            AlignedGap(s.layout, o, s.end);
          }
        }
      }
      assert Aligned(r.layout, r.end) by {
        AlignedNext(s.layout, s.end);
      }
    } else {
      assert FreeChain(r, fl[1..]);
    }
  }

  lemma AlignedGap(l: Layout, a: int, b: int)
    requires Aligned(l, a) && Aligned(l, b) && a < b + l.recSize && a != b
    ensures a < b
  {
    var r := l.recSize;
    var ka := (a - FirstSlot(l)) / r;
    var kb := (b - FirstSlot(l)) / r;
    assert a == FirstSlot(l) + ka * r;
    assert b == FirstSlot(l) + kb * r;
    assert ka * r < (kb + 1) * r;
    MulCancel(ka, kb + 1, r);
  }

  /** `x * r < y * r` with `r > 0` gives `x < y`. */
  lemma MulCancel(x: int, y: int, r: int)
    requires r > 0 && x * r < y * r
    ensures x < y
  {
    if x >= y {
      MulMono(y, x, r);
    }
  }

  lemma MulMono(x: int, y: int, r: int)
    requires r > 0 && x <= y
    ensures x * r <= y * r
  {
    assert y * r - x * r == (y - x) * r;
  }

  lemma AlignedNext(l: Layout, a: int)
    requires Aligned(l, a)
    ensures Aligned(l, a + l.recSize)
  {
    var r := l.recSize;
    var k := (a - FirstSlot(l)) / r;
    assert a - FirstSlot(l) == k * r;
    assert a + r - FirstSlot(l) == (k + 1) * r;
    MulMod(k + 1, r);
  }

  /** A multiple of `r` leaves no remainder. */
  lemma MulMod(k: int, r: int)
    requires r > 0
    ensures (k * r) % r == 0
  {
    var q, m := (k * r) / r, (k * r) % r;
    assert k * r == q * r + m;
    assert (k - q) * r == m;
    if k - q > 0 {
      MulMono(1, k - q, r);
    } else if k - q < 0 {
      MulMono(k - q, -1, r);
    }
  }

  /** Overwriting a live record keeps the file well-formed. */
  lemma SetKeepsValid<R, I>(s: Store<R, I>, t: R, i: int)
    requires Valid(s) && i in Records(s)
    ensures Valid(Set(s, t, i))
  {
    var fl :| FreeChain(s, fl);
    assert FreeChain(Set(s, t, i), fl);
  }

  /** Freeing a live record keeps the file well-formed: the slot becomes the
      new head of the chain. */
  lemma RemoveKeepsValid<R, I>(s: Store<R, I>, i: int)
    requires Valid(s) && i in Records(s)
    ensures Valid(Remove(s, i))
  {
    var fl :| FreeChain(s, fl);
    var r := Remove(s, i);
    var fl' := [i] + fl;
    forall k | 0 <= k < |fl|
      ensures fl[k] != i
    {
      LinkedAt(s.slots, s.end, fl, k);
    }
    forall k | 0 <= k < |fl'|
      ensures fl'[k] in r.slots && r.slots[fl'[k]] == Free(if k + 1 < |fl'| then fl'[k + 1] else r.end)
    {
      if k > 0 {
        LinkedAt(s.slots, s.end, fl, k - 1);
      }
    }
    assert FreeChain(r, fl');
  }

  /** Rewriting the header keeps the file well-formed. */
  lemma SetInfoKeepsValid<R, I>(s: Store<R, I>, h: I)
    requires Valid(s)
    ensures Valid(SetInfo(s, h))
  {
    var fl :| FreeChain(s, fl);
    assert FreeChain(SetInfo(s, h), fl);
  }

  // ---------------------------------------------------------------------
  // What callers can rely on
  // ---------------------------------------------------------------------

  /** Writing back the record a slot already holds leaves the file as it
      was. */
  lemma SetSame<R, I>(s: Store<R, I>, t: R, i: int)
    requires i in Records(s) && Records(s)[i] == t
    ensures Set(s, t, i) == s
  {
    assert s.slots[i] == Live(t);
    assert s.slots[i := Live(t)] == s.slots;
  }

  /** `get` returns the record that the last `add` or `set` wrote at that
      offset, and neither operation disturbs any other live record. */
  lemma GetReturnsLastWrite<R, I>(s: Store<R, I>, t: R, i: int, j: int)
    requires Valid(s)
    ensures HeadReadable(s)
    ensures Get(Add(s, t).1, Add(s, t).0) == t
    ensures j in Records(s) ==> j in Records(Add(s, t).1) && Get(Add(s, t).1, j) == Get(s, j)
    ensures i in Records(s) ==> Get(Set(s, t, i), i) == t
    ensures i in Records(s) && j in Records(s) && j != i ==> Get(Set(s, t, i), j) == Get(s, j)
  {
    AddFresh(s, t);
  }

  /** A freed slot is the next one handed out, and freeing then adding is
      the same as overwriting in place: the free list is back as it was. */
  lemma RemoveThenAdd<R, I>(s: Store<R, I>, i: int, t: R)
    requires Valid(s) && i in Records(s)
    ensures HeadReadable(Remove(s, i))
    ensures Add(Remove(s, i), t).0 == i
    ensures Add(Remove(s, i), t).1 == Set(s, t, i)
  {
    assert i in s.slots;
  }

  /** Header writes never touch the slots, and `getInfo` returns what the
      last `setInfo` stored. */
  lemma InfoRoundTrip<R, I>(s: Store<R, I>, h: I, t: R, i: int)
    ensures GetInfo(SetInfo(s, h)) == h
    ensures SetInfo(s, h).slots == s.slots
    ensures HeadReadable(s) ==> GetInfo(Add(s, t).1) == GetInfo(s)
    ensures i in Records(s) ==> GetInfo(Set(s, t, i)) == GetInfo(s)
    ensures GetInfo(Remove(s, i)) == GetInfo(s)
  {
  }

  /** Why a slot must never be removed twice: the second `remove` links the
      slot to itself, the file is no longer well-formed, and after one `add`
      the head points at the live record just written, so the next `add`
      would hand the same offset out again. */
  lemma DoubleRemoveCorrupts<R, I>(s: Store<R, I>, i: int, t: R)
    requires Valid(s) && i in Records(s)
    ensures var s2 := Remove(Remove(s, i), i);
      && s2.slots[i] == Free(i)
      && !Valid(s2)
      && HeadReadable(s2)
      && Add(s2, t).0 == i
      && Add(s2, t).1.head == i
      && i in Records(Add(s2, t).1)
      && !HeadReadable(Add(s2, t).1)
  {
    var s2 := Remove(Remove(s, i), i);
    assert i in s.slots;
    if Valid(s2) {
      var fl :| FreeChain(s2, fl);
      assert fl[0] == i;
      LinkedAt(s2.slots, s2.end, fl, 0);
      assert false;
    }
  }
}
