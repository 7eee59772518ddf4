/** `MemoryRiver`, the first version of the slot allocator.

    Its record operations (`write`, `update`, `read`, `Delete`, `get_info`,
    `write_info`) behave exactly as `add`, `set`, `get`, `remove`,
    `getInfo` and `setInfo` of the later `FileStorage`, which the `Storage`
    module models. What differs is where the free-list head lives:
    `getEmpty`/`putEmpty` use byte `INFO_LEN * INT_SIZE`, while `initialise`
    writes `INT_SIZE` bytes of header and then the head at byte `INT_SIZE`.
    This module models the bytes those two code paths touch, as a map from
    byte offset to the `int` written there. */
module MemoryRiver {
  import opened Wrappers
  import Storage

  /** The `int` cells of a file, keyed by byte offset, and its length. */
  datatype RiverFile = RiverFile(cells: map<int, int>, length: int)

  /** Read one `int` at byte `o`, or `None` when the read runs past end of
      file (the stream fails and the value is left uninitialised). */
  function ReadInt(f: RiverFile, o: int): Option<int> {
    if o in f.cells && o + Storage.IntSize <= f.length then Some(f.cells[o]) else None
  }

  /** Where `getEmpty` and `putEmpty` look for the head. */
  function HeadOffset(infoLen: nat): nat {
    infoLen * Storage.IntSize
  }

  /** `initialise` on a missing file, as written: `INT_SIZE` bytes of zeroed
      header, then the head value `(INFO_LEN + 1) * INT_SIZE` at byte
      `INT_SIZE`. Both writes copy `INT_SIZE` bytes out of an `INFO`
      object, so the header must be at least as wide as an `int`. */
  function Initialise(infoLen: nat): (f: RiverFile)
    requires infoLen >= Storage.IntSize
    ensures f.length == 2 * Storage.IntSize
    ensures ReadInt(f, Storage.IntSize) == Some((infoLen + 1) * Storage.IntSize)
  {
    RiverFile(map[0 := 0, Storage.IntSize := (infoLen + 1) * Storage.IntSize], 2 * Storage.IntSize)
  }

  /** `getEmpty` right after `initialise`. */
  function FirstHead(infoLen: nat): Option<int>
    requires infoLen >= Storage.IntSize
  {
    ReadInt(Initialise(infoLen), HeadOffset(infoLen))
  }

  /** For every header `initialise` accepts, `getEmpty` looks for the head
      past the end of the new file, so the first `write` reads no head at
      all. The head `initialise` wrote sits at byte `INT_SIZE`, which
      `getEmpty` would reach only for a one-byte header. */
  lemma InitialiseLosesHead(infoLen: nat)
    requires infoLen >= Storage.IntSize
    ensures HeadOffset(infoLen) >= Initialise(infoLen).length
    ensures FirstHead(infoLen) == None
  {
    assert HeadOffset(infoLen) >= Storage.IntSize * Storage.IntSize;
  }

  /** The layout `FileStorage` adopted keeps the head at byte `INFO_LEN`,
      right after the header, pointing just past itself. The first `add` on
      a new file reads that head back: it is the first slot, and the record
      lands there. */
  lemma FirstAddUsesFirstSlot<R>(l: Storage.Layout, zero: int, t: R)
    requires Storage.ValidLayout(l)
    ensures var s := Storage.Init<R, int>(l, zero);
            && Storage.HeadReadable(s)
            && Storage.Add(s, t).0 == Storage.FirstSlot(l) == l.infoLen + Storage.IntSize
            && Storage.Records(Storage.Add(s, t).1) == map[Storage.FirstSlot(l) := t]
  {
    Storage.AddPops(Storage.Init<R, int>(l, zero), t, []);
  }
}
