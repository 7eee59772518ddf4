# bookstore storage and session core, in Dafny

This project models the core of the bookstore's C++ sources. That core has
these parts:

- the slot allocator `FileStorage`, and its first version `MemoryRiver`;
- the blocked sorted set `PersistentSet` with its `Block`, and the map
  `PersistentMap` built on it. The two earlier copies of the set, both
  named `BlockedList`, are modelled too;
- the append-only log `PersistentVector`;
- the fixed-width strings and parsing helpers of `src/Utils.hpp`;
- the command tokenizer `StringReader`;
- the user table `Accounts`;
- the session stack `Statuses`;
- the fluent `Validator`.

The model has no I/O. A file is the map from slot offsets to slot contents
that its bytes encode (`Storage.Store`). Each container is an immutable value
over such a store, and each operation is a pure function from the old value
to the new one. A thrown exception becomes an `Err`. A constructor reads the
file header into the container (`Open`). The destructor writes it back
(`Close`).

Orders are parameters. Each container takes the element type's `<` as a
function `lt` and asks only that it be a strict weak order. Where the source
compares with `==`, the model uses `Order.Equiv` (neither element is less
than the other). That is what `==` means for every element type the program
uses:

- fixed strings compare with `strncmp`;
- an account compares by its user ID alone;
- `std::pair` and the index entries compare by the same key as `<=>`.

Module layout, one file each:

- wrappers.dfy: `Wrappers`, results of operations that can throw
- order.dfy: `Order`, strict weak orders, `std::lower_bound`/`upper_bound`, range queries
- seqs.dfy: `Seqs`, reversal of a sequence, used where records or tokens are read back newest first
- storage.dfy: `Storage`, src/FileStorage.hpp
- memory_river.dfy: `MemoryRiver`, MemoryRiver.hpp
- block.dfy: `Blocks`, `Block` in src/PersistentSet.hpp
- persistent_set.dfy: `PersistentSets`, `PersistentSet` in src/PersistentSet.hpp
- persistent_map.dfy: `PersistentMaps`, `PersistentMap` in src/PersistentSet.hpp
- blocked_list.dfy: `BlockedLists`, BlockedList.hpp, src/database/BlockedList.hpp
- persistent_vector.dfy: `PersistentVectors`, src/PersistentVector.hpp
- utils.dfy: `Utils`, src/Utils.hpp
- string_reader.dfy: `StringReaders`, src/StringReader.hpp
- accounts.dfy: `Accounts`, src/Account.hpp
- statuses.dfy: `Statuses`, src/Status.hpp
- validator.dfy: `Validators`, src/Validator.hpp

Where the code and its documented design disagree, the model follows the
code:

- The oldest `Block::erase` drops the last element when asked to erase a
  value above all of them. This is modelled as written, and also corrected
  (see Findings).
- `MemoryRiver` writes the free-list head at one offset and reads it from
  another. This is modelled as written (see Findings).
- When a split meets a full index block, the upper half of the split leaf
  is silently lost. The model keeps that behaviour, and the contracts that
  talk about contents say so (see Left out).
- `Validator::execute` throws `ValidationError`. src/Error.hpp does not
  define that class. It is modelled as an `Err` whose message is
  `"ValidationError"`.

## Model

| member | source | states |
|---|---|---|
| Storage.Init | src/FileStorage.hpp:47-58 | a new file is well-formed, has no live records, and its free-list head sits at end of file, just past the header and the head field |
| Storage.GetInfo | src/FileStorage.hpp:60-70 | writing back the header `getInfo` just read leaves the file as it was |
| Storage.SetInfo | src/FileStorage.hpp:67-70 | `setInfo` changes the header only: records, head and file length stay |
| Storage.Add | src/FileStorage.hpp:73-87 | `add` writes `t` at the old free-list head and returns that offset; no other live record changes |
| Storage.Set | src/FileStorage.hpp:91-94 | `set` overwrites the live record at the index and nothing else |
| Storage.Get | src/FileStorage.hpp:98-103 | `get` returns the live record at the index |
| Storage.Remove | src/FileStorage.hpp:108-113 | `remove` makes the slot the new free-list head, linked to the old head; that record is no longer live |
| Storage.ValidHeadReadable | src/FileStorage.hpp:73-82 | in a well-formed file, `add` reads either end of file or a free slot |
| Storage.AddPops | src/FileStorage.hpp:73-87 | `add` takes the first slot of the free chain, or grows the file by one slot when the chain is empty; the rest of the chain is kept |
| Storage.AddFresh | src/FileStorage.hpp:73-87 | `add` keeps the file well-formed and returns an aligned offset that no live record holds |
| Storage.SetKeepsValid | src/FileStorage.hpp:89-94 | overwriting a live record keeps the file well-formed |
| Storage.RemoveKeepsValid | src/FileStorage.hpp:105-113 | freeing a live record keeps the file well-formed |
| Storage.SetInfoKeepsValid | src/FileStorage.hpp:67-70 | rewriting the header keeps the file well-formed |
| Storage.SetSame | src/FileStorage.hpp:91-94 | writing back the record a slot already holds leaves the file unchanged |
| Storage.GetReturnsLastWrite | src/FileStorage.hpp:73-103 | `get` returns what the last `add` or `set` wrote at that offset; neither disturbs another live record |
| Storage.RemoveThenAdd | src/FileStorage.hpp:73-113 | the next `add` after `remove(i)` reuses `i`, and the pair equals `set` at `i` |
| Storage.InfoRoundTrip | src/FileStorage.hpp:60-70 | `getInfo` returns what `setInfo` stored; record operations never touch the header |
| Storage.DoubleRemoveCorrupts | src/FileStorage.hpp:105-113 | removing a slot twice links it to itself: the file is no longer well-formed, and after one `add` the head points at a live record |
| MemoryRiver.Initialise | MemoryRiver.hpp:45-54 | for a header at least as wide as an `int`, `initialise` writes an `INT_SIZE` header, then the head `(INFO_LEN + 1) * INT_SIZE` at byte `INT_SIZE` of an 8-byte file |
| MemoryRiver.InitialiseLosesHead | MemoryRiver.hpp:21-54 | for every such header, `getEmpty` after `initialise` looks at or past the end of the file and reads no head |
| MemoryRiver.FirstAddUsesFirstSlot | src/FileStorage.hpp:23-87 | with the head at byte `INFO_LEN`, the first `add` on a new file reads back the head `init` wrote, which is the first slot, and stores its record there |
| Order.FilterMembers | src/PersistentSet.hpp:156-183 | the range query keeps only elements of the sequence that lie in `[lo, hi]`, and keeps every such element |
| Order.TakeUpTo | src/PersistentSet.hpp:165-181 | the scan that stops at the first element above `hi`: the longest prefix with nothing above `hi` |
| Order.LowerBound | src/PersistentSet.hpp:29 | `std::lower_bound`: every element before the position is less than `t`, the one at it is not |
| Order.UpperBound | src/PersistentSet.hpp:53 | `std::upper_bound`: every element before the position is not greater than `t`, the one at it is |
| Order.PairLtIsWeakOrder | src/PersistentSet.hpp:186-187 | the lexicographic order of `std::pair` over two weak orders is a weak order |
| Order.ByKeyIsWeakOrder | src/Account.hpp:17-23 | comparing records by one key is a weak order |
| Blocks.LowerBoundFinds | src/PersistentSet.hpp:29-30 | in a sorted block, the lower bound finds an equivalent element exactly when the block holds one |
| Blocks.AtLowerBound | src/PersistentSet.hpp:29-46 | inserting at the lower bound keeps the block sorted, and so does removing the element there |
| Blocks.Insert | src/PersistentSet.hpp:25-37 | `Block::insert` refuses a full block or a present element; otherwise it puts `t` at its sorted place and adds exactly `t` |
| Blocks.Erase | src/PersistentSet.hpp:39-47 | `Block::erase` succeeds exactly when an equivalent element is present, and then removes that one element; the block stays sorted |
| Blocks.EraseSorted | src/PersistentSet.hpp:44-46 | removing one element keeps a block sorted |
| Blocks.LastNoGreater | src/PersistentSet.hpp:49-54 | `getLastNoGreater`: the last index whose element is not greater than `t`, or -1 |
| Blocks.FirstNoSmaller | src/PersistentSet.hpp:56-61 | `getFirstNoSmaller`: the first index whose element is not less than `t`, or the size |
| Blocks.Min | src/PersistentSet.hpp:63-68 | `Block::min` is an element of the block, and the least one of a sorted block |
| Blocks.Split | src/PersistentSet.hpp:70-76 | `split` moves the upper `size / 2` elements out; the two halves concatenate to the block |
| Blocks.SplitSorted | src/PersistentSet.hpp:70-76 | both halves of a sorted block are sorted, non-empty from two elements on, and every element of the first half is below every element of the second |
| Blocks.EraseUndoesInsert | src/PersistentSet.hpp:25-47 | erasing what was just inserted gives the block back |
| Blocks.InsertUndoesErase | src/PersistentSet.hpp:25-47 | inserting back an element just erased gives the block back |
| Blocks.BinaryLowerBound | src/PersistentSet.hpp:29 | a binary search computes `std::lower_bound` on a sorted block |
| Blocks.BinaryUpperBound | src/PersistentSet.hpp:53 | a binary search computes `std::upper_bound` on a sorted block |
| PersistentSets.EntryLtIsWeakOrder | src/PersistentSet.hpp:83-94 | index entries ordered by their `min` form a weak order |
| PersistentSets.IndexSorted | src/PersistentSet.hpp:96 | the index block of a well-formed set is sorted by `min` |
| PersistentSets.ChosenLeaf | src/PersistentSet.hpp:117-118 | the leaf `getLastNoGreater` picks (or the first leaf) is the only one that can hold `t` |
| PersistentSets.VisitLeaf | src/PersistentSet.hpp:117-119 | the elements are the leaves before the chosen leaf, the leaf, and the leaves after; `t` is held exactly when the leaf holds it |
| PersistentSets.MinIsElement | src/PersistentSet.hpp:124 | each index entry's `min` is an element of the set |
| PersistentSets.WriteBack | src/PersistentSet.hpp:123-124 | writing a leaf back replaces its record and refreshes its entry's `min` |
| PersistentSets.KeepSpec | src/PersistentSet.hpp:119-124 | writing back a changed leaf that is not full keeps the set well-formed, with that leaf's new contents in place |
| PersistentSets.SplitSpec | src/PersistentSet.hpp:125-129 | splitting a full leaf keeps the set well-formed; with room in the index block no element is lost |
| PersistentSets.InsertFirstSpec | src/PersistentSet.hpp:112-116 | inserting into an empty set makes a one-leaf set holding just `t` |
| PersistentSets.InsertLeaf | src/PersistentSet.hpp:119-122 | the leaf insert succeeds exactly when the leaf, and so the set, lacks `t` |
| PersistentSets.Insert | src/PersistentSet.hpp:111-131 | a failed `insert` leaves the set unchanged |
| PersistentSets.InsertSpec | src/PersistentSet.hpp:111-131 | `insert` keeps the invariant and succeeds exactly when no equivalent element is present; then the elements grow by `t` alone while the index block has room |
| PersistentSets.IndexEraseAt | src/PersistentSet.hpp:146 | erasing an entry from the sorted index removes exactly that entry |
| PersistentSets.EraseLeaf | src/PersistentSet.hpp:141-150 | the leaf erase succeeds exactly when the set holds `t`, and removes one element |
| PersistentSets.EraseNothing | src/PersistentSet.hpp:137-140 | a value below the first leaf's `min` is not in the set |
| PersistentSets.DropSpec | src/PersistentSet.hpp:144-146 | dropping an emptied leaf and its entry keeps the invariant and the other leaves |
| PersistentSets.Erase | src/PersistentSet.hpp:133-154 | a failed `erase` leaves the set unchanged, and `erase` never lengthens the index block |
| PersistentSets.EraseSpec | src/PersistentSet.hpp:133-154 | `erase` keeps the invariant, succeeds exactly when an equivalent element is present, and then removes that one element |
| PersistentSets.Search | src/PersistentSet.hpp:156-183 | `search` never returns an element above `hi` |
| PersistentSets.SearchSpec | src/PersistentSet.hpp:156-183 | `search` returns exactly the elements in `[lo, hi]`, ascending |
| PersistentSets.ScanLeaves | src/PersistentSet.hpp:164-182 | the loops of `search` return the prefix of the remaining elements that stops before the first one above `hi` |
| PersistentSets.SearchScan | src/PersistentSet.hpp:156-183 | `search`, as its loops run it, answers the range query |
| PersistentSets.Open | src/PersistentSet.hpp:101-103 | the constructor works on the file it opens; `ReopenSpec` states that it recovers the index block |
| PersistentSets.Close | src/PersistentSet.hpp:107-109 | the destructor writes the index block to the header and keeps the leaves |
| PersistentSets.ReopenSpec | src/PersistentSet.hpp:101-109 | closing a set and opening its file again gives the same set |
| PersistentSets.NewSetSpec | src/PersistentSet.hpp:101-103 | a new file opens as an empty, well-formed set |
| PersistentMaps.KeysIn | src/PersistentSet.hpp:239-241 | the pairs whose keys lie in `[k1, k2]`, and only those |
| PersistentMaps.Values | src/PersistentSet.hpp:233-235 | the values passed to `f`, in order |
| PersistentMaps.PairInRange | src/PersistentSet.hpp:199 | with `VALUE::min()`/`max()` bounding every value, a pair lies between `(k1, min)` and `(k2, max)` exactly when its key lies in `[k1, k2]` |
| PersistentMaps.FilterIsKeysIn | src/PersistentSet.hpp:240-241 | the range query over `(k1, min)`..`(k2, max)` selects the pairs whose keys lie in `[k1, k2]` |
| PersistentMaps.KeysInFirst | src/PersistentSet.hpp:220-224 | when the key is present, the search by key starts with the first stored pair of that key |
| PersistentMaps.KeysInEmpty | src/PersistentSet.hpp:228-232 | the pairs of one key are none exactly when the key is absent |
| PersistentMaps.KeyRange | src/PersistentSet.hpp:199 | the key-range search returns no pair above `(k2, max)` |
| PersistentMaps.KeyRangeSpec | src/PersistentSet.hpp:199 | the key-range search returns exactly the stored pairs whose keys lie in the range |
| PersistentMaps.Put | src/PersistentSet.hpp:195-201 | a failed `put` changes nothing; the map stays a multimap or not |
| PersistentMaps.HoldsHasKey | src/PersistentSet.hpp:195-200 | a stored pair equivalent to `(k, v)` has a key equivalent to `k` |
| PersistentMaps.PutSpec | src/PersistentSet.hpp:195-201 | `put` keeps the invariant; a unique map accepts exactly an absent key, a multimap exactly an absent pair; the pairs then grow by `(k, v)` while the index block has room |
| PersistentMaps.Remove | src/PersistentSet.hpp:203-213 | `remove` throws exactly for a multimap asked without a value; a failed removal changes nothing |
| PersistentMaps.RemoveSpec | src/PersistentSet.hpp:203-213 | with a value, `remove` succeeds exactly when a pair equivalent to `(k, v)` is stored and removes exactly that pair; without one, on a unique map, it succeeds exactly when the key is present and removes the first pair of the key; either way exactly one pair of key `k` goes |
| PersistentMaps.RemoveGiven | src/PersistentSet.hpp:208-210 | given a value, `remove` succeeds exactly when a pair equivalent to `(k, v)` is stored, and then takes out exactly that pair and nothing else |
| PersistentMaps.RemoveFirst | src/PersistentSet.hpp:211-212 | without a value, on a unique map, `remove` succeeds exactly when the key is present, and then takes out the first stored pair with that key and nothing else |
| PersistentMaps.ErasesOnly | src/PersistentSet.hpp:212 | erasing a stored pair takes out exactly its own position, since no other stored pair is equivalent to it |
| PersistentMaps.Get | src/PersistentSet.hpp:215-225 | `get` throws exactly on a multimap |
| PersistentMaps.GetSpec | src/PersistentSet.hpp:215-225 | `get` returns `VALUE::min()` for an absent key, and otherwise the value of the first stored pair with that key |
| PersistentMaps.Iterate | src/PersistentSet.hpp:227-237 | `iterate` calls `f` on a non-empty list or calls `emptyF` |
| PersistentMaps.IterateSpec | src/PersistentSet.hpp:227-237 | `iterate` calls `emptyF` exactly when the key is absent, and otherwise passes its values to `f` in order |
| PersistentMaps.IterateAll | src/PersistentSet.hpp:239-249 | `iterateAll` calls `f` on a non-empty list or calls `emptyF` |
| PersistentMaps.IterateAllSpec | src/PersistentSet.hpp:239-249 | `iterateAll` calls `emptyF` exactly when no key lies in `[k1, k2]`, and otherwise passes the values of those keys to `f` in key order |
| BlockedLists.OldBlockInsert | BlockedList.hpp:25-38 | the `void` `Block::insert` adds exactly `t`, or leaves the block as it was when it is full or `t` is present |
| BlockedLists.OldBlockErase | BlockedList.hpp:40-49 | the oldest `Block::erase` as written: it underflows an empty block, and it removes the right element when `t` is present |
| BlockedLists.OldBlockEraseDropsLast | BlockedList.hpp:40-49 | for a value above every element, the oldest erase drops the last element where the corrected one reports absence |
| BlockedLists.OldBlockEraseCounterexample | BlockedList.hpp:40-49 | erasing 5 from the block [1, 2] leaves [1] and reports success |
| BlockedLists.OldInsert | BlockedList.hpp:108-125 | the oldest `insert` never removes an index entry and adds at most one |
| BlockedLists.OldInsertAgrees | BlockedList.hpp:108-125 | the oldest `insert` leaves the set as `PersistentSet::insert` does |
| BlockedLists.OldErase | BlockedList.hpp:127-148 | a failed oldest `erase` leaves the set unchanged |
| BlockedLists.OldEraseSpec | BlockedList.hpp:127-148 | for every `t`, the oldest `erase` keeps the set well-formed; it reports success exactly when `t` is present or the leaf it visits lies wholly below `t`; then exactly one element goes, one equivalent to `t` when there is one and otherwise one below `t` |
| BlockedLists.OldEraseAbsent | BlockedList.hpp:127-148 | for an absent `t` and a visited leaf, the oldest `erase` succeeds exactly when the leaf lies wholly below `t`, and then removes one element below `t` |
| BlockedLists.OldEraseMisses | BlockedList.hpp:41-45 | when the visited leaf holds an element not below an absent `t`, `Block::erase` reports "not found" and the set is unchanged |
| BlockedLists.OldEraseBelow | BlockedList.hpp:127-148 | when the visited leaf lies wholly below `t`, `erase` succeeds, keeps the set well-formed and removes one element below `t` |
| BlockedLists.OldEraseLeafResult | BlockedList.hpp:136-145 | when the visited leaf lies wholly below `t`, its last element goes: a one-element leaf is freed and its entry erased, otherwise the rest is written back |
| BlockedLists.OldEraseDropsLeafMax | BlockedList.hpp:127-148 | that removal keeps the set well-formed and takes out exactly the leaf's greatest element |
| BlockedLists.OldLeafEmptied | BlockedList.hpp:138-140 | freeing a one-element leaf and erasing its entry keeps the set well-formed and drops exactly that element |
| BlockedLists.OldLeafShrinks | BlockedList.hpp:141-143 | writing back a leaf without its last element keeps the set well-formed |
| BlockedLists.OldEraseAgreesWhenPresent | BlockedList.hpp:127-148 | for a present `t`, the oldest `erase` equals `PersistentSet::erase` |
| BlockedLists.LastLeafChosen | BlockedList.hpp:131-135 | a value above every element selects the last leaf |
| BlockedLists.OldEraseDropsMax | BlockedList.hpp:127-148 | erasing a value above every element reports success and removes the greatest element |
| BlockedLists.UnguardedSearch | src/database/BlockedList.hpp:152-176 | the unguarded `search` never returns an element above `hi` |
| BlockedLists.UnguardedSearchSpec | src/database/BlockedList.hpp:152-176 | on a non-empty list, the unguarded `search` answers the range query |
| PersistentVectors.Open | src/PersistentVector.hpp:22-24 | the constructor works on the file it opens; `ReopenSpec` states that it recovers `Info` |
| PersistentVectors.Close | src/PersistentVector.hpp:26-28 | the destructor writes `Info` back and keeps the records |
| PersistentVectors.PushBack | src/PersistentVector.hpp:30-33 | `push_back` grows the size by one and records `t` at the offset `add` returned, which becomes `last` |
| PersistentVectors.PushBackSpec | src/PersistentVector.hpp:30-33 | `push_back` keeps the log contiguous and appends `t` to the items |
| PersistentVectors.Visits | src/PersistentVector.hpp:42-44 | reading at `last - i * STEP` visits the items newest first |
| PersistentVectors.Iterate | src/PersistentVector.hpp:35-45 | `iterate` throws exactly when `cnt > size` |
| PersistentVectors.IterateSpec | src/PersistentVector.hpp:35-45 | `iterate(-1)` visits all items newest first; `iterate(cnt)` visits the newest `cnt`; a count below -1 visits none |
| PersistentVectors.NewVectorSpec | src/PersistentVector.hpp:22-24 | a new file opens as an empty log |
| PersistentVectors.ReopenSpec | src/PersistentVector.hpp:22-28 | closing a log and opening it again gives the same items |
| Utils.CStr | src/Utils.hpp:25 | what `c_str()` shows: the prefix up to the first NUL |
| Utils.Make | src/Utils.hpp:21-26 | the constructor throws exactly for strings longer than `L`, and otherwise yields `L` bytes |
| Utils.MakeSpec | src/Utils.hpp:21-26 | the constructed string's text is the input up to its first NUL; a NUL-free input comes back unchanged |
| Utils.Len | src/Utils.hpp:40-42 | `strnlen`: the bytes before it are non-NUL, and the byte at it is NUL unless it is `L` |
| Utils.LenSpec | src/Utils.hpp:40-42 | `len()` is the length of the text, and is 0 exactly when the string is empty |
| Utils.Min | src/Utils.hpp:62-66 | `min()` is a full-width string of `L` bytes |
| Utils.MinSpec | src/Utils.hpp:62-76 | `min()` is below or equal to every string, and equal exactly to the empty ones |
| Utils.Max | src/Utils.hpp:68-72 | `max()` is a full-width string of `L` bytes |
| Utils.MaxBounds | src/Utils.hpp:68-72 | no string is above `max()` |
| Utils.MaxSpec | src/Utils.hpp:68-72 | every constructed string without a `0xFF` byte is below `max()` |
| Utils.Cmp | src/Utils.hpp:31 | `strncmp` gives -1, 0 or 1 |
| Utils.CmpAntisym | src/Utils.hpp:30-34 | swapping the operands of `strncmp` flips the sign |
| Utils.CmpTrans | src/Utils.hpp:30-34 | `strncmp` is transitive |
| Utils.LtIsWeakOrder | src/Utils.hpp:30-34 | `operator<=>` is a strict weak order |
| Utils.EqIsEquiv | src/Utils.hpp:30-38 | `operator==` is exactly the equivalence of `operator<=>`, and the order is total on it |
| Utils.CmpZeroIsText | src/Utils.hpp:36-38 | two strings compare equal exactly when their texts are the same |
| Utils.CmpIsLex | src/Utils.hpp:30-34 | `less` is the lexicographic order of the texts |
| Utils.CanonicalEq | src/Utils.hpp:36-38 | on constructed strings, `==` is equality of the bytes |
| Utils.Segs | src/Utils.hpp:85-97 | the segments of the text between bar characters; there is always at least one |
| Utils.SegsJoin | src/Utils.hpp:85-97 | joining the segments with bar characters gives the text back, and no segment holds a bar |
| Utils.CollectSpec | src/Utils.hpp:78-105 | `split` succeeds exactly when no segment is empty and none repeats; it then returns the set of segments, and otherwise throws "Empty keyword!" or "Duplicate keyword!" for the first bad segment |
| Utils.Collect | src/Utils.hpp:78-105 | `split` fails only with "Empty keyword!" or "Duplicate keyword!" |
| Utils.Split | src/Utils.hpp:78-105 | `split` of an empty string is the empty set |
| Utils.SplitJoin | src/Utils.hpp:78-105 | distinct, non-empty keywords joined with bar characters split back into the same set |
| Utils.Shorten | src/Utils.hpp:157-163 | `shorten` returns `s` exactly when it fits or `maxLen` is negative; otherwise a prefix of `s` followed by "..." |
| Utils.ParsePrivilege | src/Utils.hpp:202-208 | `fromString<Privilege>` accepts exactly "0", "1", "3" and "7", and throws "Invalid privilege!" otherwise |
| Utils.PrivilegeRoundTrip | src/Utils.hpp:165-178 | each privilege's digit parses back to it |
| Utils.ParseField | src/Utils.hpp:234-240 | `fromString<BookDataID>` accepts exactly the five field names, and throws "Invalid type!" otherwise |
| Utils.FieldRoundTrip | src/Utils.hpp:169-186 | each field's name parses back to it |
| Utils.ParseFixed | src/Utils.hpp:210-232 | `fromString<String20/30/60>` succeeds exactly for a non-empty input that fits, and throws "Empty String!" on an empty one |
| Utils.ParseFixedSpec | src/Utils.hpp:210-232 | a non-empty, NUL-free input that parses gives a non-empty string with that text |
| StringReaders.New | src/StringReader.hpp:14-33 | the reader holds one entry per token |
| StringReaders.ScanWords | src/StringReader.hpp:17-28 | the constructor's loop completes only non-empty, space-free words |
| StringReaders.TokensAreWords | src/StringReader.hpp:14-33 | every token is non-empty and contains no space |
| StringReaders.ScanAfter | src/StringReader.hpp:17-28 | after a space the loop starts afresh: the rest of the line adds its own words |
| StringReaders.TokensSplit | src/StringReader.hpp:17-31 | a line cut at a space has the tokens of its two parts, whatever runs of spaces surround them |
| StringReaders.TokensOfWord | src/StringReader.hpp:24-31 | a space-free word is a single token |
| StringReaders.TokensOfUnwords | src/StringReader.hpp:14-33 | words joined with single spaces are tokenized back into the same words |
| StringReaders.TokensOfSnoc | src/StringReader.hpp:17-31 | one more word joined with a space at the end of a line adds exactly that word as the last token |
| StringReaders.NewSpec | src/StringReader.hpp:14-33 | a fresh reader hands out the line's tokens left to right |
| StringReaders.Get | src/StringReader.hpp:35-42 | `get` returns "" on an empty reader; otherwise it takes the next token |
| StringReaders.GetSpec | src/StringReader.hpp:35-42 | `get` consumes exactly the first remaining token |
| StringReaders.Touch | src/StringReader.hpp:44-49 | `touch` returns what `get` would return |
| StringReaders.Store | src/StringReader.hpp:55-57 | `store` adds one token |
| StringReaders.StoreSpec | src/StringReader.hpp:55-57 | `store(s)` makes `s` the next token, and `get` then returns `s` and the reader as before |
| StringReaders.Empty | src/StringReader.hpp:51-53 | `empty()` holds exactly when no token is left |
| Accounts.AccountOrder | src/Account.hpp:17-23 | accounts compare, and are equal, by user ID alone |
| Accounts.CfgOk | src/Account.hpp:33-37 | the account map's orders are weak orders, and `MIN`/`MAX` bound every account |
| Accounts.NewAccountsSpec | src/Account.hpp:37 | a new account file opens as an empty unique map |
| Accounts.UniqueAfterPut | src/PersistentSet.hpp:199-200 | adding a pair under an absent key keeps user IDs unique |
| Accounts.UniqueAfterRemove | src/Account.hpp:58-60 | removing a pair keeps user IDs unique |
| Accounts.PutAccount | src/Account.hpp:40-42 | storing an account under a user ID succeeds exactly when the ID is unknown, keeps IDs unique, and adds that pair while the index block has room |
| Accounts.Add | src/Account.hpp:40-42 | a failed `add` changes nothing |
| Accounts.AddSpec | src/Account.hpp:40-42 | `add` succeeds exactly when the user ID is unknown, and then adds the account |
| Accounts.Get | src/Account.hpp:44-46 | `get` returns `Account::MIN` for an unknown user ID, and otherwise the account of the first stored pair with that ID |
| Accounts.GetSpec | src/Account.hpp:44-46 | `get` returns `Account::MIN`, an empty account, for an unknown user ID, and otherwise the stored account |
| Accounts.Remove | src/Account.hpp:58-60 | a failed `remove` changes nothing |
| Accounts.RemoveSpec | src/Account.hpp:58-60 | `remove` succeeds exactly when the user ID is known, removes its one pair, and leaves it unknown |
| Accounts.GoneAfterRemove | src/Account.hpp:58-60 | with unique IDs, no pair of the removed ID remains |
| Accounts.RemoveKnown | src/Account.hpp:54 | removing a known user ID removes exactly its pair, as a multiset |
| Accounts.DropOne | src/Account.hpp:54 | with unique IDs, the pair found for an ID is the only one with that ID |
| Accounts.Modify | src/Account.hpp:48-56 | a failed `modify` leaves a well-formed map |
| Accounts.ModifyKnown | src/Account.hpp:48-56 | on a known, non-empty account, `modify` succeeds and stores the account with the new password in place of the old pair |
| Accounts.ModifyPairs | src/Account.hpp:48-56 | the stored pair of the ID is replaced by the same account with the new password; user ID, name and privilege stay |
| Accounts.ModifySpec | src/Account.hpp:48-56 | `modify` fails and changes nothing for an unknown ID or an empty stored account; otherwise it swaps in the new password |
| Accounts.Init | src/Account.hpp:62-64 | `init` keeps the map well-formed and unique, and changes nothing when a `root` user exists |
| Accounts.InitSpec | src/Account.hpp:62-64 | `init` adds `root` exactly when no `root` user exists |
| Statuses.CurrentPrivilege | src/Status.hpp:29-31 | with nobody logged in, the privilege is `GUEST` |
| Statuses.Login | src/Status.hpp:33-36 | `login` pushes one entry |
| Statuses.Logout | src/Status.hpp:38-45 | `logout` succeeds exactly when the stack is not empty |
| Statuses.Select | src/Status.hpp:47-49 | `select` keeps the number of entries |
| Statuses.Start | src/Status.hpp:19-31 | at the start the multiset matches the empty stack, nobody is logged and the privilege is `GUEST` |
| Statuses.KeyIsEq | src/Status.hpp:20 | two user IDs share a key of `loggedAccounts` exactly when `String30::operator==` holds |
| Statuses.IdsHas | src/Status.hpp:20 | a key is counted exactly when some entry has it |
| Statuses.Logged | src/Status.hpp:51-53 | `logged(a)` holds exactly when some entry of the stack has a user ID equal to `a`'s |
| Statuses.LoginSpec | src/Status.hpp:33-36 | `login` keeps the multiset matching the stack, puts `(a, default book)` on top, makes `a`'s privilege current and `a` logged |
| Statuses.LogoutSpec | src/Status.hpp:38-45 | `logout` fails on an empty stack and changes nothing; otherwise it pops the top and removes one occurrence of its user ID |
| Statuses.SelectSpec | src/Status.hpp:47-49 | `select` changes only the top entry's book |
| Statuses.LoginLogout | src/Status.hpp:33-45 | `login` then `logout` restores the state exactly |
| Validators.Expect | src/Validator.hpp:77-80 | `expect(t)` makes a positive validator of `t` |
| Validators.Execute | src/Validator.hpp:22-27 | `execute` throws exactly when `passed` differs from the polarity, and otherwise returns the validator unchanged |
| Validators.Not | src/Validator.hpp:58-61 | `Not()` flips the polarity and keeps the value |
| Validators.ToBe | src/Validator.hpp:29-31 | `toBe(b)` passes exactly when whether `t == b` matches the polarity |
| Validators.ToBeOneOf | src/Validator.hpp:38-48 | `toBeOneOf` checks whether `t` equals some argument; with no arguments it checks `false` |
| Validators.Le | src/Validator.hpp:50-52 | `le(b)` checks `t <= b` |
| Validators.Ge | src/Validator.hpp:54-56 | `ge(b)` checks `t >= b` |
| Validators.ConsistedOf | src/Validator.hpp:63-70 | `consistedOf(b)` checks that every character of `t` occurs in `b`; an empty `t` passes |
| Validators.Step | src/Validator.hpp:29-61 | each link computes its outcome and passes it to `execute`; `Not()` only flips |
| Validators.NotSpec | src/Validator.hpp:58-61 | two `Not()`s restore the polarity; `Not()` turns every passing check into a failing one and back |
| Validators.LeGeSpec | src/Validator.hpp:50-56 | under a weak order, `le`/`ge` pass exactly for less-or-equal/greater-or-equal |
| Validators.RunSpec | src/Validator.hpp:15-27 | a chain passes exactly when each check agrees with the polarity in force at that point; the error is always `ValidationError` |
| Validators.Run | src/Validator.hpp:15-27 | a chain that passes returns the value it was given; one that fails throws `ValidationError` |
| Validators.OrIsConjunction | src/Validator.hpp:15-19 | since `Or` is the validator itself, `toBe(a).Or.toBe(b)` passes only when `t` equals both |
| Validators.NotPersists | src/Validator.hpp:58-61 | a `Not()` applies to every later check of the chain |

## Left out

- PersistentSets.InsertSpec: states the exact contents only while the index block has room. When a split meets a full index block, `Block::insert` refuses the new entry and the upper half of the split leaf is lost, as at src/PersistentSet.hpp:128. The model keeps that behaviour: in that case the contract states only that no element appears except `t`.
- PersistentSets.SplitSpec: the same restriction, for the same reason.
- PersistentMaps.PutSpec: the same restriction, inherited from `insert`.
- Accounts.PutAccount: the same restriction, inherited from `put`.
- Accounts.AddSpec: the same restriction.
- Accounts.ModifyKnown: the same restriction.
- Accounts.ModifyPairs: the same restriction.
- Accounts.ModifySpec: the same restriction.
- Accounts.InitSpec: the same restriction.
- The `memmove` in `Block::erase` moves one element too many (src/PersistentSet.hpp:44). The extra element lies past the new size and is never read, so the model uses the intended shift.
- `split` copies each keyword into a 60-byte buffer (src/Utils.hpp:83). The model assumes every keyword fits.
- File I/O, streams, `std::filesystem` and the `print()` debug dumps are not modelled. A file is modelled by the slots its bytes encode.
- src/database/FileStorage.hpp and FileStorage.hpp are copies of src/FileStorage.hpp apart from file naming. `Storage` models all three.
- In src/database/BlockedList.hpp, `insert` and `erase` are the same as in `PersistentSet`. Only its `search` differs: it has no empty-index guard.
- BlockedLists.UnguardedSearch: requires a non-empty index. On an empty index the source reads `indexBlock.data[0].pos` of an empty block (src/database/BlockedList.hpp:155-156), which is a stale or undefined value, so the model does not say what such a search returns.
- `MemoryRiver`'s record operations are modelled by `Storage`. Only its free-list head layout differs.
- MemoryRiver.Initialise: an `INFO` narrower than an `int` is not modelled. `initialise` copies `INT_SIZE` bytes out of an `INFO` object, which reads past that object, so the bytes written are undefined.
- Destructor-driven flushes are modelled as explicit `Close`/`Open` transitions.
- `Book::min()` (src/Status.hpp:34) does not exist. `Statuses.Login` takes the default book as a parameter, and the book type is generic.
- `Validator::toBe<U>()` (a `dynamic_cast`) and `toMatch` (`std::regex_match`) are not modelled: they depend on run-time types and on the regex library.
- The `int` `fromString` (`std::stoi`) is not modelled; `Double`, its parsing and the sums in src/Log.hpp use floating point.
- src/Book.hpp, src/Log.hpp, src/Command.hpp, src/control/Command.hpp, src/StringUtil.hpp, src/DataTypes.hpp, src/database/DataTypes.hpp, src/Error.hpp and the drivers are not part of this model. They are glue, floating point, regex scanners, or code that does not compile.
- `std::stack::top()` on an empty stack is undefined behaviour, so `Statuses.Select` requires a non-empty stack.

## Findings

| source | as written | input that shows it | evidently intended | confidence | as-written member | corrected member |
|---|---|---|---|---|---|---|
| MemoryRiver.hpp:21-54 | `initialise` writes the free-list head at byte `INT_SIZE`, but `getEmpty`/`putEmpty` use byte `INFO_LEN * INT_SIZE` | `INFO` = `int`: the first `write` reads its head from byte 16 of an 8-byte file | the head lives right after the header, at byte `INFO_LEN`, as in src/FileStorage.hpp | not executed | MemoryRiver.InitialiseLosesHead | MemoryRiver.FirstAddUsesFirstSlot |
| BlockedList.hpp:40-49 | `Block::erase` reports "not found" only when `p < size`; for `p == size` it decrements the size and returns true | block [1, 2], erase 5: leaves [1] and reports success | report absence and keep the block, as src/PersistentSet.hpp:41 does | not executed | BlockedLists.OldBlockEraseCounterexample | Blocks.Erase |
