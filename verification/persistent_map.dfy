/** `PersistentMap<KEY, VALUE, SIZE>` of src/PersistentSet.hpp: a persistent
    set of `(key, value)` pairs in lexicographic order. In unique mode a key
    has at most one value; in multi mode a key may have many.

    All lookups by key are range searches from `(k, VALUE::min())` to
    `(k, VALUE::max())`; `Config` carries the two orders, those two
    sentinel values and the block capacity. */
module PersistentMaps {
  import opened Order
  import opened Wrappers
  import PS = PersistentSets
  import Storage

  datatype Config<!K, !V> = Config(klt: (K, K) -> bool, vlt: (V, V) -> bool, vmin: V, vmax: V, cap: nat)

  /** The order of the stored pairs. */
  function Lt<K, V>(c: Config<K, V>): ((K, V), (K, V)) -> bool {
    PairLt(c.klt, c.vlt)
  }

  /** An open map and whether it is a multimap. */
  datatype PMap<K, V> = PMap(multi: bool, pairs: PS.PSet<(K, V)>)

  /** `VALUE::min()` and `VALUE::max()` bound every value. */
  ghost predicate Bounded<K, V(!new)>(c: Config<K, V>) {
    forall v :: !c.vlt(v, c.vmin) && !c.vlt(c.vmax, v)
  }

  /** The invariant of an open map over well-behaved orders. */
  ghost predicate Valid<K(!new), V(!new)>(m: PMap<K, V>, c: Config<K, V>) {
    && WeakOrder(c.klt) && WeakOrder(c.vlt) && Bounded(c)
    && PS.Inv(m.pairs, c.cap, Lt(c))
  }

  /** The stored pairs, ascending. */
  function Pairs<K, V>(m: PMap<K, V>): seq<(K, V)>
    requires PS.Indexed(Storage.Records(m.pairs.store), m.pairs.index)
  {
    PS.Elements(m.pairs)
  }

  // ---------------------------------------------------------------------
  // Reference semantics
  // ---------------------------------------------------------------------

  /** The pairs of `s` whose key lies in `[k1, k2]`, in order. */
  function KeysIn<K, V>(s: seq<(K, V)>, k1: K, k2: K, klt: (K, K) -> bool): (r: seq<(K, V)>)
    ensures forall i :: 0 <= i < |r| ==> r[i] in s && InRange(klt, r[i].0, k1, k2)
    ensures forall i :: 0 <= i < |s| && InRange(klt, s[i].0, k1, k2) ==> s[i] in r
  {
    if |s| == 0 then []
    else (if InRange(klt, s[0].0, k1, k2) then [s[0]] else []) + KeysIn(s[1..], k1, k2, klt)
  }

  /** Some pair of `s` has a key equivalent to `k`. */
  ghost predicate HasKey<K, V>(s: seq<(K, V)>, k: K, klt: (K, K) -> bool) {
    exists i :: 0 <= i < |s| && Equiv(klt, s[i].0, k)
  }

  /** The values of the pairs, in order: what `iterate` passes to `f`. */
  function Values<K, V>(s: seq<(K, V)>): (r: seq<V>)
    ensures |r| == |s| && forall i :: 0 <= i < |s| ==> r[i] == s[i].1
  {
    if |s| == 0 then [] else [s[0].1] + Values(s[1..])
  }

  /** A pair lies between `(k1, min)` and `(k2, max)` exactly when its key
      lies between `k1` and `k2`. */
  lemma PairInRange<K, V(!new)>(c: Config<K, V>, x: (K, V), k1: K, k2: K)
    requires Bounded(c)
    ensures InRange(Lt(c), x, (k1, c.vmin), (k2, c.vmax)) <==> InRange(c.klt, x.0, k1, k2)
  {
    assert !c.vlt(x.1, c.vmin) && !c.vlt(c.vmax, x.1);
  }

  /** The range search the map issues selects the pairs by key alone. */
  lemma {:induction false} FilterIsKeysIn<K, V(!new)>(c: Config<K, V>, s: seq<(K, V)>, k1: K, k2: K)
    requires Bounded(c)
    ensures Filter(s, (k1, c.vmin), (k2, c.vmax), Lt(c)) == KeysIn(s, k1, k2, c.klt)
  {
    if |s| > 0 {
      PairInRange(c, s[0], k1, k2);
      FilterIsKeysIn(c, s[1..], k1, k2);
    }
  }

  /** The pairs with key `k` are absent exactly when no key is `k`. */
  lemma {:induction false} KeysInEmpty<K, V>(s: seq<(K, V)>, k: K, klt: (K, K) -> bool)
    ensures |KeysIn(s, k, k, klt)| == 0 <==> !HasKey(s, k, klt)
  {
    if HasKey(s, k, klt) {
      var i :| 0 <= i < |s| && Equiv(klt, s[i].0, k);
      assert s[i] in KeysIn(s, k, k, klt);
    }
    var r := KeysIn(s, k, k, klt);
    if |r| > 0 {
      assert r[0] in s;
      var j :| 0 <= j < |s| && s[j] == r[0];
      assert Equiv(klt, s[j].0, k);
    }
  }

  /** `s[i]` is the first pair of `s` whose key is `k`. */
  ghost predicate FirstKey<K, V>(s: seq<(K, V)>, k: K, klt: (K, K) -> bool, i: int) {
    && 0 <= i < |s| && Equiv(klt, s[i].0, k)
    && forall j :: 0 <= j < i ==> !Equiv(klt, s[j].0, k)
  }

  /** The search by key `k` starts with the first pair whose key is `k`. */
  lemma {:induction false} KeysInFirst<K, V>(s: seq<(K, V)>, k: K, klt: (K, K) -> bool)
    requires HasKey(s, k, klt)
    ensures |KeysIn(s, k, k, klt)| > 0
    ensures exists i :: FirstKey(s, k, klt, i) && KeysIn(s, k, k, klt)[0] == s[i]
  {
    if Equiv(klt, s[0].0, k) {
      assert FirstKey(s, k, klt, 0);
    } else {
      var i0 :| 0 <= i0 < |s| && Equiv(klt, s[i0].0, k);
      assert Equiv(klt, s[1..][i0 - 1].0, k);
      KeysInFirst(s[1..], k, klt);
      var i :| FirstKey(s[1..], k, klt, i) && KeysIn(s[1..], k, k, klt)[0] == s[1..][i];
      forall j | 0 <= j < i + 1 ensures !Equiv(klt, s[j].0, k) {
        if j > 0 {
          assert s[j] == s[1..][j - 1];
        }
      }
      assert FirstKey(s, k, klt, i + 1);
    }
  }

  // ---------------------------------------------------------------------
  // Operations
  // ---------------------------------------------------------------------

  /** The range search by key shared by every operation. */
  function KeyRange<K(!new), V(!new)>(m: PMap<K, V>, k1: K, k2: K, c: Config<K, V>): (r: seq<(K, V)>)
    requires PS.Inv(m.pairs, c.cap, Lt(c))
    ensures forall i :: 0 <= i < |r| ==> !Lt(c)((k2, c.vmax), r[i])
  {
    PS.Search(m.pairs, (k1, c.vmin), (k2, c.vmax), c.cap, Lt(c))
  }

  /** It finds exactly the pairs whose key lies in `[k1, k2]`. */
  lemma KeyRangeSpec<K(!new), V(!new)>(m: PMap<K, V>, k1: K, k2: K, c: Config<K, V>)
    requires Valid(m, c)
    ensures KeyRange(m, k1, k2, c) == KeysIn(Pairs(m), k1, k2, c.klt)
  {
    PS.SearchSpec(m.pairs, (k1, c.vmin), (k2, c.vmax), c.cap, Lt(c));
    FilterIsKeysIn(c, Pairs(m), k1, k2);
  }

  /** `put`: in multi mode insert the pair; in unique mode insert it only
      when the key has no value yet. */
  function Put<K(!new), V(!new)>(m: PMap<K, V>, k: K, v: V, c: Config<K, V>): (r: (bool, PMap<K, V>))
    requires PS.Inv(m.pairs, c.cap, Lt(c))
    ensures !r.0 ==> r.1 == m
    ensures r.1.multi == m.multi
  {
    if m.multi then
      var (ok, s) := PS.Insert(m.pairs, (k, v), c.cap, Lt(c));
      (ok, m.(pairs := s))
    else if |KeyRange(m, k, k, c)| == 0 then
      var (ok, s) := PS.Insert(m.pairs, (k, v), c.cap, Lt(c));
      (ok, m.(pairs := s))
    else (false, m)
  }

  /** `remove`: the pair `(k, v)` when `v` is given, otherwise the first
      pair with key `k`; a multimap must be given `v`. `v` equivalent to
      `VALUE::min()` stands for the omitted default argument. */
  function Remove<K(!new), V(!new)>(m: PMap<K, V>, k: K, v: V, c: Config<K, V>): (r: Result<(bool, PMap<K, V>)>)
    requires PS.Inv(m.pairs, c.cap, Lt(c))
    ensures r.Err? <==> m.multi && Equiv(c.vlt, v, c.vmin)
    ensures r.Ok? && !r.value.0 ==> r.value.1 == m
    ensures r.Ok? ==> |r.value.1.pairs.index| <= |m.pairs.index|
  {
    if m.multi && Equiv(c.vlt, v, c.vmin) then Err("You should specify v if multi is true")
    else if !Equiv(c.vlt, v, c.vmin) then
      var (ok, s) := PS.Erase(m.pairs, (k, v), c.cap, Lt(c));
      Ok((ok, m.(pairs := s)))
    else
      var vec := KeyRange(m, k, k, c);
      if |vec| == 0 then Ok((false, m))
      else
        var (ok, s) := PS.Erase(m.pairs, vec[0], c.cap, Lt(c));
        Ok((ok, m.(pairs := s)))
  }

  /** `get`: the value of key `k`, `VALUE::min()` when there is none; a
      multimap refuses. */
  function Get<K(!new), V(!new)>(m: PMap<K, V>, k: K, c: Config<K, V>): (r: Result<V>)
    requires PS.Inv(m.pairs, c.cap, Lt(c))
    ensures r.Err? <==> m.multi
  {
    if m.multi then Err("You should use iterate if multi is true")
    else
      var vec := KeyRange(m, k, k, c);
      if |vec| == 0 then Ok(c.vmin) else Ok(vec[0].1)
  }

  /** What an iteration does: call `emptyF` once, or call `f` on each of
      the values in turn. */
  datatype Visit<V> = CalledEmpty | Visited(values: seq<V>)

  /** `iterateAll`: the values of every key in `[k1, k2]`. */
  function IterateAll<K(!new), V(!new)>(m: PMap<K, V>, k1: K, k2: K, c: Config<K, V>): (r: Visit<V>)
    requires PS.Inv(m.pairs, c.cap, Lt(c))
    ensures r.Visited? ==> |r.values| > 0
  {
    var vec := KeyRange(m, k1, k2, c);
    if |vec| == 0 then CalledEmpty else Visited(Values(vec))
  }

  /** `iterate`: the values of key `k`; the same search as `iterateAll`
      from `k` to `k`. */
  function Iterate<K(!new), V(!new)>(m: PMap<K, V>, k: K, c: Config<K, V>): (r: Visit<V>)
    requires PS.Inv(m.pairs, c.cap, Lt(c))
    ensures r.Visited? ==> |r.values| > 0
  {
    IterateAll(m, k, k, c)
  }

  // ---------------------------------------------------------------------
  // Correctness
  // ---------------------------------------------------------------------

  /** A pair equivalent to `(k, v)` has a key equivalent to `k`. */
  lemma HoldsHasKey<K(!new), V(!new)>(c: Config<K, V>, s: seq<(K, V)>, k: K, v: V)
    requires Holds(s, (k, v), Lt(c))
    ensures HasKey(s, k, c.klt)
  {
    var i :| 0 <= i < |s| && Equiv(Lt(c), s[i], (k, v));
    assert !c.klt(s[i].0, k) && !c.klt(k, s[i].0);
  }

  /** In unique mode `put` succeeds exactly when the key has no value, and
      then adds the pair; in multi mode exactly when the pair is new. */
  lemma PutSpec<K(!new), V(!new)>(m: PMap<K, V>, k: K, v: V, c: Config<K, V>)
    requires Valid(m, c)
    ensures Valid(Put(m, k, v, c).1, c)
    ensures !m.multi ==> (Put(m, k, v, c).0 <==> !HasKey(Pairs(m), k, c.klt))
    ensures m.multi ==> (Put(m, k, v, c).0 <==> !Holds(Pairs(m), (k, v), Lt(c)))
    ensures Put(m, k, v, c).0 && |m.pairs.index| < c.cap ==>
            multiset(Pairs(Put(m, k, v, c).1)) == multiset(Pairs(m)) + multiset{(k, v)}
  {
    PS.InsertSpec(m.pairs, (k, v), c.cap, Lt(c));
    KeyRangeSpec(m, k, k, c);
    KeysInEmpty(Pairs(m), k, c.klt);
    if Holds(Pairs(m), (k, v), Lt(c)) {
      HoldsHasKey(c, Pairs(m), k, v);
    }
  }

  /** A unique map answers `get` with the value of the first pair whose key
      is `k`, or `VALUE::min()` when there is none. */
  lemma GetSpec<K(!new), V(!new)>(m: PMap<K, V>, k: K, c: Config<K, V>)
    requires Valid(m, c) && !m.multi
    ensures !HasKey(Pairs(m), k, c.klt) ==> Get(m, k, c) == Ok(c.vmin)
    ensures HasKey(Pairs(m), k, c.klt) ==>
            exists i :: FirstKey(Pairs(m), k, c.klt, i) && Get(m, k, c) == Ok(Pairs(m)[i].1)
  {
    KeyRangeSpec(m, k, k, c);
    KeysInEmpty(Pairs(m), k, c.klt);
    if HasKey(Pairs(m), k, c.klt) {
      KeysInFirst(Pairs(m), k, c.klt);
    }
  }

  /** `remove` with a value erases that pair; without one (unique mode
      only) it erases the pair of key `k` and reports whether there was
      one. */
  lemma RemoveSpec<K(!new), V(!new)>(m: PMap<K, V>, k: K, v: V, c: Config<K, V>)
    requires Valid(m, c)
    ensures Remove(m, k, v, c).Ok? ==> Valid(Remove(m, k, v, c).value.1, c)
    ensures !Equiv(c.vlt, v, c.vmin) ==>
            Remove(m, k, v, c).Ok? && (Remove(m, k, v, c).value.0 <==> Holds(Pairs(m), (k, v), Lt(c)))
    ensures !m.multi && Equiv(c.vlt, v, c.vmin) ==>
            Remove(m, k, v, c).Ok? && (Remove(m, k, v, c).value.0 <==> HasKey(Pairs(m), k, c.klt))
    ensures Remove(m, k, v, c).Ok? && Remove(m, k, v, c).value.0 ==>
            exists j :: 0 <= j < |Pairs(m)| && Equiv(c.klt, Pairs(m)[j].0, k)
                        && Pairs(Remove(m, k, v, c).value.1) == Pairs(m)[..j] + Pairs(m)[j + 1..]
    ensures !Equiv(c.vlt, v, c.vmin) && Remove(m, k, v, c).value.0 ==>
            exists j :: 0 <= j < |Pairs(m)| && Equiv(Lt(c), Pairs(m)[j], (k, v))
                        && Pairs(Remove(m, k, v, c).value.1) == Pairs(m)[..j] + Pairs(m)[j + 1..]
    ensures !m.multi && Equiv(c.vlt, v, c.vmin) && Remove(m, k, v, c).value.0 ==>
            exists j :: FirstKey(Pairs(m), k, c.klt, j)
                        && Pairs(Remove(m, k, v, c).value.1) == Pairs(m)[..j] + Pairs(m)[j + 1..]
  {
    if !Equiv(c.vlt, v, c.vmin) {
      RemoveGiven(m, k, v, c);
    } else if !m.multi {
      RemoveFirst(m, k, v, c);
    }
  }

  /** `remove` given a value erases the stored pair equivalent to `(k, v)`,
      which has key `k`. */
  lemma RemoveGiven<K(!new), V(!new)>(m: PMap<K, V>, k: K, v: V, c: Config<K, V>)
    requires Valid(m, c) && !Equiv(c.vlt, v, c.vmin)
    ensures var r := Remove(m, k, v, c);
            && r.Ok? && Valid(r.value.1, c)
            && (r.value.0 <==> Holds(Pairs(m), (k, v), Lt(c)))
            && (r.value.0 ==>
                  exists j :: 0 <= j < |Pairs(m)| && Equiv(Lt(c), Pairs(m)[j], (k, v))
                              && Equiv(c.klt, Pairs(m)[j].0, k)
                              && Pairs(r.value.1) == Pairs(m)[..j] + Pairs(m)[j + 1..])
  {
    PS.EraseSpec(m.pairs, (k, v), c.cap, Lt(c));
  }

  /** `remove` without a value on a unique map erases the first pair with
      key `k`, if any. */
  lemma RemoveFirst<K(!new), V(!new)>(m: PMap<K, V>, k: K, v: V, c: Config<K, V>)
    requires Valid(m, c) && !m.multi && Equiv(c.vlt, v, c.vmin)
    ensures var r := Remove(m, k, v, c);
            && r.Ok? && Valid(r.value.1, c)
            && (r.value.0 <==> HasKey(Pairs(m), k, c.klt))
            && (r.value.0 ==>
                  exists j :: FirstKey(Pairs(m), k, c.klt, j)
                              && Pairs(r.value.1) == Pairs(m)[..j] + Pairs(m)[j + 1..])
  {
    KeyRangeSpec(m, k, k, c);
    KeysInEmpty(Pairs(m), k, c.klt);
    if HasKey(Pairs(m), k, c.klt) {
      KeysInFirst(Pairs(m), k, c.klt);
      var i :| FirstKey(Pairs(m), k, c.klt, i) && KeysIn(Pairs(m), k, k, c.klt)[0] == Pairs(m)[i];
      ErasesOnly(m, c, i);
    }
  }

  /** Erasing the stored pair `Pairs(m)[i]` takes out exactly position `i`:
      no other stored pair is equivalent to it. */
  lemma ErasesOnly<K(!new), V(!new)>(m: PMap<K, V>, c: Config<K, V>, i: int)
    requires Valid(m, c) && 0 <= i < |Pairs(m)|
    ensures var r := PS.Erase(m.pairs, Pairs(m)[i], c.cap, Lt(c));
            && r.0 && PS.Inv(r.1, c.cap, Lt(c))
            && PS.Elements(r.1) == Pairs(m)[..i] + Pairs(m)[i + 1..]
  {
    var x := Pairs(m)[i];
    assert Equiv(Lt(c), x, x);
    PS.EraseSpec(m.pairs, x, c.cap, Lt(c));
    var j :| 0 <= j < |Pairs(m)| && Equiv(Lt(c), Pairs(m)[j], x)
             && PS.Elements(PS.Erase(m.pairs, x, c.cap, Lt(c)).1) == Pairs(m)[..j] + Pairs(m)[j + 1..];
    assert !Lt(c)(Pairs(m)[j], Pairs(m)[i]) && !Lt(c)(Pairs(m)[i], Pairs(m)[j]);
    assert j == i;
  }

  /** `iterateAll` calls `emptyF` exactly when no key lies in `[k1, k2]`,
      and otherwise passes the values of those keys' pairs in ascending
      order. */
  lemma IterateAllSpec<K(!new), V(!new)>(m: PMap<K, V>, k1: K, k2: K, c: Config<K, V>)
    requires Valid(m, c)
    ensures IterateAll(m, k1, k2, c) == CalledEmpty <==> |KeysIn(Pairs(m), k1, k2, c.klt)| == 0
    ensures IterateAll(m, k1, k2, c).Visited? ==>
            IterateAll(m, k1, k2, c).values == Values(KeysIn(Pairs(m), k1, k2, c.klt))
  {
    KeyRangeSpec(m, k1, k2, c);
  }

  /** `iterate` calls `emptyF` exactly when no pair has key `k`. */
  lemma IterateSpec<K(!new), V(!new)>(m: PMap<K, V>, k: K, c: Config<K, V>)
    requires Valid(m, c)
    ensures Iterate(m, k, c) == CalledEmpty <==> !HasKey(Pairs(m), k, c.klt)
    ensures Iterate(m, k, c).Visited? ==> Iterate(m, k, c).values == Values(KeysIn(Pairs(m), k, k, c.klt))
  {
    KeyRangeSpec(m, k, k, c);
    KeysInEmpty(Pairs(m), k, c.klt);
  }
}
