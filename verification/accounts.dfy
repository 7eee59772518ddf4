/** `Account` and the `Accounts` operations of src/Account.hpp: user
    accounts kept in a unique `PersistentMap` from user ID to account. */
module Accounts {
  import opened Order
  import Utils
  import PM = PersistentMaps
  import PS = PersistentSets
  import Storage

  /** The width of `String30`. */
  const W: nat := 30

  datatype Account = Account(userID: Utils.FStr, password: Utils.FStr, userName: Utils.FStr, privilege: Utils.Privilege)

  /** `Account::operator<=>`: by user ID alone. */
  function AccountLt(): (Account, Account) -> bool {
    ByKey((a: Account) => a.userID, Utils.Lt(W))
  }

  /** `Account::MIN`: the user ID `String30::min()`, every other member
      zero-initialised. */
  function MinAccount(): Account {
    Account(Utils.Min(W), Utils.Min(W), Utils.Min(W), Utils.Guest)
  }

  /** `Account::MAX`. */
  function MaxAccount(): Account {
    Account(Utils.Max(W), Utils.Min(W), Utils.Min(W), Utils.Guest)
  }

  /** `accountMap`: `PersistentMap<String30, Account, 100>`. */
  function Cfg(): PM.Config<Utils.FStr, Account> {
    PM.Config(Utils.Lt(W), AccountLt(), MinAccount(), MaxAccount(), 100)
  }

  type Pairs = seq<(Utils.FStr, Account)>

  /** No two stored pairs have equal user IDs, unless they are the same
      pair. */
  ghost predicate UniqueKeys(s: Pairs) {
    forall x, y :: x in s && y in s && Equiv(Utils.Lt(W), x.0, y.0) ==> x == y
  }

  /** What the account operations keep: a valid unique map whose user IDs
      are unique. */
  ghost predicate Inv(m: PM.PMap<Utils.FStr, Account>) {
    && !m.multi
    && PM.Valid(m, Cfg())
    && UniqueKeys(PM.Pairs(m))
  }

  /** The user ID is stored. */
  ghost predicate Known(m: PM.PMap<Utils.FStr, Account>, id: Utils.FStr)
    requires PS.Indexed(Storage.Records(m.pairs.store), m.pairs.index)
  {
    PM.HasKey(PM.Pairs(m), id, Utils.Lt(W))
  }

  // ---------------------------------------------------------------------
  // Operations
  // ---------------------------------------------------------------------

  /** `accountMap` opened on a new, empty file. */
  function Fresh(l: Storage.Layout): PM.PMap<Utils.FStr, Account>
    requires Storage.ValidLayout(l)
  {
    PM.PMap(false, PS.Open(Storage.Init(l, [])))
  }

  /** `add`: store the account unless its user ID is taken. */
  function Add(m: PM.PMap<Utils.FStr, Account>, a: Account): (r: (bool, PM.PMap<Utils.FStr, Account>))
    requires PS.Inv(m.pairs, Cfg().cap, PM.Lt(Cfg()))
    ensures !r.0 ==> r.1 == m
  {
    PM.Put(m, a.userID, a, Cfg())
  }

  /** `get`: the account of a user ID, `Account::MIN` for an unknown one. */
  function Get(m: PM.PMap<Utils.FStr, Account>, id: Utils.FStr): (a: Account)
    requires PS.Inv(m.pairs, Cfg().cap, PM.Lt(Cfg())) && !m.multi
    ensures !Known(m, id) ==> a == MinAccount()
    ensures Known(m, id) ==>
            exists i :: PM.FirstKey(PM.Pairs(m), id, Utils.Lt(W), i) && a == PM.Pairs(m)[i].1
  {
    CfgOk();
    PM.GetSpec(m, id, Cfg());
    PM.Get(m, id, Cfg()).value
  }

  /** `modify`: change the password of a known account by removing it and
      putting it back with the new password. */
  function Modify(m: PM.PMap<Utils.FStr, Account>, id: Utils.FStr, pw: Utils.FStr): (r: (bool, PM.PMap<Utils.FStr, Account>))
    requires Inv(m)
    ensures !r.0 ==> PS.Inv(r.1.pairs, Cfg().cap, PM.Lt(Cfg()))
  {
    var acc := Get(m, id);
    if Utils.Empty(acc.userID) then (false, m)
    else PM.Put(Remove(m, id).1, id, acc.(password := pw), Cfg())
  }

  /** `remove`: drop the account of a user ID. */
  function Remove(m: PM.PMap<Utils.FStr, Account>, id: Utils.FStr): (r: (bool, PM.PMap<Utils.FStr, Account>))
    requires PS.Inv(m.pairs, Cfg().cap, PM.Lt(Cfg())) && !m.multi
    ensures !r.0 ==> r.1 == m
    ensures PS.Inv(r.1.pairs, Cfg().cap, PM.Lt(Cfg())) && !r.1.multi
  {
    CfgOk();
    PM.RemoveSpec(m, id, MinAccount(), Cfg());
    PM.Remove(m, id, MinAccount(), Cfg()).value
  }

  /** The account `init` stores: user `root`, password `sjtu`, name
      `root`, privilege `ADMIN`. */
  function Root(): Account {
    Account(Utils.Make("root", W).value, Utils.Make("sjtu", W).value, Utils.Make("root", W).value, Utils.Admin)
  }

  /** `init`: add the root account unless a `root` user exists. */
  function Init(m: PM.PMap<Utils.FStr, Account>): (r: PM.PMap<Utils.FStr, Account>)
    requires PS.Inv(m.pairs, Cfg().cap, PM.Lt(Cfg()))
    ensures PS.Inv(r.pairs, Cfg().cap, PM.Lt(Cfg())) && r.multi == m.multi
    ensures !m.multi && Known(m, Root().userID) ==> r == m
  {
    CfgOk();
    PM.PutSpec(m, Root().userID, Root(), Cfg());
    Add(m, Root()).1
  }

  // ---------------------------------------------------------------------
  // Correctness
  // ---------------------------------------------------------------------

  /** Accounts are ordered, and equal, by user ID alone. */
  lemma AccountOrder(a: Account, b: Account)
    ensures AccountLt()(a, b) <==> Utils.Lt(W)(a.userID, b.userID)
    ensures Equiv(AccountLt(), a, b) <==> Utils.Eq(a.userID, b.userID, W)
  {
    Utils.EqIsEquiv(a.userID, b.userID, W);
  }

  /** The map's orders are strict weak orders and `MIN`/`MAX` bound every
      account. */
  lemma CfgOk()
    ensures WeakOrder(Cfg().klt) && WeakOrder(Cfg().vlt) && PM.Bounded(Cfg())
  {
    Utils.LtIsWeakOrder(W);
    ByKeyIsWeakOrder((a: Account) => a.userID, Utils.Lt(W));
    forall v: Account
      ensures !Cfg().vlt(v, Cfg().vmin) && !Cfg().vlt(Cfg().vmax, v)
    {
      Utils.MinSpec(v.userID, W);
      Utils.MaxBounds(v.userID, W);
    }
  }

  /** A fresh account file satisfies the invariant and holds nothing. */
  lemma NewAccountsSpec(l: Storage.Layout)
    requires Storage.ValidLayout(l)
    ensures Inv(Fresh(l))
    ensures PM.Pairs(Fresh(l)) == []
  {
    CfgOk();
    PairLtIsWeakOrder(Cfg().klt, Cfg().vlt);
    PS.NewSetSpec<(Utils.FStr, Account)>(l, Cfg().cap, PM.Lt(Cfg()));
  }

  /** Keeping some of the pairs of a map with unique user IDs, and adding
      one pair whose user ID is new, keeps user IDs unique. */
  lemma UniqueAfterPut(s: Pairs, s': Pairs, x: (Utils.FStr, Account))
    requires UniqueKeys(s) && !PM.HasKey(s, x.0, Utils.Lt(W))
    requires WeakOrder(Utils.Lt(W))
    requires multiset(s') <= multiset(s) + multiset{x}
    ensures UniqueKeys(s')
  {
    forall a, b | a in s' && b in s' && Equiv(Utils.Lt(W), a.0, b.0)
      ensures a == b
    {
      assert a in multiset(s') && b in multiset(s');
      assert a in s || a == x;
      assert b in s || b == x;
    }
  }

  /** Dropping one pair keeps user IDs unique. */
  lemma UniqueAfterRemove(s: Pairs, j: int)
    requires UniqueKeys(s) && 0 <= j < |s|
    ensures UniqueKeys(s[..j] + s[j + 1..])
  {
    var s' := s[..j] + s[j + 1..];
    assert forall a :: a in s' ==> a in s;
  }

  /** Putting an account under a user ID keeps the invariant and succeeds
      exactly when the user ID is unknown. */
  lemma PutAccount(m: PM.PMap<Utils.FStr, Account>, id: Utils.FStr, a: Account)
    requires Inv(m)
    ensures Inv(PM.Put(m, id, a, Cfg()).1)
    ensures PM.Put(m, id, a, Cfg()).0 <==> !Known(m, id)
    ensures PM.Put(m, id, a, Cfg()).0 && |m.pairs.index| < Cfg().cap ==>
            multiset(PM.Pairs(PM.Put(m, id, a, Cfg()).1)) == multiset(PM.Pairs(m)) + multiset{(id, a)}
  {
    CfgOk();
    PM.PutSpec(m, id, a, Cfg());
    PS.InsertSpec(m.pairs, (id, a), Cfg().cap, PM.Lt(Cfg()));
    if PM.Put(m, id, a, Cfg()).0 {
      UniqueAfterPut(PM.Pairs(m), PM.Pairs(PM.Put(m, id, a, Cfg()).1), (id, a));
    }
  }

  /** `add` succeeds exactly when the user ID is unknown, then stores the
      account under it, and keeps the invariant. */
  lemma AddSpec(m: PM.PMap<Utils.FStr, Account>, a: Account)
    requires Inv(m)
    ensures Inv(Add(m, a).1)
    ensures Add(m, a).0 <==> !Known(m, a.userID)
    ensures Add(m, a).0 && |m.pairs.index| < Cfg().cap ==>
            multiset(PM.Pairs(Add(m, a).1)) == multiset(PM.Pairs(m)) + multiset{(a.userID, a)}
  {
    PutAccount(m, a.userID, a);
  }

  /** `get` answers `Account::MIN`, an empty account, for an unknown user
      ID, and the stored account otherwise. */
  lemma GetSpec(m: PM.PMap<Utils.FStr, Account>, id: Utils.FStr)
    requires Inv(m)
    ensures !Known(m, id) ==> Get(m, id) == MinAccount() && Utils.Empty(Get(m, id).userID)
    ensures Known(m, id) ==>
            exists i :: 0 <= i < |PM.Pairs(m)| && Equiv(Utils.Lt(W), PM.Pairs(m)[i].0, id)
                        && Get(m, id) == PM.Pairs(m)[i].1
  {
    CfgOk();
    PM.GetSpec(m, id, Cfg());
  }

  /** `remove` succeeds exactly when the user ID is known, then drops its
      pair and no other, so that the user ID is unknown afterwards. */
  lemma RemoveSpec(m: PM.PMap<Utils.FStr, Account>, id: Utils.FStr)
    requires Inv(m)
    ensures Inv(Remove(m, id).1)
    ensures Remove(m, id).0 <==> Known(m, id)
    ensures Remove(m, id).0 ==>
            exists j :: 0 <= j < |PM.Pairs(m)| && Equiv(Utils.Lt(W), PM.Pairs(m)[j].0, id)
                        && PM.Pairs(Remove(m, id).1) == PM.Pairs(m)[..j] + PM.Pairs(m)[j + 1..]
    ensures !Known(Remove(m, id).1, id)
  {
    CfgOk();
    PM.RemoveSpec(m, id, MinAccount(), Cfg());
    var s := PM.Pairs(m);
    if Remove(m, id).0 {
      var j :| 0 <= j < |s| && Equiv(Utils.Lt(W), s[j].0, id)
               && PM.Pairs(Remove(m, id).1) == s[..j] + s[j + 1..];
      UniqueAfterRemove(s, j);
      GoneAfterRemove(s, j, id);
    }
  }

  /** Once the only pair of a user ID is removed, the user ID is unknown. */
  lemma GoneAfterRemove(s: Pairs, j: int, id: Utils.FStr)
    requires WeakOrder(Utils.Lt(W)) && Sorted(s, PM.Lt(Cfg()))
    requires UniqueKeys(s) && 0 <= j < |s| && Equiv(Utils.Lt(W), s[j].0, id)
    ensures !PM.HasKey(s[..j] + s[j + 1..], id, Utils.Lt(W))
  {
    var s' := s[..j] + s[j + 1..];
    forall i | 0 <= i < |s'| && Equiv(Utils.Lt(W), s'[i].0, id)
      ensures false
    {
      var i0 := if i < j then i else i + 1;
      assert s'[i] == s[i0];
      EquivSubstitutes(Utils.Lt(W), s[i0].0, id, s[j].0);
    }
  }

  /** `modify` fails, changing nothing, for an unknown user ID; for a known
      one it replaces the stored account by the same account with the new
      password: user ID, name and privilege are kept. */
  lemma ModifySpec(m: PM.PMap<Utils.FStr, Account>, id: Utils.FStr, pw: Utils.FStr)
    requires Inv(m)
    ensures Inv(Modify(m, id, pw).1)
    ensures !Known(m, id) ==> Modify(m, id, pw) == (false, m)
    ensures Known(m, id) ==>
      exists i :: 0 <= i < |PM.Pairs(m)| && Equiv(Utils.Lt(W), PM.Pairs(m)[i].0, id)
        && (Utils.Empty(PM.Pairs(m)[i].1.userID) ==> Modify(m, id, pw) == (false, m))
        && (!Utils.Empty(PM.Pairs(m)[i].1.userID) ==> Modify(m, id, pw).0)
        && (!Utils.Empty(PM.Pairs(m)[i].1.userID) && |m.pairs.index| < Cfg().cap ==>
              multiset(PM.Pairs(Modify(m, id, pw).1))
              == multiset(PM.Pairs(m)) - multiset{PM.Pairs(m)[i]} + multiset{(id, PM.Pairs(m)[i].1.(password := pw))})
  {
    GetSpec(m, id);
    var acc := Get(m, id);
    if !Utils.Empty(acc.userID) {
      ModifyPairs(m, id, pw);
    }
  }

  /** The first half of `modify` on a known user ID: its one pair is
      removed and the user ID becomes unknown. */
  lemma RemoveKnown(m: PM.PMap<Utils.FStr, Account>, id: Utils.FStr)
    requires Inv(m) && Known(m, id)
    ensures Inv(Remove(m, id).1) && !Known(Remove(m, id).1, id)
    ensures |Remove(m, id).1.pairs.index| <= |m.pairs.index|
    ensures forall i :: 0 <= i < |PM.Pairs(m)| && Equiv(Utils.Lt(W), PM.Pairs(m)[i].0, id) ==>
              multiset(PM.Pairs(m)) == multiset(PM.Pairs(Remove(m, id).1)) + multiset{PM.Pairs(m)[i]}
  {
    var s := PM.Pairs(m);
    RemoveSpec(m, id);
    var j :| 0 <= j < |s| && Equiv(Utils.Lt(W), s[j].0, id) && PM.Pairs(Remove(m, id).1) == s[..j] + s[j + 1..];
    CfgOk();
    DropOne(s, j, id);
  }

  /** In pairs with unique user IDs, the pair at `j` is the only one of
      its user ID. */
  lemma DropOne(s: Pairs, j: int, id: Utils.FStr)
    requires WeakOrder(Utils.Lt(W)) && UniqueKeys(s)
    requires 0 <= j < |s| && Equiv(Utils.Lt(W), s[j].0, id)
    ensures forall i :: 0 <= i < |s| && Equiv(Utils.Lt(W), s[i].0, id) ==>
              multiset(s) == multiset(s[..j] + s[j + 1..]) + multiset{s[i]}
  {
    assert s == s[..j] + [s[j]] + s[j + 1..];
    forall i | 0 <= i < |s| && Equiv(Utils.Lt(W), s[i].0, id)
      ensures s[i] == s[j]
    {
      EquivSubstitutes(Utils.Lt(W), s[i].0, id, s[j].0);
    }
  }

  /** `modify` of a known, non-empty account succeeds, keeps the invariant
      and swaps in the account with the new password. */
  lemma ModifyKnown(m: PM.PMap<Utils.FStr, Account>, id: Utils.FStr, pw: Utils.FStr)
    requires Inv(m) && Known(m, id) && !Utils.Empty(Get(m, id).userID)
    ensures Inv(Modify(m, id, pw).1) && Modify(m, id, pw).0
    ensures |m.pairs.index| < Cfg().cap ==>
              multiset(PM.Pairs(Modify(m, id, pw).1))
              == multiset(PM.Pairs(Remove(m, id).1)) + multiset{(id, Get(m, id).(password := pw))}
  {
    assert Modify(m, id, pw) == PM.Put(Remove(m, id).1, id, Get(m, id).(password := pw), Cfg());
    RemoveKnown(m, id);
    PutAccount(Remove(m, id).1, id, Get(m, id).(password := pw));
  }

  /** The pair of the modified user ID is replaced by the same account with
      the new password. */
  lemma ModifyPairs(m: PM.PMap<Utils.FStr, Account>, id: Utils.FStr, pw: Utils.FStr)
    requires Inv(m) && Known(m, id) && !Utils.Empty(Get(m, id).userID)
    ensures Inv(Modify(m, id, pw).1) && Modify(m, id, pw).0
    ensures exists i :: (0 <= i < |PM.Pairs(m)| && Equiv(Utils.Lt(W), PM.Pairs(m)[i].0, id)
        && Get(m, id) == PM.Pairs(m)[i].1
        && (|m.pairs.index| < Cfg().cap ==>
              multiset(PM.Pairs(Modify(m, id, pw).1))
              == multiset(PM.Pairs(m)) - multiset{PM.Pairs(m)[i]} + multiset{(id, PM.Pairs(m)[i].1.(password := pw))}))
  {
    var s := PM.Pairs(m);
    ModifyKnown(m, id, pw);
    RemoveKnown(m, id);
    GetSpec(m, id);
    var i :| 0 <= i < |s| && Equiv(Utils.Lt(W), s[i].0, id) && Get(m, id) == s[i].1;
    if |m.pairs.index| < Cfg().cap {
      SwapOne(s, PM.Pairs(Remove(m, id).1), PM.Pairs(Modify(m, id, pw).1), i, (id, s[i].1.(password := pw)));
    }
  }

  /** Removing one element and adding another, as multisets. */
  lemma SwapOne(s: Pairs, r: Pairs, t: Pairs, i: int, x: (Utils.FStr, Account))
    requires 0 <= i < |s|
    requires multiset(s) == multiset(r) + multiset{s[i]}
    requires multiset(t) == multiset(r) + multiset{x}
    ensures multiset(t) == multiset(s) - multiset{s[i]} + multiset{x}
  {
  }

  /** `init` adds the root account exactly when no `root` user exists. */
  lemma InitSpec(m: PM.PMap<Utils.FStr, Account>)
    requires Inv(m)
    ensures Inv(Init(m))
    ensures Known(m, Root().userID) ==> Init(m) == m
    ensures !Known(m, Root().userID) && |m.pairs.index| < Cfg().cap ==>
            multiset(PM.Pairs(Init(m))) == multiset(PM.Pairs(m)) + multiset{(Root().userID, Root())}
  {
    AddSpec(m, Root());
  }
}
