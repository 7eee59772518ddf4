/** The session stack `Statuses` of src/Status.hpp: the accounts logged in,
    innermost last, each with the book it has selected, and the multiset of
    their user IDs. */
module Statuses {
  import Utils
  import Accounts

  /** `Status`: a logged-in account and its selected book. The book type is
      a parameter: the book record is not part of this model. */
  datatype Entry<B> = Entry(account: Accounts.Account, book: B)

  /** `statusStack` (the top is the last element) and `loggedAccounts`.
      The multiset is ordered by `String30::operator<=>`, so it counts user
      IDs up to equality of their text; it is kept here as a multiset of
      those texts. */
  datatype State<B> = State(stack: seq<Entry<B>>, logged: multiset<seq<Utils.Byte>>)

  /** The key `loggedAccounts` files a user ID under. */
  function Key(id: Utils.FStr): seq<Utils.Byte> {
    Utils.Text(id, Accounts.W)
  }

  /** The state at program start: nobody is logged in and the privilege
      is `GUEST`. */
  function Start<B>(): (s: State<B>)
    ensures Inv(s) && CurrentPrivilege(s) == Utils.Guest
    ensures forall a :: !Logged(s, a)
  {
    State([], multiset{})
  }

  /** The user IDs of the entries, as a multiset of keys. */
  function Ids<B>(st: seq<Entry<B>>): multiset<seq<Utils.Byte>>
    decreases |st|
  {
    if st == [] then multiset{} else Ids(st[..|st| - 1]) + multiset{Key(st[|st| - 1].account.userID)}
  }

  /** `loggedAccounts` corresponds to `statusStack`. */
  ghost predicate Inv<B>(s: State<B>) {
    s.logged == Ids(s.stack)
  }

  /** `currentPrivilege()`. */
  function CurrentPrivilege<B>(s: State<B>): (p: Utils.Privilege)
    ensures s.stack == [] ==> p == Utils.Guest
  {
    if s.stack == [] then Utils.Guest else s.stack[|s.stack| - 1].account.privilege
  }

  /** `login(account)`: push the account with the default book `none`. */
  function Login<B>(s: State<B>, a: Accounts.Account, none: B): (r: State<B>)
    ensures |r.stack| == |s.stack| + 1
  {
    State(s.stack + [Entry(a, none)], s.logged + multiset{Key(a.userID)})
  }

  /** `logout()`: false on an empty stack; otherwise drop one occurrence of
      the top user ID and pop. */
  function Logout<B>(s: State<B>): (r: (bool, State<B>))
    ensures r.0 <==> s.stack != []
  {
    if s.stack == [] then (false, s)
    else
      var top := s.stack[|s.stack| - 1];
      (true, State(s.stack[..|s.stack| - 1], s.logged - multiset{Key(top.account.userID)}))
  }

  /** `select(book)`: the top entry's book becomes `b`. The source reads
      the top of the stack, so the stack must not be empty. */
  function Select<B>(s: State<B>, b: B): (r: State<B>)
    requires s.stack != []
    ensures |r.stack| == |s.stack|
  {
    var n := |s.stack| - 1;
    State(s.stack[n := s.stack[n].(book := b)], s.logged)
  }

  /** `logged(account)`: while the multiset matches the stack, it holds
      exactly when some entry of the stack has a user ID equal to `a`'s. */
  predicate Logged<B>(s: State<B>, a: Accounts.Account): (b: bool)
    ensures Inv(s) ==>
      (b <==> exists i :: 0 <= i < |s.stack| && Utils.Eq(s.stack[i].account.userID, a.userID, Accounts.W))
  {
    IdsHas(s.stack, Key(a.userID));
    forall i | 0 <= i < |s.stack|
      ensures Key(s.stack[i].account.userID) == Key(a.userID)
              <==> Utils.Eq(s.stack[i].account.userID, a.userID, Accounts.W)
    {
      KeyIsEq(s.stack[i].account.userID, a.userID);
    }
    s.logged[Key(a.userID)] > 0
  }

  // ---------------------------------------------------------------------
  // Correctness
  // ---------------------------------------------------------------------

  /** Two user IDs share a key exactly when `String30::operator==` holds. */
  lemma KeyIsEq(a: Utils.FStr, b: Utils.FStr)
    ensures Key(a) == Key(b) <==> Utils.Eq(a, b, Accounts.W)
  {
    Utils.CmpZeroIsText(a.key, b.key, Accounts.W, 0);
  }

  /** A key is among the entries' user IDs exactly when some entry has it. */
  lemma {:induction false} IdsHas<B>(st: seq<Entry<B>>, k: seq<Utils.Byte>)
    ensures Ids(st)[k] > 0 <==> exists i :: 0 <= i < |st| && Key(st[i].account.userID) == k
    decreases |st|
  {
    if st != [] {
      var p, last := st[..|st| - 1], Key(st[|st| - 1].account.userID);
      IdsHas(p, k);
      assert Ids(st)[k] == Ids(p)[k] + multiset{last}[k];
      if Ids(p)[k] > 0 {
        var i :| 0 <= i < |p| && Key(p[i].account.userID) == k;
        assert st[i] == p[i];
      } else if last == k {
        assert Key(st[|st| - 1].account.userID) == k;
      } else {
        forall i | 0 <= i < |st| ensures Key(st[i].account.userID) != k {
          if i < |p| {
            assert st[i] == p[i];
          }
        }
      }
    }
  }

  /** `login` keeps the correspondence, puts the account on top with the
      default book, makes its privilege the current one and its user ID
      logged; the entries below are those before. */
  lemma LoginSpec<B>(s: State<B>, a: Accounts.Account, none: B)
    requires Inv(s)
    ensures Inv(Login(s, a, none))
    ensures Login(s, a, none).stack[..|s.stack|] == s.stack
    ensures Login(s, a, none).stack[|s.stack|] == Entry(a, none)
    ensures CurrentPrivilege(Login(s, a, none)) == a.privilege
    ensures Logged(Login(s, a, none), a)
  {
    assert Login(s, a, none).stack[..|s.stack|] == s.stack;
  }

  /** `logout` on an empty stack fails and changes nothing; otherwise it
      keeps the correspondence, pops the top entry and removes exactly one
      occurrence of its user ID. */
  lemma LogoutSpec<B>(s: State<B>)
    requires Inv(s)
    ensures Inv(Logout(s).1)
    ensures s.stack == [] ==> Logout(s) == (false, s)
    ensures s.stack != [] ==>
      Logout(s).0
      && Logout(s).1.stack == s.stack[..|s.stack| - 1]
      && Logout(s).1.logged + multiset{Key(s.stack[|s.stack| - 1].account.userID)} == s.logged
  {
  }

  /** `select` changes the top entry's book and nothing else: the accounts,
      the logged user IDs and the current privilege stay. */
  lemma SelectSpec<B>(s: State<B>, b: B)
    requires Inv(s) && s.stack != []
    ensures Inv(Select(s, b))
    ensures Select(s, b).stack[|s.stack| - 1] == s.stack[|s.stack| - 1].(book := b)
    ensures forall i :: 0 <= i < |s.stack| - 1 ==> Select(s, b).stack[i] == s.stack[i]
    ensures CurrentPrivilege(Select(s, b)) == CurrentPrivilege(s)
    ensures forall a :: Logged(Select(s, b), a) <==> Logged(s, a)
  {
    var t := Select(s, b).stack;
    assert t[..|t| - 1] == s.stack[..|s.stack| - 1];
  }

  /** Logging in and straight out again restores the state exactly. */
  lemma LoginLogout<B>(s: State<B>, a: Accounts.Account, none: B)
    ensures Logout(Login(s, a, none)) == (true, s)
  {
    assert Login(s, a, none).stack[..|s.stack|] == s.stack;
    assert s.logged + multiset{Key(a.userID)} - multiset{Key(a.userID)} == s.logged;
  }
}
