/**
 * The in-memory state of the server: the `@@instances` registries of users
 * and accounts, the id-keyed maps `$users` and `$accounts` the routes look
 * things up in, the guards of the mutating routes, and `load_data`.
 */
module Bank {
  import opened Wrappers
  import opened Models
  import opened Persistence

  /** Why a route refused; `Message` is the text the page shows. */
  datatype RouteError = NameRequired | UserNotFound | AccountNotFound | DepositRejected | WithdrawRejected {
    function Message(): (r: string)
      ensures NameRequired? ==> r == "Le nom est requis."
      ensures UserNotFound? ==> r == "Utilisateur non trouvé."
      ensures AccountNotFound? ==> r == "Compte non trouvé."
      ensures DepositRejected? ==> r == "Erreur de dépôt."
      ensures WithdrawRejected? ==> r == "Erreur de retrait."
    {
      match this
      case NameRequired => "Le nom est requis."
      case UserNotFound => "Utilisateur non trouvé."
      case AccountNotFound => "Compte non trouvé."
      case DepositRejected => "Erreur de dépôt."
      case WithdrawRejected => "Erreur de retrait."
    }
  }

  /** The deposit route's guard: the account exists, is active, and the amount is positive. */
  predicate DepositAccepted(account: Option<Account>, amount: real)
    reads if account.Some? then {account.value} else {}
    ensures DepositAccepted(account, amount) ==> account.Some? && account.value.state == 1
  {
    account.Some? && account.value.IsActive() && amount > 0.0
  }

  /** The withdraw route's guard: the deposit guard, and the account can cover the amount. */
  predicate WithdrawAccepted(account: Option<Account>, amount: real)
    reads if account.Some? then {account.value} else {}
    ensures WithdrawAccepted(account, amount) ==> DepositAccepted(account, amount) && amount <= account.value.balance
  {
    account.Some? && account.value.IsActive() && amount > 0.0 && account.value.CanWithdraw(amount)
  }

  /** Behind the deposit guard, `Operation.new` cannot raise. */
  lemma GuardedDepositIsConstructed(account: Account, amount: real, id: Id, createdAt: Timestamp)
    requires DepositAccepted(Some(account), amount)
    ensures Operation.New(id, DEPOSIT, amount, account, createdAt) == Success(Operation(id, DEPOSIT, amount, account, createdAt))
  {
  }

  /** Behind the withdraw guard, `Operation.new` cannot raise, so the route's rescue arm is never taken for it. */
  lemma GuardedWithdrawIsConstructed(account: Account, amount: real, id: Id, createdAt: Timestamp)
    requires WithdrawAccepted(Some(account), amount)
    ensures Operation.New(id, WITHDRAW, amount, account, createdAt) == Success(Operation(id, WITHDRAW, amount, account, createdAt))
  {
  }

  /**
   * `$accounts` after each account of `s`, in order, is entered under its
   * id: a later account takes the slot of an earlier one with the same id.
   */
  ghost function Entered(m: map<Id, Account>, s: seq<Account>): map<Id, Account> {
    if s == [] then m else Entered(m, s[..|s| - 1])[s[|s| - 1].id := s[|s| - 1]]
  }

  /** Entering one more account is a single map update on top of the earlier ones. */
  lemma EnteredSnoc(m: map<Id, Account>, s: seq<Account>, a: Account)
    ensures Entered(m, s + [a]) == Entered(m, s)[a.id := a]
  {
    assert (s + [a])[..|s|] == s;
  }

  /** An entry whose id no account of `s` carries is left as it was. */
  lemma {:induction false} EnteredKeeps(m: map<Id, Account>, s: seq<Account>, id: Id)
    requires id in m && forall i :: 0 <= i < |s| ==> s[i].id != id
    ensures id in Entered(m, s) && Entered(m, s)[id] == m[id]
  {
    if s != [] {
      EnteredKeeps(m, s[..|s| - 1], id);
    }
  }

  /** The slot of an id holds the last account of `s` with that id. */
  lemma {:induction false} EnteredLastWins(m: map<Id, Account>, s: seq<Account>, k: nat)
    requires k < |s| && forall j :: k < j < |s| ==> s[j].id != s[k].id
    ensures s[k].id in Entered(m, s) && Entered(m, s)[s[k].id] == s[k]
  {
    if k < |s| - 1 {
      EnteredLastWins(m, s[..|s| - 1], k);
    }
  }

  /**
   * The list half of what the first loop of `load_data` has done once the
   * records `done` are restored: their users follow the users `u0` it
   * started from, one per record and in order.
   */
  ghost predicate UsersAppended(users: seq<User>, u0: seq<User>, done: seq<UserRecord>) {
    && |users| == |u0| + |done| && users[..|u0|] == u0
    && UserRecords(users[|u0|..]) == done
  }

  /**
   * The map half: `userMap` is `m0` with each id of `done` taking the user
   * restored from the last record that carries it.
   */
  ghost predicate SlotsLoaded(userMap: map<Id, User>, users: seq<User>, u0: seq<User>, m0: map<Id, User>, done: seq<UserRecord>)
    requires |users| == |u0| + |done|
  {
    && userMap.Keys == m0.Keys + UserIds(done)
    && (forall id :: id in m0 && id !in UserIds(done) ==> userMap[id] == m0[id])
    && (forall i :: 0 <= i < |done| && LastOfId(done, i) ==> userMap[done[i].id] == users[|u0| + i])
  }

  /** No record after the `i`th carries its id. */
  ghost predicate LastOfId(records: seq<UserRecord>, i: nat)
    requires i < |records|
  {
    forall j :: i < j < |records| ==> records[j].id != records[i].id
  }

  /** Restoring one more record appends its user. */
  lemma UsersAppendedSnoc(users: seq<User>, u0: seq<User>, done: seq<UserRecord>, u: User, record: UserRecord)
    requires UsersAppended(users, u0, done) && UserRecordOf(u) == record
    ensures UsersAppended(users + [u], u0, done + [record])
  {
    assert (users + [u])[..|u0|] == users[..|u0|];
    assert (users + [u])[|u0|..] == users[|u0|..] + [u];
  }

  /** Restoring one more record gives its user the record's `$users` slot and leaves every other slot. */
  lemma SlotsLoadedSnoc(userMap: map<Id, User>, users: seq<User>, u0: seq<User>, m0: map<Id, User>,
                        done: seq<UserRecord>, u: User, record: UserRecord)
    requires |users| == |u0| + |done| && SlotsLoaded(userMap, users, u0, m0, done)
    ensures SlotsLoaded(userMap[record.id := u], users + [u], u0, m0, done + [record])
  {
    var users', done' := users + [u], done + [record];
    assert UserIds(done') == UserIds(done) + {record.id} by {
      assert forall r :: r in done' <==> r in done || r == record;
    }
    forall i | 0 <= i < |done'| && LastOfId(done', i)
      ensures userMap[record.id := u][done'[i].id] == users'[|u0| + i]
    {
      if i < |done| {
        assert done'[|done|] == record && done'[i] == done[i];
        assert LastOfId(done, i) by {
          forall j | i < j < |done| ensures done[j].id != done[i].id {
            assert done'[j] == done[j];
          }
        }
      }
    }
  }

  class Bank {
    /** `User.all`, in registration order. */
    var users: seq<User>
    /** `Account.all`, in creation order. */
    var accounts: seq<Account>
    /** `$users`: the users the routes can reach, by id. */
    var userMap: map<Id, User>
    /** `$accounts`: the accounts the routes can reach, by id. */
    var accountMap: map<Id, Account>
    /** The id supply: every id handed out or restored so far lies below it. */
    var nextId: Id

    /**
     * The maps are kept in step with the lists: every registered entity is
     * reachable under its id, every map entry is a registered entity with
     * that id, and every account's owner is a registered user.
     */
    ghost predicate Valid()
      reads this
    {
      && (forall i :: 0 <= i < |users| ==> users[i].id < nextId && users[i].id in userMap)
      && (forall i :: 0 <= i < |accounts| ==>
            accounts[i].id < nextId && accounts[i].id in accountMap && accounts[i].owner in users)
      && (forall id :: id in userMap ==> userMap[id] in users && userMap[id].id == id)
      && (forall id :: id in accountMap ==> accountMap[id] in accounts && accountMap[id].id == id)
    }

    /** No two registered users share an id; true of a bank that has not loaded a snapshot with repeated ids. */
    ghost predicate DistinctUserIds()
      reads this
    {
      forall i, j :: 0 <= i < j < |users| ==> users[i].id != users[j].id
    }

    /** The empty registries a process starts with. */
    constructor ()
      ensures Valid()
      ensures users == [] && accounts == [] && userMap == map[] && accountMap == map[]
    {
      users := [];
      accounts := [];
      userMap := map[];
      accountMap := map[];
      nextId := 0;
    }

    /** `User.new(name)`: a user with a fresh id, appended to `User.all` (not yet in `$users`). */
    method NewUser(name: string) returns (u: User)
      requires Valid()
      modifies this
      ensures fresh(u) && u.name == name && u.id == old(nextId)
      ensures forall i :: 0 <= i < |old(users)| ==> old(users)[i].id != u.id
      ensures users == old(users) + [u] && nextId == old(nextId) + 1
      ensures User.FindById(users, u.id) == Some(u)
      ensures old(DistinctUserIds()) ==> DistinctUserIds()
      ensures accounts == old(accounts) && userMap == old(userMap) && accountMap == old(accountMap)
    {
      u := new User(nextId, name);
      User.FindByIdSnoc(users, u);
      users := users + [u];
      nextId := nextId + 1;
    }

    /**
     * One user record of `load_data`: `User.new`, the stored id written over
     * the fresh one, and the user entered in `$users` under that id (taking
     * the slot from any earlier user with the same id).
     */
    method RestoreUser(record: UserRecord) returns (u: User)
      requires Valid()
      modifies this
      ensures Valid()
      ensures fresh(u) && UserRecordOf(u) == record
      ensures users == old(users) + [u] && userMap == old(userMap)[record.id := u]
      ensures accounts == old(accounts) && accountMap == old(accountMap)
    {
      u := new User(record.id, record.name);
      users := users + [u];
      if nextId <= record.id {
        nextId := record.id + 1;
      }
      userMap := userMap[u.id := u];
    }

    /** `Account.new(user)`: a fresh, active, empty account appended to `Account.all` (not yet in `$accounts`). */
    method NewAccount(owner: User) returns (a: Account)
      requires Valid()
      modifies this
      ensures fresh(a) && a.owner == owner && a.id == old(nextId)
      ensures a.state == 1 && a.balance == 0.0 && a.operations == []
      ensures a.Ledgered() && a.Opening() == 0.0
      ensures forall i :: 0 <= i < |old(accounts)| ==> old(accounts)[i].id != a.id
      ensures accounts == old(accounts) + [a] && nextId == old(nextId) + 1
      ensures users == old(users) && userMap == old(userMap) && accountMap == old(accountMap)
    {
      a := new Account(nextId, owner);
      accounts := accounts + [a];
      nextId := nextId + 1;
    }

    /**
     * One account record of `load_data`: skipped when `$users` has no user
     * under its owner id; otherwise `Account.new` for that user, with the
     * stored id, state and balance written over the fresh ones, entered in
     * `$accounts` under its id.
     */
    method RestoreAccount(record: AccountRecord) returns (r: Option<Account>)
      requires Valid()
      modifies this
      ensures Valid()
      ensures r.Some? <==> record.ownerId in userMap
      ensures r.None? ==> accounts == old(accounts) && accountMap == old(accountMap)
      ensures r.Some? ==> fresh(r.value) && AccountRecordOf(r.value) == record && r.value.operations == []
      ensures r.Some? ==> r.value.owner == userMap[record.ownerId]
      ensures r.Some? ==> r.value.Ledgered() && r.value.Opening() == record.balance
      ensures r.Some? ==> accounts == old(accounts) + [r.value] && accountMap == old(accountMap)[record.id := r.value]
      ensures users == old(users) && userMap == old(userMap)
    {
      if record.ownerId !in userMap {
        return None;
      }
      var a := new Account.Restore(record.id, userMap[record.ownerId], record.state, record.balance);
      accounts := accounts + [a];
      if nextId <= record.id {
        nextId := record.id + 1;
      }
      accountMap := accountMap[a.id := a];
      r := Some(a);
    }

    /** `find_user`: the user `$users` holds under `id`; nil exactly when no registered user has that id. */
    function FindUser(id: Id): (r: Option<User>)
      requires Valid()
      reads this
      ensures r.Some? ==> r.value in users && r.value.id == id
      ensures r.None? <==> forall i :: 0 <= i < |users| ==> users[i].id != id
    {
      if id in userMap then Some(userMap[id]) else None
    }

    /** `find_account`: the account `$accounts` holds under `id`; nil exactly when no registered account has that id. */
    function FindAccount(id: Id): (r: Option<Account>)
      requires Valid()
      reads this
      ensures r.Some? ==> r.value in accounts && r.value.id == id
      ensures r.None? <==> forall i :: 0 <= i < |accounts| ==> accounts[i].id != id
    {
      if id in accountMap then Some(accountMap[id]) else None
    }

    /** While user ids are distinct, the map lookup `find_user` and the list scan `User.find_by_id` agree. */
    lemma FindUserMatchesFindById(id: Id)
      requires Valid() && DistinctUserIds()
      ensures FindUser(id) == User.FindById(users, id)
    {
    }

    /** `POST /users/create`: a name that is given and non-empty registers a user reachable under its fresh id. */
    method CreateUser(name: Option<string>) returns (r: Result<User, RouteError>)
      requires Valid()
      modifies this
      ensures Valid()
      ensures r.Success? <==> name.Some? && name.value != ""
      ensures r.Failure? ==> r.error == NameRequired && users == old(users) && userMap == old(userMap) && nextId == old(nextId)
      ensures r.Success? ==> fresh(r.value) && r.value.name == name.value
      ensures r.Success? ==> users == old(users) + [r.value] && userMap == old(userMap)[r.value.id := r.value]
      ensures r.Success? ==> FindUser(r.value.id) == Some(r.value) && User.FindById(users, r.value.id) == Some(r.value)
      ensures old(DistinctUserIds()) ==> DistinctUserIds()
      ensures accounts == old(accounts) && accountMap == old(accountMap)
    {
      if name.Some? && name.value != "" {
        var u := NewUser(name.value);
        userMap := userMap[u.id := u];
        r := Success(u);
        assert users[|users| - 1] == u;
      } else {
        r := Failure(NameRequired);
      }
    }

    /** `POST /accounts/create`: an account for a user `$users` knows, otherwise "user not found". */
    method CreateAccount(userId: Id) returns (r: Result<Account, RouteError>)
      requires Valid()
      modifies this
      ensures Valid()
      ensures r.Success? <==> old(FindUser(userId)).Some?
      ensures r.Failure? ==> r.error == UserNotFound && accounts == old(accounts) && accountMap == old(accountMap) && nextId == old(nextId)
      ensures r.Success? ==> fresh(r.value) && r.value.owner == old(FindUser(userId)).value
      ensures r.Success? ==> r.value.state == 1 && r.value.balance == 0.0 && r.value.operations == []
      ensures r.Success? ==> r.value.Ledgered() && r.value.Opening() == 0.0
      ensures r.Success? ==> r.value.id !in old(accountMap)
      ensures r.Success? ==> accounts == old(accounts) + [r.value] && accountMap == old(accountMap)[r.value.id := r.value]
      ensures r.Success? ==> FindAccount(r.value.id) == Some(r.value)
      ensures r.Success? ==> Account.FindByUser(accounts, r.value.owner) == Account.FindByUser(old(accounts), r.value.owner) + [r.value]
      ensures users == old(users) && userMap == old(userMap)
    {
      var owner := FindUser(userId);
      if owner.Some? {
        var a := NewAccount(owner.value);
        Account.FindByUserSnoc(old(accounts), a, a.owner);
        accountMap := accountMap[a.id := a];
        r := Success(a);
      } else {
        r := Failure(UserNotFound);
      }
    }

    /** `POST /accounts/:id/activate`: sets the found account active; nothing else changes. */
    method ActivateAccount(accountId: Id) returns (r: Result<Account, RouteError>)
      requires Valid()
      modifies accounts
      ensures r.Success? <==> FindAccount(accountId).Some?
      ensures r.Failure? ==> r.error == AccountNotFound
      ensures r.Success? ==> r.value == FindAccount(accountId).value && r.value.state == 1
      ensures forall a :: a in accounts ==> a.balance == old(a.balance) && a.operations == old(a.operations)
      ensures forall a :: a in accounts && (r.Failure? || a != r.value) ==> a.state == old(a.state)
      ensures forall a :: a in accounts ==> a.Opening() == old(a.Opening())
      ensures forall a :: a in accounts && old(a.Ledgered()) ==> a.Ledgered()
    {
      var found := FindAccount(accountId);
      if found.Some? {
        found.value.Activate();
        r := Success(found.value);
      } else {
        r := Failure(AccountNotFound);
      }
    }

    /** `POST /accounts/:id/deactivate`: sets the found account inactive; nothing else changes. */
    method DeactivateAccount(accountId: Id) returns (r: Result<Account, RouteError>)
      requires Valid()
      modifies accounts
      ensures r.Success? <==> FindAccount(accountId).Some?
      ensures r.Failure? ==> r.error == AccountNotFound
      ensures r.Success? ==> r.value == FindAccount(accountId).value && r.value.state == 0
      ensures forall a :: a in accounts ==> a.balance == old(a.balance) && a.operations == old(a.operations)
      ensures forall a :: a in accounts && (r.Failure? || a != r.value) ==> a.state == old(a.state)
      ensures forall a :: a in accounts ==> a.Opening() == old(a.Opening())
      ensures forall a :: a in accounts && old(a.Ledgered()) ==> a.Ledgered()
    {
      var found := FindAccount(accountId);
      if found.Some? {
        found.value.Deactivate();
        r := Success(found.value);
      } else {
        r := Failure(AccountNotFound);
      }
    }

    /**
     * `POST /accounts/:account_id/deposit`: behind the guard, builds the
     * operation and executes it at once; a refused deposit changes nothing.
     */
    method Deposit(accountId: Id, amount: real, now: Timestamp) returns (r: Result<Operation, RouteError>)
      requires Valid()
      modifies this, accounts
      ensures Valid()
      ensures users == old(users) && accounts == old(accounts) && userMap == old(userMap) && accountMap == old(accountMap)
      ensures r.Success? <==> old(DepositAccepted(FindAccount(accountId), amount))
      ensures r.Failure? ==> r.error == DepositRejected && nextId == old(nextId)
      ensures r.Success? ==> r.value == Operation(old(nextId), DEPOSIT, amount, accountMap[accountId], now)
      ensures r.Success? ==> nextId == old(nextId) + 1
      ensures r.Success? ==> r.value.account.balance == old(r.value.account.balance) + amount
      ensures r.Success? ==> r.value.account.operations == old(r.value.account.operations) + [r.value]
      ensures forall a :: a in accounts ==> a.state == old(a.state)
      ensures forall a :: a in accounts && (r.Failure? || a != r.value.account) ==>
        a.balance == old(a.balance) && a.operations == old(a.operations)
      ensures forall a :: a in accounts ==> a.Opening() == old(a.Opening())
      ensures forall a :: a in accounts && old(a.Ledgered()) ==> a.Ledgered()
    {
      var found := FindAccount(accountId);
      if DepositAccepted(found, amount) {
        var built := Operation.New(nextId, DEPOSIT, amount, found.value, now);
        assert built.Success?;
        var op := built.value;
        nextId := nextId + 1;
        ghost var lists, maps := (users, accounts), (userMap, accountMap);
        op.Execute();
        assert (users, accounts) == lists && (userMap, accountMap) == maps;
        r := Success(op);
        forall a | a in accounts && a != op.account
          ensures a.Opening() == old(a.Opening()) && (old(a.Ledgered()) ==> a.Ledgered())
        {
          assert unchanged(a);
        }
      } else {
        r := Failure(DepositRejected);
      }
    }

    /**
     * `POST /accounts/:account_id/withdraw`: behind the guard, builds the
     * operation and executes it at once, so the balance stays covered; a
     * refused withdrawal changes nothing.
     */
    method Withdraw(accountId: Id, amount: real, now: Timestamp) returns (r: Result<Operation, RouteError>)
      requires Valid()
      modifies this, accounts
      ensures Valid()
      ensures users == old(users) && accounts == old(accounts) && userMap == old(userMap) && accountMap == old(accountMap)
      ensures r.Success? <==> old(WithdrawAccepted(FindAccount(accountId), amount))
      ensures r.Failure? ==> r.error == WithdrawRejected && nextId == old(nextId)
      ensures r.Success? ==> r.value == Operation(old(nextId), WITHDRAW, amount, accountMap[accountId], now)
      ensures r.Success? ==> nextId == old(nextId) + 1
      ensures r.Success? ==> r.value.account.balance == old(r.value.account.balance) - amount
      ensures r.Success? ==> r.value.account.balance >= 0.0
      ensures r.Success? ==> r.value.account.operations == old(r.value.account.operations) + [r.value]
      ensures forall a :: a in accounts ==> a.state == old(a.state)
      ensures forall a :: a in accounts && (r.Failure? || a != r.value.account) ==>
        a.balance == old(a.balance) && a.operations == old(a.operations)
      ensures forall a :: a in accounts ==> a.Opening() == old(a.Opening())
      ensures forall a :: a in accounts && old(a.Ledgered()) ==> a.Ledgered()
    {
      var found := FindAccount(accountId);
      if WithdrawAccepted(found, amount) {
        var built := Operation.New(nextId, WITHDRAW, amount, found.value, now);
        assert built.Success?;
        var op := built.value;
        nextId := nextId + 1;
        ghost var lists, maps := (users, accounts), (userMap, accountMap);
        op.Execute();
        assert (users, accounts) == lists && (userMap, accountMap) == maps;
        r := Success(op);
        forall a | a in accounts && a != op.account
          ensures a.Opening() == old(a.Opening()) && (old(a.Ledgered()) ==> a.Ledgered())
        {
          assert unchanged(a);
        }
      } else {
        r := Failure(WithdrawRejected);
      }
    }

    /**
     * `load_data` without the file: the user records first, then the account
     * records, whose owners are looked up among all users then in `$users`.
     */
    method Load(snap: Snapshot)
      requires Valid()
      modifies this
      ensures Valid()
      ensures |users| >= |old(users)| && users[..|old(users)|] == old(users)
      ensures UserRecords(users[|old(users)|..]) == snap.users
      ensures userMap.Keys == old(userMap).Keys + UserIds(snap.users)
      ensures forall id :: id in old(userMap) && id !in UserIds(snap.users) ==> userMap[id] == old(userMap)[id]
      ensures forall k :: 0 <= k < |snap.users| && (forall j :: k < j < |snap.users| ==> snap.users[j].id != snap.users[k].id) ==>
        userMap[snap.users[k].id] == users[|old(users)| + k]
      ensures |accounts| >= |old(accounts)| && accounts[..|old(accounts)|] == old(accounts)
      ensures AccountRecords(accounts[|old(accounts)|..]) == Restorable(snap.accounts, userMap.Keys)
      ensures forall a :: a in accounts[|old(accounts)|..] ==> fresh(a) && a.operations == []
      ensures forall a :: a in accounts[|old(accounts)|..] ==> a.owner.id in userMap && a.owner == userMap[a.owner.id]
      ensures accountMap == Entered(old(accountMap), accounts[|old(accounts)|..])
    {
      LoadUsers(snap.users);
      LoadAccounts(snap.accounts);
    }

    /** The first loop of `load_data`: every user record restored, in file order. */
    method LoadUsers(records: seq<UserRecord>)
      requires Valid()
      modifies this
      ensures Valid()
      ensures |users| >= |old(users)| && users[..|old(users)|] == old(users)
      ensures UserRecords(users[|old(users)|..]) == records
      ensures userMap.Keys == old(userMap).Keys + UserIds(records)
      ensures forall id :: id in old(userMap) && id !in UserIds(records) ==> userMap[id] == old(userMap)[id]
      ensures forall k :: 0 <= k < |records| && (forall j :: k < j < |records| ==> records[j].id != records[k].id) ==>
        userMap[records[k].id] == users[|old(users)| + k]
      ensures accounts == old(accounts) && accountMap == old(accountMap)
    {
      ghost var u0, m0 := users, userMap;
      var k := 0;
      assert users[|u0|..] == [] && records[..0] == [];
      while k < |records|
        invariant 0 <= k <= |records|
        invariant Valid() && UsersAppended(users, u0, records[..k])
        invariant SlotsLoaded(userMap, users, u0, m0, records[..k])
        invariant accounts == old(accounts) && accountMap == old(accountMap)
      {
        assert records[..k + 1] == records[..k] + [records[k]];
        ghost var us, um := users, userMap;
        var u := RestoreUser(records[k]);
        UsersAppendedSnoc(us, u0, records[..k], u, records[k]);
        SlotsLoadedSnoc(um, us, u0, m0, records[..k], u, records[k]);
        k := k + 1;
      }
      assert records[..k] == records;
    }

    /**
     * What the second loop of `load_data` has done so far, once the accounts
     * `added` have been restored from the records `restored`: they follow the
     * accounts `a0` it started from, each was entered in `$accounts` in turn
     * from `m0`, and each carries its record, no history and its `$users` owner.
     */
    ghost predicate RestoredSoFar(a0: seq<Account>, m0: map<Id, Account>, added: seq<Account>, restored: seq<AccountRecord>)
      reads this, added
    {
      && accounts == a0 + added
      && accountMap == Entered(m0, added)
      && |added| == |restored|
      && forall j :: 0 <= j < |added| ==>
           && AccountRecordOf(added[j]) == restored[j]
           && added[j].operations == []
           && added[j].owner.id in userMap && added[j].owner == userMap[added[j].owner.id]
    }

    /** One pass of the second loop of `load_data`: `RestoreAccount`, with the progress so far carried along. */
    method RestoreNext(record: AccountRecord, ghost a0: seq<Account>, ghost m0: map<Id, Account>,
                       ghost added: seq<Account>, ghost restored: seq<AccountRecord>)
      returns (ghost added': seq<Account>, ghost restored': seq<AccountRecord>)
      requires Valid() && RestoredSoFar(a0, m0, added, restored)
      modifies this
      ensures Valid() && RestoredSoFar(a0, m0, added', restored')
      ensures restored' == if record.ownerId in userMap then restored + [record] else restored
      ensures forall a :: a in added' ==> a in added || fresh(a)
      ensures users == old(users) && userMap == old(userMap)
    {
      var a := RestoreAccount(record);
      added', restored' := added, restored;
      if a.Some? {
        EnteredSnoc(m0, added, a.value);
        added' := added + [a.value];
        assert forall j :: 0 <= j < |added| ==> added'[j] == added[j];
        restored' := restored + [record];
      }
    }

    /** The second loop of `load_data`: every account record whose owner id resolves, in file order. */
    method LoadAccounts(records: seq<AccountRecord>)
      requires Valid()
      modifies this
      ensures Valid()
      ensures |accounts| >= |old(accounts)| && accounts[..|old(accounts)|] == old(accounts)
      ensures AccountRecords(accounts[|old(accounts)|..]) == Restorable(records, userMap.Keys)
      ensures forall a :: a in accounts[|old(accounts)|..] ==> fresh(a) && a.operations == []
      ensures forall a :: a in accounts[|old(accounts)|..] ==> a.owner.id in userMap && a.owner == userMap[a.owner.id]
      ensures accountMap == Entered(old(accountMap), accounts[|old(accounts)|..])
      ensures users == old(users) && userMap == old(userMap)
    {
      var known := userMap.Keys;
      ghost var a0, m0 := accounts, accountMap;
      ghost var added: seq<Account> := [];
      ghost var restored: seq<AccountRecord> := [];
      var k := 0;
      while k < |records|
        invariant 0 <= k <= |records|
        invariant Valid() && RestoredSoFar(a0, m0, added, restored)
        invariant users == old(users) && userMap == old(userMap)
        invariant restored == Restorable(records[..k], known)
        invariant forall a :: a in added ==> fresh(a)
      {
        assert records[..k + 1] == records[..k] + [records[k]];
        RestorableSnoc(records[..k], records[k], known);
        added, restored := RestoreNext(records[k], a0, m0, added, restored);
        k := k + 1;
      }
      assert records[..k] == records;
      assert accounts[|old(accounts)|..] == added;
    }
  }

  /**
   * A restart: `save_data`'s snapshot of `b` loaded into empty registries
   * gives back every user and account record unchanged, and no history.
   */
  method Restart(b: Bank) returns (r: Bank)
    requires b.Valid()
    ensures fresh(r) && r.Valid()
    ensures Save(r.users, r.accounts) == old(Save(b.users, b.accounts))
    ensures forall a :: a in r.accounts ==> fresh(a) && a.operations == []
  {
    var snap := Save(b.users, b.accounts);
    SavedAccountsAreRestorable(b.users, b.accounts);
    r := new Bank();
    r.Load(snap);
    assert r.users[0..] == r.users && r.accounts[0..] == r.accounts;
    assert r.userMap.Keys == UserIds(snap.users);
  }

  /**
   * A deposit on an active account with a non-negative balance, followed by
   * a withdrawal of the same amount: both routes accept, the account records
   * both operations in order, and its balance is back where it started.
   */
  method DepositThenWithdraw(b: Bank, accountId: Id, amount: real, depositAt: Timestamp, withdrawAt: Timestamp)
    returns (d: Result<Operation, RouteError>, w: Result<Operation, RouteError>)
    requires b.Valid() && b.FindAccount(accountId).Some?
    requires b.FindAccount(accountId).value.state == 1 && b.FindAccount(accountId).value.balance >= 0.0
    requires amount > 0.0
    modifies b, b.accounts
    ensures b.Valid() && b.FindAccount(accountId) == old(b.FindAccount(accountId))
    ensures d.Success? && d.value.kind == DEPOSIT && d.value.amount == amount && d.value.account == b.accountMap[accountId]
    ensures w.Success? && w.value.kind == WITHDRAW && w.value.amount == amount && w.value.account == b.accountMap[accountId]
    ensures b.accountMap[accountId].balance == old(b.accountMap[accountId].balance)
    ensures b.accountMap[accountId].operations == old(b.accountMap[accountId].operations) + [d.value, w.value]
  {
    d := b.Deposit(accountId, amount, depositAt);
    w := b.Withdraw(accountId, amount, withdrawAt);
  }
}
