/**
 * The snapshot `save_data` writes and `load_data` reads, as plain records.
 * Operations are not part of a snapshot, so history does not survive a save.
 */
module Persistence {
  import opened Enumerable
  import opened Models

  datatype UserRecord = UserRecord(id: Id, name: string)

  datatype AccountRecord = AccountRecord(id: Id, ownerId: Id, state: int, balance: real)

  datatype Snapshot = Snapshot(users: seq<UserRecord>, accounts: seq<AccountRecord>)

  /** The stored form of a user: its id and its name. */
  function UserRecordOf(u: User): (r: UserRecord)
    ensures r.id == u.id && r.name == u.name
  {
    UserRecord(u.id, u.name)
  }

  /** The stored form of an account: its id, its owner's id, its state and its balance; no operations. */
  function AccountRecordOf(a: Account): (r: AccountRecord)
    reads a
    ensures r.id == a.id && r.ownerId == a.owner.id && r.state == a.state && r.balance == a.balance
  {
    AccountRecord(a.id, a.owner.id, a.state, a.balance)
  }

  /** One record per user, in registration order. */
  function UserRecords(users: seq<User>): (r: seq<UserRecord>)
    ensures |r| == |users|
    ensures forall i :: 0 <= i < |users| ==> r[i].id == users[i].id && r[i].name == users[i].name
  {
    seq(|users|, i requires 0 <= i < |users| => UserRecordOf(users[i]))
  }

  /** One record per account, in creation order; the owner is kept by id only. */
  function AccountRecords(accounts: seq<Account>): (r: seq<AccountRecord>)
    reads accounts
    ensures |r| == |accounts|
    ensures forall i :: 0 <= i < |accounts| ==>
      r[i] == AccountRecord(accounts[i].id, accounts[i].owner.id, accounts[i].state, accounts[i].balance)
  {
    seq(|accounts|, i reads accounts requires 0 <= i < |accounts| => AccountRecordOf(accounts[i]))
  }

  /** `save_data` without the file: every user and every account, operations dropped. */
  function Save(users: seq<User>, accounts: seq<Account>): (s: Snapshot)
    reads accounts
    ensures |s.users| == |users| && |s.accounts| == |accounts|
    ensures forall i :: 0 <= i < |users| ==> s.users[i] == UserRecord(users[i].id, users[i].name)
    ensures forall i :: 0 <= i < |accounts| ==>
      s.accounts[i] == AccountRecord(accounts[i].id, accounts[i].owner.id, accounts[i].state, accounts[i].balance)
  {
    Snapshot(UserRecords(users), AccountRecords(accounts))
  }

  function UserIds(records: seq<UserRecord>): set<Id> {
    set r | r in records :: r.id
  }

  /**
   * The account records `load_data` turns into accounts: those whose owner id
   * names a loaded user (`next unless owner`), in file order.
   */
  function Restorable(records: seq<AccountRecord>, known: set<Id>): (r: seq<AccountRecord>)
    ensures |r| <= |records|
  {
    FindAll(records, (x: AccountRecord) => x.ownerId in known)
  }

  /** A record is restored exactly when its owner id is known: the skip rule drops those and only those. */
  lemma RestorableExactlyResolved(records: seq<AccountRecord>, known: set<Id>)
    ensures forall x :: x in Restorable(records, known) ==> x in records && x.ownerId in known
    ensures forall i :: 0 <= i < |records| && records[i].ownerId in known ==> records[i] in Restorable(records, known)
    ensures forall i :: 0 <= i < |records| && records[i].ownerId !in known ==> records[i] !in Restorable(records, known)
  {
  }

  /** One more record in the file adds it at the end of the restorable ones exactly when its owner is known. */
  lemma RestorableSnoc(records: seq<AccountRecord>, x: AccountRecord, known: set<Id>)
    ensures Restorable(records + [x], known) == Restorable(records, known) + (if x.ownerId in known then [x] else [])
  {
    FindAllSnoc(records, x, (y: AccountRecord) => y.ownerId in known);
  }

  /**
   * An account whose owner was saved is never dropped on load: when every
   * owner is among the saved users, every saved account record is restorable.
   */
  lemma SavedAccountsAreRestorable(users: seq<User>, accounts: seq<Account>)
    requires forall i :: 0 <= i < |accounts| ==> accounts[i].owner in users
    ensures Restorable(Save(users, accounts).accounts, UserIds(Save(users, accounts).users)) == Save(users, accounts).accounts
  {
    var snap := Save(users, accounts);
    var known := UserIds(snap.users);
    forall i | 0 <= i < |snap.accounts| ensures snap.accounts[i].ownerId in known {
      var k :| 0 <= k < |users| && users[k] == accounts[i].owner;
      assert snap.users[k] in snap.users;
    }
    FindAllKeepsAll(snap.accounts, (x: AccountRecord) => x.ownerId in known);
  }
}
