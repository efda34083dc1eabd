/**
 * The three entities of the ledger: users, accounts and the operations
 * recorded against an account.
 *
 * Ids are drawn by the caller (the bank's id counter, or a record being
 * restored); amounts and balances are reals.
 */
module Models {
  import opened Wrappers
  import opened Enumerable

  type Id = nat

  /** The creation time of an operation, supplied by the caller's clock. */
  type Timestamp = int

  /** The operation types the routes use. Any other string is accepted as a type too. */
  const DEPOSIT: string := "deposit"
  const WITHDRAW: string := "withdraw"

  /** A registered person; neither field changes after creation. */
  class User {
    const id: Id
    const name: string

    constructor (id: Id, name: string)
      ensures this.id == id && this.name == name
    {
      this.id := id;
      this.name := name;
    }

    /** `User.find_by_id`: the first user of `all` with this id, or nil. */
    static function FindById(all: seq<User>, id: Id): (r: Option<User>)
      ensures r.None? <==> forall i :: 0 <= i < |all| ==> all[i].id != id
      ensures r.Some? ==> exists i :: 0 <= i < |all| && all[i] == r.value && r.value.id == id &&
                                      forall j :: 0 <= j < i ==> all[j].id != id
    {
      Find(all, (u: User) => u.id == id)
    }

    /** A user registered under an id no earlier user holds is what `find_by_id` returns for it. */
    static lemma FindByIdSnoc(all: seq<User>, u: User)
      requires forall i :: 0 <= i < |all| ==> all[i].id != u.id
      ensures FindById(all + [u], u.id) == Some(u)
    {
      assert forall j :: 0 <= j < |all| ==> (all + [u])[j] == all[j];
      assert (all + [u])[|all|] == u;
    }

    /** `User.find_by_name`: every user of `all` called `name`, in registration order. */
    static function FindByName(all: seq<User>, name: string): (r: seq<User>)
      ensures forall u :: u in r ==> u in all && u.name == name
      ensures forall i :: 0 <= i < |all| && all[i].name == name ==> all[i] in r
    {
      FindAll(all, (u: User) => u.name == name)
    }
  }

  /**
   * A balance owned by one user. `state` is the stored integer: 1 means
   * active, 0 inactive, and a restored account may hold any other value.
   */
  class Account {
    const id: Id
    const owner: User
    var state: int
    var balance: real
    var operations: seq<Operation>

    /** `Account.new(user)`: active, empty and owned by `owner`. */
    constructor (id: Id, owner: User)
      ensures this.id == id && this.owner == owner
      ensures state == 1 && balance == 0.0 && operations == []
      ensures Ledgered() && Opening() == 0.0
    {
      this.id := id;
      this.owner := owner;
      operations := [];
      state := 1;
      balance := 0.0;
    }

    /** The account `load_data` rebuilds from a record: stored id, state and balance, no history. */
    constructor Restore(id: Id, owner: User, state: int, balance: real)
      ensures this.id == id && this.owner == owner
      ensures this.state == state && this.balance == balance && operations == []
      ensures Ledgered() && Opening() == balance
    {
      this.id := id;
      this.owner := owner;
      operations := [];
      this.state := state;
      this.balance := balance;
    }

    /**
     * The balance the account's history started from: the balance less the
     * deposits and plus the withdrawals recorded so far. `Account.new` starts
     * it at 0, a restored account at its stored balance, and `execute` never
     * moves it, so the balance is always this opening amount plus the
     * deposits minus the withdrawals since.
     */
    function Opening(): real
      reads this
    {
      balance - Net(operations)
    }

    /** Every operation in the history was executed on this account. */
    predicate Ledgered()
      reads this
    {
      forall op :: op in operations ==> op.account == this
    }

    /** `active?`: the stored state is 1. */
    predicate IsActive()
      reads this
      ensures IsActive() ==> state != 0
    {
      state == 1
    }

    /** `inactive?`: the stored state is 0. */
    predicate IsInactive()
      reads this
      ensures IsInactive() ==> state != 1
    {
      state == 0
    }

    /** `active!`: unconditional, so applying it twice is the same as once. */
    method Activate()
      modifies this
      ensures state == 1
      ensures balance == old(balance) && operations == old(operations)
    {
      state := 1;
    }

    /** `inactive!`: unconditional, so applying it twice is the same as once. */
    method Deactivate()
      modifies this
      ensures state == 0
      ensures balance == old(balance) && operations == old(operations)
    {
      state := 0;
    }

    /** `can_withdraw?`: the balance covers `amount` and the account is active. */
    function CanWithdraw(amount: real): (r: bool)
      reads this
      ensures r <==> amount <= balance && state == 1
      ensures r ==> !IsInactive()
    {
      balance >= amount && IsActive()
    }

    /** `Account.find_by_id`: the first account of `all` with this id, or nil. */
    static function FindById(all: seq<Account>, id: Id): (r: Option<Account>)
      ensures r.None? <==> forall i :: 0 <= i < |all| ==> all[i].id != id
      ensures r.Some? ==> exists i :: 0 <= i < |all| && all[i] == r.value && r.value.id == id &&
                                      forall j :: 0 <= j < i ==> all[j].id != id
    {
      Find(all, (a: Account) => a.id == id)
    }

    /** `Account.find_by_user`: every account of `all` owned by `user`, in creation order. */
    static function FindByUser(all: seq<Account>, user: User): (r: seq<Account>)
      ensures forall a :: a in r ==> a in all && a.owner == user
      ensures forall i :: 0 <= i < |all| && all[i].owner == user ==> all[i] in r
    {
      FindAll(all, (a: Account) => a.owner == user)
    }

    /** A new account comes last among its owner's accounts and leaves everybody else's as they were. */
    static lemma FindByUserSnoc(all: seq<Account>, a: Account, user: User)
      ensures FindByUser(all + [a], user) == FindByUser(all, user) + (if a.owner == user then [a] else [])
    {
      FindAllSnoc(all, a, (x: Account) => x.owner == user);
    }
  }

  /** Why `Operation.new` refused to build an operation. */
  datatype OperationError = AccountInactive | InsufficientFunds {
    /** The text of the raised error, which the withdraw route shows. */
    function Message(): (r: string)
      ensures AccountInactive? ==> r == "Account is inactive"
      ensures InsufficientFunds? ==> r == "Insufficient Funds"
    {
      match this
      case AccountInactive => "Account is inactive"
      case InsufficientFunds => "Insufficient Funds"
    }
  }

  /**
   * One deposit or withdrawal against `account`. Built by `New`, which only
   * validates, and applied once by `Execute`.
   */
  datatype Operation = Operation(id: Id, kind: string, amount: real, account: Account, createdAt: Timestamp)
  {
    /**
     * `Operation.new`: refuses an inactive account first, then a withdrawal
     * the account cannot cover; reads the account and changes nothing.
     */
    static function New(id: Id, kind: string, amount: real, account: Account, createdAt: Timestamp)
      : (r: Result<Operation, OperationError>)
      reads account
      ensures account.state == 0 ==> r == Failure(AccountInactive)
      ensures account.state == 1 && kind == WITHDRAW ==> (r == Failure(InsufficientFunds) <==> amount > account.balance)
      ensures account.state != 0 && account.state != 1 && kind == WITHDRAW ==> r == Failure(InsufficientFunds)
      ensures r.Success? <==> account.state != 0 && (kind == WITHDRAW ==> account.CanWithdraw(amount))
      ensures r.Success? ==> r.value == Operation(id, kind, amount, account, createdAt)
    {
      if account.IsInactive() then Failure(AccountInactive)
      else if kind == WITHDRAW && !account.CanWithdraw(amount) then Failure(InsufficientFunds)
      else Success(Operation(id, kind, amount, account, createdAt))
    }

    /**
     * The balance this operation leaves behind when executed on `balance`:
     * a deposit adds exactly its amount, a withdrawal subtracts exactly its
     * amount, any other type leaves the balance as it was.
     */
    function Applied(balance: real): (r: real)
      ensures kind == DEPOSIT ==> r == balance + amount
      ensures kind == WITHDRAW ==> r == balance - amount
      ensures kind != DEPOSIT && kind != WITHDRAW ==> r == balance
    {
      if kind == DEPOSIT then balance + amount
      else if kind == WITHDRAW then balance - amount
      else balance
    }

    /** `execute`: moves the balance by the operation and appends it to the account's history. */
    method Execute()
      modifies account
      ensures account.balance == Applied(old(account.balance))
      ensures account.operations == old(account.operations) + [this]
      ensures account.state == old(account.state)
      ensures account.Opening() == old(account.Opening())
      ensures old(account.Ledgered()) ==> account.Ledgered()
    {
      ghost var before := account.operations;
      if kind == DEPOSIT {
        account.balance := account.balance + amount;
      } else if kind == WITHDRAW {
        account.balance := account.balance - amount;
      }
      account.operations := account.operations + [this];
      assert account.operations[..|before|] == before;
    }
  }

  /** The net effect of a history on a balance: its deposits minus its withdrawals; other types count for nothing. */
  function Net(ops: seq<Operation>): real {
    if ops == [] then 0.0 else Net(ops[..|ops| - 1]) + ops[|ops| - 1].Applied(0.0)
  }

  /** The net effect of two histories one after the other is the sum of their net effects. */
  lemma {:induction false} NetAppend(s: seq<Operation>, t: seq<Operation>)
    ensures Net(s + t) == Net(s) + Net(t)
  {
    if t != [] {
      var t' := t[..|t| - 1];
      assert (s + t)[..|s + t| - 1] == s + t';
      NetAppend(s, t');
    } else {
      assert s + t == s;
    }
  }

  /** The net effect of a history is the total deposited less the total withdrawn. */
  lemma {:induction false} NetIsDepositsLessWithdrawals(ops: seq<Operation>)
    ensures Net(ops) == Total(ops, DEPOSIT) - Total(ops, WITHDRAW)
  {
    if ops != [] {
      NetIsDepositsLessWithdrawals(ops[..|ops| - 1]);
    }
  }

  /** The summed amounts of the operations of one type in a history. */
  function Total(ops: seq<Operation>, kind: string): real {
    if ops == [] then 0.0
    else Total(ops[..|ops| - 1], kind) + (if ops[|ops| - 1].kind == kind then ops[|ops| - 1].amount else 0.0)
  }

  /** A withdrawal `New` accepted, executed at once, cannot take the balance below zero. */
  lemma AcceptedWithdrawKeepsBalanceNonNegative(id: Id, amount: real, account: Account, createdAt: Timestamp)
    requires Operation.New(id, WITHDRAW, amount, account, createdAt).Success?
    ensures Operation.New(id, WITHDRAW, amount, account, createdAt).value.Applied(account.balance) >= 0.0
  {
  }

  /**
   * On an active account with a non-negative balance, a positive deposit
   * leaves enough for a withdrawal of the same amount to pass the funds
   * check, and that withdrawal restores the balance.
   */
  lemma DepositThenWithdrawRestores(deposit: Operation, withdraw: Operation, balance: real)
    requires deposit.kind == DEPOSIT && withdraw.kind == WITHDRAW && deposit.amount == withdraw.amount
    requires balance >= 0.0 && deposit.amount > 0.0
    ensures deposit.Applied(balance) >= withdraw.amount
    ensures withdraw.Applied(deposit.Applied(balance)) == balance
  {
  }

  /** Active and inactive exclude each other, and a stored state other than 0 or 1 is neither. */
  lemma StatesExclusive(account: Account)
    ensures !(account.IsActive() && account.IsInactive())
    ensures account.state != 0 && account.state != 1 ==> !account.IsActive() && !account.IsInactive()
  {
  }
}
