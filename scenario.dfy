/**
 * Walks through the routes: Alice registers, opens an account, deposits and
 * overdraws; an account that is deactivated; and a user with two accounts.
 */
module Scenario {
  import opened Wrappers
  import opened Models
  import opened Bank

  method AliceScenario() {
    var bank := new Bank();
    var created := bank.CreateUser(Some("Alice"));
    var alice := created.value;
    assert alice.name == "Alice";

    var opening := bank.CreateAccount(alice.id);
    var account := opening.value;
    assert account.balance == 0.0 && account.IsActive();

    var deposited := bank.Deposit(account.id, 100.0, 0);
    assert deposited.Success? && account.balance == 100.0;

    // The route's own guard refuses the overdraft before `Operation.new` is reached.
    var overdrawn := bank.Withdraw(account.id, 150.0, 1);
    assert overdrawn == Failure(WithdrawRejected) && account.balance == 100.0;
    assert |account.operations| == 1;
  }

  method DeactivatedScenario() {
    var bank := new Bank();
    var created := bank.CreateUser(Some("Alice"));
    var opening := bank.CreateAccount(created.value.id);
    var account := opening.value;

    var closed := bank.DeactivateAccount(account.id);
    assert account.IsInactive();
    // A deactivated account takes neither deposits nor withdrawals.
    var refused := bank.Deposit(account.id, 10.0, 0);
    assert refused == Failure(DepositRejected);
    var withheld := bank.Withdraw(account.id, 10.0, 1);
    assert withheld == Failure(WithdrawRejected);
    assert account.balance == 0.0 && account.operations == [];
  }

  method TwoAccountsScenario() {
    var bank := new Bank();
    var created := bank.CreateUser(Some("Alice"));
    var alice := created.value;
    assert Account.FindByUser(bank.accounts, alice) == [];
    var first := bank.CreateAccount(alice.id);
    assert Account.FindByUser(bank.accounts, alice) == [first.value];
    var second := bank.CreateAccount(alice.id);
    assert Account.FindByUser(bank.accounts, alice) == [first.value, second.value];
  }
}
