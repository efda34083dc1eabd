# Bank ledger model

A Dafny model of the ledger core of a small Sinatra banking server
(`server.rb`): users, accounts owned by users, and deposit/withdraw
operations recorded against an account, together with the id-keyed lookup
maps the routes use, the guard conditions of the mutating routes, and the
save/load snapshot.

- `wrappers.dfy` — `Option` (Ruby's `nil`) and `Result` (a raised error or a refused route).
- `enumerable.dfy` — Ruby's `find` and `find_all`, on which every registry query is built.
- `models.dfy` — `User` and `Account` as classes (an account's `state`, `balance` and
  `operations` change in place), `Operation` as an immutable datatype with the
  two-phase protocol: `New` validates, `Execute` mutates.
- `persistence.dfy` — the snapshot as plain records (`UserRecord`, `AccountRecord`),
  `Save` as a transform of the registries, and `Restorable`, the skip rule of `load_data`.
- `bank.dfy` — the `Bank` object: the `@@instances` lists of users and accounts, the
  `$users`/`$accounts` maps, an id counter, the create/activate/deactivate/deposit/withdraw
  routes with their guards, `load_data` as two loops, and a save-then-load restart.
- `scenario.dfy` — three walks through the routes whose outcomes the contracts determine.

`state` stays an integer: 1 is active, 0 inactive, and a restored account can
hold any stored value, which is neither. `Operation.new` refuses only
`state == 0`, so on such an account it accepts a deposit and refuses a
withdrawal with "Insufficient Funds" (because `can_withdraw?` also asks
for `state == 1`); the deposit route still refuses it, since its guard asks for
`active?`.

The withdraw and deposit routes' guards (server.rb:282, server.rb:301) refuse
an overdraft and a deposit on a deactivated account before `Operation.new`
runs, so those pages show "Erreur de retrait." and "Erreur de dépôt."
(`AliceScenario`, `DeactivatedScenario`).

## Model

| member | source | states |
|---|---|---|
| Enumerable.Find | server.rb:28 | `find` returns nil exactly when no element satisfies the block, otherwise an element that satisfies it and that no earlier element precedes |
| Enumerable.FindAll | server.rb:32 | `find_all` keeps only qualifying elements of its input and keeps every qualifying one |
| Enumerable.FindAllCount | server.rb:83 | `find_all` keeps each qualifying element exactly as many times as it occurs and no others |
| Enumerable.FindAllAppend | server.rb:83 | `find_all` of a concatenation is the concatenation of the two results, so it preserves the input order |
| Enumerable.FindAllSnoc | server.rb:83 | one element added at the end shows up at the end of the result exactly when it qualifies |
| Enumerable.FindAllKeepsAll | server.rb:156 | when every element qualifies nothing is dropped |
| Models.User.constructor | server.rb:17-21 | a user keeps the id and the name it was built with |
| Models.User.FindById | server.rb:27-29 | `User.find_by_id` is nil exactly when no user has the id, otherwise the first user with that id |
| Models.User.FindByIdSnoc | server.rb:27-29 | a user appended under an id no earlier user holds is what `find_by_id` returns for that id |
| Models.User.FindByName | server.rb:31-33 | `User.find_by_name` returns exactly the users with that name |
| Models.Account.constructor | server.rb:45-52 | a new account has the given id and owner, state 1, balance 0 and no operations, so its opening amount is 0 |
| Models.Account.Restore | server.rb:157-160 | a rebuilt account carries the stored id, owner, state and balance, and no operations, so its opening amount is the stored balance |
| Models.Account.IsActive | server.rb:54-56 | `active?` (state 1) never holds on an account whose stored state is 0 |
| Models.Account.IsInactive | server.rb:58-60 | `inactive?` (state 0) never holds on an account whose stored state is 1 |
| Models.Account.Activate | server.rb:62-64 | `active!` sets state 1 whatever it was (hence idempotent) and leaves balance and operations alone |
| Models.Account.Deactivate | server.rb:66-68 | `inactive!` sets state 0 whatever it was (hence idempotent) and leaves balance and operations alone |
| Models.Account.CanWithdraw | server.rb:70-72 | `can_withdraw?` holds exactly when the amount is at most the balance and state is 1; it never holds on an inactive account |
| Models.Account.FindById | server.rb:78-80 | `Account.find_by_id` is nil exactly when no account has the id, otherwise the first account with that id |
| Models.Account.FindByUser | server.rb:82-84 | `Account.find_by_user` returns exactly the accounts owned by the user |
| Models.Account.FindByUserSnoc | server.rb:82-84 | a newly appended account comes last among its owner's accounts and changes no other user's list: creation order |
| Models.StatesExclusive | server.rb:54-60 | active and inactive exclude each other; a state other than 0 or 1 is neither |
| Models.OperationError.Message | server.rb:95-96 | the two messages `Operation.new` raises: "Account is inactive" and "Insufficient Funds" |
| Models.Operation.New | server.rb:94-103 | state 0 fails with "Account is inactive" whatever the type and amount, before any funds check; on an active account a withdrawal fails with "Insufficient Funds" iff the amount exceeds the balance; any other state refuses every withdrawal; success iff neither check fires, with the given id, type, amount, account and time; reads the account and changes nothing |
| Models.Operation.Execute | server.rb:105-112 | the balance moves as `Applied` says, the operation is appended at the end of the history, the state is unchanged, nothing outside the account changes; the account's opening amount (balance less its history's net effect) is kept, and so is every recorded operation belonging to the account |
| Models.NetAppend | server.rb:105-112 | the net effect of two histories run one after the other is the sum of their net effects |
| Models.NetIsDepositsLessWithdrawals | server.rb:106-110 | the net effect of a history is what its deposits add up to minus what its withdrawals add up to; so by `Execute` a balance is always its opening amount plus the deposits minus the withdrawals since |
| Models.Operation.Applied | server.rb:106-110 | a deposit adds exactly its amount, a withdrawal subtracts exactly its amount, any other type leaves the balance |
| Models.AcceptedWithdrawKeepsBalanceNonNegative | server.rb:94-110 | a withdrawal that `Operation.new` accepted, executed straight away, never leaves the balance negative |
| Models.DepositThenWithdrawRestores | server.rb:94-110 | from a non-negative balance, a positive deposit leaves enough funds for a withdrawal of the same amount, and that withdrawal restores the balance |
| Persistence.UserRecordOf | server.rb:128 | a user's record holds its id and name |
| Persistence.AccountRecordOf | server.rb:130-135 | an account's record holds its id, its owner's id, its state and its balance |
| Persistence.Save | server.rb:126-137 | the snapshot has one user record per user and one account record per account, in registry order, each with the saved fields |
| Persistence.UserRecords | server.rb:128 | one record per user, in order, with its id and name |
| Persistence.AccountRecords | server.rb:129-136 | one record per account, in order, with its id, its owner's id, state and balance |
| Persistence.Restorable | server.rb:155-156 | the account records `load_data` restores are a selection of the stored ones, never more |
| Persistence.RestorableExactlyResolved | server.rb:155-156 | a stored account is restored exactly when its owner id names a loaded user |
| Persistence.RestorableSnoc | server.rb:154-156 | one more stored account is restored at the end exactly when its owner is known |
| Persistence.SavedAccountsAreRestorable | server.rb:126-162 | when every owner is a registered user, load drops none of the saved accounts |
| Bank.RouteError.Message | server.rb:194 | the error texts of the pages: "Le nom est requis." (server.rb:194), "Utilisateur non trouvé." (server.rb:229), "Compte non trouvé." (server.rb:256), "Erreur de dépôt." (server.rb:288), "Erreur de retrait." (server.rb:312) |
| Bank.DepositAccepted | server.rb:282 | the deposit guard admits only an existing account whose state is 1 |
| Bank.WithdrawAccepted | server.rb:301 | the withdraw guard implies the deposit guard and that the balance covers the amount |
| Bank.GuardedDepositIsConstructed | server.rb:282-283 | behind the deposit guard `Operation.new` always succeeds |
| Bank.GuardedWithdrawIsConstructed | server.rb:301-303 | behind the withdraw guard `Operation.new` always succeeds, so the rescue arm is not reached through it |
| Bank.Bank.constructor | server.rb:120-121 | the process starts with empty `User.all`/`Account.all` lists and empty `$users`/`$accounts` maps, consistent with each other |
| Bank.Bank.NewUser | server.rb:17-21 | `User.new` keeps the name, draws an id no registered user has, appends the user at the end of `User.all` (where `find_by_id` then finds it) and keeps user ids distinct |
| Bank.Bank.RestoreUser | server.rb:149-151 | a loaded user keeps the stored id and name, is appended, and takes the `$users` slot of its id |
| Bank.Bank.NewAccount | server.rb:45-52 | `Account.new` gives state 1, balance 0, no operations, the owner, a fresh id, and appends the account at the end of `Account.all` |
| Bank.Bank.RestoreAccount | server.rb:155-161 | a stored account is skipped iff `$users` lacks its owner id; otherwise it is rebuilt from the record with no operations, owned by the `$users` entry, appended and entered in `$accounts`, with its stored balance as its opening amount |
| Bank.EnteredKeeps | server.rb:161 | loading accounts leaves the `$accounts` slot of every id none of them carries as it was |
| Bank.EnteredLastWins | server.rb:161 | after loading, the `$accounts` slot of an id holds the last loaded account with that id |
| Bank.EnteredSnoc | server.rb:161 | one more loaded account takes its id's `$accounts` slot on top of the earlier ones |
| Bank.UsersAppendedSnoc | server.rb:149-150 | one more user record restored appends its user to the users restored so far |
| Bank.SlotsLoadedSnoc | server.rb:151 | one more user record restored takes its id's `$users` slot and leaves every other slot as it was |
| Bank.Bank.FindUser | server.rb:166-168 | `find_user` yields a registered user with that id, and nil exactly when no registered user has it |
| Bank.Bank.FindAccount | server.rb:170-172 | `find_account` yields a registered account with that id, and nil exactly when no registered account has it |
| Bank.Bank.FindUserMatchesFindById | server.rb:166-168 | while user ids are distinct, the map lookup and `User.find_by_id` give the same answer |
| Bank.Bank.CreateUser | server.rb:186-197 | succeeds iff the name is given and non-empty; the new user is appended, entered in `$users` and found by both lookups; a refusal changes no registry |
| Bank.Bank.CreateAccount | server.rb:220-232 | succeeds iff `find_user` finds the owner; the new account is active and empty, appended, entered in `$accounts` under an id it did not hold before, and last in the owner's `find_by_user`, with opening amount 0; a refusal changes nothing |
| Bank.Bank.ActivateAccount | server.rb:261-271 | the found account becomes active, a missing id gives "not found", no balance or history changes and no other state changes. Every account keeps its opening amount, and a history whose operations all belong to the account still does. |
| Bank.Bank.DeactivateAccount | server.rb:249-259 | the found account becomes inactive, a missing id gives "not found", no balance or history changes and no other state changes. Every account keeps its opening amount, and a history whose operations all belong to the account still does. |
| Bank.Bank.Deposit | server.rb:279-291 | proceeds iff the account exists, is active and the amount is positive; then the balance rises by the amount and the operation is appended; a refusal changes no balance, history or state. Every account keeps its opening amount, and a history whose operations all belong to the account still does. |
| Bank.Bank.Withdraw | server.rb:298-315 | proceeds iff the deposit guard holds and `can_withdraw?`; then the balance falls by the amount, stays non-negative, and the operation is appended; a refusal changes nothing. Every account keeps its opening amount, and a history whose operations all belong to the account still does. |
| Bank.Bank.LoadUsers | server.rb:148-152 | every user record is restored in file order and its id is a key of `$users`, held by the user of the last record with that id; entries for ids not in the file are untouched |
| Bank.Bank.LoadAccounts | server.rb:154-162 | the restored accounts are, in file order, exactly the records whose owner id `$users` knows, each without operations and owned by the user `$users` holds under that id; `$accounts` is the old map with each restored account entered under its id in file order, so an empty file leaves it as it was and the last account with an id holds its slot |
| Bank.Bank.Load | server.rb:142-163 | users then accounts: the user records land in `$users` as `LoadUsers` states, then the account records are resolved against the resulting `$users` and entered in `$accounts` as `LoadAccounts` states |
| Bank.DepositThenWithdraw | server.rb:279-315 | on an active account with a non-negative balance, a positive deposit then a withdrawal of the same amount are both accepted, recorded in order, and leave the balance where it was |
| Bank.Restart | server.rb:126-162 | loading the saved snapshot into empty registries reproduces every user's id and name and every account's id, owner id, state and balance, with empty histories |

## Left out

- Routing, `erb` rendering, redirects, `not_found`, the reloader and the read-only routes (listing, showing, both searches): web plumbing; only the guards of the mutating routes are modelled.
- File I/O and JSON: `Save` is the record transform `save_data` serialises, and `Load` takes the parsed records; the missing-file early return, malformed files and write failures are not modelled, and neither is `save_data` being called after every mutation.
- Bank.Bank.Withdraw: a failure of `save_data` inside the route's `begin`/`rescue` would show its message after the balance had already changed; with I/O left out that path does not exist in the model.
- `SecureRandom.uuid`: ids are naturals drawn from a counter; restoring a stored id raises the counter past it, so later ids stay fresh.
- `Time.now`: the creation time is a parameter of the routes.
- Floats: amounts and balances are reals, so rounding is not modelled (in the source a deposit then a withdrawal of the same float need not restore the balance exactly); the `to_f` parse is left to the caller, an unparsable amount arriving as 0.
- `instance_variable_set`: modelled as the id-preserving restore steps.
- The class-level `@@instances` lists and the globals `$users`/`$accounts` are fields of one `Bank` object instead of process-wide state.
- Operation history is not persisted, as in the source; restored accounts start with no operations.
