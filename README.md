# Balance ledger

A Dafny model of the core of a small balance-ledger web service. The service
keeps a table of users (id, name, balance) and an append-only table of
transaction records (user id, amount, type). Deposits, withdrawals and
transfers change balances and log records. The model covers three layers:

- the store operations on users and records (`app/crud/users.py`,
  `app/crud/transactions.py`), as methods on a database session object
  (`Db.Session`) that hold the users as a `map<int, User>` keyed by id, the
  records as a `seq<Transaction>` in insertion order, and the two id
  sequences;
- the request checks (`app/api/validators.py`), as pure functions that yield
  the error kind they would raise, or `None`;
- the endpoint handlers (`app/api/endpoints/transactions.py`,
  `app/api/endpoints/users.py`), as methods that run the checks in the
  source's order and then call the store operations. They answer an
  `Outcome`: a success payload or one error kind.

Record types and the closed set of transaction kinds come from
`app/api/models.py` (module `Models`). A new user's balance is
`DefaultBalance`, which is 0. Amounts and balances are whole minor units
(`int`).

Properties proved, beyond each operation's exact new state:

- Every handler decides its error before anything is mutated. A failing
  handler leaves the session unchanged (`unchanged(db)`).
- Error precedence is fixed. Withdraw checks InvalidAmount, then
  UserNotFound, then InsufficientFunds. Transfer checks InvalidAmount, then
  SameUser, then RecipientNotFound/SenderNotFound, then InsufficientFunds.
- A transfer where both users are missing passes the existence check, fails
  on reading the missing sender's balance, and ends in the generic
  `Undefined` error.
- Money is conserved. `Session.Total()` sums all balances. A deposit raises
  it by exactly the amount, a withdrawal lowers it by exactly the amount,
  and a transfer and a user creation leave it unchanged.
- The handlers preserve three invariants: no balance is negative, user
  names are distinct (creation), and every record's user id names a stored
  user (the foreign key).
- The history query promises only which records come back, as a multiset,
  and not their order, because it has no ORDER BY. The history handler
  takes the records in whatever order the database answered them (any
  arrangement of that user's records) and keeps that order. The ORM
  relationship order (by record id) coincides with log order, because ids
  grow with insertion.

The model follows the code as written, also where a ledger might be
expected to behave otherwise:

- With both users missing, a transfer does not report a missing sender. It
  ends in the generic error.
- History comes back in no promised order; in particular, not ordered by
  creation.
- Name uniqueness rests only on the pre-check in the user handler. The name
  column is indexed but not unique, and `create_user` does not check.
- Balance changes and record inserts are not one atomic commit, since
  `create_transaction` commits per record. The model is sequential and has
  no failures mid-operation, so this difference does not show in it.

The store's transfer reads both users through the ORM's identity map. Two
lookups of one id give the same row, so with equal ids the credit is applied
on top of the debit and the balance ends where it started. The model
reproduces this by re-reading the map between the two updates
(`TransactionsCrud.SelfTransferKeepsBalances`). The transfer handler
rejects equal ids before it gets there.

`Walkthrough.AliceAndBob` is a client that runs a short session through the
handlers (create, a rejected deposit, deposit, withdraw, overdraw, a
transfer, a duplicate name, a transfer between missing users). It checks
each answer against the handlers' contracts alone.

## Model

| member | source | states |
|---|---|---|
| `Db.Adjust` | app/crud/transactions.py:50 | an in-place `balance += delta` changes only that user's balance, by exactly delta; ids, names and every other user are kept |
| `Db.SumUpdate` | app/crud/transactions.py:95-96 | rewriting one user row changes the sum of balances by the new balance minus the old |
| `Db.SumRemove` | app/crud/users.py:45-49 | removing a user takes exactly its balance out of the sum |
| `Db.SumExtend` | app/crud/users.py:12-16 | widening the summed id range by the newly issued id adds exactly that user's balance |
| `UsersCrud.CreateUser` | app/crud/users.py:8-16 | adds exactly one user with the given name, a fresh id and balance 0, without checking the name; records and total money unchanged |
| `UsersCrud.GetUserById` | app/crud/users.py:19-24 | returns the user stored under the id, or None exactly when there is none; only reads |
| `UsersCrud.UpdateUserBalance` | app/crud/users.py:27-38 | sets only that user's balance to the new value; a missing id returns None and changes nothing |
| `UsersCrud.DeleteUser` | app/crud/users.py:41-49 | removes exactly that user and returns it; a missing id returns None and changes nothing; records are left as they are |
| `TransactionsCrud.CreateTransaction` | app/crud/transactions.py:9-21 | appends exactly one record with the next id and the given user, amount and type; users unchanged |
| `TransactionsCrud.GetTransactionById` | app/crud/transactions.py:24-31 | returns a record with that id from the log exactly when one exists |
| `TransactionsCrud.UserTransactions` | app/crud/transactions.py:34-41 | returns each log record whose user id matches, as often as in the log, and no other; no order is promised |
| `TransactionsCrud.UserTransactionsOrderedById` | app/api/models.py:32-34 | when record ids grow along the log, one user's records come out in ascending id order |
| `TransactionsCrud.DepositToUser` | app/crud/transactions.py:44-59 | for a stored user, raises that balance by exactly amount and appends one DEPOSIT record; a missing id returns None and changes nothing |
| `TransactionsCrud.WithdrawFromUser` | app/crud/transactions.py:62-77 | for a stored user, lowers that balance by exactly amount (with no funds check) and appends one WITHDRAW record; a missing id returns None and changes nothing |
| `TransactionsCrud.TransferFunds` | app/crud/transactions.py:80-113 | either user missing: None and no change; sender balance below amount: "insufficient_funds" and no change; otherwise debit, credit, two TRANSFER records (sender's first) and None; total money unchanged |
| `TransactionsCrud.TransferKeepsPairSum` | app/crud/transactions.py:95-96 | a transfer between distinct users changes exactly their two balances, by -amount and +amount, so their sum is preserved |
| `TransactionsCrud.SelfTransferKeepsBalances` | app/crud/transactions.py:86-96 | with sender equal to recipient the shared row is debited and credited, leaving every balance as it was |
| `Validators.ValidateUserExists` | app/api/validators.py:9-16 | fails with UserNotFound iff the lookup found nobody |
| `Validators.ValidateUserDoesNotExist` | app/api/validators.py:19-29 | fails with AlreadyExists iff some stored user has the name; reads the store only |
| `Validators.ValidatePositiveAmount` | app/api/validators.py:32-39 | fails with InvalidAmount iff amount <= 0, so zero is rejected |
| `Validators.ValidateSufficientFunds` | app/api/validators.py:42-49 | fails with InsufficientFunds iff balance < amount; an equal balance passes |
| `Validators.ValidateTransferUsers` | app/api/validators.py:52-59 | fails with SameUser iff the two ids are equal |
| `Validators.ValidateUsersExist` | app/api/validators.py:62-74 | RecipientNotFound iff only the recipient is missing, SenderNotFound iff only the sender is missing, and passes when both are missing |
| `UserEndpoints.CreateNewUser` | app/api/endpoints/users.py:18-30 | a name already held gives AlreadyExists and creates nothing; otherwise exactly one user with that name and balance 0 is added; distinct names stay distinct |
| `UserEndpoints.ReadUser` | app/api/endpoints/users.py:50-61 | answers the stored user, or UserNotFound exactly when there is none; only reads |
| `TransactionEndpoints.DepositFunds` | app/api/endpoints/transactions.py:47-64 | InvalidAmount for amount <= 0, then UserNotFound, with the store unchanged; otherwise the balance rises by amount, one DEPOSIT record is logged, the record id counter advances by one, and the new balance is answered |
| `TransactionEndpoints.WithdrawFunds` | app/api/endpoints/transactions.py:89-108 | InvalidAmount, then UserNotFound, then InsufficientFunds, all with the store unchanged; otherwise the new balance is old balance - amount >= 0, one WITHDRAW record is logged and the record id counter advances by one |
| `TransactionEndpoints.TransferFundsBetweenUsers` | app/api/endpoints/transactions.py:131-169 | InvalidAmount, then SameUser, then Recipient/SenderNotFound, Undefined when both are missing, then InsufficientFunds, all with the store unchanged; otherwise debit, credit and two TRANSFER records, with the record id counter advanced by two; total money preserved and no balance turns negative |
| `TransactionEndpoints.ReadUserTransactions` | app/api/endpoints/transactions.py:173-194 | UserNotFound exactly for a missing user; otherwise one entry per record the query returned, in the order it returned them (any arrangement of that user's records), copying id, amount and type |

## Left out

- Floating point: balances and amounts are Python floats in the source. The model uses exact integers, so there is no rounding and no NaN.
- Timestamps: `created_at` on users and records is set by the database clock. It is not modelled, and history entries carry id, amount and type only.
- Sessions: commit, rollback and refresh are not modelled. Every operation runs to completion on one in-memory session.
- Storage failures: the `SQLAlchemyError` branches of the handlers (a 500 with a database message) are not modelled, because the in-memory store cannot fail. The error datatype therefore has no database-error kind.
- Concurrency: concurrent requests, and the lost update between the funds check and the mutation, are not modelled. The model is sequential.
- HTTP: routing, status codes, response schemas and message strings are not modelled. Handler answers are `Outcome` values. Deposit and withdraw answer the new balance that the source formats into its message.
- Foreign-key enforcement: the database would reject a record whose user id names no user. This is not modelled: `CreateTransaction` appends whatever it is given. No modelled caller passes a missing id to it.
- Records of a deleted user: `User.transactions` is a one-to-many relationship with no delete cascade (app/api/models.py:32-34), so by the ORM's documented default, deleting a user (app/crud/users.py:47) sets `user_id` to NULL on that user's records. A later history query for the deleted id then returns nothing. `DeleteUser` does not model this: it keeps the records with their user id, so `UserTransactions` on the deleted id still returns them, and `Session.RecordsReferenceUsers` is not preserved by `DeleteUser`.
- History order: `TransactionsCrud.UserTransactions` has to return some sequence, and its body returns log order. Its contract promises only the multiset, and the history handler does not use its order: it takes the database's answer as an argument.
- Configuration, serialisation and the schema migration carry no ledger behaviour and are not part of this model.
