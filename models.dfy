/** Record types of the ledger: users, transaction records and the closed set
    of transaction kinds (app/api/models.py). Amounts and balances are whole
    minor units. */
module Models {

  datatype Option<+T> = None | Some(value: T)

  /** The kind of a transaction record; the enum is closed, so a record's type
      is always exactly one of the three. */
  datatype TransactionType = Deposit | Withdraw | Transfer

  /** Balance a user row gets when it is created. */
  const DefaultBalance: int := 0

  /** A row of the `users` table. The creation timestamp is not modelled. */
  datatype User = User(id: int, name: string, balance: int)

  /** A row of the `transactions` table. `userId` refers to `users.id`. */
  datatype Transaction = Transaction(id: int, userId: int, amount: int, kind: TransactionType)

  /** Record ids strictly increase along the sequence. */
  ghost predicate IdsIncreasing(s: seq<Transaction>)
  {
    forall i, j :: 0 <= i < j < |s| ==> s[i].id < s[j].id
  }
}
