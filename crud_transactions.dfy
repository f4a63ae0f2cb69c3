/** Operations on the `transactions` table and the balance mutations built
    on them (app/crud/transactions.py). */
module TransactionsCrud {
  import opened Models
  import opened Db
  import opened UsersCrud

  /** What transfer_funds returns when the sender cannot cover the amount. */
  const InsufficientFundsMarker: string := "insufficient_funds"

  /** Appends one record with the next record id. */
  method CreateTransaction(db: Session, userId: int, amount: int, kind: TransactionType) returns (t: Transaction)
    requires db.Valid()
    modifies db
    ensures db.Valid()
    ensures t == Transaction(old(db.nextTxnId), userId, amount, kind)
    ensures db.log == old(db.log) + [t]
    ensures db.nextTxnId == old(db.nextTxnId) + 1
    ensures db.users == old(db.users) && db.nextUserId == old(db.nextUserId)
    ensures old(db.RecordsReferenceUsers()) && userId in db.users ==> db.RecordsReferenceUsers()
  {
    t := Transaction(db.nextTxnId, userId, amount, kind);
    db.log := db.log + [t];
    db.nextTxnId := db.nextTxnId + 1;
  }

  /** The first record with id `transactionId`, or None when there is none. */
  function GetTransactionById(log: seq<Transaction>, transactionId: int): (r: Option<Transaction>)
    ensures r.Some? <==> exists t :: t in log && t.id == transactionId
    ensures r.Some? ==> r.value in log && r.value.id == transactionId
  {
    if log == [] then None
    else if log[0].id == transactionId then Some(log[0])
    else GetTransactionById(log[1..], transactionId)
  }

  /** The records of user `userId`. The query has no ORDER BY, so only which
      records come back, and how often, is promised, not their order. */
  function UserTransactions(log: seq<Transaction>, userId: int): (r: seq<Transaction>)
    ensures forall t :: multiset(r)[t] == if t.userId == userId then multiset(log)[t] else 0
    ensures forall t :: t in r <==> t in log && t.userId == userId
  {
    if log == [] then []
    else
      assert log == [log[0]] + log[1..];
      (if log[0].userId == userId then [log[0]] else []) + UserTransactions(log[1..], userId)
  }

  /** The ORM relationship `User.transactions` lists a user's records by
      ascending id; with ids growing in insertion order, the records of one
      user taken in log order are already in that order. */
  lemma {:induction false} UserTransactionsOrderedById(log: seq<Transaction>, userId: int)
    requires IdsIncreasing(log)
    ensures IdsIncreasing(UserTransactions(log, userId))
  {
    if log != [] {
      var rest := UserTransactions(log[1..], userId);
      UserTransactionsOrderedById(log[1..], userId);
      forall t | t in rest
        ensures log[0].id < t.id
      {
        var j :| 0 <= j < |log[1..]| && log[1..][j] == t;
        assert log[j + 1] == t;
      }
    }
  }

  /** Raises the balance of user `userId` by `amount` and logs one DEPOSIT
      record; a missing id changes nothing and gives None. */
  method DepositToUser(db: Session, userId: int, amount: int) returns (r: Option<User>)
    requires db.Valid()
    modifies db
    ensures db.Valid()
    ensures r.Some? <==> userId in old(db.users)
    ensures r.Some? ==>
      && db.users == Adjust(old(db.users), userId, amount)
      && r.value == db.users[userId]
      && db.log == old(db.log) + [Transaction(old(db.nextTxnId), userId, amount, Deposit)]
      && db.nextTxnId == old(db.nextTxnId) + 1
      && db.Total() == old(db.Total()) + amount
    ensures r.None? ==> unchanged(db)
    ensures db.nextUserId == old(db.nextUserId)
    ensures old(db.RecordsReferenceUsers()) ==> db.RecordsReferenceUsers()
  {
    r := GetUserById(db, userId);
    if r.Some? {
      SumUpdate(db.users, userId, r.value.(balance := r.value.balance + amount), 1, db.nextUserId);
      db.users := Adjust(db.users, userId, amount);
      var _ := CreateTransaction(db, userId, amount, Deposit);
      r := Some(db.users[userId]);
    }
  }

  /** Lowers the balance of user `userId` by `amount` and logs one WITHDRAW
      record. There is no funds check: on its own it can leave a balance
      below zero. A missing id changes nothing and gives None. */
  method WithdrawFromUser(db: Session, userId: int, amount: int) returns (r: Option<User>)
    requires db.Valid()
    modifies db
    ensures db.Valid()
    ensures r.Some? <==> userId in old(db.users)
    ensures r.Some? ==>
      && db.users == Adjust(old(db.users), userId, -amount)
      && r.value == db.users[userId]
      && db.log == old(db.log) + [Transaction(old(db.nextTxnId), userId, amount, Withdraw)]
      && db.nextTxnId == old(db.nextTxnId) + 1
      && db.Total() == old(db.Total()) - amount
    ensures r.None? ==> unchanged(db)
    ensures db.nextUserId == old(db.nextUserId)
    ensures old(db.RecordsReferenceUsers()) ==> db.RecordsReferenceUsers()
  {
    r := GetUserById(db, userId);
    if r.Some? {
      SumUpdate(db.users, userId, r.value.(balance := r.value.balance - amount), 1, db.nextUserId);
      db.users := Adjust(db.users, userId, -amount);
      var _ := CreateTransaction(db, userId, amount, Withdraw);
      r := Some(db.users[userId]);
    }
  }

  /** Moves `amount` from `fromUserId` to `toUserId` and logs two TRANSFER
      records, the sender's first. A missing user gives None and changes
      nothing; a sender balance below `amount` gives the marker string and
      changes nothing; success also gives None. Both lookups of one id yield
      the same row, so the credit is applied to the balance the debit left:
      with equal ids the balance ends where it started. */
  method TransferFunds(db: Session, fromUserId: int, toUserId: int, amount: int) returns (r: Option<string>)
    requires db.Valid()
    modifies db
    ensures db.Valid()
    ensures r == Some(InsufficientFundsMarker) <==>
      fromUserId in old(db.users) && toUserId in old(db.users) && old(db.users[fromUserId].balance) < amount
    ensures r.Some? ==> r == Some(InsufficientFundsMarker)
    ensures var moved := fromUserId in old(db.users) && toUserId in old(db.users)
                         && old(db.users[fromUserId].balance) >= amount;
      if moved then
        && db.users == Adjust(Adjust(old(db.users), fromUserId, -amount), toUserId, amount)
        && db.log == old(db.log) + [Transaction(old(db.nextTxnId), fromUserId, amount, Transfer),
                                    Transaction(old(db.nextTxnId) + 1, toUserId, amount, Transfer)]
        && db.nextTxnId == old(db.nextTxnId) + 2
        && r == None
      else
        unchanged(db)
    ensures db.nextUserId == old(db.nextUserId)
    ensures db.Total() == old(db.Total())
    ensures old(db.RecordsReferenceUsers()) ==> db.RecordsReferenceUsers()
  {
    var fromUser := GetUserById(db, fromUserId);
    var toUser := GetUserById(db, toUserId);
    if fromUser.None? || toUser.None? {
      return None;
    }
    if fromUser.value.balance < amount {
      return Some(InsufficientFundsMarker);
    }
    ghost var before := db.users;
    ghost var debited := Adjust(before, fromUserId, -amount);
    SumUpdate(before, fromUserId, debited[fromUserId], 1, db.nextUserId);
    SumUpdate(debited, toUserId, debited[toUserId].(balance := debited[toUserId].balance + amount), 1, db.nextUserId);
    db.users := Adjust(db.users, fromUserId, -amount);
    db.users := Adjust(db.users, toUserId, amount);
    var _ := CreateTransaction(db, fromUserId, amount, Transfer);
    var _ := CreateTransaction(db, toUserId, amount, Transfer);
    r := None;
  }

  /** A completed transfer between two distinct users moves exactly `amount`
      from one to the other: their combined balance is unchanged and no other
      user is touched. */
  lemma TransferKeepsPairSum(users: map<int, User>, fromUserId: int, toUserId: int, amount: int)
    requires fromUserId in users && toUserId in users && fromUserId != toUserId
    ensures var after := Adjust(Adjust(users, fromUserId, -amount), toUserId, amount);
      && after.Keys == users.Keys
      && after[fromUserId].balance == users[fromUserId].balance - amount
      && after[toUserId].balance == users[toUserId].balance + amount
      && after[fromUserId].balance + after[toUserId].balance
         == users[fromUserId].balance + users[toUserId].balance
      && forall k :: k in users && k != fromUserId && k != toUserId ==> after[k] == users[k]
  {
  }

  /** A transfer from a user to itself leaves every balance as it was. */
  lemma SelfTransferKeepsBalances(users: map<int, User>, userId: int, amount: int)
    requires userId in users
    ensures Adjust(Adjust(users, userId, -amount), userId, amount) == users
  {
  }
}
