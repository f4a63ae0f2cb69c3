/** The transaction handlers (app/api/endpoints/transactions.py). Each runs
    its checks in a fixed order, so the first failing check decides the
    error, and only then calls the store operation that mutates. */
module TransactionEndpoints {
  import opened Models
  import opened Errors
  import opened Db
  import opened UsersCrud
  import opened TransactionsCrud
  import opened Validators

  /** One entry of a history answer: the record's id, amount and type. */
  datatype HistoryEntry = HistoryEntry(id: int, amount: int, kind: TransactionType)

  /** The history answer: the user asked about and that user's entries. */
  datatype UserHistory = UserHistory(userId: int, transactions: seq<HistoryEntry>)

  function Entry(t: Transaction): HistoryEntry
  {
    HistoryEntry(t.id, t.amount, t.kind)
  }

  /** InvalidAmount, checked before the store is touched; then UserNotFound
      for a missing user; otherwise the balance grows by `amount`, one
      DEPOSIT record is logged, and the new balance is answered. A failure
      leaves the store as it was. */
  method DepositFunds(db: Session, userId: int, amount: int) returns (r: Outcome<int>)
    requires db.Valid()
    modifies db
    ensures db.Valid()
    ensures amount <= 0 ==> r == Failure(InvalidAmount)
    ensures amount > 0 && userId !in old(db.users) ==> r == Failure(UserNotFound)
    ensures r.Success? <==> amount > 0 && userId in old(db.users)
    ensures r.Failure? ==> unchanged(db)
    ensures r.Success? ==>
      && r.value == old(db.users[userId].balance) + amount
      && db.users == Adjust(old(db.users), userId, amount)
      && db.log == old(db.log) + [Transaction(old(db.nextTxnId), userId, amount, Deposit)]
      && db.nextTxnId == old(db.nextTxnId) + 1
      && db.Total() == old(db.Total()) + amount
    ensures db.nextUserId == old(db.nextUserId)
    ensures old(db.BalancesNonNegative()) ==> db.BalancesNonNegative()
    ensures old(db.RecordsReferenceUsers()) ==> db.RecordsReferenceUsers()
  {
    var e := ValidatePositiveAmount(amount);
    if e.Some? {
      return Failure(e.value);
    }
    var user := DepositToUser(db, userId, amount);
    e := ValidateUserExists(user);
    if e.Some? {
      return Failure(e.value);
    }
    r := Success(user.value.balance);
  }

  /** InvalidAmount, then UserNotFound, then InsufficientFunds, all decided
      before anything is mutated; otherwise the balance drops by `amount` to
      a value that is not negative, one WITHDRAW record is logged, and the
      new balance is answered. */
  method WithdrawFunds(db: Session, userId: int, amount: int) returns (r: Outcome<int>)
    requires db.Valid()
    modifies db
    ensures db.Valid()
    ensures amount <= 0 ==> r == Failure(InvalidAmount)
    ensures amount > 0 && userId !in old(db.users) ==> r == Failure(UserNotFound)
    ensures amount > 0 && userId in old(db.users) && old(db.users[userId].balance) < amount
            ==> r == Failure(InsufficientFunds)
    ensures r.Success? <==> amount > 0 && userId in old(db.users) && old(db.users[userId].balance) >= amount
    ensures r.Failure? ==> unchanged(db)
    ensures r.Success? ==>
      && r.value == old(db.users[userId].balance) - amount
      && r.value >= 0
      && db.users == Adjust(old(db.users), userId, -amount)
      && db.log == old(db.log) + [Transaction(old(db.nextTxnId), userId, amount, Withdraw)]
      && db.nextTxnId == old(db.nextTxnId) + 1
      && db.Total() == old(db.Total()) - amount
    ensures db.nextUserId == old(db.nextUserId)
    ensures old(db.BalancesNonNegative()) ==> db.BalancesNonNegative()
    ensures old(db.RecordsReferenceUsers()) ==> db.RecordsReferenceUsers()
  {
    var e := ValidatePositiveAmount(amount);
    if e.Some? {
      return Failure(e.value);
    }
    var found := GetUserById(db, userId);
    e := ValidateUserExists(found);
    if e.Some? {
      return Failure(e.value);
    }
    e := ValidateSufficientFunds(found.value.balance, amount);
    if e.Some? {
      return Failure(e.value);
    }
    var user := WithdrawFromUser(db, userId, amount);
    r := Success(user.value.balance);
  }

  /** InvalidAmount, then SameUser (before any lookup), then
      RecipientNotFound or SenderNotFound, then InsufficientFunds. With both
      users missing the existence check passes and reading the sender's
      balance fails, which the catch-all turns into Undefined. Once every
      check passes, the store's transfer takes its mutating path: the sender
      loses `amount`, the recipient gains it, and two TRANSFER records are
      logged, the sender's first. A failure leaves the store as it was. */
  method TransferFundsBetweenUsers(db: Session, fromUserId: int, toUserId: int, amount: int)
    returns (r: Outcome<()>)
    requires db.Valid()
    modifies db
    ensures db.Valid()
    ensures amount <= 0 ==> r == Failure(InvalidAmount)
    ensures amount > 0 && fromUserId == toUserId ==> r == Failure(SameUser)
    ensures amount > 0 && fromUserId != toUserId ==>
      && (fromUserId in old(db.users) && toUserId !in old(db.users) ==> r == Failure(RecipientNotFound))
      && (fromUserId !in old(db.users) && toUserId in old(db.users) ==> r == Failure(SenderNotFound))
      && (fromUserId !in old(db.users) && toUserId !in old(db.users) ==> r == Failure(Undefined))
      && (fromUserId in old(db.users) && toUserId in old(db.users) && old(db.users[fromUserId].balance) < amount
          ==> r == Failure(InsufficientFunds))
    ensures r.Success? <==>
      && amount > 0 && fromUserId != toUserId
      && fromUserId in old(db.users) && toUserId in old(db.users)
      && old(db.users[fromUserId].balance) >= amount
    ensures r.Failure? ==> unchanged(db)
    ensures r.Success? ==>
      && db.users == Adjust(Adjust(old(db.users), fromUserId, -amount), toUserId, amount)
      && db.users[fromUserId].balance == old(db.users[fromUserId].balance) - amount >= 0
      && db.users[toUserId].balance == old(db.users[toUserId].balance) + amount
      && db.log == old(db.log) + [Transaction(old(db.nextTxnId), fromUserId, amount, Transfer),
                                  Transaction(old(db.nextTxnId) + 1, toUserId, amount, Transfer)]
      && db.nextTxnId == old(db.nextTxnId) + 2
    ensures db.Total() == old(db.Total())
    ensures db.nextUserId == old(db.nextUserId)
    ensures old(db.BalancesNonNegative()) ==> db.BalancesNonNegative()
    ensures old(db.RecordsReferenceUsers()) ==> db.RecordsReferenceUsers()
  {
    var e := ValidatePositiveAmount(amount);
    if e.Some? {
      return Failure(e.value);
    }
    e := ValidateTransferUsers(fromUserId, toUserId);
    if e.Some? {
      return Failure(e.value);
    }
    var fromUser := GetUserById(db, fromUserId);
    var toUser := GetUserById(db, toUserId);
    e := ValidateUsersExist(fromUser, toUser);
    if e.Some? {
      return Failure(e.value);
    }
    if fromUser.None? {
      // `from_user.balance` on a missing sender raises; the generic handler answers.
      return Failure(Undefined);
    }
    e := ValidateSufficientFunds(fromUser.value.balance, amount);
    if e.Some? {
      return Failure(e.value);
    }
    // The handler ignores what the store's transfer returns; past the checks
    // above it is always the None of the mutating path.
    var status := TransferFunds(db, fromUserId, toUserId, amount);
    assert status == None && |db.log| == |old(db.log)| + 2;
    r := Success(());
  }

  /** UserNotFound for a missing user; otherwise one entry per record of that
      user, in the order the query returned them, each copying the record's
      id, amount and type. Only reads the store. The query has no ORDER BY,
      so the order is the database's choice: `records` is what it answered,
      any arrangement of that user's records. */
  function ReadUserTransactions(db: Session, userId: int, records: seq<Transaction>): (r: Outcome<UserHistory>)
    requires multiset(records) == multiset(UserTransactions(db.log, userId))
    reads db
    ensures r.Failure? <==> userId !in db.users
    ensures r.Failure? ==> r.error == UserNotFound
    ensures r.Success? ==>
      && r.value.userId == userId
      && |r.value.transactions| == |records|
      && forall i :: 0 <= i < |records| ==> r.value.transactions[i] == Entry(records[i])
    ensures r.Success? ==> forall e :: e in r.value.transactions <==>
      exists t :: t in db.log && t.userId == userId && Entry(t) == e
  {
    var found := GetUserById(db, userId);
    match ValidateUserExists(found)
    case Some(e) => Failure(e)
    case None =>
      var entries := seq(|records|, i requires 0 <= i < |records| => Entry(records[i]));
      assert forall t :: t in records <==> t in UserTransactions(db.log, userId) by {
        forall t ensures t in records <==> t in UserTransactions(db.log, userId) {
          assert t in records <==> t in multiset(records);
        }
      }
      Success(UserHistory(userId, entries))
  }
}
