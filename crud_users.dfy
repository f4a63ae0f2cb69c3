/** Operations on the `users` table (app/crud/users.py). Each takes the
    database session it works on. */
module UsersCrud {
  import opened Models
  import opened Db

  /** Adds a user with the given name, the next id and the default balance.
      It does not look at the names already stored. */
  method CreateUser(db: Session, name: string) returns (u: User)
    requires db.Valid()
    modifies db
    ensures db.Valid()
    ensures u == User(old(db.nextUserId), name, DefaultBalance)
    ensures u.id !in old(db.users)
    ensures db.users == old(db.users)[u.id := u]
    ensures db.log == old(db.log) && db.nextTxnId == old(db.nextTxnId)
    ensures db.nextUserId == old(db.nextUserId) + 1
    ensures db.Total() == old(db.Total())
  {
    u := User(db.nextUserId, name, DefaultBalance);
    SumUpdate(db.users, u.id, u, 1, db.nextUserId);
    SumExtend(db.users[u.id := u], 1, db.nextUserId);
    db.users := db.users[u.id := u];
    db.nextUserId := db.nextUserId + 1;
  }

  /** The user stored under `userId`, or None. */
  function GetUserById(db: Session, userId: int): (r: Option<User>)
    reads db
    ensures r.Some? <==> userId in db.users
    ensures r.Some? ==> r.value == db.users[userId]
    ensures r.Some? && db.Valid() ==> r.value.id == userId
  {
    if userId in db.users then Some(db.users[userId]) else None
  }

  /** Sets the balance of user `userId` to `newBalance` and returns that
      user; a missing id changes nothing and gives None. */
  method UpdateUserBalance(db: Session, userId: int, newBalance: int) returns (r: Option<User>)
    requires db.Valid()
    modifies db
    ensures db.Valid()
    ensures r.Some? <==> userId in old(db.users)
    ensures r.Some? ==>
      && r.value == old(db.users[userId]).(balance := newBalance)
      && db.users == old(db.users)[userId := r.value]
      && db.Total() == old(db.Total()) - old(db.users[userId].balance) + newBalance
    ensures r.None? ==> db.users == old(db.users)
    ensures db.log == old(db.log) && db.nextUserId == old(db.nextUserId) && db.nextTxnId == old(db.nextTxnId)
  {
    var found := GetUserById(db, userId);
    if found.Some? {
      var u := found.value.(balance := newBalance);
      SumUpdate(db.users, userId, u, 1, db.nextUserId);
      db.users := db.users[userId := u];
      r := Some(u);
    } else {
      r := None;
    }
  }

  /** Removes user `userId` and returns the removed row; a missing id
      changes nothing and gives None. The records are left as they are. */
  method DeleteUser(db: Session, userId: int) returns (r: Option<User>)
    requires db.Valid()
    modifies db
    ensures db.Valid()
    ensures r.Some? <==> userId in old(db.users)
    ensures r.Some? ==>
      && r.value == old(db.users[userId])
      && db.users == old(db.users) - {userId}
      && db.Total() == old(db.Total()) - r.value.balance
    ensures r.None? ==> db.users == old(db.users)
    ensures db.log == old(db.log) && db.nextUserId == old(db.nextUserId) && db.nextTxnId == old(db.nextTxnId)
  {
    r := GetUserById(db, userId);
    if r.Some? {
      SumRemove(db.users, userId, 1, db.nextUserId);
      db.users := db.users - {userId};
    }
  }
}
