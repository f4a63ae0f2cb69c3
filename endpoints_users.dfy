/** The user handlers (app/api/endpoints/users.py): creation behind the
    duplicate-name check, and lookup. */
module UserEndpoints {
  import opened Models
  import opened Errors
  import opened Db
  import opened UsersCrud
  import opened Validators

  /** Rejects a name some user already holds and creates nothing; otherwise
      creates exactly one user with that name and a zero balance. Names that
      were distinct stay distinct. */
  method CreateNewUser(db: Session, name: string) returns (r: Outcome<User>)
    requires db.Valid()
    modifies db
    ensures db.Valid()
    ensures r.Failure? <==> name in old(db.Names())
    ensures r.Failure? ==>
      && r.error == AlreadyExists
      && db.users == old(db.users) && db.nextUserId == old(db.nextUserId)
    ensures r.Success? ==>
      && r.value == User(old(db.nextUserId), name, DefaultBalance)
      && r.value.id !in old(db.users)
      && db.users == old(db.users)[r.value.id := r.value]
      && db.nextUserId == old(db.nextUserId) + 1
    ensures db.log == old(db.log) && db.nextTxnId == old(db.nextTxnId)
    ensures db.Total() == old(db.Total())
    ensures old(db.NamesDistinct()) ==> db.NamesDistinct()
    ensures old(db.BalancesNonNegative()) ==> db.BalancesNonNegative()
    ensures old(db.RecordsReferenceUsers()) ==> db.RecordsReferenceUsers()
  {
    var e := ValidateUserDoesNotExist(db, name);
    if e.Some? {
      return Failure(e.value);
    }
    var u := CreateUser(db, name);
    r := Success(u);
  }

  /** The stored user, or UserNotFound; only reads the store. */
  function ReadUser(db: Session, userId: int): (r: Outcome<User>)
    reads db
    ensures r.Success? <==> userId in db.users
    ensures r.Success? ==> r.value == db.users[userId]
    ensures r.Failure? ==> r.error == UserNotFound
  {
    var found := GetUserById(db, userId);
    match ValidateUserExists(found)
    case Some(e) => Failure(e)
    case None => Success(found.value)
  }
}
