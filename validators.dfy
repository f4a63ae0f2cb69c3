/** The request checks the handlers run before touching the store
    (app/api/validators.py). Each yields the error kind it would raise, or
    None when the check passes. `None` for a user stands for a failed lookup. */
module Validators {
  import opened Models
  import opened Errors
  import opened Db

  /** Fails with UserNotFound exactly when the lookup found nobody. */
  function ValidateUserExists(user: Option<User>): (r: Option<ErrorKind>)
    ensures r.Some? <==> user.None?
    ensures r.Some? ==> r.value == UserNotFound
  {
    if user.None? then Some(UserNotFound) else None
  }

  /** Fails with AlreadyExists exactly when some stored user has this name.
      It only reads the store. */
  function ValidateUserDoesNotExist(db: Session, name: string): (r: Option<ErrorKind>)
    reads db
    ensures r.Some? <==> name in db.Names()
    ensures r.Some? ==> r.value == AlreadyExists
  {
    if exists k :: k in db.users && db.users[k].name == name then Some(AlreadyExists) else None
  }

  /** Fails with InvalidAmount exactly when the amount is not above zero;
      zero is rejected. */
  function ValidatePositiveAmount(amount: int): (r: Option<ErrorKind>)
    ensures r.Some? <==> amount <= 0
    ensures r.Some? ==> r.value == InvalidAmount
  {
    if amount <= 0 then Some(InvalidAmount) else None
  }

  /** Fails with InsufficientFunds exactly when the balance is below the
      amount; a balance equal to the amount passes. */
  function ValidateSufficientFunds(balance: int, amount: int): (r: Option<ErrorKind>)
    ensures r.Some? <==> balance < amount
    ensures r.Some? ==> r.value == InsufficientFunds
  {
    if balance < amount then Some(InsufficientFunds) else None
  }

  /** Fails with SameUser exactly when sender and recipient ids coincide. */
  function ValidateTransferUsers(fromUserId: int, toUserId: int): (r: Option<ErrorKind>)
    ensures r.Some? <==> fromUserId == toUserId
    ensures r.Some? ==> r.value == SameUser
  {
    if fromUserId == toUserId then Some(SameUser) else None
  }

  /** Fails with RecipientNotFound when only the recipient is missing and
      with SenderNotFound when only the sender is missing. When both are
      missing neither branch applies and the check passes. */
  function ValidateUsersExist(fromUser: Option<User>, toUser: Option<User>): (r: Option<ErrorKind>)
    ensures r == Some(RecipientNotFound) <==> fromUser.Some? && toUser.None?
    ensures r == Some(SenderNotFound) <==> fromUser.None? && toUser.Some?
    ensures r.None? <==> (fromUser.Some? <==> toUser.Some?)
    ensures fromUser.None? && toUser.None? ==> r.None?
  {
    if fromUser.Some? && toUser.None? then Some(RecipientNotFound)
    else if fromUser.None? && toUser.Some? then Some(SenderNotFound)
    else None
  }
}
