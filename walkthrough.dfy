/** A client of the handlers: the alice-and-bob session, checked against
    the handlers' contracts alone. */
module Walkthrough {
  import opened Models
  import opened Errors
  import opened Db
  import opened UserEndpoints
  import opened TransactionEndpoints

  method AliceAndBob()
  {
    var db := new Session();
    var alice := CreateNewUser(db, "alice");
    assert alice.Success?;
    var a := alice.value.id;
    assert db.users[a].balance == 0;

    var rejected := DepositFunds(db, a, -5);
    assert rejected == Failure(InvalidAmount) && db.log == [];

    var deposited := DepositFunds(db, a, 100);
    assert deposited == Success(100) && |db.log| == 1;
    assert db.log[0].userId == a && db.log[0].amount == 100 && db.log[0].kind == Deposit;

    var withdrawn := WithdrawFunds(db, a, 30);
    assert withdrawn == Success(70) && |db.log| == 2;
    assert db.log[1].amount == 30 && db.log[1].kind == Withdraw;

    var overdraw := WithdrawFunds(db, a, 71);
    assert overdraw == Failure(InsufficientFunds) && db.users[a].balance == 70;
    assert db.users[a].name == "alice" && db.users.Keys == {a} && db.nextUserId == 2;
    AliceAndBobTransfer(db, a);
  }

  /** Continues the session once alice holds 70 and has two records. */
  method AliceAndBobTransfer(db: Session, a: int)
    requires db.Valid() && db.users.Keys == {a} && db.nextUserId <= 10 && |db.log| == 2
    requires db.users[a].balance == 70 && db.users[a].name == "alice"
    modifies db
  {
    assert "bob" !in db.Names();
    var bob := CreateNewUser(db, "bob");
    assert bob.Success?;
    var b := bob.value.id;
    assert a != b && db.users[b].balance == 0;

    var self := TransferFundsBetweenUsers(db, a, a, 10);
    assert self == Failure(SameUser);

    var moved := TransferFundsBetweenUsers(db, a, b, 50);
    assert moved.Success?;
    assert db.users[a].balance == 20 && db.users[b].balance == 50;
    assert |db.log| == 4;
    assert db.log[2].userId == a && db.log[2].amount == 50 && db.log[2].kind == Transfer;
    assert db.log[3].userId == b && db.log[3].amount == 50 && db.log[3].kind == Transfer;

    var again := CreateNewUser(db, "alice");
    assert again == Failure(AlreadyExists);

    var ghosts := TransferFundsBetweenUsers(db, 1000, 1001, 5);
    assert 1000 !in db.users && 1001 !in db.users;
    assert ghosts == Failure(Undefined);
  }
}
