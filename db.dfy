/** The database the handlers talk to through a session: the `users` table,
    the `transactions` table in insertion order, and the two id sequences.
    The Python code mutates ORM rows in place and adds rows to the session;
    here the session object's fields are reassigned instead. */
module Db {
  import opened Models

  class Session {
    var users: map<int, User>
    var log: seq<Transaction>
    var nextUserId: int
    var nextTxnId: int

    /** Primary keys: each user is stored under its own id, ids come from
        sequences starting at 1, and record ids grow in insertion order. */
    ghost predicate Valid()
      reads this
    {
      && 1 <= nextUserId
      && 1 <= nextTxnId
      && (forall k :: k in users ==> users[k].id == k && 1 <= k < nextUserId)
      && (forall i :: 0 <= i < |log| ==> 1 <= log[i].id < nextTxnId)
      && IdsIncreasing(log)
    }

    /** No stored balance is negative. */
    ghost predicate BalancesNonNegative()
      reads this
    {
      forall k :: k in users ==> users[k].balance >= 0
    }

    /** No two stored users share a name. */
    ghost predicate NamesDistinct()
      reads this
    {
      forall a, b :: a in users && b in users && users[a].name == users[b].name ==> a == b
    }

    /** Every record's user_id names a stored user (the foreign key). */
    ghost predicate RecordsReferenceUsers()
      reads this
    {
      forall i :: 0 <= i < |log| ==> log[i].userId in users
    }

    /** The money held by all stored users together (under Valid(), every
        user id lies in [1, nextUserId)). */
    ghost function Total(): int
      reads this
    {
      BalanceSum(users, 1, nextUserId)
    }

    /** The names held by stored users. */
    ghost function Names(): set<string>
      reads this
    {
      set k | k in users :: users[k].name
    }

    /** An empty database with fresh id sequences. */
    constructor ()
      ensures Valid() && BalancesNonNegative() && NamesDistinct() && RecordsReferenceUsers()
      ensures users == map[] && log == [] && nextUserId == 1 && nextTxnId == 1
    {
      users := map[];
      log := [];
      nextUserId := 1;
      nextTxnId := 1;
    }
  }

  /** `users` with the balance of user `id` changed by `delta`; what an
      in-place `balance += delta` on that row does. */
  function Adjust(users: map<int, User>, id: int, delta: int): (r: map<int, User>)
    requires id in users
    ensures r.Keys == users.Keys
    ensures r[id].id == users[id].id && r[id].name == users[id].name
    ensures r[id].balance == users[id].balance + delta
    ensures forall k :: k in users && k != id ==> r[k] == users[k]
  {
    users[id := users[id].(balance := users[id].balance + delta)]
  }

  /** The money held by the users whose ids lie in [lo, hi). */
  ghost function BalanceSum(users: map<int, User>, lo: int, hi: int): int
    decreases hi - lo
  {
    if hi <= lo then 0
    else Held(users, lo) + BalanceSum(users, lo + 1, hi)
  }

  /** The balance user `id` contributes to a sum: zero when there is no such user. */
  ghost function Held(users: map<int, User>, id: int): int
  {
    if id in users then users[id].balance else 0
  }

  /** Storing `u` under `id` replaces that id's contribution by `u.balance`. */
  lemma {:induction false} SumUpdate(users: map<int, User>, id: int, u: User, lo: int, hi: int)
    ensures BalanceSum(users[id := u], lo, hi)
         == BalanceSum(users, lo, hi) + (if lo <= id < hi then u.balance - Held(users, id) else 0)
    decreases hi - lo
  {
    if lo < hi {
      SumUpdate(users, id, u, lo + 1, hi);
    }
  }

  /** Removing user `id` takes away its contribution. */
  lemma {:induction false} SumRemove(users: map<int, User>, id: int, lo: int, hi: int)
    ensures BalanceSum(users - {id}, lo, hi)
         == BalanceSum(users, lo, hi) - (if lo <= id < hi then Held(users, id) else 0)
    decreases hi - lo
  {
    if lo < hi {
      SumRemove(users, id, lo + 1, hi);
    }
  }

  /** Widening the range by one id adds that id's contribution. */
  lemma {:induction false} SumExtend(users: map<int, User>, lo: int, hi: int)
    requires lo <= hi
    ensures BalanceSum(users, lo, hi + 1) == BalanceSum(users, lo, hi) + Held(users, hi)
    decreases hi - lo
  {
    if lo < hi {
      SumExtend(users, lo + 1, hi);
    }
  }
}
