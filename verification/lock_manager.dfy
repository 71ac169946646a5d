/**
 * The lock table: a map from object identifier to the lock held on it.
 * Nothing here is concurrent; acquiring a lock is a test-and-update of the map.
 */
module LockManagement {

  datatype Lock = Shared(holders: nat) | Exclusive

  type LockTable = map<nat, Lock>

  /** The outcome of an acquire: whether it was granted, and the table afterwards. */
  datatype Attempt = Attempt(granted: bool, locks: LockTable)

  /** No stored entry is a shared lock with no holders. */
  ghost predicate NoIdleShared(locks: LockTable) {
    forall id :: id in locks ==> locks[id] != Shared(0)
  }

  /** Number of shared holders of `id` (0 when absent or exclusive). */
  function SharedHolders(locks: LockTable, id: nat): nat {
    if id in locks && locks[id].Shared? then locks[id].holders else 0
  }

  /** `lock_shared`: fails iff `id` is held exclusively; otherwise one more shared holder. */
  function LockSharedOn(locks: LockTable, id: nat): (r: Attempt)
    ensures !r.granted <==> id in locks && locks[id] == Exclusive
    ensures !r.granted ==> r.locks == locks
    ensures r.granted ==> r.locks == locks[id := Shared(SharedHolders(locks, id) + 1)]
  {
    if id in locks then
      match locks[id]
      case Exclusive => Attempt(false, locks)
      case Shared(n) => Attempt(true, locks[id := Shared(n + 1)])
    else
      Attempt(true, locks[id := Shared(1)])
  }

  /** `lock_exclusive`: fails iff any lock is held on `id`; otherwise stores `Exclusive`. */
  function LockExclusiveOn(locks: LockTable, id: nat): (r: Attempt)
    ensures r.granted <==> id !in locks
    ensures !r.granted ==> r.locks == locks
    ensures r.granted ==> r.locks == locks[id := Exclusive]
  {
    if id in locks then Attempt(false, locks) else Attempt(true, locks[id := Exclusive])
  }

  /** `unlock`: drops one shared holder, or removes the entry for the last holder or an exclusive lock. */
  function UnlockOn(locks: LockTable, id: nat): (r: LockTable)
    ensures id in locks && locks[id].Shared? && locks[id].holders > 1 ==>
              r == locks[id := Shared(locks[id].holders - 1)]
    ensures !(id in locks && locks[id].Shared? && locks[id].holders > 1) ==> r == locks - {id}
  {
    if id in locks && locks[id].Shared? && locks[id].holders > 1 then
      locks[id := Shared(locks[id].holders - 1)]
    else
      locks - {id}
  }

  /** Every operation keeps the table free of idle shared entries and touches only its own identifier. */
  lemma OperationsKeepInvariant(locks: LockTable, id: nat, other: nat)
    requires NoIdleShared(locks)
    requires other != id
    ensures NoIdleShared(LockSharedOn(locks, id).locks)
    ensures NoIdleShared(LockExclusiveOn(locks, id).locks)
    ensures NoIdleShared(UnlockOn(locks, id))
    ensures other in LockSharedOn(locks, id).locks <==> other in locks
    ensures other in LockExclusiveOn(locks, id).locks <==> other in locks
    ensures other in UnlockOn(locks, id) <==> other in locks
    ensures other in locks ==>
              LockSharedOn(locks, id).locks[other] == locks[other] &&
              LockExclusiveOn(locks, id).locks[other] == locks[other] &&
              UnlockOn(locks, id)[other] == locks[other]
  {
  }

  /** A granted shared lock followed by an unlock restores the table. */
  lemma UnlockUndoesLockShared(locks: LockTable, id: nat)
    requires NoIdleShared(locks)
    requires LockSharedOn(locks, id).granted
    ensures UnlockOn(LockSharedOn(locks, id).locks, id) == locks
  {
    var after := UnlockOn(LockSharedOn(locks, id).locks, id);
    if id in locks {
      assert locks[id].Shared? && locks[id].holders >= 1;
      assert after == locks[id := Shared(locks[id].holders)];
    } else {
      assert after.Keys == locks.Keys;
    }
  }

  /** A granted exclusive lock followed by an unlock restores the table. */
  lemma UnlockUndoesLockExclusive(locks: LockTable, id: nat)
    requires LockExclusiveOn(locks, id).granted
    ensures UnlockOn(LockExclusiveOn(locks, id).locks, id) == locks
  {
    assert UnlockOn(LockExclusiveOn(locks, id).locks, id).Keys == locks.Keys;
  }

  /** The table after `n` shared acquisitions of `id`. */
  function SharedTimes(locks: LockTable, id: nat, n: nat): LockTable {
    if n == 0 then locks else LockSharedOn(SharedTimes(locks, id, n - 1), id).locks
  }

  /** The table after `n` unlocks of `id`. */
  function UnlockTimes(locks: LockTable, id: nat, n: nat): LockTable {
    if n == 0 then locks else UnlockOn(UnlockTimes(locks, id, n - 1), id)
  }

  lemma {:induction false} SharedTimesCounts(locks: LockTable, id: nat, n: nat)
    requires id !in locks
    ensures n > 0 ==> SharedTimes(locks, id, n) == locks[id := Shared(n)]
    ensures n == 0 ==> SharedTimes(locks, id, n) == locks
  {
    if n > 1 {
      SharedTimesCounts(locks, id, n - 1);
    }
  }

  lemma {:induction false} UnlockTimesCounts(locks: LockTable, id: nat, n: nat, j: nat)
    requires id !in locks && 0 < n && j <= n
    ensures j < n ==> UnlockTimes(locks[id := Shared(n)], id, j) == locks[id := Shared(n - j)]
    ensures j == n ==> UnlockTimes(locks[id := Shared(n)], id, j) == locks
  {
    if j > 0 {
      UnlockTimesCounts(locks, id, n, j - 1);
      if j == n {
        assert UnlockTimes(locks[id := Shared(n)], id, j) == locks[id := Shared(1)] - {id};
        assert (locks[id := Shared(1)] - {id}).Keys == locks.Keys;
      }
    }
  }

  /**
   * After `n` shared acquisitions of a free identifier, every exclusive attempt fails
   * until `n` unlocks have been made, and then it succeeds; each shared acquisition
   * along the way is granted.
   */
  lemma SharedHoldersBlockExclusive(locks: LockTable, id: nat, n: nat, j: nat)
    requires id !in locks && 0 < n && j <= n
    ensures LockSharedOn(SharedTimes(locks, id, j), id).granted
    ensures !LockExclusiveOn(SharedTimes(locks, id, n), id).granted
    ensures LockExclusiveOn(UnlockTimes(SharedTimes(locks, id, n), id, j), id).granted <==> j == n
  {
    SharedTimesCounts(locks, id, j);
    SharedTimesCounts(locks, id, n);
    UnlockTimesCounts(locks, id, n, j);
  }

  class LockManager {
    var locks: LockTable

    ghost predicate Valid()
      reads this
    {
      NoIdleShared(locks)
    }

    /** `LockManager::new`: no locks held. */
    constructor ()
      ensures Valid() && locks == map[]
    {
      locks := map[];
    }

    method LockShared(id: nat) returns (ok: bool)
      requires Valid()
      modifies this
      ensures Valid()
      ensures Attempt(ok, locks) == LockSharedOn(old(locks), id)
    {
      if id in locks {
        match locks[id]
        case Exclusive =>
          ok := false;
        case Shared(n) =>
          locks := locks[id := Shared(n + 1)];
          ok := true;
      } else {
        locks := locks[id := Shared(1)];
        ok := true;
      }
      OperationsKeepInvariant(old(locks), id, id + 1);
    }

    method LockExclusive(id: nat) returns (ok: bool)
      requires Valid()
      modifies this
      ensures Valid()
      ensures Attempt(ok, locks) == LockExclusiveOn(old(locks), id)
    {
      if id in locks {
        return false;
      }
      locks := locks[id := Exclusive];
      ok := true;
    }

    method Unlock(id: nat)
      requires Valid()
      modifies this
      ensures Valid()
      ensures locks == UnlockOn(old(locks), id)
    {
      if id in locks && locks[id].Shared? {
        var n := locks[id].holders;
        if n > 1 {
          locks := locks[id := Shared(n - 1)];
          return;
        }
      }
      locks := locks - {id};
    }
  }
}
