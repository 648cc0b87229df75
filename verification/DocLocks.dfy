/** The table of per-document mutexes: one for each id ever asked for, never evicted. */
module DocLocks {
  class Mutex {
    constructor () {}
  }

  class LockTable {
    var locks: map<string, Mutex>

    /** No two ids share a mutex. */
    ghost predicate Valid()
      reads this
    {
      forall i, j | i in locks && j in locks && i != j :: locks[i] != locks[j]
    }

    constructor ()
      ensures Valid() && locks == map[]
    {
      locks := map[];
    }

    /** Every caller of one id gets the same mutex for ever; callers of different ids never share one. */
    method LockDocument(id: string) returns (m: Mutex)
      requires Valid()
      modifies this
      ensures Valid()
      ensures id in locks && locks[id] == m
      ensures locks.Keys == old(locks.Keys) + {id}
      ensures forall k | k in old(locks) :: locks[k] == old(locks)[k]
      ensures id !in old(locks) ==> fresh(m)
    {
      if id !in locks {
        var created := new Mutex();
        locks := locks[id := created];
      }
      m := locks[id];
    }

    /** Any number of calls in any order: equal ids are given equal mutexes, different ids different ones. */
    method LockAll(ids: seq<string>) returns (ms: seq<Mutex>)
      requires Valid()
      modifies this
      ensures Valid() && |ms| == |ids|
      ensures forall i, j | 0 <= i < |ids| && 0 <= j < |ids| :: ms[i] == ms[j] <==> ids[i] == ids[j]
      ensures forall i | 0 <= i < |ids| && ids[i] in old(locks) :: ms[i] == old(locks)[ids[i]]
    {
      ms := [];
      for n := 0 to |ids|
        invariant Valid() && |ms| == n
        invariant forall i | 0 <= i < n :: ids[i] in locks && locks[ids[i]] == ms[i]
        invariant forall k | k in old(locks) :: k in locks && locks[k] == old(locks)[k]
      {
        var m := LockDocument(ids[n]);
        ms := ms + [m];
      }
    }
  }
}
