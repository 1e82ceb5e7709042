/**
 The lock of a table of counters, and the two ways of taking it. Between two
 tests of the lock other threads may take it or give it back: `others(k)` says
 whether they hold it at the k-th test.
 */
module Locks {
  import opened CounterProtocol

  class Mutex {
    var inUse: bool
    /** How often this thread has tested the lock. */
    ghost var tests: nat

    constructor ()
      ensures !inUse && tests == 0
    {
      inUse, tests := false, 0;
    }

    /** Tests and sets. */
    method Acquire() returns (ok: bool)
      modifies this
      ensures inUse && ok == !old(inUse) && tests == old(tests) + 1
    {
      ok := !inUse;
      inUse := true;
      tests := tests + 1;
    }

    method Release()
      modifies this`inUse
      ensures !inUse
    {
      inUse := false;
    }

    /** What other threads do between two tests. */
    method Interfere(held: bool)
      modifies this`inUse
      ensures inUse == held
    {
      inUse := held;
    }
  }

  class Lock {
    const m: Mutex
    /** The test that took the lock. */
    ghost var taken: nat

    /** Spins; if the lock is ever free at a test, it takes it at the first such test. */
    constructor (m: Mutex, others: nat -> bool, ghost free: nat)
      requires !others(free)
      modifies m
      ensures this.m == m && m.inUse
      ensures m.tests == old(m.tests) + taken + 1
      ensures taken <= free && !others(taken) && forall j: nat :: j < taken ==> others(j)
    {
      this.m := m;
      new;
      var k := 0;
      m.Interfere(others(0));
      var ok := m.Acquire();
      while !ok
        invariant m.inUse && m.tests == old(m.tests) + k + 1 && k <= free && ok == !others(k)
        invariant forall j: nat :: j < k ==> others(j)
        decreases free - k
      {
        k := k + 1;
        m.Interfere(others(k));
        ok := m.Acquire();
      }
      taken := k;
    }

    method Unlock()
      modifies m`inUse
      ensures !m.inUse
    {
      m.Release();
    }
  }

  class TryLock {
    const m: Mutex
    var locked: bool

    /** Tests at most 99 times, and is locked exactly if one of the tests found the lock free. */
    constructor (m: Mutex, others: nat -> bool)
      modifies m
      ensures this.m == m && m.tests < old(m.tests) + RETRIES
      ensures locked <==> exists k: nat :: k < RETRIES - 1 && !others(k)
      ensures locked ==> m.inUse
    {
      this.m := m;
      locked := false;
      new;
      var retry, k: nat := RETRIES, 0;
      var acquired := false;
      while !acquired && retry - 1 != 0
        invariant !locked && 1 <= retry <= RETRIES && k == RETRIES - retry && m.tests == old(m.tests) + k
        invariant acquired ==> m.inUse && k > 0 && !others(k - 1) && k <= RETRIES - 1
        invariant !acquired ==> forall j: nat :: j < k ==> others(j)
        decreases retry, !acquired
      {
        retry := retry - 1;
        m.Interfere(others(k));
        acquired := m.Acquire();
        k := k + 1;
      }
      if acquired {
        ghost var test: nat := k - 1;
        assert test < RETRIES - 1 && !others(test);
      } else {
        retry := retry - 1;
      }
      if retry != 0 { locked := true; }
    }

    method Unlock()
      modifies m`inUse
      ensures old(locked) ==> !m.inUse
      ensures !old(locked) ==> m.inUse == old(m.inUse)
    {
      if locked { m.Release(); }
    }
  }
}
