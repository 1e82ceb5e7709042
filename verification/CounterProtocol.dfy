/**
 Threads that count indirect calls: every call site has a table of targets
 with a lock of its own, and any number of threads interleave their steps.
 */
module CounterProtocol {
  import opened Wrappers

  /**
   Where a thread is in a call that counts `target` at `site`. The increment
   is a load and a store. In conservative mode threads spin for the lock,
   otherwise they try a limited number of times.
   */
  datatype Thread =
    | Idle
    | Spinning(site: nat, target: nat)
    | Trying(site: nat, target: nat, retry: nat, attempts: nat)
    | Entered(site: nat, target: nat)
    | Loaded(site: nat, target: nat, value: nat)
    | Stored(site: nat)

  /** A target at a site. */
  type Key = (nat, nat)

  /** `inUse` is the lock of every site; `owner`, `calls`, `locked` and `dropped` say what has happened. */
  datatype State = State(
    conservative: bool,
    threads: seq<Thread>,
    inUse: nat -> bool,
    tables: map<Key, nat>,
    owner: nat -> Option<nat>,
    calls: Key -> nat,
    locked: Key -> nat,
    dropped: Key -> nat)

  const RETRIES: nat := 100

  /** A table's value; none counts as zero. */
  function Value(s: State, k: Key): nat { if k in s.tables then s.tables[k] else 0 }

  function Bump(f: Key -> nat, k: Key): Key -> nat { x => if x == k then f(x) + 1 else f(x) }

  function Set<T>(f: nat -> T, i: nat, v: T): nat -> T { (x: nat) => if x == i then v else f(x) }

  /** Thread `t` calls a target at a site, or takes its next step. */
  datatype Action = Call(t: nat, site: nat, target: nat) | Advance(t: nat)

  function With(s: State, t: nat, th: Thread): State
    requires t < |s.threads|
  {
    s.(threads := s.threads[t := th])
  }

  /** Testing and setting the lock, which has to be free. */
  function Enter(s: State, t: nat, site: nat, target: nat): State
    requires t < |s.threads|
  {
    With(s, t, Entered(site, target)).(
      inUse := Set(s.inUse, site, true), owner := Set(s.owner, site, Some(t)), locked := Bump(s.locked, (site, target)))
  }

  /** One step; one that is not possible changes nothing. */
  function Next(s: State, a: Action): State {
    if a.t >= |s.threads| then s
    else
      match a
      case Call(t, site, target) =>
        if s.threads[t].Idle? then
          With(s, t, if s.conservative then Spinning(site, target) else Trying(site, target, RETRIES, 0)).(
            calls := Bump(s.calls, (site, target)))
        else s
      case Advance(t) => Advanced(s, t)
  }

  function Advanced(s: State, t: nat): State
    requires t < |s.threads|
  {
    match s.threads[t]
    case Idle => s
    case Spinning(site, target) => if s.inUse(site) then s else Enter(s, t, site, target)
    case Trying(site, target, retry, attempts) =>
      if retry <= 1 then With(s, t, Idle).(dropped := Bump(s.dropped, (site, target)))
      else if s.inUse(site) then With(s, t, Trying(site, target, retry - 1, attempts + 1))
      else Enter(s, t, site, target)
    case Entered(site, target) =>
      var k := (site, target);
      With(s, t, Loaded(site, target, Value(s, k))).(tables := s.tables[k := Value(s, k)])
    case Loaded(site, target, value) =>
      With(s, t, Stored(site)).(tables := s.tables[(site, target) := value + 1])
    case Stored(site) =>
      With(s, t, Idle).(inUse := Set(s.inUse, site, false), owner := Set(s.owner, site, None))
  }

  function Run(s: State, actions: seq<Action>): State {
    if actions == [] then s else Next(Run(s, actions[..|actions| - 1]), actions[|actions| - 1])
  }

  function Initial(conservative: bool, threads: nat): State {
    State(conservative, seq(threads, _ => Idle), _ => false, map[], _ => None, _ => 0, _ => 0, _ => 0)
  }

  // ---------- The invariant ----------

  /** The table a thread is inside, if any. */
  function Inside(th: Thread): Option<nat> {
    match th
    case Entered(site, _) => Some(site)
    case Loaded(site, _, _) => Some(site)
    case Stored(site) => Some(site)
    case _ => None
  }

  /** Threads that count `k` and wait for the lock, and those that have it and have not stored yet. */
  predicate Waits(th: Thread, k: Key) { (th.Spinning? || th.Trying?) && (th.site, th.target) == k }

  predicate Holds(th: Thread, k: Key) { (th.Entered? || th.Loaded?) && (th.site, th.target) == k }

  function Waiting(threads: seq<Thread>, k: Key): nat {
    if threads == [] then 0
    else Waiting(threads[..|threads| - 1], k) + if Waits(threads[|threads| - 1], k) then 1 else 0
  }

  function Holding(threads: seq<Thread>, k: Key): nat {
    if threads == [] then 0
    else Holding(threads[..|threads| - 1], k) + if Holds(threads[|threads| - 1], k) then 1 else 0
  }

  /** A lock is taken exactly while the thread that owns it is inside. */
  predicate SiteRight(threads: seq<Thread>, inUse: nat -> bool, owner: nat -> Option<nat>, site: nat) {
    match owner(site)
    case None => !inUse(site)
    case Some(t) => inUse(site) && t < |threads| && Inside(threads[t]) == Some(site)
  }

  ghost predicate LocksRight(threads: seq<Thread>, inUse: nat -> bool, owner: nat -> Option<nat>) {
    && (forall site: nat :: SiteRight(threads, inUse, owner, site))
    && (forall t: nat :: t < |threads| && Inside(threads[t]).Some? ==> owner(Inside(threads[t]).value) == Some(t))
  }

  /** What a thread has loaded is still the value; attempts and retries add up. */
  predicate ThreadRight(s: State, th: Thread) {
    match th
    case Idle => true
    case Spinning(_, _) => s.conservative
    case Trying(_, _, retry, attempts) => !s.conservative && 0 < retry && retry + attempts == RETRIES
    case Loaded(site, target, value) => value == Value(s, (site, target))
    case _ => true
  }

  ghost predicate ThreadsRight(s: State) {
    forall t: nat :: t < |s.threads| ==> ThreadRight(s, s.threads[t])
  }

  /** Every call has been counted, has been dropped, or is under way. */
  predicate KeyRight(s: State, k: Key) {
    && s.locked(k) == Value(s, k) + Holding(s.threads, k)
    && s.calls(k) == s.locked(k) + s.dropped(k) + Waiting(s.threads, k)
    && (s.conservative ==> s.dropped(k) == 0)
  }

  ghost predicate CountsRight(s: State) { forall k: Key :: KeyRight(s, k) }

  ghost predicate Inv(s: State) { LocksRight(s.threads, s.inUse, s.owner) && ThreadsRight(s) && CountsRight(s) }

  lemma {:induction false} WaitingUpdate(threads: seq<Thread>, k: Key, t: nat, th: Thread)
    requires t < |threads|
    ensures Waiting(threads[t := th], k) + (if Waits(threads[t], k) then 1 else 0) ==
            Waiting(threads, k) + (if Waits(th, k) then 1 else 0)
  {
    var n := |threads| - 1;
    if t < n {
      WaitingUpdate(threads[..n], k, t, th);
      assert threads[t := th][..n] == threads[..n][t := th];
    } else {
      assert threads[t := th][..n] == threads[..n];
    }
  }

  lemma {:induction false} HoldingUpdate(threads: seq<Thread>, k: Key, t: nat, th: Thread)
    requires t < |threads|
    ensures Holding(threads[t := th], k) + (if Holds(threads[t], k) then 1 else 0) ==
            Holding(threads, k) + (if Holds(th, k) then 1 else 0)
  {
    var n := |threads| - 1;
    if t < n {
      HoldingUpdate(threads[..n], k, t, th);
      assert threads[t := th][..n] == threads[..n][t := th];
    } else {
      assert threads[t := th][..n] == threads[..n];
    }
  }

  lemma InitialInv(conservative: bool, threads: nat)
    ensures Inv(Initial(conservative, threads))
  {
    var s := Initial(conservative, threads);
    forall k: Key ensures Holding(s.threads, k) == 0 && Waiting(s.threads, k) == 0 {
      AllIdle(s.threads, k);
    }
  }

  lemma {:induction false} AllIdle(threads: seq<Thread>, k: Key)
    requires forall t :: 0 <= t < |threads| ==> threads[t] == Idle
    ensures Holding(threads, k) == 0 && Waiting(threads, k) == 0
  {
    if threads != [] { AllIdle(threads[..|threads| - 1], k); }
  }

  /** What one step changes for a key: the counts, and the thread that made it. */
  lemma KeyMoves(s: State, s': State, k: Key, t: nat)
    requires KeyRight(s, k) && t < |s.threads| == |s'.threads| && s'.threads == s.threads[t := s'.threads[t]]
    requires s'.conservative == s.conservative
    requires var th, th' := s.threads[t], s'.threads[t];
             && s'.locked(k) - s.locked(k) ==
                Value(s', k) - Value(s, k) + (if Holds(th', k) then 1 else 0) - (if Holds(th, k) then 1 else 0)
             && s'.calls(k) - s.calls(k) == s'.locked(k) - s.locked(k) + s'.dropped(k) - s.dropped(k)
                + (if Waits(th', k) then 1 else 0) - (if Waits(th, k) then 1 else 0)
             && (s.conservative ==> s'.dropped(k) == s.dropped(k))
    ensures KeyRight(s', k)
  {
    HoldingUpdate(s.threads, k, t, s'.threads[t]);
    WaitingUpdate(s.threads, k, t, s'.threads[t]);
  }

  lemma KeyAfter(s: State, a: Action, k: Key)
    requires Inv(s)
    ensures KeyRight(Next(s, a), k)
  {
    assert KeyRight(s, k);
    if a.t < |s.threads| {
      assert ThreadRight(s, s.threads[a.t]);
      assert s.threads == s.threads[a.t := s.threads[a.t]];
      KeyMoves(s, Next(s, a), k, a.t);
    }
  }

  /** A thread that stays inside, or outside, moves no lock. */
  lemma LocksStay(threads: seq<Thread>, inUse: nat -> bool, owner: nat -> Option<nat>, t: nat, th: Thread)
    requires LocksRight(threads, inUse, owner) && t < |threads| && Inside(threads[t]) == Inside(th)
    ensures LocksRight(threads[t := th], inUse, owner)
  {
    var after := threads[t := th];
    forall site: nat ensures SiteRight(after, inUse, owner, site) {
      assert SiteRight(threads, inUse, owner, site);
    }
  }

  lemma LocksEnter(threads: seq<Thread>, inUse: nat -> bool, owner: nat -> Option<nat>, t: nat, th: Thread, site: nat)
    requires LocksRight(threads, inUse, owner) && t < |threads| && !inUse(site)
    requires Inside(threads[t]).None? && Inside(th) == Some(site)
    ensures LocksRight(threads[t := th], Set(inUse, site, true), Set(owner, site, Some(t)))
  {
    var after, inUse', owner' := threads[t := th], Set(inUse, site, true), Set(owner, site, Some(t));
    forall x: nat ensures SiteRight(after, inUse', owner', x) {
      assert SiteRight(threads, inUse, owner, x);
    }
    assert SiteRight(threads, inUse, owner, site);
  }

  lemma LocksLeave(threads: seq<Thread>, inUse: nat -> bool, owner: nat -> Option<nat>, t: nat, th: Thread, site: nat)
    requires LocksRight(threads, inUse, owner) && t < |threads|
    requires Inside(threads[t]) == Some(site) && Inside(th).None?
    ensures LocksRight(threads[t := th], Set(inUse, site, false), Set(owner, site, None))
  {
    var after, inUse', owner' := threads[t := th], Set(inUse, site, false), Set(owner, site, None);
    forall x: nat ensures SiteRight(after, inUse', owner', x) {
      assert SiteRight(threads, inUse, owner, x);
    }
  }

  lemma LocksAfter(s: State, a: Action)
    requires Inv(s)
    ensures var s' := Next(s, a); LocksRight(s'.threads, s'.inUse, s'.owner)
  {
    if a.t < |s.threads| {
      var th, th' := s.threads[a.t], Next(s, a).threads[a.t];
      assert s.threads[a.t := th] == s.threads;
      if th'.Entered? && !th.Entered? {
        LocksEnter(s.threads, s.inUse, s.owner, a.t, th', th'.site);
      } else if th.Stored? && a.Advance? {
        LocksLeave(s.threads, s.inUse, s.owner, a.t, th', th.site);
      } else {
        LocksStay(s.threads, s.inUse, s.owner, a.t, th');
      }
    }
  }

  /** Nobody else is inside the table whose value changes. */
  lemma ThreadAfter(s: State, a: Action, u: nat)
    requires Inv(s) && u < |s.threads|
    ensures ThreadRight(Next(s, a), Next(s, a).threads[u])
  {
    assert ThreadRight(s, s.threads[u]);
    if a.t < |s.threads| && a.t != u {
      var th, other := s.threads[a.t], s.threads[u];
      assert Inside(th).Some? && Inside(other).Some? ==> Inside(th) != Inside(other);
    }
  }

  lemma NextInv(s: State, a: Action)
    requires Inv(s)
    ensures Inv(Next(s, a))
  {
    var s' := Next(s, a);
    forall k: Key ensures KeyRight(s', k) { KeyAfter(s, a, k); }
    LocksAfter(s, a);
    assert |s'.threads| == |s.threads|;
    forall u: nat | u < |s'.threads| ensures ThreadRight(s', s'.threads[u]) { ThreadAfter(s, a, u); }
  }

  lemma NextKeeps(s: State, a: Action)
    ensures Next(s, a).conservative == s.conservative && |Next(s, a).threads| == |s.threads|
  {
  }

  lemma {:induction false} RunInv(s: State, actions: seq<Action>)
    requires Inv(s)
    ensures Inv(Run(s, actions)) && Run(s, actions).conservative == s.conservative && |Run(s, actions).threads| == |s.threads|
  {
    if actions != [] {
      RunInv(s, actions[..|actions| - 1]);
      var before, a := Run(s, actions[..|actions| - 1]), actions[|actions| - 1];
      NextInv(before, a);
      NextKeeps(before, a);
    }
  }

  // ---------- What follows ----------

  /** In every interleaving, at most one thread is inside a table. */
  lemma MutualExclusion(conservative: bool, threads: nat, actions: seq<Action>, t: nat, u: nat)
    requires t < threads && u < threads && t != u
    ensures var s := Run(Initial(conservative, threads), actions);
            |s.threads| == threads && (Inside(s.threads[t]).None? || Inside(s.threads[t]) != Inside(s.threads[u]))
  {
    InitialInv(conservative, threads);
    RunInv(Initial(conservative, threads), actions);
  }

  /** A thread that tries makes at most 99 attempts. */
  lemma FewAttempts(conservative: bool, threads: nat, actions: seq<Action>, t: nat)
    requires t < threads
    ensures var s := Run(Initial(conservative, threads), actions);
            |s.threads| == threads && (s.threads[t].Trying? ==> s.threads[t].attempts < RETRIES)
  {
    InitialInv(conservative, threads);
    RunInv(Initial(conservative, threads), actions);
    assert ThreadRight(Run(Initial(conservative, threads), actions), Run(Initial(conservative, threads), actions).threads[t]);
  }

  /**
   In every interleaving, once all threads are done, a target's value is the
   number of calls that obtained the lock: all of them in conservative mode,
   otherwise all but those dropped. It never exceeds the calls at any time.
   */
  lemma ValuesAreCalls(conservative: bool, threads: nat, actions: seq<Action>, k: Key)
    ensures var s := Run(Initial(conservative, threads), actions);
            && Value(s, k) <= s.locked(k) <= s.calls(k)
            && ((forall t :: 0 <= t < |s.threads| ==> s.threads[t] == Idle) ==>
                  Value(s, k) == s.locked(k) == s.calls(k) - s.dropped(k) && (conservative ==> Value(s, k) == s.calls(k)))
  {
    InitialInv(conservative, threads);
    var s := Run(Initial(conservative, threads), actions);
    RunInv(Initial(conservative, threads), actions);
    assert KeyRight(s, k);
    if forall t :: 0 <= t < |s.threads| ==> s.threads[t] == Idle { AllIdle(s.threads, k); }
  }

  /** A lock that is taken is given back: its owner needs at most three more steps. */
  lemma OwnerLeaves(s: State, site: nat)
    requires Inv(s) && s.owner(site).Some?
    ensures var t := s.owner(site).value;
            var s1 := Next(s, Advance(t));
            var s2 := Next(s1, Advance(t));
            var s3 := Next(s2, Advance(t));
            !s1.inUse(site) || !s2.inUse(site) || !s3.inUse(site)
  {
    assert SiteRight(s.threads, s.inUse, s.owner, site);
    var t := s.owner(site).value;
    assert Inside(s.threads[t]) == Some(site);
  }
}
