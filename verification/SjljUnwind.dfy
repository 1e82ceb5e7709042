/**
 Unwinding by setjmp and longjmp: functions that catch register a context in a
 linked list, and unwinding walks that list instead of the machine stack. Runs
 are those of the two-phase protocol over the list, in which a context stands
 for a frame and is told from the others by its identity.
 */
module SjljUnwind {
  import opened UnwindProtocol

  class Context {
    var prev: Context?
    const personality: bool

    constructor (personality: bool)
      ensures this.personality == personality && prev == null
    {
      this.personality, prev := personality, null;
    }
  }

  /** The contexts from `c` on, innermost first. */
  ghost predicate IsChain(c: Context?, cs: seq<Context>)
    reads cs
  {
    if cs == [] then c == null else c == cs[0] && IsChain(cs[0].prev, cs[1..])
  }

  lemma {:induction false} ChainIsUnique(c: Context?, a: seq<Context>, b: seq<Context>)
    requires IsChain(c, a) && IsChain(c, b)
    ensures a == b
  {
    if a != [] && b != [] {
      ChainIsUnique(a[0].prev, a[1..], b[1..]);
      assert a == [a[0]] + a[1..] && b == [b[0]] + b[1..];
    }
  }

  lemma {:induction false} ChainFrom(c: Context?, cs: seq<Context>, k: nat)
    requires IsChain(c, cs) && k <= |cs|
    ensures IsChain(if k < |cs| then cs[k] else null, cs[k..])
    ensures k < |cs| ==> IsChain(cs[k].prev, cs[k + 1..])
  {
    if k > 0 {
      ChainFrom(cs[0].prev, cs[1..], k - 1);
      assert cs[1..][k - 1..] == cs[k..];
      if k < |cs| { assert cs[1..][k..] == cs[k + 1..]; }
    } else {
      assert cs[0..] == cs;
    }
  }

  /** A finite list visits no context twice. */
  lemma ChainIsDistinct(c: Context?, cs: seq<Context>, i: nat, j: nat)
    requires IsChain(c, cs) && i < |cs| && j < |cs| && cs[i] == cs[j]
    ensures i == j
  {
    ChainFrom(c, cs, i);
    ChainFrom(c, cs, j);
    ChainIsUnique(cs[i], cs[i..], cs[j..]);
  }

  /** The contexts as frames, each with its own number for a stack pointer. */
  ghost function FramesOf(cs: seq<Context>): (frames: seq<Frame>)
    ensures |frames| == |cs| && forall k :: 0 <= k < |cs| ==> frames[k] == Frame(k, cs[k].personality)
  {
    seq(|cs|, k requires 0 <= k < |cs| => Frame(k, cs[k].personality))
  }

  /** Walking the list and jumping never fail. */
  function Sure(w: World): World {
    w.(step := (log, k) => Moved, known := (log, k) => true, transfers := log => true)
  }

  /**
   So every run over every list keeps to the protocol, with no condition on
   stack pointers: once a context is marked, cleanups and landings only move to
   older contexts and never past the marked one, which alone is told that it
   has the handler.
   */
  lemma RunIsSafe(w: World, cs: seq<Context>, resumes: nat)
    requires Phase1(Sure(w), FramesOf(cs), [], 0).code == NoReason
    ensures var frames := FramesOf(cs);
            var m, r := Phase1(Sure(w), frames, [], 0).frame, Raise(Sure(w), frames, resumes);
            && Safe(r.log, frames, m)
            && (r.fate.Caught? || r.fate.Pending? ==> r.fate.frame <= m)
  {
    UnwindProtocol.RunIsSafe(Sure(w), FramesOf(cs), resumes);
  }

  /** Personality functions keep to what the search was told. */
  ghost predicate Faithful(w: World) {
    && (forall log, k: nat :: w.reply(log + [Called(k, Cleanup)]) in {ContinueUnwind, InstallContext})
    && (forall log, k: nat :: w.reply(log + [Called(k, CleanupHandler)]) == InstallContext)
  }

  /** If they do, a run whose search has marked a context neither fails nor stops: nothing else can go wrong here. */
  lemma FaithfulRunLands(w: World, cs: seq<Context>, resumes: nat)
    requires Faithful(w) && Phase1(Sure(w), FramesOf(cs), [], 0).code == NoReason
    ensures var r := Raise(Sure(w), FramesOf(cs), resumes); r.fate.Caught? || r.fate.Pending?
  {
    var frames, s := FramesOf(cs), Phase1(Sure(w), FramesOf(cs), [], 0);
    SearchVisitsAll(Sure(w), frames, 0);
    assert Cooperative(Sure(w), s.frame);
    CooperationLands(Sure(w), frames, s.frame, s.log, 0, false, resumes);
  }

  /** Raising returns that the list has ended exactly if no personality function on it stops the search. */
  lemma {:induction false} UncaughtIff(w: World, cs: seq<Context>, k: nat)
    requires k <= |cs|
    ensures var r := Phase1(Sure(w), FramesOf(cs), Calls(FramesOf(cs), 0, k, SEARCHING), k);
            r.code == EndOfStack <==>
              forall j :: k <= j < |cs| && cs[j].personality ==>
                w.reply(Calls(FramesOf(cs), 0, j, SEARCHING) + [Called(j, Search)]) == ContinueUnwind
    decreases |cs| - k
  {
    if k < |cs| { UncaughtIff(w, cs, k + 1); }
  }

  /** The unwinder's part of an exception: the stop function of a forced unwind, and the marked context. */
  class ExceptionObject {
    var private1: nat
    var private2: Context?

    constructor ()
      ensures private1 == 0 && private2 == null
    {
      private1, private2 := 0, null;
    }
  }

  /** A call of a function that catches, with its context, and the calls of such functions that it makes. */
  datatype Activation = Activation(fc: Context, calls: seq<Activation>)

  ghost function Contexts(calls: seq<Activation>): set<Context> {
    if calls == [] then {} else {calls[0].fc} + Contexts(calls[0].calls) + Contexts(calls[1..])
  }

  /** No function's context is in use already when it is called; later calls may use it again. */
  ghost predicate OwnContexts(calls: seq<Activation>, cs: seq<Context>) {
    calls == [] ||
    (calls[0].fc !in cs && OwnContexts(calls[0].calls, [calls[0].fc] + cs) && OwnContexts(calls[1..], cs))
  }

  lemma {:induction false} OwnContextsAreNew(calls: seq<Activation>, cs: seq<Context>)
    requires OwnContexts(calls, cs)
    ensures forall c :: c in cs ==> c !in Contexts(calls)
  {
    if calls != [] {
      OwnContextsAreNew(calls[0].calls, [calls[0].fc] + cs);
      OwnContextsAreNew(calls[1..], cs);
    }
  }

  /** A list has one head. */
  lemma ChainIsSame(c: Context?, d: Context?, cs: seq<Context>)
    requires IsChain(c, cs) && d == (if cs == [] then null else cs[0])
    ensures c == d
  {
  }

  /** One thread's list of contexts; `log` says what has happened. */
  class ContextStack {
    const world: World
    var top: Context?
    var log: seq<Event>

    constructor (world: World)
      ensures this.world == world && top == null && log == []
    {
      this.world, top, log := world, null, [];
    }

    /** Puts a context that is not in the list on top of it. */
    method Register(fc: Context, ghost cs: seq<Context>)
      requires IsChain(top, cs) && fc !in cs
      modifies this`top, fc
      ensures top == fc && IsChain(top, [fc] + cs) && fc.prev == old(top)
    {
      fc.prev := top;
      top := fc;
      assert ([fc] + cs)[1..] == cs;
    }

    /** Takes the top off. */
    method Unregister(fc: Context, ghost cs: seq<Context>)
      requires IsChain(top, [fc] + cs)
      modifies this`top
      ensures IsChain(top, cs)
    {
      assert ([fc] + cs)[1..] == cs;
      top := fc.prev;
    }

    /** Every function registers, makes its calls, and unregisters: the list is what it was, down to its links. */
    method Perform(calls: seq<Activation>, ghost cs: seq<Context>)
      requires IsChain(top, cs) && OwnContexts(calls, cs)
      modifies this`top, Contexts(calls)
      ensures top == old(top) && IsChain(top, cs)
      ensures forall c :: c in cs ==> c.prev == old(c.prev)
      decreases calls
    {
      if calls == [] { return; }
      OwnContextsAreNew(calls, cs);
      var fc := calls[0].fc;
      Register(fc, cs);
      Perform(calls[0].calls, [fc] + cs);
      Unregister(fc, cs);
      ChainIsSame(top, old(top), cs);
      Perform(calls[1..], cs);
    }

    method CallPersonality(k: nat, action: Action) returns (r: Reply)
      modifies `log
      ensures log == old(log) + [Called(k, action)] && r == world.reply(log)
    {
      log := log + [Called(k, action)];
      r := world.reply(log);
    }

    /** The search over the list. */
    method UnwindPhase1(exception: ExceptionObject, ghost cs: seq<Context>) returns (code: Code)
      requires IsChain(top, cs)
      modifies `log, exception`private2
      ensures var s := Phase1(Sure(world), FramesOf(cs), old(log), 0);
              && log == s.log && code == s.code
              && exception.private2 == if code == NoReason then cs[s.frame] else old(exception.private2)
    {
      var c, k := top, 0;
      while true
        invariant 0 <= k <= |cs| && IsChain(c, cs[k..]) && IsChain(top, cs)
        invariant Phase1(Sure(world), FramesOf(cs), log, k) == Phase1(Sure(world), FramesOf(cs), old(log), 0)
        invariant exception.private2 == old(exception.private2)
        decreases |cs| - k
      {
        if c == null { return EndOfStack; }
        assert cs[k..][0] == cs[k] && cs[k..][1..] == cs[k + 1..];
        if c.personality {
          var reply := CallPersonality(k, Search);
          if reply == HandlerFound {
            exception.private2 := c;
            return NoReason;
          }
          if reply != ContinueUnwind { return FatalPhase1; }
        }
        c, k := c.prev, k + 1;
      }
    }

    /** A pass of cleanups from the top, the `start`-th context of the list; a landing pad becomes the new top. */
    method UnwindPhase2(exception: ExceptionObject, start: nat, ghost cs: seq<Context>, ghost m: nat, ghost bottom: Context?) returns (ending: Ending)
      requires IsChain(bottom, cs) && start <= |cs| && top == (if start < |cs| then cs[start] else null)
      requires m < |cs| && exception.private2 == cs[m]
      modifies `log, `top
      ensures Cleaned(log, ending) == Phase2(Sure(world), FramesOf(cs), m, old(log), start)
      ensures if ending.Transferred? then start <= ending.frame < |cs| && top == cs[ending.frame] else top == old(top)
    {
      var c, k := top, start;
      ghost var frames := FramesOf(cs);
      ChainFrom(bottom, cs, start);
      while true
        invariant start <= k <= |cs| && IsChain(c, cs[k..]) && IsChain(bottom, cs) && top == old(top)
        invariant Phase2(Sure(world), frames, m, log, k) == Phase2(Sure(world), frames, m, old(log), start)
        decreases |cs| - k
      {
        if c == null { return Returned(EndOfStack); }
        assert cs[k..][0] == cs[k] && cs[k..][1..] == cs[k + 1..];
        if c == exception.private2 { ChainIsDistinct(bottom, cs, k, m); }
        var goesOn;
        goesOn, ending := CleanUp(exception, c, k, frames, m);
        if !goesOn { return; }
        c, k := c.prev, k + 1;
      }
    }

    /** What a pass does at one context: it goes on, or ends here. */
    method CleanUp(exception: ExceptionObject, c: Context, k: nat, ghost frames: seq<Frame>, ghost m: nat) returns (goesOn: bool, ending: Ending)
      requires k < |frames| && frames[k] == Frame(k, c.personality) && (c == exception.private2 <==> k == m)
      modifies `log, `top
      ensures goesOn ==> top == old(top) && Phase2(Sure(world), frames, m, log, k + 1) == Phase2(Sure(world), frames, m, old(log), k)
      ensures !goesOn ==> Cleaned(log, ending) == Phase2(Sure(world), frames, m, old(log), k)
      ensures !goesOn ==> if ending.Transferred? then ending.frame == k && top == c else top == old(top)
    {
      goesOn, ending := true, Aborted;
      if !c.personality { return; }
      var action := Cleanup;
      if c == exception.private2 { action := CleanupHandler; }
      var reply := CallPersonality(k, action);
      if reply == ContinueUnwind {
        if c == exception.private2 { return false, Aborted; }
      } else if reply == InstallContext {
        top := c;
        return false, Transferred(k);
      } else {
        return false, Returned(FatalPhase2);
      }
    }

    /**
     A program that throws, and whose landing pads resume when the world says
     so, at most `limit` times. No context is changed; the top is the context
     of the last landing.
     */
    method Throw(exception: ExceptionObject, limit: nat, ghost cs: seq<Context>) returns (fate: Fate)
      requires IsChain(top, cs) && log == []
      modifies `log, `top, exception
      ensures Ran(log, fate) == Raise(Sure(world), FramesOf(cs), limit)
      ensures exception.private1 == 0
      ensures fate.Caught? || fate.Pending? ==> fate.frame < |cs| && top == cs[fate.frame]
      ensures fate.Failed? ==> top == old(top)
    {
      ghost var bottom := top;
      exception.private1 := 0;
      exception.private2 := null;
      var code := UnwindPhase1(exception, cs);
      if code != NoReason { return Failed(code); }
      ghost var s := Phase1(Sure(world), FramesOf(cs), [], 0);
      ghost var m := s.frame;
      ChainFrom(bottom, cs, 0);
      var start: nat, left: nat, resumed := 0, limit, false;
      while true
        invariant exception.private1 == 0 && exception.private2 == cs[m] && left <= limit
        invariant IsChain(bottom, cs) && start <= |cs| && top == (if start < |cs| then cs[start] else null)
        invariant !resumed ==> top == old(top)
        invariant Passes(Sure(world), FramesOf(cs), m, log, start, resumed, left) == Raise(Sure(world), FramesOf(cs), limit)
        decreases left
      {
        var ending := UnwindPhase2(exception, start, cs, m, bottom);
        if ending.Aborted? { return Fate.Stopped; }
        if ending.Returned? {
          if resumed { return Fate.Stopped; }
          return Failed(ending.code);
        }
        log := log + [Landed(ending.frame)];
        if !world.resumes(log) { return Caught(ending.frame); }
        if left == 0 { return Pending(ending.frame); }
        left := left - 1;
        start, resumed := ending.frame, true;
      }
    }
  }
}
