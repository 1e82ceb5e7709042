/**
 The unwinder's entry points: loops that step a cursor over the stack, call
 personality functions, and keep the marked frame in the exception object.
 What happens outside them is the world's choice; `log` says what happened.
 */
module UnwindLevel1 {
  import opened UnwindProtocol

  /** The unwinder's part of an exception: the stop function of a forced unwind, and the marked frame's stack pointer. */
  class ExceptionObject {
    var private1: nat
    var private2: nat

    constructor ()
      ensures private1 == 0 && private2 == 0
    {
      private1, private2 := 0, 0;
    }
  }

  class Process {
    const world: World
    const frames: seq<Frame>
    var log: seq<Event>

    constructor (world: World, frames: seq<Frame>)
      ensures this.world == world && this.frames == frames && log == []
    {
      this.world, this.frames, log := world, frames, [];
    }

    method Step(cursor: nat) returns (r: Stepped)
      ensures r == StepTo(world, frames, log, cursor)
    {
      r := StepTo(world, frames, log, cursor);
    }

    method CallPersonality(cursor: nat, action: Action) returns (r: Reply)
      modifies `log
      ensures log == old(log) + [Called(cursor, action)] && r == world.reply(log)
    {
      log := log + [Called(cursor, action)];
      r := world.reply(log);
    }

    /** The search: marks a frame in the exception object, or says why not. */
    method UnwindPhase1(exception: ExceptionObject) returns (code: Code)
      modifies `log, exception`private2
      ensures var s := Phase1(world, frames, old(log), 0);
              && log == s.log && code == s.code
              && exception.private2 == if code == NoReason then frames[s.frame].sp else old(exception.private2)
    {
      var cursor := 0;
      while true
        invariant 0 <= cursor <= |frames|
        invariant Phase1(world, frames, log, cursor) == Phase1(world, frames, old(log), 0)
        invariant exception.private2 == old(exception.private2)
        decreases |frames| - cursor
      {
        var stepped := Step(cursor);
        if stepped == Bottom { return EndOfStack; }
        if stepped == StepError { return FatalPhase1; }
        if !world.known(log, cursor) { return FatalPhase1; }
        if frames[cursor].personality {
          var reply := CallPersonality(cursor, Search);
          if reply == HandlerFound {
            exception.private2 := frames[cursor].sp;
            return NoReason;
          }
          if reply != ContinueUnwind { return FatalPhase1; }
        }
        cursor := cursor + 1;
      }
    }

    /** One pass of cleanups, from frame `start` down. */
    method UnwindPhase2(exception: ExceptionObject, start: nat) returns (ending: Ending)
      requires start <= |frames|
      modifies `log
      ensures Cleaned(log, ending) == Phase2(world, frames, exception.private2, old(log), start)
    {
      var cursor := start;
      while true
        invariant start <= cursor <= |frames|
        invariant Phase2(world, frames, exception.private2, log, cursor) == Phase2(world, frames, exception.private2, old(log), start)
        decreases |frames| - cursor
      {
        var stepped := Step(cursor);
        if stepped == Bottom { return Returned(EndOfStack); }
        if stepped == StepError { return Returned(FatalPhase2); }
        var sp := frames[cursor].sp;
        if !world.known(log, cursor) { return Returned(FatalPhase2); }
        if frames[cursor].personality {
          var action := Cleanup;
          if sp == exception.private2 { action := CleanupHandler; }
          var reply := CallPersonality(cursor, action);
          if reply == ContinueUnwind {
            if sp == exception.private2 { return Aborted; }
          } else if reply == InstallContext {
            if world.transfers(log) { return Transferred(cursor); }
            return Returned(FatalPhase2);
          } else {
            return Returned(FatalPhase2);
          }
        }
        cursor := cursor + 1;
      }
    }

    method RaiseException(exception: ExceptionObject) returns (ending: Ending)
      modifies `log, exception
      ensures var s := Phase1(world, frames, old(log), 0);
              && exception.private1 == 0
              && (s.code != NoReason ==> log == s.log && ending == Returned(s.code) && exception.private2 == 0)
              && (s.code == NoReason ==>
                    && exception.private2 == frames[s.frame].sp
                    && Cleaned(log, ending) == Phase2(world, frames, exception.private2, s.log, 0))
    {
      exception.private1 := 0;
      exception.private2 := 0;
      var code := UnwindPhase1(exception);
      if code != NoReason { return Returned(code); }
      ending := UnwindPhase2(exception, 0);
    }

    /** Called by a landing pad of frame `f`. Either control is transferred again, or the program stops. */
    method Resume(exception: ExceptionObject, f: nat) returns (ending: Ending)
      requires f <= |frames| && exception.private1 == 0
      modifies `log
      ensures var c := Phase2(world, frames, exception.private2, old(log), f);
              log == c.log && ending == if c.ending.Transferred? then c.ending else Aborted
    {
      ending := UnwindPhase2(exception, f);
      if !ending.Transferred? { ending := Aborted; }
    }

    /** A program that throws, and whose landing pads resume when the world says so, at most `limit` times. */
    method Throw(exception: ExceptionObject, limit: nat) returns (fate: Fate)
      requires log == []
      modifies `log, exception
      ensures Ran(log, fate) == Raise(world, frames, limit)
      ensures exception.private1 == 0
    {
      var ending := RaiseException(exception);
      if ending.Returned? { return Failed(ending.code); }
      ghost var s := Phase1(world, frames, [], 0);
      ghost var start: nat, before := 0, s.log;
      ghost var resumed := false;
      var left: nat := limit;
      while true
        invariant !ending.Returned? && left <= limit
        invariant exception.private1 == 0 && s.code == NoReason && exception.private2 == frames[s.frame].sp
        invariant start <= |frames|
        invariant var c := Phase2(world, frames, exception.private2, before, start);
                  log == c.log && (c.ending == ending || (ending == Aborted && resumed && !c.ending.Transferred?))
        invariant Passes(world, frames, exception.private2, before, start, resumed, left) == Raise(world, frames, limit)
        decreases left
      {
        if ending.Aborted? { return Fate.Stopped; }
        log := log + [Landed(ending.frame)];
        if !world.resumes(log) { return Caught(ending.frame); }
        if left == 0 { return Pending(ending.frame); }
        TransferredIsOnStack(world, frames, exception.private2, before, start);
        left := left - 1;
        start, before, resumed := ending.frame, log, true;
        ending := Resume(exception, ending.frame);
      }
    }
  }

  lemma {:induction false} TransferredIsOnStack(w: World, frames: seq<Frame>, marked: nat, log: seq<Event>, k: nat)
    ensures var c := Phase2(w, frames, marked, log, k);
            c.ending.Transferred? ==> k <= c.ending.frame < |frames|
    decreases |frames| - k
  {
    if StepTo(w, frames, log, k) == Moved && w.known(log, k) {
      if !frames[k].personality {
        TransferredIsOnStack(w, frames, marked, log, k + 1);
      } else {
        var log' := log + [Called(k, if frames[k].sp == marked then CleanupHandler else Cleanup)];
        if w.reply(log') == ContinueUnwind { TransferredIsOnStack(w, frames, marked, log', k + 1); }
      }
    }
  }
}
