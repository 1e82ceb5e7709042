/**
 How a search, a pass and a whole run end, and at which frame, read off what
 the stack and the personality functions say about the frames one by one.
 */
module UnwindOutcomes {
  import opened UnwindProtocol

  // ---------- The search ----------

  /** What has happened when a search comes to frame `k`. */
  function SearchedTo(frames: seq<Frame>, k: nat): seq<Event>
    requires k <= |frames|
  {
    Calls(frames, 0, k, SEARCHING)
  }

  /** The cursor gets to frame `k`, and something is known of it. */
  predicate Arrives(w: World, frames: seq<Frame>, log: seq<Event>, k: nat) {
    k < |frames| && w.step(log, k) == Moved && w.known(log, k)
  }

  /** Below frame `k - 1` there is nothing. */
  predicate AtBottom(w: World, frames: seq<Frame>, log: seq<Event>, k: nat) {
    w.step(log, k) == Bottom || (w.step(log, k) == Moved && k >= |frames|)
  }

  function SearchReply(w: World, frames: seq<Frame>, k: nat): Reply
    requires k < |frames|
  {
    w.reply(SearchedTo(frames, k) + [Called(k, Search)])
  }

  /** A search goes past frame `k`. */
  predicate SearchPasses(w: World, frames: seq<Frame>, k: nat)
    requires k <= |frames|
  {
    Arrives(w, frames, SearchedTo(frames, k), k) && (frames[k].personality ==> SearchReply(w, frames, k) == ContinueUnwind)
  }

  /** With what a search ends at frame `k`, if it does not go past it. */
  predicate SearchEnds(w: World, frames: seq<Frame>, k: nat, code: Code)
    requires k <= |frames|
  {
    var log := SearchedTo(frames, k);
    match code
    case NoReason => Arrives(w, frames, log, k) && frames[k].personality && SearchReply(w, frames, k) == HandlerFound
    case EndOfStack => AtBottom(w, frames, log, k)
    case FatalPhase1 =>
      || w.step(log, k) == StepError
      || (w.step(log, k) == Moved && k < |frames| && !w.known(log, k))
      || (Arrives(w, frames, log, k) && frames[k].personality && SearchReply(w, frames, k) !in {HandlerFound, ContinueUnwind})
    case FatalPhase2 => false
  }

  /** What has happened when it has ended there: the frame's personality function, if one is known, has been called too. */
  function SearchedAt(w: World, frames: seq<Frame>, k: nat): seq<Event>
    requires k <= |frames|
  {
    var log := SearchedTo(frames, k);
    if Arrives(w, frames, log, k) && frames[k].personality then log + [Called(k, Search)] else log
  }

  /** A search ends at the first frame that it does not go past, as that frame says. */
  lemma {:induction false} SearchOutcome(w: World, frames: seq<Frame>, k: nat)
    requires k <= |frames|
    ensures var r := Phase1(w, frames, SearchedTo(frames, k), k);
            && k <= r.frame <= |frames| && (forall j :: k <= j < r.frame ==> SearchPasses(w, frames, j))
            && SearchEnds(w, frames, r.frame, r.code) && r.log == SearchedAt(w, frames, r.frame)
    decreases |frames| - k
  {
    if SearchPasses(w, frames, k) {
      SearchOutcome(w, frames, k + 1);
    }
  }

  /** And there is only one such end. */
  lemma SearchEndsOnce(w: World, frames: seq<Frame>, k: nat, code: Code, k': nat, code': Code)
    requires k <= k' <= |frames|
    requires SearchEnds(w, frames, k, code) && SearchEnds(w, frames, k', code') && forall j :: 0 <= j < k' ==> SearchPasses(w, frames, j)
    ensures k == k' && code == code'
  {
    assert k < k' ==> SearchPasses(w, frames, k);
  }

  /** An exception that nobody catches: raising it returns that the stack has ended, and nothing has been cleaned up. */
  lemma UncaughtReturns(w: World, frames: seq<Frame>, k: nat, resumes: nat)
    requires k <= |frames| && (forall j :: 0 <= j < k ==> SearchPasses(w, frames, j)) && AtBottom(w, frames, SearchedTo(frames, k), k)
    ensures Raise(w, frames, resumes) == Ran(SearchedTo(frames, k), Failed(EndOfStack))
  {
    SearchOutcome(w, frames, 0);
    var r := Phase1(w, frames, [], 0);
    assert SearchEnds(w, frames, k, EndOfStack);
    if r.frame <= k {
      SearchEndsOnce(w, frames, r.frame, r.code, k, EndOfStack);
    } else {
      SearchEndsOnce(w, frames, k, EndOfStack, r.frame, r.code);
    }
  }

  // ---------- One pass ----------

  /** What has happened when a pass from frame `from` comes to frame `k`, with `m` marked. */
  function CleanedTo(frames: seq<Frame>, m: nat, log: seq<Event>, from: nat, k: nat): seq<Event>
    requires from <= k <= |frames|
  {
    log + Calls(frames, from, k, Cleaning(m))
  }

  function CleanupReply(w: World, frames: seq<Frame>, m: nat, log: seq<Event>, from: nat, k: nat): Reply
    requires from <= k < |frames|
  {
    w.reply(CleanedTo(frames, m, log, from, k) + [Called(k, Cleaning(m)(k))])
  }

  /** A pass goes past frame `k`, which is not the marked one. */
  predicate PassPasses(w: World, frames: seq<Frame>, m: nat, log: seq<Event>, from: nat, k: nat)
    requires from <= k <= |frames|
  {
    && Arrives(w, frames, CleanedTo(frames, m, log, from, k), k)
    && (frames[k].personality ==> k != m && CleanupReply(w, frames, m, log, from, k) == ContinueUnwind)
  }

  /** With what a pass ends at frame `k`, if it does not go past it. */
  predicate PassEnds(w: World, frames: seq<Frame>, m: nat, log: seq<Event>, from: nat, k: nat, ending: Ending)
    requires from <= k <= |frames|
  {
    var before := CleanedTo(frames, m, log, from, k);
    var called := Arrives(w, frames, before, k) && frames[k].personality;
    var after := before + [Called(k, Cleaning(m)(k))];
    match ending
    case Returned(EndOfStack) => AtBottom(w, frames, before, k)
    case Returned(FatalPhase2) =>
      || w.step(before, k) == StepError
      || (w.step(before, k) == Moved && k < |frames| && !w.known(before, k))
      || (called && w.reply(after) !in {InstallContext, ContinueUnwind})
      || (called && w.reply(after) == InstallContext && !w.transfers(after))
    case Returned(_) => false
    case Aborted => called && k == m && w.reply(after) == ContinueUnwind
    case Transferred(f) => called && f == k && w.reply(after) == InstallContext && w.transfers(after)
  }

  /** A pass ends at the first frame that it does not go past, as that frame says. */
  lemma {:induction false} PassOutcome(w: World, frames: seq<Frame>, m: nat, log: seq<Event>, from: nat, k: nat) returns (h: nat)
    requires from <= k <= m < |frames| && frames[m].personality && DistinctSp(frames, m)
    ensures var r := Phase2(w, frames, frames[m].sp, CleanedTo(frames, m, log, from, k), k);
            && k <= h <= m && (forall j :: k <= j < h ==> PassPasses(w, frames, m, log, from, j))
            && PassEnds(w, frames, m, log, from, h, r.ending)
    decreases m - k
  {
    if PassPasses(w, frames, m, log, from, k) {
      PassGoesOn(w, frames, m, log, from, k);
      h := PassOutcome(w, frames, m, log, from, k + 1);
    } else {
      h := k;
    }
  }

  lemma PassGoesOn(w: World, frames: seq<Frame>, m: nat, log: seq<Event>, from: nat, k: nat)
    requires from <= k <= m < |frames| && frames[m].personality && DistinctSp(frames, m) && PassPasses(w, frames, m, log, from, k)
    ensures k < m
    ensures Phase2(w, frames, frames[m].sp, CleanedTo(frames, m, log, from, k), k) ==
            Phase2(w, frames, frames[m].sp, CleanedTo(frames, m, log, from, k + 1), k + 1)
  {
    if frames[k].personality {
      assert CleanedTo(frames, m, log, from, k) + [Called(k, Cleaning(m)(k))] == CleanedTo(frames, m, log, from, k + 1);
    }
  }

  // ---------- Whole runs ----------

  /** How many landing pads have got control. */
  function Landings(log: seq<Event>): nat {
    if log == [] then 0 else Landings(log[..|log| - 1]) + if log[|log| - 1].Landed? then 1 else 0
  }

  lemma {:induction false} NoLandings(log: seq<Event>, frames: seq<Frame>, from: nat, k: nat, action: nat -> Action)
    requires from <= k <= |frames|
    ensures Landings(log + Calls(frames, from, k, action)) == Landings(log)
  {
    if from == k {
      assert log + Calls(frames, from, k, action) == log;
    } else {
      NoLandings(log, frames, from, k - 1, action);
      if frames[k - 1].personality { OneMore(log + Calls(frames, from, k - 1, action), Called(k - 1, action(k - 1)), log + Calls(frames, from, k, action)); }
    }
  }

  lemma OneMore(log: seq<Event>, e: Event, all: seq<Event>)
    requires all == log + [e]
    ensures Landings(all) == Landings(log) + if e.Landed? then 1 else 0
  {
    assert all[..|all| - 1] == log;
  }

  /** What the log of a run that ended so must show, when `before` pads had got control at its start. */
  predicate FateShown(w: World, log: seq<Event>, fate: Fate, before: nat, resumed: bool, resumes: nat) {
    match fate
    case Failed(_) => !resumed && Landings(log) == before
    case Stopped =>
      || resumed || Landings(log) > before
      || (log != [] && log[|log| - 1].Called? && log[|log| - 1].action == CleanupHandler && w.reply(log) == ContinueUnwind)
    case Caught(f) => log != [] && log[|log| - 1] == Landed(f) && !w.resumes(log)
    case Pending(f) => log != [] && log[|log| - 1] == Landed(f) && w.resumes(log) && Landings(log) == before + resumes + 1
  }

  lemma ShownEarlier(w: World, log: seq<Event>, fate: Fate, before: nat, resumed: bool, resumes: nat)
    requires resumes > 0 && FateShown(w, log, fate, before + 1, true, resumes - 1) && Landings(log) >= before + 1
    ensures FateShown(w, log, fate, before, resumed, resumes)
  {
  }

  /** A pass that ends the run without a landing. */
  lemma EndShown(w: World, frames: seq<Frame>, m: nat, log: seq<Event>, k: nat, resumed: bool, resumes: nat, c: Cleaned)
    requires k <= m < |frames| && frames[m].personality && DistinctSp(frames, m)
    requires c == Phase2(w, frames, frames[m].sp, log, k)
    ensures Landings(c.log) == Landings(log)
    ensures c.ending.Returned? ==> FateShown(w, c.log, if resumed then Stopped else Failed(c.ending.code), Landings(log), resumed, resumes)
    ensures c.ending.Aborted? ==> FateShown(w, c.log, Stopped, Landings(log), resumed, resumes)
  {
    var h := PassVisitsAll(w, frames, m, log, k);
    NoLandings(log, frames, k, h, Cleaning(m));
    if c.ending.Aborted? { AbortedLast(frames, m, k, log); }
  }

  /** A landing after which the run ends, or is not allowed to go on. */
  lemma LandingShown(w: World, log: seq<Event>, f: nat, before: nat, resumed: bool, resumes: nat)
    requires Landings(log) == before
    ensures var log' := log + [Landed(f)];
            && Landings(log') == before + 1
            && (!w.resumes(log') ==> FateShown(w, log', Caught(f), before, resumed, resumes))
            && (w.resumes(log') && resumes == 0 ==> FateShown(w, log', Pending(f), before, resumed, resumes))
  {
    OneMore(log, Landed(f), log + [Landed(f)]);
  }

  /**
   Raising returns an error only if no landing pad has got control; once one
   has, a pass that fails stops the program, as does a marked frame that goes
   back on its word. Otherwise a landing pad keeps control, or would resume
   once more than was allowed.
   */
  lemma {:induction false} PassesOutcome(w: World, frames: seq<Frame>, m: nat, log: seq<Event>, k: nat, resumed: bool, resumes: nat, r: Ran)
    requires k <= m < |frames| && frames[m].personality && DistinctSp(frames, m)
    requires r == Passes(w, frames, frames[m].sp, log, k, resumed, resumes)
    ensures FateShown(w, r.log, r.fate, Landings(log), resumed, resumes) && Landings(r.log) >= Landings(log)
    decreases resumes
  {
    var c := Phase2(w, frames, frames[m].sp, log, k);
    EndShown(w, frames, m, log, k, resumed, resumes, c);
    if c.ending.Transferred? {
      var f := c.ending.frame;
      var log' := c.log + [Landed(f)];
      LandingShown(w, c.log, f, Landings(log), resumed, resumes);
      if w.resumes(log') && resumes > 0 {
        LandsAbove(w, frames, m, log, k);
        PassesOutcome(w, frames, m, log', f, true, resumes - 1, r);
        ShownEarlier(w, r.log, r.fate, Landings(log), resumed, resumes);
      }
    }
  }

  lemma LandsAbove(w: World, frames: seq<Frame>, m: nat, log: seq<Event>, k: nat)
    requires k <= m < |frames| && frames[m].personality && DistinctSp(frames, m)
    ensures var c := Phase2(w, frames, frames[m].sp, log, k); c.ending.Transferred? ==> c.ending.frame <= m
  {
    var h := PassVisitsAll(w, frames, m, log, k);
  }

  lemma AbortedLast(frames: seq<Frame>, m: nat, k: nat, log: seq<Event>)
    requires k <= m < |frames| && frames[m].personality
    ensures var all := log + Calls(frames, k, m + 1, Cleaning(m)); all != [] && all[|all| - 1] == Called(m, CleanupHandler)
  {
  }

  /** The whole run of an exception: how it ends, by its search and then by what its log shows. */
  lemma RaiseOutcome(w: World, frames: seq<Frame>, resumes: nat)
    requires var s := Phase1(w, frames, [], 0); s.code == NoReason ==> DistinctSp(frames, s.frame)
    ensures var s, r := Phase1(w, frames, [], 0), Raise(w, frames, resumes);
            && s.frame <= |frames| && (forall j :: 0 <= j < s.frame ==> SearchPasses(w, frames, j)) && SearchEnds(w, frames, s.frame, s.code)
            && if s.code == NoReason then FateShown(w, r.log, r.fate, 0, false, resumes)
               else r == Ran(SearchedAt(w, frames, s.frame), Failed(s.code))
  {
    SearchOutcome(w, frames, 0);
    var s := Phase1(w, frames, [], 0);
    if s.code == NoReason {
      SearchVisitsAll(w, frames, 0);
      NoLandings([], frames, 0, s.frame + 1, SEARCHING);
      assert [] + Calls(frames, 0, s.frame + 1, SEARCHING) == s.log;
      PassesOutcome(w, frames, s.frame, s.log, 0, false, resumes, Raise(w, frames, resumes));
    }
  }
}
