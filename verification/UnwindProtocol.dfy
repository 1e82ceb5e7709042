/**
 Two-phase exception unwinding (section 1.3 of the Itanium C++ ABI's Level I):
 a search for a handler, then cleanups from the top of the stack down, which
 landing pads interrupt and resume. Frame 0 is the one that threw; a frame is
 deeper the larger its index.
 */
module UnwindProtocol {

  datatype Frame = Frame(sp: nat, personality: bool)

  /** What a personality function is told: to search, or to clean up, and then whether its frame has the handler. */
  datatype Action = Search | Cleanup | CleanupHandler

  datatype Reply = HandlerFound | ContinueUnwind | InstallContext | OtherReply

  datatype Stepped = Moved | Bottom | StepError

  datatype Event = Called(frame: nat, action: Action) | Landed(frame: nat)

  datatype Code = NoReason | FatalPhase1 | FatalPhase2 | EndOfStack

  /**
   Everything the protocol does not decide: how a step goes, whether a frame's
   information is found, what a personality function answers, whether control
   can be transferred, and whether a landing pad resumes unwinding. All may
   depend on everything that has happened.
   */
  datatype World = World(
    step: (seq<Event>, nat) -> Stepped,
    known: (seq<Event>, nat) -> bool,
    reply: seq<Event> -> Reply,
    transfers: seq<Event> -> bool,
    resumes: seq<Event> -> bool)

  /** A step to frame `k`; the stack has a bottom. */
  function StepTo(w: World, frames: seq<Frame>, log: seq<Event>, k: nat): (r: Stepped)
    ensures r == Moved ==> k < |frames|
  {
    if k >= |frames| && w.step(log, k) == Moved then Bottom else w.step(log, k)
  }

  // ---------- The search ----------

  datatype Searched = Searched(log: seq<Event>, code: Code, frame: nat)

  function Phase1(w: World, frames: seq<Frame>, log: seq<Event>, k: nat): (r: Searched)
    ensures r.code == NoReason ==> r.frame < |frames|
    decreases |frames| - k
  {
    var s := StepTo(w, frames, log, k);
    if s == Bottom then Searched(log, EndOfStack, k)
    else if s == StepError || !w.known(log, k) then Searched(log, FatalPhase1, k)
    else if !frames[k].personality then Phase1(w, frames, log, k + 1)
    else
      var log' := log + [Called(k, Search)];
      match w.reply(log')
      case HandlerFound => Searched(log', NoReason, k)
      case ContinueUnwind => Phase1(w, frames, log', k + 1)
      case _ => Searched(log', FatalPhase1, k)
  }

  /** One call of every personality function of the frames from `from` up to `to`. */
  function Calls(frames: seq<Frame>, from: nat, to: nat, action: nat -> Action): (log: seq<Event>)
    requires from <= to <= |frames|
  {
    if from == to then []
    else if frames[to - 1].personality then Calls(frames, from, to - 1, action) + [Called(to - 1, action(to - 1))]
    else Calls(frames, from, to - 1, action)
  }

  const SEARCHING: nat -> Action := _ => Search

  /** A search calls every personality function down to where it ends exactly once, in order; it marks the frame that answers so. */
  lemma {:induction false} SearchVisitsAll(w: World, frames: seq<Frame>, k: nat)
    requires k <= |frames|
    ensures var r := Phase1(w, frames, Calls(frames, 0, k, SEARCHING), k);
            && r.frame <= |frames|
            && (r.code == NoReason ==>
                  && r.frame < |frames| && frames[r.frame].personality
                  && r.log == Calls(frames, 0, r.frame + 1, SEARCHING) && w.reply(r.log) == HandlerFound)
            && (r.code != NoReason ==> r.log == Calls(frames, 0, r.frame, SEARCHING) ||
                                       (r.frame < |frames| && r.log == Calls(frames, 0, r.frame + 1, SEARCHING)))
    decreases |frames| - k
  {
    var log := Calls(frames, 0, k, SEARCHING);
    if StepTo(w, frames, log, k) == Moved && w.known(log, k) {
      if !frames[k].personality {
        SearchVisitsAll(w, frames, k + 1);
      } else if w.reply(log + [Called(k, Search)]) == ContinueUnwind {
        SearchVisitsAll(w, frames, k + 1);
      }
    }
  }

  // ---------- The cleanups ----------

  datatype Ending = Returned(code: Code) | Aborted | Transferred(frame: nat)

  datatype Cleaned = Cleaned(log: seq<Event>, ending: Ending)

  /** From frame `k` down; the frame that was marked is known by its stack pointer. */
  function Phase2(w: World, frames: seq<Frame>, marked: nat, log: seq<Event>, k: nat): (r: Cleaned)
    decreases |frames| - k
  {
    var s := StepTo(w, frames, log, k);
    if s == Bottom then Cleaned(log, Returned(EndOfStack))
    else if s == StepError || !w.known(log, k) then Cleaned(log, Returned(FatalPhase2))
    else if !frames[k].personality then Phase2(w, frames, marked, log, k + 1)
    else
      var here := frames[k].sp == marked;
      var log' := log + [Called(k, if here then CleanupHandler else Cleanup)];
      match w.reply(log')
      case ContinueUnwind => if here then Cleaned(log', Aborted) else Phase2(w, frames, marked, log', k + 1)
      case InstallContext => Cleaned(log', if w.transfers(log') then Transferred(k) else Returned(FatalPhase2))
      case _ => Cleaned(log', Returned(FatalPhase2))
  }

  /** Frame `m` can be told by its stack pointer from the frames above it that have a personality function. */
  predicate DistinctSp(frames: seq<Frame>, m: nat)
    requires m < |frames|
  {
    forall j :: 0 <= j < m && frames[j].personality ==> frames[j].sp != frames[m].sp
  }

  /** The action for each frame when `m` is the one marked. */
  function Cleaning(m: nat): nat -> Action { k => if k == m then CleanupHandler else Cleanup }

  lemma {:induction false} CallsExtend(frames: seq<Frame>, from: nat, to: nat, action: nat -> Action)
    requires from < to <= |frames|
    ensures Calls(frames, from, to, action) ==
            (if frames[from].personality then [Called(from, action(from))] else []) + Calls(frames, from + 1, to, action)
  {
    if to > from + 1 {
      CallsExtend(frames, from, to - 1, action);
    }
  }

  /**
   A pass calls every personality function from its start to where it ends
   exactly once, in order, tells only the marked frame that it has the handler,
   and never goes beyond it. It aborts exactly when that frame goes back on its word.
   */
  lemma {:induction false} PassVisitsAll(w: World, frames: seq<Frame>, m: nat, log: seq<Event>, k: nat) returns (h: nat)
    requires k <= m < |frames| && frames[m].personality && DistinctSp(frames, m)
    ensures k <= h <= m + 1
    ensures var r := Phase2(w, frames, frames[m].sp, log, k);
            && r.log == log + Calls(frames, k, h, Cleaning(m))
            && (r.ending.Transferred? ==> r.ending.frame == h - 1 && h > k && frames[h - 1].personality && w.reply(r.log) == InstallContext)
            && (r.ending.Aborted? <==> h == m + 1 && w.reply(r.log) == ContinueUnwind)
    decreases m - k
  {
    var r := Phase2(w, frames, frames[m].sp, log, k);
    if StepTo(w, frames, log, k) != Moved || !w.known(log, k) {
      h := k;
    } else if !frames[k].personality {
      h := PassVisitsAll(w, frames, m, log, k + 1);
      CallsExtend(frames, k, h, Cleaning(m));
    } else {
      var log' := log + [Called(k, Cleaning(m)(k))];
      if w.reply(log') == ContinueUnwind && k < m {
        h := PassVisitsAll(w, frames, m, log', k + 1);
        CallsExtend(frames, k, h, Cleaning(m));
        assert r.log == log + Calls(frames, k, h, Cleaning(m));
      } else {
        h := k + 1;
        assert Calls(frames, k, h, Cleaning(m)) == [] + [Called(k, Cleaning(m)(k))];
      }
    }
  }

  // ---------- Whole runs ----------

  /** How a run has ended: raising returned, the program was stopped, a landing pad kept control, or one more resume is pending. */
  datatype Fate = Failed(code: Code) | Stopped | Caught(frame: nat) | Pending(frame: nat)

  datatype Ran = Ran(log: seq<Event>, fate: Fate)

  /** Passes from frame `k`, then from each landing pad that resumes. Resuming must not return. */
  function Passes(w: World, frames: seq<Frame>, marked: nat, log: seq<Event>, k: nat, resumed: bool, resumes: nat): (r: Ran)
    decreases resumes
  {
    var c := Phase2(w, frames, marked, log, k);
    match c.ending
    case Returned(code) => Ran(c.log, if resumed then Stopped else Failed(code))
    case Aborted => Ran(c.log, Stopped)
    case Transferred(f) =>
      var log' := c.log + [Landed(f)];
      if !w.resumes(log') then Ran(log', Caught(f))
      else if resumes == 0 then Ran(log', Pending(f))
      else Passes(w, frames, marked, log', f, true, resumes - 1)
  }

  /** Raising an exception, up to a number of resumes. */
  function Raise(w: World, frames: seq<Frame>, resumes: nat): (r: Ran) {
    var s := Phase1(w, frames, [], 0);
    if s.code != NoReason then Ran(s.log, Failed(s.code))
    else Passes(w, frames, frames[s.frame].sp, s.log, 0, false, resumes)
  }

  /** The frame of the last event from `from` on. */
  function Depth(log: seq<Event>, from: nat): nat {
    if |log| <= from then 0 else log[|log| - 1].frame
  }

  /** An event of the second phase when `m` is marked: not beyond it, and told of the handler exactly there. */
  predicate Within(e: Event, m: nat) {
    e.frame <= m && (e.Called? ==> e.action == Cleaning(m)(e.frame))
  }

  /** From `from` on, frames never get shallower. */
  predicate Disciplined(log: seq<Event>, from: nat, m: nat) {
    |log| <= from ||
    (var init := log[..|log| - 1];
     && Disciplined(init, from, m)
     && Within(log[|log| - 1], m) && log[|log| - 1].frame >= Depth(init, from))
  }

  lemma Add(log: seq<Event>, from: nat, m: nat, e: Event)
    requires from <= |log| && Disciplined(log, from, m) && Within(e, m) && e.frame >= Depth(log, from)
    ensures Disciplined(log + [e], from, m) && Depth(log + [e], from) == e.frame
  {
    assert (log + [e])[..|log + [e]| - 1] == log;
  }

  lemma {:induction false} AddCalls(log: seq<Event>, from: nat, frames: seq<Frame>, k: nat, h: nat, m: nat)
    requires from <= |log| && Disciplined(log, from, m) && Depth(log, from) <= k <= h <= m + 1 <= |frames|
    ensures Disciplined(log + Calls(frames, k, h, Cleaning(m)), from, m)
    ensures Depth(log + Calls(frames, k, h, Cleaning(m)), from) <= (if h > k then h - 1 else k)
  {
    if h == k {
      assert log + Calls(frames, k, h, Cleaning(m)) == log;
    } else {
      AddCalls(log, from, frames, k, h - 1, m);
      var before := log + Calls(frames, k, h - 1, Cleaning(m));
      if frames[h - 1].personality {
        var e := Called(h - 1, Cleaning(m)(h - 1));
        Add(before, from, m, e);
        assert before + [e] == log + Calls(frames, k, h, Cleaning(m));
      }
    }
  }

  lemma PassIsDisciplined(w: World, frames: seq<Frame>, m: nat, log: seq<Event>, from: nat, k: nat)
    requires k <= m < |frames| && frames[m].personality && DistinctSp(frames, m)
    requires from <= |log| && Disciplined(log, from, m) && Depth(log, from) <= k
    ensures var c := Phase2(w, frames, frames[m].sp, log, k);
            && Disciplined(c.log, from, m) && from <= |c.log| && c.log[..from] == log[..from]
            && (c.ending.Transferred? ==> Depth(c.log, from) <= c.ending.frame <= m)
  {
    var h := PassVisitsAll(w, frames, m, log, k);
    AddCalls(log, from, frames, k, h, m);
  }

  lemma {:induction false} PassesAreDisciplined(w: World, frames: seq<Frame>, m: nat, log: seq<Event>, from: nat, k: nat, resumed: bool, resumes: nat)
    requires k <= m < |frames| && frames[m].personality && DistinctSp(frames, m)
    requires from <= |log| && Disciplined(log, from, m) && Depth(log, from) <= k
    ensures var r := Passes(w, frames, frames[m].sp, log, k, resumed, resumes);
            && Disciplined(r.log, from, m) && from <= |r.log|
            && r.log[..from] == log[..from]
            && (r.fate.Caught? || r.fate.Pending? ==> r.fate.frame <= m)
    decreases resumes
  {
    PassIsDisciplined(w, frames, m, log, from, k);
    var c := Phase2(w, frames, frames[m].sp, log, k);
    if c.ending.Transferred? {
      var f := c.ending.frame;
      Add(c.log, from, m, Landed(f));
      var log' := c.log + [Landed(f)];
      assert log'[..from] == c.log[..from];
      if w.resumes(log') && resumes > 0 {
        PassesAreDisciplined(w, frames, m, log', from, f, true, resumes - 1);
      }
    }
  }

  /** Events from `from` on, one by one. */
  lemma {:induction false} EventIsWithin(log: seq<Event>, from: nat, m: nat, i: nat)
    requires Disciplined(log, from, m) && from <= i < |log|
    ensures Within(log[i], m) && log[i].frame <= Depth(log, from)
  {
    if i < |log| - 1 {
      EventIsWithin(log[..|log| - 1], from, m, i);
    }
  }

  lemma {:induction false} EventsInOrder(log: seq<Event>, from: nat, m: nat, i: nat, j: nat)
    requires Disciplined(log, from, m) && from <= i <= j < |log|
    ensures log[i].frame <= log[j].frame
  {
    if j < |log| - 1 {
      EventsInOrder(log[..|log| - 1], from, m, i, j);
    } else {
      EventIsWithin(log, from, m, i);
    }
  }

  /**
   The search down to frame `m`, then only cleanups and landings at or above
   it, never shallower than before, each told of the handler exactly at `m`.
   */
  ghost predicate Safe(log: seq<Event>, frames: seq<Frame>, m: nat)
    requires m < |frames|
  {
    var search := Calls(frames, 0, m + 1, SEARCHING);
    && |search| <= |log| && log[..|search|] == search
    && (forall i :: |search| <= i < |log| ==> Within(log[i], m))
    && (forall i, j :: |search| <= i <= j < |log| ==> log[i].frame <= log[j].frame)
  }

  /**
   Safety over every whole run, whatever the personality functions answer and
   however often landing pads resume. Once the search has marked a frame that
   its stack pointer tells apart, every cleanup call and landing is at or above
   that frame, frames never get shallower, and a personality function is told
   that its frame has the handler exactly at the marked frame.
   */
  lemma RunIsSafe(w: World, frames: seq<Frame>, resumes: nat)
    requires var s := Phase1(w, frames, [], 0); s.code == NoReason && DistinctSp(frames, s.frame)
    ensures var m, r := Phase1(w, frames, [], 0).frame, Raise(w, frames, resumes);
            && frames[m].personality && Safe(r.log, frames, m)
            && (r.fate.Caught? || r.fate.Pending? ==> r.fate.frame <= m)
  {
    SearchVisitsAll(w, frames, 0);
    var s := Phase1(w, frames, [], 0);
    var from := |s.log|;
    assert s.log[..from] == s.log;
    PassesAreDisciplined(w, frames, s.frame, s.log, from, 0, false, resumes);
    var r := Raise(w, frames, resumes);
    forall i | from <= i < |r.log| ensures Within(r.log[i], s.frame) { EventIsWithin(r.log, from, s.frame, i); }
    forall i, j | from <= i <= j < |r.log| ensures r.log[i].frame <= r.log[j].frame { EventsInOrder(r.log, from, s.frame, i, j); }
  }

  // ---------- When unwinding reaches the handler ----------

  /** Steps work down to frame `m`, and personality functions keep to what the search was told. */
  ghost predicate Cooperative(w: World, m: nat) {
    && (forall log, k: nat :: k <= m ==> w.step(log, k) == Moved && w.known(log, k))
    && (forall log, k: nat :: w.reply(log + [Called(k, Cleanup)]) in {ContinueUnwind, InstallContext})
    && (forall log, k: nat :: w.reply(log + [Called(k, CleanupHandler)]) == InstallContext)
    && (forall log :: w.transfers(log))
  }

  /** Then every pass ends at a landing pad, of the marked frame or above, so a run neither fails nor stops. */
  lemma {:induction false} CooperationLands(w: World, frames: seq<Frame>, m: nat, log: seq<Event>, k: nat, resumed: bool, resumes: nat)
    requires k <= m < |frames| && frames[m].personality && DistinctSp(frames, m) && Cooperative(w, m)
    ensures Passes(w, frames, frames[m].sp, log, k, resumed, resumes).fate.Caught? ||
            Passes(w, frames, frames[m].sp, log, k, resumed, resumes).fate.Pending?
    decreases resumes
  {
    PassLands(w, frames, m, log, k);
    var h := PassVisitsAll(w, frames, m, log, k);
    var c := Phase2(w, frames, frames[m].sp, log, k);
    var log' := c.log + [Landed(c.ending.frame)];
    if w.resumes(log') && resumes > 0 {
      CooperationLands(w, frames, m, log', c.ending.frame, true, resumes - 1);
    }
  }

  lemma {:induction false} PassLands(w: World, frames: seq<Frame>, m: nat, log: seq<Event>, k: nat)
    requires k <= m < |frames| && frames[m].personality && DistinctSp(frames, m) && Cooperative(w, m)
    ensures Phase2(w, frames, frames[m].sp, log, k).ending.Transferred?
    decreases m - k
  {
    assert w.step(log, k) == Moved && w.known(log, k);
    if !frames[k].personality {
      PassLands(w, frames, m, log, k + 1);
    } else if k < m {
      var log' := log + [Called(k, Cleanup)];
      if w.reply(log') == ContinueUnwind { PassLands(w, frames, m, log', k + 1); }
    }
  }

  // ---------- When stack pointers coincide ----------

  /** Nothing fails, and only frame `m` has a handler. */
  function Quiet(m: nat): World {
    World((log, k) => Moved,
          (log, k) => true,
          log => if log != [] && log[|log| - 1] == Called(m, Search) then HandlerFound else ContinueUnwind,
          log => true,
          log => false)
  }

  lemma {:induction false} QuietSearch(frames: seq<Frame>, m: nat, k: nat)
    requires k <= m < |frames| && frames[m].personality
    ensures var s := Phase1(Quiet(m), frames, Calls(frames, 0, k, SEARCHING), k); s.code == NoReason && s.frame == m
    decreases m - k
  {
    if k < m { QuietSearch(frames, m, k + 1); }
  }

  lemma {:induction false} QuietPass(frames: seq<Frame>, m: nat, j: nat, log: seq<Event>, k: nat)
    requires k <= j < m < |frames| && frames[j].personality && frames[j].sp == frames[m].sp && DistinctSp(frames, j)
    ensures var c := Phase2(Quiet(m), frames, frames[m].sp, log, k);
            c.ending == Aborted && c.log != [] && c.log[|c.log| - 1] == Called(j, CleanupHandler)
    decreases j - k
  {
    if !frames[k].personality {
      QuietPass(frames, m, j, log, k + 1);
    } else if k < j {
      QuietPass(frames, m, j, log + [Called(k, Cleanup)], k + 1);
    }
  }

  lemma FirstLikeIt(frames: seq<Frame>, m: nat, j: nat) returns (i: nat)
    requires j < m < |frames| && frames[j].personality && frames[j].sp == frames[m].sp
    ensures i < m && frames[i].personality && frames[i].sp == frames[m].sp && DistinctSp(frames, i)
    decreases j
  {
    if DistinctSp(frames, j) {
      i := j;
    } else {
      var j' :| 0 <= j' < j && frames[j'].personality && frames[j'].sp == frames[j].sp;
      i := FirstLikeIt(frames, m, j');
    }
  }

  /**
   If a frame above the marked one has its stack pointer and a personality
   function, the topmost such frame is told that it has the handler, and the
   program stops when it goes on.
   */
  lemma DistinctIsNeeded(frames: seq<Frame>, m: nat)
    requires m < |frames| && frames[m].personality && !DistinctSp(frames, m)
    ensures var s, r := Phase1(Quiet(m), frames, [], 0), Raise(Quiet(m), frames, 0);
            && s.code == NoReason && s.frame == m
            && r.fate == Stopped
            && r.log != [] && r.log[|r.log| - 1].Called? && r.log[|r.log| - 1].action == CleanupHandler && r.log[|r.log| - 1].frame < m
  {
    QuietSearch(frames, m, 0);
    var j :| 0 <= j < m && frames[j].personality && frames[j].sp == frames[m].sp;
    var i := FirstLikeIt(frames, m, j);
    QuietPass(frames, m, i, Phase1(Quiet(m), frames, [], 0).log, 0);
  }

  /** The search of this run marks frame `m`. */
  predicate Marks(w: World, frames: seq<Frame>, m: nat) {
    Phase1(w, frames, [], 0).code == NoReason && Phase1(w, frames, [], 0).frame == m
  }

  /**
   Every run that marks frame `m` is safe if and only if no frame above it has
   its stack pointer and a personality function.
   */
  lemma SafeIffDistinct(frames: seq<Frame>, m: nat)
    requires m < |frames| && frames[m].personality
    ensures (forall w: World, resumes: nat {:trigger Raise(w, frames, resumes)} ::
               Marks(w, frames, m) ==> Safe(Raise(w, frames, resumes).log, frames, m))
            <==> DistinctSp(frames, m)
  {
    if DistinctSp(frames, m) {
      forall w: World, resumes: nat | Marks(w, frames, m) ensures Safe(Raise(w, frames, resumes).log, frames, m) {
        RunIsSafe(w, frames, resumes);
      }
    } else {
      DistinctIsNeeded(frames, m);
      var log, search := Raise(Quiet(m), frames, 0).log, Calls(frames, 0, m + 1, SEARCHING);
      assert search[|search| - 1] == Called(m, Search);
      assert |search| == |log| ==> log[..|search|][|search| - 1] == log[|log| - 1];
      assert !Within(log[|log| - 1], m);
    }
  }
}
