/**
 What a stream of call frame instructions says, read off its list of
 instructions: every part of the frame's description comes from the last
 instruction that gives it and is not taken back by a later Recall
 (section 6.4.2 of DWARF 3).
 */
module CfiWriters {
  import opened CfiDecode
  import opened CfiRules
  import opened Words

  // ---------- What is taken back ----------

  /** How many rows more than `prog` remembers itself it recalls. */
  function Deficit(prog: seq<Instr>): nat {
    if prog == [] then 0
    else
      var rest := Deficit(prog[1..]);
      if prog[0].Remember? then (if rest == 0 then 0 else rest - 1)
      else if prog[0].Recall? then rest + 1
      else rest
  }

  /** Nothing after instruction `k` recalls a row from before it. */
  predicate Live(prog: seq<Instr>, k: nat)
    requires k < |prog|
  {
    Deficit(prog[k + 1..]) == 0
  }

  /** `k` is the last live one of the instructions chosen. */
  ghost predicate LastLive(prog: seq<Instr>, k: int, chosen: Instr -> bool) {
    && 0 <= k < |prog| && chosen(prog[k]) && Live(prog, k)
    && forall j :: k < j < |prog| && chosen(prog[j]) ==> !Live(prog, j)
  }

  /** `x` is what the last live one of the instructions chosen says; without one it is `start`. */
  ghost predicate Says<T>(prog: seq<Instr>, chosen: Instr -> bool, says: Instr -> T, x: T, start: T) {
    && (forall k :: LastLive(prog, k, chosen) ==> x == says(prog[k]))
    && ((forall k :: 0 <= k < |prog| && chosen(prog[k]) ==> !Live(prog, k)) ==> x == start)
  }

  lemma LiveInRest(prog: seq<Instr>, k: nat)
    requires 0 < k < |prog|
    ensures Live(prog, k) <==> Live(prog[1..], k - 1)
  {
    assert prog[1..][k..] == prog[k + 1..];
  }

  /** What the rest says, the whole says. */
  lemma SaysFurther<T>(prog: seq<Instr>, chosen: Instr -> bool, says: Instr -> T, x: T, start: T, rest: T)
    requires prog != [] && Says(prog[1..], chosen, says, x, rest)
    requires rest == if chosen(prog[0]) && Live(prog, 0) then says(prog[0]) else start
    ensures Says(prog, chosen, says, x, start)
  {
    var tail := prog[1..];
    forall k | 0 < k < |prog| ensures Live(prog, k) <==> Live(tail, k - 1) { LiveInRest(prog, k); }
    forall k | LastLive(prog, k, chosen) ensures x == says(prog[k]) {
      if k > 0 {
        assert forall j :: k - 1 < j < |tail| && chosen(tail[j]) ==> !Live(tail, j) by {
          forall j | k - 1 < j < |tail| && chosen(tail[j]) ensures !Live(tail, j) {
            assert prog[j + 1] == tail[j] && (Live(prog, j + 1) <==> Live(tail, j));
          }
        }
        assert LastLive(tail, k - 1, chosen);
      } else {
        forall j | 0 <= j < |tail| && chosen(tail[j]) ensures !Live(tail, j) {
          assert prog[j + 1] == tail[j] && (Live(prog, j + 1) <==> Live(tail, j));
        }
      }
    }
    if forall k :: 0 <= k < |prog| && chosen(prog[k]) ==> !Live(prog, k) {
      forall j | 0 <= j < |tail| && chosen(tail[j]) ensures !Live(tail, j) {
        assert prog[j + 1] == tail[j] && (Live(prog, j + 1) <==> Live(tail, j));
      }
    }
  }

  // ---------- Runs ----------

  /** The row that the end of a run descends from: the one at its start, or one remembered before that. */
  function Base(prog: seq<Instr>, s: State): Row
    requires Deficit(prog) <= |s.remembered|
  {
    if Deficit(prog) == 0 then s.row else s.remembered[|s.remembered| - Deficit(prog)]
  }

  /** `part` of the row is changed by the instructions chosen, to what they say, and by a Recall. */
  ghost predicate Gives<T>(start: seq<Rule>, n: nat, part: Row -> T, chosen: Instr -> bool, says: Instr -> T) {
    && !chosen(Remember) && !chosen(Recall)
    && forall i: Instr, s: State {:trigger EagerExec(i, s, n)} ::
         Sized(s, n) && InRange(i, n) && s.initial == start && !i.Recall? && EagerExec(i, s, n).Done? ==>
           part(EagerExec(i, s, n).state.row) == if chosen(i) then says(i) else part(s.row)
  }

  lemma BaseInRest(prog: seq<Instr>, s: State, n: nat, t: State)
    requires Sized(s, n) && prog != [] && InRange(prog[0], n) && EagerExec(prog[0], s, n) == Done(t)
    requires Deficit(prog[1..]) <= |t.remembered|
    ensures Deficit(prog) <= |s.remembered|
    ensures Base(prog[1..], t) == if Live(prog, 0) then t.row else Base(prog, s)
    ensures Live(prog, 0) ==> Base(prog, s) == if prog[0].Recall? then t.row else s.row
  {
  }

  /** What one instruction says, or else what was there before it, is what the rest starts from. */
  lemma EagerStep<T(!new)>(prog: seq<Instr>, s: State, n: nat, t: State, part: Row -> T, chosen: Instr -> bool, says: Instr -> T)
    requires Sized(s, n) && prog != [] && InRange(prog[0], n) && Gives(s.initial, n, part, chosen, says)
    requires EagerExec(prog[0], s, n) == Done(t) && Deficit(prog[1..]) <= |t.remembered|
    ensures Deficit(prog) <= |s.remembered|
    ensures part(Base(prog[1..], t)) == if chosen(prog[0]) && Live(prog, 0) then says(prog[0]) else part(Base(prog, s))
  {
    BaseInRest(prog, s, n, t);
    assert !prog[0].Recall? ==> part(EagerExec(prog[0], s, n).state.row) == if chosen(prog[0]) then says(prog[0]) else part(s.row);
  }

  lemma {:induction false} EagerSays<T(!new)>(prog: seq<Instr>, limit: nat, s: State, n: nat, part: Row -> T, chosen: Instr -> bool, says: Instr -> T, end: Row)
    requires Sized(s, n) && AllInRange(prog, n) && Gives(s.initial, n, part, chosen, says)
    requires var r := EagerRun(prog, limit, s, n); r.Done? && r.state.offset < limit && r.state.row == end
    ensures Deficit(prog) <= |s.remembered| && Says(prog, chosen, says, part(end), part(Base(prog, s)))
  {
    if prog != [] {
      var t := EagerExec(prog[0], s, n).state;
      EagerSays(prog[1..], limit, t, n, part, chosen, says, end);
      EagerStep(prog, s, n, t, part, chosen, says);
      SaysFurther(prog, chosen, says, part(end), part(Base(prog, s)), part(Base(prog[1..], t)));
    }
  }

  // ---------- What instructions say ----------

  /** An expression for the frame's address takes the place of its register. */
  predicate NamesRegister(i: Instr) { i.DefCfa? || i.DefCfaRegister? || i.DefCfaExpression? }

  function NamedRegister(i: Instr): nat {
    if i.DefCfa? || i.DefCfaRegister? then i.reg else 0
  }

  predicate GivesOffset(i: Instr) { i.DefCfa? || i.DefCfaOffset? }

  function GivenOffset(i: Instr): int {
    if GivesOffset(i) then i.offset else 0
  }

  predicate GivesExpression(i: Instr) { i.DefCfaExpression? }

  function GivenExpression(i: Instr): int {
    if i.DefCfaExpression? then i.at else 0
  }

  predicate GivesSize(i: Instr) { i.ArgsSize? }

  function GivenSize(i: Instr): nat {
    if i.ArgsSize? then i.size else 0
  }

  predicate Places(i: Instr, reg: nat) { (i.SetRule? || i.SetPlace? || i.Restore?) && i.reg == reg }

  /** A Restore goes back to the rule `start`. */
  function PlaceGiven(i: Instr, start: Rule): Place {
    if i.SetRule? || i.SetPlace? then i.place else start.place
  }

  predicate Values(i: Instr, reg: nat) { (i.SetRule? || i.Restore?) && i.reg == reg }

  function ValueGiven(i: Instr, start: Rule): int {
    if i.SetRule? then i.value else start.value
  }

  /** The frame's address and the size of the arguments, as `prog` gives them; as in `base` where it does not. */
  ghost predicate FrameSays(prog: seq<Instr>, row: Row, base: Row) {
    && Says(prog, NamesRegister, NamedRegister, row.cfaRegister, base.cfaRegister)
    && Says(prog, GivesOffset, GivenOffset, row.cfaOffset, base.cfaOffset)
    && Says(prog, GivesExpression, GivenExpression, row.cfaExpression, base.cfaExpression)
    && Says(prog, GivesSize, GivenSize, row.argsSize, base.argsSize)
  }

  /** Where register `reg` is, as `prog` gives it; as in `start` where it does not, or where it restores it. */
  ghost predicate RuleSays(prog: seq<Instr>, reg: nat, rule: Rule, start: Rule) {
    && Says(prog, (i: Instr) => Places(i, reg), (i: Instr) => PlaceGiven(i, start), rule.place, start.place)
    && Says(prog, (i: Instr) => Values(i, reg), (i: Instr) => ValueGiven(i, start), rule.value, start.value)
  }

  lemma FramePartsAreGiven(start: seq<Rule>, n: nat)
    ensures Gives(start, n, (row: Row) => row.cfaRegister, NamesRegister, NamedRegister)
    ensures Gives(start, n, (row: Row) => row.cfaOffset, GivesOffset, GivenOffset)
    ensures Gives(start, n, (row: Row) => row.cfaExpression, GivesExpression, GivenExpression)
    ensures Gives(start, n, (row: Row) => row.argsSize, GivesSize, GivenSize)
  {
  }

  lemma EagerFrame(prog: seq<Instr>, limit: nat, s: State, n: nat, end: Row, base: Row)
    requires Sized(s, n) && AllInRange(prog, n)
    requires var r := EagerRun(prog, limit, s, n); r.Done? && r.state.offset < limit && end == r.state.row
    requires Deficit(prog) <= |s.remembered| ==> base == Base(prog, s)
    ensures Deficit(prog) <= |s.remembered| && FrameSays(prog, end, base)
  {
    FramePartsAreGiven(s.initial, n);
    EagerSays(prog, limit, s, n, (row: Row) => row.cfaRegister, NamesRegister, NamedRegister, end);
    EagerSays(prog, limit, s, n, (row: Row) => row.cfaOffset, GivesOffset, GivenOffset, end);
    EagerSays(prog, limit, s, n, (row: Row) => row.cfaExpression, GivesExpression, GivenExpression, end);
    EagerSays(prog, limit, s, n, (row: Row) => row.argsSize, GivesSize, GivenSize, end);
  }

  function PlaceIn(row: Row, reg: nat): Place { if reg < |row.rules| then row.rules[reg].place else Unused }

  function ValueIn(row: Row, reg: nat): int { if reg < |row.rules| then row.rules[reg].value else 0 }

  lemma RulePartsAreGiven(start: seq<Rule>, n: nat, reg: nat)
    requires reg < n == |start|
    ensures Gives(start, n, (row: Row) => PlaceIn(row, reg), (i: Instr) => Places(i, reg), (i: Instr) => PlaceGiven(i, start[reg]))
    ensures Gives(start, n, (row: Row) => ValueIn(row, reg), (i: Instr) => Values(i, reg), (i: Instr) => ValueGiven(i, start[reg]))
  {
  }

  lemma EagerRule(prog: seq<Instr>, limit: nat, s: State, n: nat, reg: nat, start: Rule, end: Row)
    requires Sized(s, n) && AllInRange(prog, n) && reg < n
    requires var r := EagerRun(prog, limit, s, n); r.Done? && r.state.offset < limit && r.state.row == end
    requires Clean(s.row, s.remembered, reg, n) && s.initial == s.row.rules && start == s.initial[reg]
    ensures reg < |end.rules| && RuleSays(prog, reg, end.rules[reg], start)
  {
    RulePartsAreGiven(s.initial, n, reg);
    EagerSays(prog, limit, s, n, (row: Row) => PlaceIn(row, reg), (i: Instr) => Places(i, reg), (i: Instr) => PlaceGiven(i, start), end);
    EagerSays(prog, limit, s, n, (row: Row) => ValueIn(row, reg), (i: Instr) => Values(i, reg), (i: Instr) => ValueGiven(i, start), end);
    BaseIsStart(prog, s, n, reg, start);
  }

  lemma BaseIsStart(prog: seq<Instr>, s: State, n: nat, reg: nat, start: Rule)
    requires Sized(s, n) && reg < n && Clean(s.row, s.remembered, reg, n) && s.row.rules[reg] == start && Deficit(prog) <= |s.remembered|
    ensures PlaceIn(Base(prog, s), reg) == start.place && ValueIn(Base(prog, s), reg) == start.value
  {
  }

  /**
   The description at the end of a stream, whatever is in the place for captured
   rules and whatever rows the stream before has left: the frame's address and
   the size of the arguments are what the last live instructions say.
   */
  lemma FrameIsSaid(prog: seq<Instr>, limit: nat, row: Row, garbage: seq<Rule>, stack: seq<Row>, n: nat, end: State)
    requires RowSized(row, n) && StackSized(stack, n) && |garbage| == n && AllInRange(prog, n)
    requires Run(prog, limit, State(row, garbage, stack, 0), n) == Done(end) && end.offset < limit
    ensures Deficit(prog) <= |stack| && FrameSays(prog, end.row, Base(prog, State(row, row.rules, stack, 0)))
  {
    StreamFrame(prog, limit, row, garbage, stack, n, end, if Deficit(prog) <= |stack| then Base(prog, State(row, row.rules, stack, 0)) else row);
  }

  /** And so is the rule of every register that can be restored. */
  lemma RuleIsSaid(prog: seq<Instr>, limit: nat, row: Row, garbage: seq<Rule>, stack: seq<Row>, n: nat, reg: nat, end: State)
    requires RowSized(row, n) && StackSized(stack, n) && |garbage| == n && AllInRange(prog, n) && reg < n && Clean(row, stack, reg, n)
    requires Run(prog, limit, State(row, garbage, stack, 0), n) == Done(end) && end.offset < limit
    ensures |end.row.rules| == n && RuleSays(prog, reg, end.row.rules[reg], row.rules[reg])
  {
    var eager := EagerEnds(prog, limit, row, garbage, stack, n, end);
    RuleFollows(prog, limit, row, stack, n, reg, end, eager);
  }

  lemma StreamFrame(prog: seq<Instr>, limit: nat, row: Row, garbage: seq<Rule>, stack: seq<Row>, n: nat, end: State, base: Row)
    requires RowSized(row, n) && StackSized(stack, n) && |garbage| == n && AllInRange(prog, n)
    requires Run(prog, limit, State(row, garbage, stack, 0), n) == Done(end) && end.offset < limit
    requires Deficit(prog) <= |stack| ==> base == Base(prog, State(row, row.rules, stack, 0))
    ensures Deficit(prog) <= |stack| && FrameSays(prog, end.row, base)
  {
    var eager := EagerEnds(prog, limit, row, garbage, stack, n, end);
    FrameFollows(prog, limit, row, stack, n, end, eager, base);
  }

  /** The machine with a snapshot ends too, in agreement on the registers that can be restored. */
  lemma EagerEnds(prog: seq<Instr>, limit: nat, row: Row, garbage: seq<Rule>, stack: seq<Row>, n: nat, lazy: State) returns (eager: State)
    requires RowSized(row, n) && StackSized(stack, n) && |garbage| == n && AllInRange(prog, n)
    requires Run(prog, limit, State(row, garbage, stack, 0), n) == Done(lazy) && lazy.offset < limit
    ensures EagerRun(prog, limit, State(row, row.rules, stack, 0), n) == Done(eager) && eager.offset < limit
    ensures Sized(lazy, n) && Sized(eager, n) && StatesAgree(row.rules, CleanRegs(row, stack, n), lazy, eager, n)
  {
    StreamStarts(row, garbage, stack, n);
    LazyIsEager(prog, limit, row.rules, CleanRegs(row, stack, n), State(row, garbage, stack, 0), State(row, row.rules, stack, 0), n);
    eager := EagerRun(prog, limit, State(row, row.rules, stack, 0), n).state;
  }

  lemma FrameFollows(prog: seq<Instr>, limit: nat, row: Row, stack: seq<Row>, n: nat, lazy: State, eager: State, base: Row)
    requires RowSized(row, n) && StackSized(stack, n) && AllInRange(prog, n)
    requires EagerRun(prog, limit, State(row, row.rules, stack, 0), n) == Done(eager) && eager.offset < limit
    requires Sized(lazy, n) && Sized(eager, n) && StatesAgree(row.rules, CleanRegs(row, stack, n), lazy, eager, n)
    requires Deficit(prog) <= |stack| ==> base == Base(prog, State(row, row.rules, stack, 0))
    ensures Deficit(prog) <= |stack| && FrameSays(prog, lazy.row, base)
  {
    EagerFrame(prog, limit, State(row, row.rules, stack, 0), n, eager.row, base);
    SameFrameSays(prog, lazy.row, eager.row, base);
  }

  lemma RuleFollows(prog: seq<Instr>, limit: nat, row: Row, stack: seq<Row>, n: nat, reg: nat, lazy: State, eager: State)
    requires RowSized(row, n) && StackSized(stack, n) && AllInRange(prog, n) && reg < n && Clean(row, stack, reg, n)
    requires EagerRun(prog, limit, State(row, row.rules, stack, 0), n) == Done(eager) && eager.offset < limit
    requires Sized(lazy, n) && Sized(eager, n) && StatesAgree(row.rules, CleanRegs(row, stack, n), lazy, eager, n)
    ensures RuleSays(prog, reg, lazy.row.rules[reg], row.rules[reg])
  {
    EagerRule(prog, limit, State(row, row.rules, stack, 0), n, reg, row.rules[reg], eager.row);
    assert Agree(row.rules[reg], lazy.row.rules[reg], lazy.initial[reg], eager.row.rules[reg]);
    SameRuleSays(prog, reg, lazy.row.rules[reg], eager.row.rules[reg], row.rules[reg]);
  }

  lemma SameFrameSays(prog: seq<Instr>, row: Row, same: Row, base: Row)
    requires row.(rules := []) == same.(rules := []) && FrameSays(prog, same, base)
    ensures FrameSays(prog, row, base)
  {
  }

  lemma SameRuleSays(prog: seq<Instr>, reg: nat, rule: Rule, same: Rule, start: Rule)
    requires rule.place == same.place && rule.value == same.value && RuleSays(prog, reg, same, start)
    ensures RuleSays(prog, reg, rule, start)
  {
  }

  // ---------- Locations ----------

  /** The sum of the advances. */
  function Advanced(prog: seq<Instr>): nat {
    if prog == [] then 0 else (if prog[0].Advance? then prog[0].delta else 0) + Advanced(prog[1..])
  }

  predicate LastSet(prog: seq<Instr>, k: int) {
    0 <= k < |prog| && prog[k].SetLoc? && forall j :: k < j < |prog| ==> !prog[j].SetLoc?
  }

  /** Where it leads from `start`: to the location last set, or else on from `start`, by the advances since. */
  ghost predicate Leads(prog: seq<Instr>, start: nat, end: nat) {
    && (forall k :: LastSet(prog, k) ==> Wrap64(end) == Wrap64(prog[k].address + Advanced(prog[k + 1..])))
    && (NoSetLoc(prog) ==> Wrap64(end) == Wrap64(start + Advanced(prog)))
  }

  function Moved(i: Instr, start: nat): nat {
    match i
    case SetLoc(address) => address
    case Advance(delta) => start + delta
    case _ => start
  }

  lemma StepMoves(i: Instr, s: State, n: nat)
    requires Sized(s, n) && InRange(i, n) && Exec(i, s, n).Done?
    ensures Wrap64(Exec(i, s, n).state.offset) == Wrap64(Moved(i, s.offset))
  {
    WrapAdds(Moved(i, s.offset), 0);
  }

  lemma LeadsFurther(prog: seq<Instr>, start: nat, next: nat, end: nat)
    requires prog != [] && Leads(prog[1..], next, end)
    requires Wrap64(next) == Wrap64(Moved(prog[0], start))
    ensures Leads(prog, start, end)
  {
    WrapAdds(next, Advanced(prog[1..]));
    WrapAdds(Moved(prog[0], start), Advanced(prog[1..]));
    forall k | LastSet(prog, k) ensures Wrap64(end) == Wrap64(prog[k].address + Advanced(prog[k + 1..])) {
      if k > 0 {
        assert LastSet(prog[1..], k - 1) && prog[1..][k..] == prog[k + 1..];
      }
    }
  }

  lemma {:induction false} RunEndsAt(prog: seq<Instr>, limit: nat, s: State, n: nat)
    requires Sized(s, n) && AllInRange(prog, n)
    requires var r := Run(prog, limit, s, n); r.Done? && r.state.offset < limit
    ensures Leads(prog, s.offset, Run(prog, limit, s, n).state.offset)
  {
    if prog != [] {
      var t := Exec(prog[0], s, n).state;
      StepMoves(prog[0], s, n);
      RunEndsAt(prog[1..], limit, t, n);
      LeadsFurther(prog, s.offset, t.offset, Run(prog, limit, s, n).state.offset);
    }
  }

  // ---------- Failures ----------

  /** The run arrives at instruction `k`. */
  predicate Reaches(prog: seq<Instr>, k: nat, limit: nat, s: State, n: nat)
    requires Sized(s, n) && AllInRange(prog, n) && k <= |prog|
  {
    var r := Run(prog[..k], limit, s, n);
    r.Done? && r.state.offset < limit
  }

  /** Instruction `k` is malformed, or recalls one row more than there is. */
  predicate Bad(prog: seq<Instr>, k: nat, depth: nat)
    requires k < |prog|
  {
    prog[k].Malformed? || (prog[k].Recall? && Deficit(prog[..k + 1]) > depth)
  }

  lemma BadInRest(prog: seq<Instr>, k: nat, s: State, n: nat)
    requires Sized(s, n) && AllInRange(prog, n) && 0 < k < |prog| && Exec(prog[0], s, n).Done?
    ensures Bad(prog, k, |s.remembered|) <==> Bad(prog[1..], k - 1, |Exec(prog[0], s, n).state.remembered|)
  {
    assert prog[..k + 1][1..] == prog[1..][..k];
  }

  lemma ReachesInRest(prog: seq<Instr>, k: nat, limit: nat, s: State, n: nat)
    requires Sized(s, n) && AllInRange(prog, n) && 0 < k <= |prog| && Exec(prog[0], s, n).Done? && s.offset < limit
    ensures Reaches(prog, k, limit, s, n) <==> Reaches(prog[1..], k - 1, limit, Exec(prog[0], s, n).state, n)
  {
    assert prog[..k][1..] == prog[1..][..k - 1];
  }

  ghost predicate ReachesBad(prog: seq<Instr>, limit: nat, s: State, n: nat)
    requires Sized(s, n) && AllInRange(prog, n)
  {
    exists k: nat :: k < |prog| && Reaches(prog, k, limit, s, n) && Bad(prog, k, |s.remembered|)
  }

  ghost predicate ReachesStop(prog: seq<Instr>, limit: nat, s: State, n: nat)
    requires Sized(s, n) && AllInRange(prog, n)
  {
    exists k: nat :: k < |prog| && Reaches(prog, k, limit, s, n) && prog[k].Stop?
  }

  lemma OneInstruction(prog: seq<Instr>, limit: nat, s: State, n: nat)
    requires Sized(s, n) && AllInRange(prog, n) && prog != [] && s.offset < limit
    ensures Reaches(prog, 0, limit, s, n)
    ensures Bad(prog, 0, |s.remembered|) <==> Exec(prog[0], s, n).Failed?
    ensures !Exec(prog[0], s, n).Done? ==> forall k: nat :: 0 < k <= |prog| ==> !Reaches(prog, k, limit, s, n)
  {
    assert prog[..1][1..] == [] && Deficit(prog[..1]) == if prog[0].Recall? then 1 else 0;
    forall k: nat | 0 < k <= |prog| && !Exec(prog[0], s, n).Done? ensures !Reaches(prog, k, limit, s, n) {
      assert prog[..k][0] == prog[0];
    }
  }

  lemma FirstIsPassed(prog: seq<Instr>, limit: nat, s: State, n: nat)
    requires Sized(s, n) && AllInRange(prog, n) && prog != [] && s.offset < limit && Exec(prog[0], s, n).Done?
    ensures ReachesBad(prog, limit, s, n) <==> ReachesBad(prog[1..], limit, Exec(prog[0], s, n).state, n)
    ensures ReachesStop(prog, limit, s, n) <==> ReachesStop(prog[1..], limit, Exec(prog[0], s, n).state, n)
  {
    var t, rest := Exec(prog[0], s, n).state, prog[1..];
    OneInstruction(prog, limit, s, n);
    forall k: nat | 0 < k < |prog|
      ensures Bad(prog, k, |s.remembered|) <==> Bad(rest, k - 1, |t.remembered|)
      ensures Reaches(prog, k, limit, s, n) <==> Reaches(rest, k - 1, limit, t, n)
    {
      BadInRest(prog, k, s, n);
      ReachesInRest(prog, k, limit, s, n);
    }
    if k: nat :| k < |rest| && Reaches(rest, k, limit, t, n) && Bad(rest, k, |t.remembered|) {
      assert Reaches(prog, k + 1, limit, s, n) && Bad(prog, k + 1, |s.remembered|);
    }
    if k: nat :| k < |rest| && Reaches(rest, k, limit, t, n) && rest[k].Stop? {
      assert Reaches(prog, k + 1, limit, s, n) && prog[k + 1].Stop?;
    }
  }

  /** The parser gives up exactly if it arrives at a bad instruction, and the program stops exactly if it arrives at one that stops it. */
  lemma {:induction false} RunFailsIff(prog: seq<Instr>, limit: nat, s: State, n: nat)
    requires Sized(s, n) && AllInRange(prog, n)
    ensures Run(prog, limit, s, n).Failed? <==> ReachesBad(prog, limit, s, n)
    ensures Run(prog, limit, s, n).Stopped? <==> ReachesStop(prog, limit, s, n)
  {
    if prog != [] && s.offset < limit {
      OneInstruction(prog, limit, s, n);
      if Exec(prog[0], s, n).Done? {
        FirstIsPassed(prog, limit, s, n);
        RunFailsIff(prog[1..], limit, Exec(prog[0], s, n).state, n);
      }
    }
  }
}
