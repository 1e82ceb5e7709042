/**
 What call frame instructions mean (sections 6.4.1 and 6.4.2 of DWARF 3): the
 parser's way, which captures a register's initial rule when it first changes
 it, against the row table and against a snapshot taken when the stream starts.
 */
module CfiRules {
  import opened Leb128
  import opened CfiDecode
  import opened Words

  /** Where a register is saved; `saved` records that its initial rule has been captured. */
  datatype Rule = Rule(place: Place, saved: bool, value: int)

  /** What the parser computes: the frame's address and a rule for every register. */
  datatype Row = Row(cfaRegister: nat, cfaOffset: int, cfaExpression: int, argsSize: nat, rules: seq<Rule>)

  /** A parser in the middle of a stream; the last remembered row is the top of the stack. */
  datatype State = State(row: Row, initial: seq<Rule>, remembered: seq<Row>, offset: nat)

  datatype Outcome = Done(state: State) | Failed | Stopped

  /** Registers of every row and instruction are in range. */
  predicate RowSized(row: Row, n: nat) { |row.rules| == n }

  predicate StackSized(stack: seq<Row>, n: nat) { forall k :: 0 <= k < |stack| ==> RowSized(stack[k], n) }

  predicate Sized(s: State, n: nat) { RowSized(s.row, n) && |s.initial| == n && StackSized(s.remembered, n) }

  predicate AllInRange(prog: seq<Instr>, n: nat) { forall k :: 0 <= k < |prog| ==> InRange(prog[k], n) }

  lemma {:induction false} ProgramInRange(c: Cie, mem: seq<byte>, p: nat, end: nat)
    requires end <= |mem|
    ensures AllInRange(Program(c, mem, p, end), c.maxRegister + 1)
    decreases end - p
  {
    if p < end {
      var d := Decode(c, mem, p, end);
      if d.Value? && !d.value.Malformed? { ProgramInRange(c, mem, d.next, end); }
    }
  }

  // ---------- The parser ----------

  /** Captures the register's rule unless that has been done. */
  function Capture(s: State, reg: nat): (t: State)
    requires reg < |s.row.rules| == |s.initial|
  {
    var rule := s.row.rules[reg];
    if rule.saved then s
    else s.(initial := s.initial[reg := rule], row := s.row.(rules := s.row.rules[reg := rule.(saved := true)]))
  }

  function WithRule(s: State, reg: nat, rule: Rule): (t: State)
    requires reg < |s.row.rules|
  {
    s.(row := s.row.(rules := s.row.rules[reg := rule]))
  }

  function Exec(i: Instr, s: State, n: nat): (r: Outcome)
    requires Sized(s, n) && InRange(i, n)
    ensures r.Done? ==> Sized(r.state, n)
  {
    match i
    case Malformed => Failed
    case Stop => Stopped
    case Nop => Done(s)
    case SetLoc(a) => Done(s.(offset := a))
    case Advance(d) => Done(s.(offset := (s.offset + d) % TWO64))
    case Remember => Done(s.(remembered := s.remembered + [s.row]))
    case Recall =>
      if s.remembered == [] then Failed
      else Done(s.(row := s.remembered[|s.remembered| - 1], remembered := s.remembered[..|s.remembered| - 1]))
    case Restore(reg) => Done(if s.row.rules[reg].saved then WithRule(s, reg, s.initial[reg]) else s)
    case SetRule(reg, place, value) => Done(WithRule(Capture(s, reg), reg, Rule(place, true, value)))
    case SetPlace(reg, place) => Done(WithRule(Capture(s, reg), reg, Rule(place, true, s.row.rules[reg].value)))
    case _ => Done(s.(row := Framed(i, s.row)))
  }

  /** Instructions about the frame's address leave the registers alone. */
  function Framed(i: Instr, row: Row): (r: Row)
    ensures r.rules == row.rules
  {
    match i
    case DefCfa(reg, offset) => row.(cfaRegister := reg, cfaOffset := offset)
    case DefCfaRegister(reg) => row.(cfaRegister := reg)
    case DefCfaOffset(offset) => row.(cfaOffset := offset)
    case DefCfaExpression(at) => row.(cfaRegister := 0, cfaExpression := at)
    case ArgsSize(size) => row.(argsSize := size)
    case _ => row
  }

  /** Runs until the offset is no longer below `limit`. */
  function Run(prog: seq<Instr>, limit: nat, s: State, n: nat): (r: Outcome)
    requires Sized(s, n) && AllInRange(prog, n)
    ensures r.Done? ==> Sized(r.state, n)
  {
    if prog == [] || s.offset >= limit then Done(s)
    else match Exec(prog[0], s, n)
      case Done(t) => Run(prog[1..], limit, t, n)
      case r => r
  }

  const WHOLE: nat := TWO64 - 1

  /** The CIE's instructions, then the FDE's, with what `garbage` happens to be where initial rules will be captured. */
  function RunBoth(cie: seq<Instr>, fde: seq<Instr>, limit: nat, row: Row, garbage: seq<Rule>, garbage': seq<Rule>, n: nat): Outcome
    requires RowSized(row, n) && |garbage| == |garbage'| == n && AllInRange(cie, n) && AllInRange(fde, n)
  {
    match Run(cie, WHOLE, State(row, garbage, [], 0), n)
    case Done(s) => Run(fde, limit, State(s.row, garbage', s.remembered, 0), n)
    case r => r
  }

  // ---------- The row table ----------

  /** What holds from `offset` on. */
  datatype TableRow = TableRow(offset: nat, outcome: Outcome)

  predicate NoSetLoc(prog: seq<Instr>) { forall k :: 0 <= k < |prog| ==> !prog[k].SetLoc? }

  /** The fully expanded table: an advance ends a row and starts the next, and the last row says how the stream ends. */
  function Table(prog: seq<Instr>, s: State, n: nat): (rows: seq<TableRow>)
    requires Sized(s, n) && AllInRange(prog, n) && NoSetLoc(prog)
    ensures rows != []
  {
    if prog == [] then [TableRow(s.offset, Done(s))]
    else if prog[0].Advance? then
      [TableRow(s.offset, Done(s))] + Table(prog[1..], s.(offset := s.offset + prog[0].delta), n)
    else match Exec(prog[0], s, n)
      case Done(t) => Table(prog[1..], t, n)
      case r => [TableRow(s.offset, r)]
  }

  /** The last row below `limit`, if any. */
  function LastBelow(rows: seq<TableRow>, limit: nat, none: Outcome): Outcome {
    if rows == [] then none
    else if rows[|rows| - 1].offset < limit then rows[|rows| - 1].outcome
    else LastBelow(rows[..|rows| - 1], limit, none)
  }

  /** The same outcome up to the offset reached. */
  predicate SameRules(a: Outcome, b: Outcome) {
    match (a, b)
    case (Done(s), Done(t)) => s.row == t.row && s.remembered == t.remembered
    case _ => a == b
  }

  /** Rows come in order of their offsets, the first at the stream's own. */
  lemma {:induction false} TableAscends(prog: seq<Instr>, s: State, n: nat)
    requires Sized(s, n) && AllInRange(prog, n) && NoSetLoc(prog)
    ensures var rows := Table(prog, s, n);
            && rows[0].offset == s.offset
            && (forall k :: 0 <= k < |rows| ==> rows[k].offset >= s.offset)
            && forall i, j :: 0 <= i <= j < |rows| ==> rows[i].offset <= rows[j].offset
  {
    if prog != [] {
      if prog[0].Advance? {
        TableAscends(prog[1..], s.(offset := s.offset + prog[0].delta), n);
      } else if Exec(prog[0], s, n).Done? {
        TableAscends(prog[1..], Exec(prog[0], s, n).state, n);
      }
    }
  }

  /** A row in front matters only when none of the others is below the limit. */
  lemma {:induction false} LastBelowFront(first: TableRow, rows: seq<TableRow>, limit: nat, none: Outcome)
    ensures LastBelow([first] + rows, limit, none) == LastBelow(rows, limit, if first.offset < limit then first.outcome else none)
  {
    var all := [first] + rows;
    if rows == [] {
      assert all[..0] == [];
      assert LastBelow(all[..0], limit, none) == none;
    } else {
      assert all[..|all| - 1] == [first] + rows[..|rows| - 1];
      LastBelowFront(first, rows[..|rows| - 1], limit, none);
    }
  }

  lemma {:induction false} NoneBelow(rows: seq<TableRow>, limit: nat, none: Outcome)
    requires forall k :: 0 <= k < |rows| ==> rows[k].offset >= limit
    ensures LastBelow(rows, limit, none) == none
  {
    if rows != [] { NoneBelow(rows[..|rows| - 1], limit, none); }
  }

  /**
   Running a stream up to a location gives the last row of its table below
   that location: nothing after it matters, not even instructions that are
   malformed. No offset can overflow below the limit stated.
   */
  lemma {:induction false} RunIsLookup(prog: seq<Instr>, limit: nat, s: State, n: nat)
    requires Sized(s, n) && AllInRange(prog, n) && NoSetLoc(prog)
    requires limit <= TWO64 - TWO32
    ensures SameRules(Run(prog, limit, s, n), LastBelow(Table(prog, s, n), limit, Done(s)))
  {
    var rows := Table(prog, s, n);
    if s.offset >= limit {
      TableAscends(prog, s, n);
      NoneBelow(rows, limit, Done(s));
    } else if prog == [] {
      assert rows[..0] == [];
    } else if prog[0].Advance? {
      var t := s.(offset := s.offset + prog[0].delta);
      assert Exec(prog[0], s, n) == Done(t);
      RunIsLookup(prog[1..], limit, t, n);
      LastBelowFront(TableRow(s.offset, Done(s)), Table(prog[1..], t, n), limit, Done(s));
      NoneMatters(Table(prog[1..], t, n), limit, Done(t), Done(s));
    } else if Exec(prog[0], s, n).Done? {
      var t := Exec(prog[0], s, n).state;
      RunIsLookup(prog[1..], limit, t, n);
      TableAscends(prog[1..], t, n);
      FirstMatters(Table(prog[1..], t, n), limit, Done(t), Done(s));
    } else {
      assert rows[..0] == [];
    }
  }

  lemma {:induction false} NoneMatters(rows: seq<TableRow>, limit: nat, a: Outcome, b: Outcome)
    requires SameRules(a, b)
    ensures SameRules(LastBelow(rows, limit, a), LastBelow(rows, limit, b))
  {
    if rows != [] { NoneMatters(rows[..|rows| - 1], limit, a, b); }
  }

  lemma {:induction false} FirstMatters(rows: seq<TableRow>, limit: nat, a: Outcome, b: Outcome)
    requires rows != [] && rows[0].offset < limit
    ensures LastBelow(rows, limit, a) == LastBelow(rows, limit, b)
  {
    if |rows| > 1 { FirstMatters(rows[..|rows| - 1], limit, a, b); }
  }

  lemma {:induction false} SameBelow(rows: seq<TableRow>, limit: nat, limit': nat, none: Outcome)
    requires forall k :: 0 <= k < |rows| ==> (rows[k].offset < limit <==> rows[k].offset < limit')
    ensures LastBelow(rows, limit, none) == LastBelow(rows, limit', none)
  {
    if rows != [] { SameBelow(rows[..|rows| - 1], limit, limit', none); }
  }

  /** Locations between the same two row boundaries have the same rules. */
  lemma SameRowSameRules(prog: seq<Instr>, limit: nat, limit': nat, s: State, n: nat)
    requires Sized(s, n) && AllInRange(prog, n) && NoSetLoc(prog)
    requires limit <= TWO64 - TWO32 && limit' <= TWO64 - TWO32
    requires forall k :: 0 <= k < |Table(prog, s, n)| ==> (Table(prog, s, n)[k].offset < limit <==> Table(prog, s, n)[k].offset < limit')
    ensures SameRules(Run(prog, limit, s, n), Run(prog, limit', s, n))
  {
    RunIsLookup(prog, limit, s, n);
    RunIsLookup(prog, limit', s, n);
    SameBelow(Table(prog, s, n), limit, limit', Done(s));
  }

  // ---------- Remember and restore ----------

  /** `prog` undoes every Remember of its own and `depth` more. */
  predicate Undoes(prog: seq<Instr>, depth: nat) {
    if prog == [] then depth == 0
    else if prog[0].Remember? then Undoes(prog[1..], depth + 1)
    else if prog[0].Recall? then depth > 0 && Undoes(prog[1..], depth - 1)
    else Undoes(prog[1..], depth)
  }

  /** A run of two pieces is a run of the first, then of the second from where that ended. */
  lemma {:induction false} RunAppend(a: seq<Instr>, b: seq<Instr>, limit: nat, s: State, n: nat)
    requires Sized(s, n) && AllInRange(a, n) && AllInRange(b, n)
    ensures AllInRange(a + b, n)
    ensures Run(a + b, limit, s, n) == match Run(a, limit, s, n) case Done(t) => Run(b, limit, t, n) case r => r
  {
    if a == [] {
      assert a + b == b;
    } else {
      assert (a + b)[1..] == a[1..] + b;
      if s.offset < limit && Exec(a[0], s, n).Done? { RunAppend(a[1..], b, limit, Exec(a[0], s, n).state, n); }
    }
  }

  lemma RunOne(i: Instr, limit: nat, s: State, n: nat)
    requires Sized(s, n) && InRange(i, n) && s.offset < limit
    ensures AllInRange([i], n) && Run([i], limit, s, n) == Exec(i, s, n)
  {
    assert [i][1..] == [];
  }

  lemma {:induction false} StackComesBack(prog: seq<Instr>, depth: nat, limit: nat, s: State, n: nat)
    requires Sized(s, n) && AllInRange(prog, n) && Undoes(prog, depth) && depth <= |s.remembered|
    ensures var r := Run(prog, limit, s, n);
            r.Done? && r.state.offset < limit ==> r.state.remembered == s.remembered[..|s.remembered| - depth]
  {
    if prog != [] && s.offset < limit && Exec(prog[0], s, n).Done? {
      var t := Exec(prog[0], s, n).state;
      if prog[0].Remember? {
        StackComesBack(prog[1..], depth + 1, limit, t, n);
        assert t.remembered[..|t.remembered| - (depth + 1)] == s.remembered[..|s.remembered| - depth];
      } else if prog[0].Recall? {
        StackComesBack(prog[1..], depth - 1, limit, t, n);
        assert t.remembered[..|t.remembered| - (depth - 1)] == s.remembered[..|s.remembered| - depth];
      } else {
        StackComesBack(prog[1..], depth, limit, t, n);
      }
    }
  }

  /** `block` between a Remember and its Recall. */
  function Bracketed(block: seq<Instr>): seq<Instr> { [Remember] + (block + [Recall]) }

  /**
   Whatever comes after a balanced block goes on from the row and the stack
   that there were before it, unless the location is inside the block.
   */
  lemma BalancedBlock(block: seq<Instr>, rest: seq<Instr>, limit: nat, s: State, n: nat)
    requires Sized(s, n) && AllInRange(block, n) && AllInRange(rest, n) && Undoes(block, 0)
    ensures AllInRange(Bracketed(block), n) && AllInRange(Bracketed(block) + rest, n)
    ensures var r, all := Run(Bracketed(block), limit, s, n), Run(Bracketed(block) + rest, limit, s, n);
            if !r.Done? then all == r
            else
              && all == Run(rest, limit, r.state, n)
              && (r.state.offset < limit ==> r.state.row == s.row && r.state.remembered == s.remembered)
  {
    RunAppend(Bracketed(block), rest, limit, s, n);
    if s.offset < limit { BlockComesBack(block, limit, s, n); }
  }

  lemma BlockComesBack(block: seq<Instr>, limit: nat, s: State, n: nat)
    requires Sized(s, n) && AllInRange(block, n) && Undoes(block, 0) && s.offset < limit
    ensures var r := Run(Bracketed(block), limit, s, n);
            r.Done? && r.state.offset < limit ==> r.state.row == s.row && r.state.remembered == s.remembered
  {
    var t := Exec(Remember, s, n).state;
    assert Bracketed(block)[1..] == block + [Recall];
    StackComesBack(block, 0, limit, t, n);
    RunAppend(block, [Recall], limit, t, n);
    var inner := Run(block, limit, t, n);
    if inner.Done? && inner.state.offset < limit {
      RunOne(Recall, limit, inner.state, n);
      assert inner.state.remembered == t.remembered;
      assert t.remembered[..|t.remembered| - 1] == s.remembered;
    }
  }

  // ---------- Capturing the initial rules ----------

  /** The same machine with a snapshot of the rules at the stream's start, as section 6.4.2.3 of DWARF 3 has it. */
  function EagerExec(i: Instr, s: State, n: nat): (r: Outcome)
    requires Sized(s, n) && InRange(i, n)
    ensures r.Done? ==> Sized(r.state, n)
  {
    match i
    case Restore(reg) => Done(WithRule(s, reg, s.initial[reg]))
    case SetRule(reg, place, value) => Done(WithRule(s, reg, Rule(place, true, value)))
    case SetPlace(reg, place) => Done(WithRule(s, reg, Rule(place, true, s.row.rules[reg].value)))
    case _ => Exec(i, s, n)
  }

  function EagerRun(prog: seq<Instr>, limit: nat, s: State, n: nat): (r: Outcome)
    requires Sized(s, n) && AllInRange(prog, n)
    ensures r.Done? ==> Sized(r.state, n)
  {
    if prog == [] || s.offset >= limit then Done(s)
    else match EagerExec(prog[0], s, n)
      case Done(t) => EagerRun(prog[1..], limit, t, n)
      case r => r
  }

  /**
   A register a stream can restore: its flag is clear at the start, and every
   row left on the stack by the stream before has the same rule for it.
   */
  predicate Clean(row: Row, stack: seq<Row>, reg: nat, n: nat)
    requires RowSized(row, n) && StackSized(stack, n) && reg < n
  {
    !row.rules[reg].saved && forall k :: 0 <= k < |stack| ==> stack[k].rules[reg] == row.rules[reg]
  }

  function CleanRegs(row: Row, stack: seq<Row>, n: nat): (regs: set<nat>)
    requires RowSized(row, n) && StackSized(stack, n)
    ensures forall r: nat :: r in regs <==> r < n && Clean(row, stack, r, n)
  {
    set r: nat | r < n && Clean(row, stack, r, n)
  }

  /** A register that starts with rule `start`: the same rule in both machines, and captured once it changed. */
  predicate Agree(start: Rule, lazy: Rule, captured: Rule, eager: Rule) {
    && lazy.place == eager.place && lazy.value == eager.value
    && if lazy.saved then captured == start else lazy == start
  }

  /** The rows agree on the registers of `regs`. */
  predicate RowsAgree(start: seq<Rule>, regs: set<nat>, lazy: Row, captured: seq<Rule>, eager: Row)
    requires |lazy.rules| == |captured| == |eager.rules| == |start|
  {
    && lazy.(rules := []) == eager.(rules := [])
    && forall r :: 0 <= r < |start| && r in regs ==> Agree(start[r], lazy.rules[r], captured[r], eager.rules[r])
  }

  predicate StacksAgree(start: seq<Rule>, regs: set<nat>, lazy: seq<Row>, captured: seq<Rule>, eager: seq<Row>, n: nat)
    requires StackSized(lazy, n) && StackSized(eager, n) && |captured| == |start| == n
  {
    && |lazy| == |eager|
    && forall k :: 0 <= k < |lazy| ==> RowSized(lazy[k], n) && RowSized(eager[k], n) && RowsAgree(start, regs, lazy[k], captured, eager[k])
  }

  predicate StatesAgree(start: seq<Rule>, regs: set<nat>, lazy: State, eager: State, n: nat)
    requires Sized(lazy, n) && Sized(eager, n) && |start| == n
  {
    && lazy.offset == eager.offset
    && eager.initial == start
    && RowsAgree(start, regs, lazy.row, lazy.initial, eager.row)
    && StacksAgree(start, regs, lazy.remembered, lazy.initial, eager.remembered, n)
  }

  predicate OutcomesAgree(start: seq<Rule>, regs: set<nat>, lazy: Outcome, eager: Outcome, n: nat) {
    match (lazy, eager)
    case (Done(s), Done(t)) => Sized(s, n) && Sized(t, n) && |start| == n && StatesAgree(start, regs, s, t, n)
    case _ => lazy == eager
  }

  /** Capturing a register that still has its initial rule harms no row. */
  lemma CaptureKeeps(start: seq<Rule>, regs: set<nat>, row: Row, captured: seq<Rule>, eager: Row, reg: nat, now: Rule)
    requires |row.rules| == |captured| == |eager.rules| == |start| && reg < |start|
    requires RowsAgree(start, regs, row, captured, eager) && (reg !in regs || now == start[reg])
    ensures RowsAgree(start, regs, row, captured[reg := now], eager)
  {
  }

  lemma CaptureKeepsStack(start: seq<Rule>, regs: set<nat>, lazy: seq<Row>, captured: seq<Rule>, eager: seq<Row>, reg: nat, now: Rule, n: nat)
    requires StackSized(lazy, n) && StackSized(eager, n) && |captured| == |start| == n && reg < n
    requires StacksAgree(start, regs, lazy, captured, eager, n) && (reg !in regs || now == start[reg])
    ensures StacksAgree(start, regs, lazy, captured[reg := now], eager, n)
  {
    forall k | 0 <= k < |lazy| ensures RowsAgree(start, regs, lazy[k], captured[reg := now], eager[k]) {
      CaptureKeeps(start, regs, lazy[k], captured, eager[k], reg, now);
    }
  }

  lemma SetAgrees(start: seq<Rule>, regs: set<nat>, i: Instr, lazy: State, eager: State, n: nat)
    requires Sized(lazy, n) && Sized(eager, n) && |start| == n && InRange(i, n)
    requires StatesAgree(start, regs, lazy, eager, n) && (i.SetRule? || i.SetPlace?)
    ensures OutcomesAgree(start, regs, Exec(i, lazy, n), EagerExec(i, eager, n), n)
  {
    if !lazy.row.rules[i.reg].saved {
      assert i.reg !in regs || Agree(start[i.reg], lazy.row.rules[i.reg], lazy.initial[i.reg], eager.row.rules[i.reg]);
      CaptureKeepsStack(start, regs, lazy.remembered, lazy.initial, eager.remembered, i.reg, lazy.row.rules[i.reg], n);
    }
  }

  lemma StepAgrees(start: seq<Rule>, regs: set<nat>, i: Instr, lazy: State, eager: State, n: nat)
    requires Sized(lazy, n) && Sized(eager, n) && |start| == n && InRange(i, n)
    requires StatesAgree(start, regs, lazy, eager, n)
    requires forall r :: r in regs ==> r < n && !start[r].saved
    ensures OutcomesAgree(start, regs, Exec(i, lazy, n), EagerExec(i, eager, n), n)
  {
    if i.SetRule? || i.SetPlace? {
      SetAgrees(start, regs, i, lazy, eager, n);
    } else if i.Restore? && i.reg in regs {
      assert Agree(start[i.reg], lazy.row.rules[i.reg], lazy.initial[i.reg], eager.row.rules[i.reg]);
    } else if i.Recall? && lazy.remembered != [] {
      var k := |lazy.remembered| - 1;
      assert RowsAgree(start, regs, lazy.remembered[k], lazy.initial, eager.remembered[k]);
    }
  }

  /**
   Over a whole stream, however sets, Remember and Recall interleave, both
   machines go on agreeing: every register of `regs` has the rule the snapshot
   gives it, and the rest of the row is the same.
   */
  lemma {:induction false} LazyIsEager(prog: seq<Instr>, limit: nat, start: seq<Rule>, regs: set<nat>, lazy: State, eager: State, n: nat)
    requires Sized(lazy, n) && Sized(eager, n) && |start| == n && AllInRange(prog, n)
    requires StatesAgree(start, regs, lazy, eager, n)
    requires forall r :: r in regs ==> r < n && !start[r].saved
    ensures OutcomesAgree(start, regs, Run(prog, limit, lazy, n), EagerRun(prog, limit, eager, n), n)
  {
    if prog != [] && lazy.offset < limit {
      StepAgrees(start, regs, prog[0], lazy, eager, n);
      if Exec(prog[0], lazy, n).Done? {
        LazyIsEager(prog[1..], limit, start, regs, Exec(prog[0], lazy, n).state, EagerExec(prog[0], eager, n).state, n);
      }
    }
  }

  /** A stream starts in agreement on its clean registers, whatever is in the place for captured rules. */
  lemma StreamStarts(row: Row, garbage: seq<Rule>, stack: seq<Row>, n: nat)
    requires RowSized(row, n) && StackSized(stack, n) && |garbage| == n
    ensures StatesAgree(row.rules, CleanRegs(row, stack, n), State(row, garbage, stack, 0), State(row, row.rules, stack, 0), n)
  {
    var regs := CleanRegs(row, stack, n);
    forall k | 0 <= k < |stack| ensures RowsAgree(row.rules, regs, stack[k], garbage, stack[k]) {
      forall r | 0 <= r < n && r in regs ensures Agree(row.rules[r], stack[k].rules[r], garbage[r], stack[k].rules[r]) {
        assert Clean(row, stack, r, n);
      }
    }
  }

  // ---------- What a stream can restore ----------

  /** If the stream is run to its end, a Restore there gives `reg` the rule it had at the start. */
  predicate Restores(row: Row, stack: seq<Row>, reg: nat, garbage: seq<Rule>, prog: seq<Instr>, limit: nat, n: nat)
    requires RowSized(row, n) && StackSized(stack, n) && |garbage| == n && AllInRange(prog + [Restore(reg)], n) && reg < n
  {
    var r := Run(prog + [Restore(reg)], limit, State(row, garbage, stack, 0), n);
    r.Done? && r.state.offset < limit ==> r.state.row.rules[reg] == row.rules[reg]
  }

  /** Every row has the rule `start` for the register, or a later one, and then `start` is captured. */
  predicate Holds(start: Rule, reg: nat, s: State, n: nat)
    requires Sized(s, n) && reg < n
  {
    && (s.row.rules[reg].saved || s.row.rules[reg] == start)
    && (forall k :: 0 <= k < |s.remembered| ==> s.remembered[k].rules[reg].saved || s.remembered[k].rules[reg] == start)
    && (s.initial[reg] == start || (!s.row.rules[reg].saved && forall k :: 0 <= k < |s.remembered| ==> !s.remembered[k].rules[reg].saved))
  }

  lemma {:induction false} RunHolds(prog: seq<Instr>, limit: nat, start: Rule, reg: nat, s: State, n: nat)
    requires Sized(s, n) && AllInRange(prog, n) && reg < n && !start.saved && Holds(start, reg, s, n)
    ensures var r := Run(prog, limit, s, n); r.Done? ==> Holds(start, reg, r.state, n)
  {
    if prog != [] && s.offset < limit && Exec(prog[0], s, n).Done? {
      RunHolds(prog[1..], limit, start, reg, Exec(prog[0], s, n).state, n);
    }
  }

  lemma CleanRestores(row: Row, stack: seq<Row>, reg: nat, garbage: seq<Rule>, prog: seq<Instr>, limit: nat, n: nat)
    requires RowSized(row, n) && StackSized(stack, n) && reg < n && Clean(row, stack, reg, n)
    requires |garbage| == n && AllInRange(prog + [Restore(reg)], n)
    ensures Restores(row, stack, reg, garbage, prog, limit, n)
  {
    var s := State(row, garbage, stack, 0);
    InRangeFront(prog, Restore(reg), n);
    RunAppend(prog, [Restore(reg)], limit, s, n);
    RunHolds(prog, limit, row.rules[reg], reg, s, n);
    var r := Run(prog, limit, s, n);
    if r.Done? && r.state.offset < limit { RunOne(Restore(reg), limit, r.state, n); }
  }

  lemma InRangeFront(prog: seq<Instr>, i: Instr, n: nat)
    requires AllInRange(prog + [i], n)
    ensures AllInRange(prog, n) && InRange(i, n)
  {
    forall k | 0 <= k < |prog| ensures InRange(prog[k], n) { assert (prog + [i])[k] == prog[k]; }
    assert (prog + [i])[|prog|] == i;
  }

  /** So many restores of a remembered row. */
  function Recalls(m: nat): (prog: seq<Instr>)
    ensures |prog| == m && forall k :: 0 <= k < m ==> prog[k] == Recall
  {
    if m == 0 then [] else [Recall] + Recalls(m - 1)
  }

  lemma {:induction false} RecallsRun(m: nat, s: State, n: nat)
    requires Sized(s, n) && 0 < m <= |s.remembered| && s.offset == 0
    ensures var k := |s.remembered| - m;
            Run(Recalls(m), 1, s, n) == Done(s.(row := s.remembered[k], remembered := s.remembered[..k]))
  {
    var t := Exec(Recall, s, n).state;
    assert Recalls(m)[1..] == Recalls(m - 1);
    if m > 1 {
      RecallsRun(m - 1, t, n);
      assert t.remembered[..|s.remembered| - m] == s.remembered[..|s.remembered| - m];
    }
  }

  /** Recalling row `k` of the stack and then restoring gives the row's rule, or what was in the place for captured rules. */
  lemma RecallThenRestore(row: Row, stack: seq<Row>, reg: nat, garbage: seq<Rule>, k: nat, n: nat)
    requires RowSized(row, n) && StackSized(stack, n) && |garbage| == n && reg < n && k < |stack|
    ensures AllInRange(Recalls(|stack| - k) + [Restore(reg)], n)
    ensures var r := Run(Recalls(|stack| - k) + [Restore(reg)], 1, State(row, garbage, stack, 0), n);
            && r.Done? && r.state.offset == 0
            && r.state.row.rules[reg] == if stack[k].rules[reg].saved then garbage[reg] else stack[k].rules[reg]
  {
    var s := State(row, garbage, stack, 0);
    RecallsRun(|stack| - k, s, n);
    RunAppend(Recalls(|stack| - k), [Restore(reg)], 1, s, n);
    RunOne(Restore(reg), 1, s.(row := stack[k], remembered := stack[..k]), n);
  }

  lemma OneFails(row: Row, stack: seq<Row>, reg: nat, n: nat) returns (garbage: seq<Rule>, prog: seq<Instr>)
    requires RowSized(row, n) && StackSized(stack, n) && reg < n && !Clean(row, stack, reg, n)
    ensures |garbage| == n && AllInRange(prog + [Restore(reg)], n) && !Restores(row, stack, reg, garbage, prog, 1, n)
  {
    var rule := row.rules[reg];
    garbage := row.rules[reg := rule.(value := rule.value + 1)];
    if rule.saved {
      prog := [];
      assert [] + [Restore(reg)] == [Restore(reg)];
      RunOne(Restore(reg), 1, State(row, garbage, stack, 0), n);
    } else {
      var k :| 0 <= k < |stack| && stack[k].rules[reg] != rule;
      prog := Recalls(|stack| - k);
      RecallThenRestore(row, stack, reg, garbage, k, n);
    }
  }

  /**
   A Restore gives a register the rule it had at the start of its stream, for
   every stream that leads up to it and whatever was in the place for captured
   rules, if and only if the register is clean: the flags are not cleared
   between the two streams, nor is the stack of rows.
   */
  lemma RestoreIsRightIff(row: Row, stack: seq<Row>, reg: nat, n: nat)
    requires RowSized(row, n) && StackSized(stack, n) && reg < n
    ensures (forall garbage: seq<Rule>, prog: seq<Instr>, limit: nat {:trigger Restores(row, stack, reg, garbage, prog, limit, n)} ::
               |garbage| == n && AllInRange(prog + [Restore(reg)], n) ==> Restores(row, stack, reg, garbage, prog, limit, n))
            <==> Clean(row, stack, reg, n)
  {
    if Clean(row, stack, reg, n) {
      forall garbage: seq<Rule>, prog: seq<Instr>, limit: nat | |garbage| == n && AllInRange(prog + [Restore(reg)], n)
        ensures Restores(row, stack, reg, garbage, prog, limit, n)
      {
        CleanRestores(row, stack, reg, garbage, prog, limit, n);
      }
    } else {
      var garbage, prog := OneFails(row, stack, reg, n);
    }
  }

  /**
   Both streams of a frame: what the parser computes is the last row below the
   location of the FDE's table, and the rules are those of a snapshot taken
   where the FDE starts, for every register that is clean there.
   */
  lemma BothStreams(cie: seq<Instr>, fde: seq<Instr>, limit: nat, row: Row, garbage: seq<Rule>, garbage': seq<Rule>, n: nat)
    requires RowSized(row, n) && |garbage| == |garbage'| == n && AllInRange(cie, n) && AllInRange(fde, n)
    requires NoSetLoc(fde) && limit <= TWO64 - TWO32
    ensures var first := Run(cie, WHOLE, State(row, garbage, [], 0), n);
            var both := RunBoth(cie, fde, limit, row, garbage, garbage', n);
            if !first.Done? then both == first
            else
              var s := State(first.state.row, garbage', first.state.remembered, 0);
              && SameRules(both, LastBelow(Table(fde, s, n), limit, Done(s)))
              && OutcomesAgree(s.row.rules, CleanRegs(s.row, s.remembered, n), both, EagerRun(fde, limit, s.(initial := s.row.rules), n), n)
  {
    var first := Run(cie, WHOLE, State(row, garbage, [], 0), n);
    if first.Done? {
      var s := State(first.state.row, garbage', first.state.remembered, 0);
      RunIsLookup(fde, limit, s, n);
      StreamStarts(s.row, garbage', s.remembered, n);
      LazyIsEager(fde, limit, s.row.rules, CleanRegs(s.row, s.remembered, n), s, s.(initial := s.row.rules), n);
    }
  }

  // ---------- Two frames that are restored wrongly ----------

  /** Saves register 6 at offset 2. */
  lemma SaveDecodes(c: Cie, mem: seq<byte>, p: nat, end: nat)
    requires c.maxRegister == 16 && p + 2 <= end <= |mem| && mem[p] == 0x86 && mem[p + 1] == 2
    ensures Decode(c, mem, p, end) == Value(SetRule(6, InCfa, ToInt64(2 * c.dataAlign)), p + 2)
  {
    LengthIs(mem, p + 1, end, 1);
    assert mem[p + 1..p + 2] == [2] && Unsigned([2]) == 2 by { assert [2][..0] == []; }
    assert DecodeUnsigned(mem, p + 1, end) == Value(2, p + 2);
  }

  lemma RestoreDecodes(c: Cie, mem: seq<byte>, p: nat, end: nat)
    requires c.maxRegister == 16 && p < end <= |mem| && mem[p] == 0xC6
    ensures Decode(c, mem, p, end) == Value(Restore(6), p + 1)
  {
  }

  lemma StackDecodes(c: Cie, mem: seq<byte>, p: nat, end: nat)
    requires p < end <= |mem|
    ensures mem[p] == 0x0A ==> Decode(c, mem, p, end) == Value(Remember, p + 1)
    ensures mem[p] == 0x0B ==> Decode(c, mem, p, end) == Value(Recall, p + 1)
  {
  }

  function SaveSix(c: Cie): Instr { SetRule(6, InCfa, ToInt64(2 * c.dataAlign)) }

  /** Two streams: "save register 6", and "restore register 6". */
  lemma ExampleDecodes(c: Cie, mem: seq<byte>)
    requires c.maxRegister == 16 && mem == [0x86, 0x02, 0xC6]
    ensures Program(c, mem, 0, 2) == [SaveSix(c)] && Program(c, mem, 2, 3) == [Restore(6)]
  {
    SaveDecodes(c, mem, 0, 2);
    ProgramStep(c, mem, 0, 2, SaveSix(c), 2);
    RestoreDecodes(c, mem, 2, 3);
    ProgramStep(c, mem, 2, 3, Restore(6), 3);
  }

  /** With the first as CIE and the second as FDE, register 6 gets what was by chance in the place for captured rules. */
  lemma RestoreReadsGarbage(c: Cie, row: Row, garbage: seq<Rule>, garbage': seq<Rule>)
    requires RowSized(row, 17) && !row.rules[6].saved && |garbage| == |garbage'| == 17
    requires c.maxRegister == 16
    ensures var mem := [0x86, 0x02, 0xC6];
            && AllInRange(Program(c, mem, 0, 2), 17) && AllInRange(Program(c, mem, 2, 3), 17)
            && var r := RunBoth(Program(c, mem, 0, 2), Program(c, mem, 2, 3), 1, row, garbage, garbage', 17);
               r.Done? && r.state.row.rules[6] == garbage'[6]
  {
    var mem: seq<byte> := [0x86, 0x02, 0xC6];
    ExampleDecodes(c, mem);
    var s := State(row, garbage, [], 0);
    RunOne(SaveSix(c), WHOLE, s, 17);
    RunOne(Restore(6), 1, State(Exec(SaveSix(c), s, 17).state.row, garbage', [], 0), 17);
  }

  /** A CIE that saves register 6, remembers the row and restores the register; an FDE that recalls the row and restores. */
  lemma RecallDecodes(c: Cie, mem: seq<byte>)
    requires c.maxRegister == 16 && mem == [0x86, 0x02, 0x0A, 0xC6, 0x0B, 0xC6]
    ensures Program(c, mem, 0, 4) == [SaveSix(c), Remember, Restore(6)] && Program(c, mem, 4, 6) == [Recall, Restore(6)]
  {
    SaveDecodes(c, mem, 0, 4);
    StackDecodes(c, mem, 2, 4);
    RestoreDecodes(c, mem, 3, 4);
    ProgramStep(c, mem, 3, 4, Restore(6), 4);
    ProgramStep(c, mem, 2, 4, Remember, 3);
    ProgramStep(c, mem, 0, 4, SaveSix(c), 2);
    StackDecodes(c, mem, 4, 6);
    RestoreDecodes(c, mem, 5, 6);
    ProgramStep(c, mem, 5, 6, Restore(6), 6);
    ProgramStep(c, mem, 4, 6, Recall, 5);
  }

  /** After that CIE the flag of register 6 is clear, and still the FDE gives it what was by chance in the place for captured rules. */
  lemma RecallReadsGarbage(c: Cie, row: Row, garbage: seq<Rule>, garbage': seq<Rule>)
    requires RowSized(row, 17) && !row.rules[6].saved && |garbage| == |garbage'| == 17
    requires c.maxRegister == 16
    ensures var mem := [0x86, 0x02, 0x0A, 0xC6, 0x0B, 0xC6];
            var cie, fde := Program(c, mem, 0, 4), Program(c, mem, 4, 6);
            && AllInRange(cie, 17) && AllInRange(fde, 17)
            && var first, both := Run(cie, WHOLE, State(row, garbage, [], 0), 17), RunBoth(cie, fde, 1, row, garbage, garbage', 17);
               && first.Done? && first.state.row.rules[6] == row.rules[6]
               && both.Done? && both.state.row.rules[6] == garbage'[6]
  {
    var mem: seq<byte> := [0x86, 0x02, 0x0A, 0xC6, 0x0B, 0xC6];
    RecallDecodes(c, mem);
    RecallRuns(ToInt64(2 * c.dataAlign), row, garbage, garbage');
  }

  lemma RecallRuns(offset: int, row: Row, garbage: seq<Rule>, garbage': seq<Rule>)
    requires RowSized(row, 17) && !row.rules[6].saved && |garbage| == |garbage'| == 17
    ensures var cie, fde := [SetRule(6, InCfa, offset), Remember, Restore(6)], [Recall, Restore(6)];
            && AllInRange(cie, 17) && AllInRange(fde, 17)
            && var first, both := Run(cie, WHOLE, State(row, garbage, [], 0), 17), RunBoth(cie, fde, 1, row, garbage, garbage', 17);
               && first.Done? && first.state.row.rules[6] == row.rules[6]
               && both.Done? && both.state.row.rules[6] == garbage'[6]
  {
    var s := State(row, garbage, [], 0);
    var t := WithRule(Capture(s, 6), 6, Rule(InCfa, true, offset));
    var u := t.(remembered := [t.row]);
    var v := WithRule(u, 6, row.rules[6]);
    RunThree(SetRule(6, InCfa, offset), Remember, Restore(6), WHOLE, s, t, u, v, 17);
    var w := State(v.row, garbage', v.remembered, 0);
    RunTwo(Recall, Restore(6), 1, w, State(t.row, garbage', [], 0), 17);
  }

  lemma RunTwo(i: Instr, j: Instr, limit: nat, s: State, t: State, n: nat)
    requires Sized(s, n) && InRange(i, n) && InRange(j, n) && Exec(i, s, n) == Done(t) && s.offset == t.offset < limit
    ensures AllInRange([i, j], n) && Run([i, j], limit, s, n) == Exec(j, t, n)
  {
    assert [i, j][1..] == [j];
    RunOne(j, limit, t, n);
  }

  lemma RunThree(i: Instr, j: Instr, k: Instr, limit: nat, s: State, t: State, u: State, v: State, n: nat)
    requires Sized(s, n) && InRange(i, n) && InRange(j, n) && InRange(k, n)
    requires Exec(i, s, n) == Done(t) && Exec(j, t, n) == Done(u) && Exec(k, u, n) == Done(v) && s.offset == t.offset == u.offset < limit
    ensures AllInRange([i, j, k], n) && Run([i, j, k], limit, s, n) == Done(v)
  {
    assert [i, j, k][1..] == [j, k];
    RunTwo(j, k, limit, t, u, n);
  }
}
