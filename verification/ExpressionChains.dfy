/**
 Expressions that work on the word the evaluator starts with, as those for saved
 registers do with the frame's address: chains of instructions that change it
 or combine it with the value of a tree. And instructions that move words on
 the stack, and jumps back.
 */
module ExpressionChains {
  import opened AddressSpace
  import opened ExpressionTrees
  import opened Expressions
  import opened Leb128
  import opened Words

  datatype Link =
    | Then(change: Change)
    | With(op: Operator, operand: Tree)
    | Through(operand: Tree)

  /** A load whose address is the second operand; of the first only its presence matters. */
  function LoadedThrough(mem: seq<byte>, v: Valued, w: Valued): Valued {
    Valued(if !v.outcome.Result? then v.outcome else if !w.outcome.Result? then w.outcome
           else ReadWord(mem, w.outcome.value, 8),
           v.cost + w.cost + 1)
  }

  function Linked(l: Link, mem: seq<byte>, regs: map<nat, word64>, v: Valued): Valued {
    match l
    case Then(c) => Altered(c, mem, v)
    case With(op, t) => Combined(op, v, Eval(t, mem, regs))
    case Through(t) => LoadedThrough(mem, v, Eval(t, mem, regs))
  }

  /** The links one after the other, from `v` on. */
  function Chained(ls: seq<Link>, mem: seq<byte>, regs: map<nat, word64>, v: Valued): Valued {
    if ls == [] then v else Chained(ls[1..], mem, regs, Linked(ls[0], mem, regs, v))
  }

  /** A link's code; its depth does not count the word it works on. */
  function LinkCode(l: Link): Code {
    match l
    case Then(c) => if ChangeFits(c) then Code(true, ChangeBytes(c), 0) else Code(false, [], 0)
    case With(op, t) => var x := Compile(t); Code(x.fits, x.bytes + [Opcode(op)], x.depth)
    case Through(t) => var x := Compile(t); Code(x.fits, x.bytes + [0x18], x.depth)
  }

  function ChainCode(ls: seq<Link>): Code {
    if ls == [] then Code(true, [], 0)
    else
      var x, rest := LinkCode(ls[0]), ChainCode(ls[1..]);
      Code(x.fits && rest.fits, x.bytes + rest.bytes, Max(x.depth, rest.depth))
  }

  lemma ThroughStep(mem: seq<byte>, regs: map<nat, word64>, p: nat, end: nat, stack: seq<word64>, a: word64, b: word64)
    requires At(mem, p, [0x18]) && p + 1 <= end
    ensures Step(mem, regs, p, end, stack + [a] + [b]) == Leaving(ReadWord(mem, b, 8), p + 1, stack)
  {
    AtFirst(mem, p, 0x18, []);
    var s := stack + [a] + [b];
    assert s[..|s| - 2] == stack && s[|s| - 2] == a && Top(s) == b;
  }

  // ---------- One link ----------

  /** After both words the instruction at `r` leaves `o`, if both are there. */
  ghost predicate Finishes(mem: seq<byte>, regs: map<nat, word64>, r: nat, end: nat, stack: seq<word64>, v: Outcome, w: Outcome, o: Outcome) {
    if !v.Result? then o == v
    else if !w.Result? then o == w
    else r < end && Step(mem, regs, r, end, stack + [v.value] + [w.value]) == Leaving(o, r + 1, stack)
  }

  /** A tree on top of a word, and an instruction for both. */
  lemma OperandRuns(m: Machine, mem: seq<byte>, regs: map<nat, word64>, p: nat, end: nat, x: Code, w: Valued,
                    stack: seq<word64>, v: Outcome, o: Outcome, n: nat)
    requires Executes(m, mem, regs, end) && Works(m, end, p, x, w) && |stack| + 1 + x.depth <= SLOTS && n >= w.cost + 1
    requires Finishes(mem, regs, p + |x.bytes|, end, stack, v, w.outcome, o)
    ensures Continue(v, m, p, end, stack, n) == Continue(o, m, p + |x.bytes| + 1, end, stack, n - w.cost - 1)
  {
    var r := p + |x.bytes|;
    if v.Result? {
      var s := stack + [v.value];
      assert Run(m, p, end, s, n) == Continue(w.outcome, m, r, end, s, n - w.cost);
      if w.outcome.Result? {
        LeavingAbove(m, mem, regs, r, end, stack, s + [w.outcome.value], n - w.cost - 1, o, r + 1);
      }
    }
  }

  lemma LeavingAbove(m: Machine, mem: seq<byte>, regs: map<nat, word64>, p: nat, end: nat, stack: seq<word64>, s: seq<word64>, fuel: nat, o: Outcome, next: nat)
    requires Executes(m, mem, regs, end) && p < end && Step(mem, regs, p, end, s) == Leaving(o, next, stack)
    ensures Run(m, p, end, s, 1 + fuel) == Continue(o, m, next, end, stack, fuel)
  {
    RunStep(m, mem, regs, p, end, s, fuel);
  }

  function LinkCost(l: Link, mem: seq<byte>, regs: map<nat, word64>): nat {
    match l
    case Then(_) => 1
    case With(_, t) => Eval(t, mem, regs).cost + 1
    case Through(t) => Eval(t, mem, regs).cost + 1
  }

  lemma WithRuns(op: Operator, x: Code, w: Valued, m: Machine, mem: seq<byte>, regs: map<nat, word64>, p: nat, end: nat, stack: seq<word64>, v: Valued, n: nat)
    requires Executes(m, mem, regs, end) && Works(m, end, p, x, w)
    requires At(mem, p + |x.bytes|, [Opcode(op)]) && p + |x.bytes| + 1 <= end
    requires |stack| + 1 + x.depth <= SLOTS && n >= w.cost + 1
    ensures Continue(v.outcome, m, p, end, stack, n) == Continue(Combined(op, v, w).outcome, m, p + |x.bytes| + 1, end, stack, n - w.cost - 1)
  {
    if v.outcome.Result? && w.outcome.Result? {
      OperatorStep(op, mem, regs, p + |x.bytes|, end, stack, v.outcome.value, w.outcome.value);
    }
    OperandRuns(m, mem, regs, p, end, x, w, stack, v.outcome, Combined(op, v, w).outcome, n);
  }

  lemma ThroughRuns(x: Code, w: Valued, m: Machine, mem: seq<byte>, regs: map<nat, word64>, p: nat, end: nat, stack: seq<word64>, v: Valued, n: nat)
    requires Executes(m, mem, regs, end) && Works(m, end, p, x, w)
    requires At(mem, p + |x.bytes|, [0x18]) && p + |x.bytes| + 1 <= end
    requires |stack| + 1 + x.depth <= SLOTS && n >= w.cost + 1
    ensures Continue(v.outcome, m, p, end, stack, n) == Continue(LoadedThrough(mem, v, w).outcome, m, p + |x.bytes| + 1, end, stack, n - w.cost - 1)
  {
    if v.outcome.Result? && w.outcome.Result? {
      ThroughStep(mem, regs, p + |x.bytes|, end, stack, v.outcome.value, w.outcome.value);
    }
    OperandRuns(m, mem, regs, p, end, x, w, stack, v.outcome, LoadedThrough(mem, v, w).outcome, n);
  }

  /** A tree's code with one more instruction. */
  lemma TreeThenWorks(t: Tree, x: Code, w: Valued, op: byte, m: Machine, mem: seq<byte>, regs: map<nat, word64>, p: nat, end: nat)
    requires Executes(m, mem, regs, end) && x == Compile(t) && w == Eval(t, mem, regs)
    requires x.fits && At(mem, p, x.bytes + [op]) && p + |x.bytes| + 1 <= end < TWO64
    ensures Works(m, end, p, x, w) && At(mem, p + |x.bytes|, [op])
  {
    AtSplit(mem, p, x.bytes, [op]);
    TreeWorks(t, m, mem, regs, p, end);
  }

  lemma WithLinkRuns(op: Operator, t: Tree, x: Code, w: Valued, o: Outcome, m: Machine, mem: seq<byte>, regs: map<nat, word64>, p: nat, end: nat, next: nat, stack: seq<word64>, v: Valued, n: nat)
    requires Executes(m, mem, regs, end) && x == Compile(t) && w == Eval(t, mem, regs)
    requires x.fits && At(mem, p, x.bytes + [Opcode(op)]) && next == p + |x.bytes| + 1 <= end < TWO64
    requires |stack| + 1 + x.depth <= SLOTS && n >= w.cost + 1 && o == Combined(op, v, w).outcome
    ensures Continue(v.outcome, m, p, end, stack, n) == Continue(o, m, next, end, stack, n - w.cost - 1)
  {
    TreeThenWorks(t, x, w, Opcode(op), m, mem, regs, p, end);
    WithRuns(op, x, w, m, mem, regs, p, end, stack, v, n);
  }

  lemma ThroughLinkRuns(t: Tree, x: Code, w: Valued, o: Outcome, m: Machine, mem: seq<byte>, regs: map<nat, word64>, p: nat, end: nat, next: nat, stack: seq<word64>, v: Valued, n: nat)
    requires Executes(m, mem, regs, end) && x == Compile(t) && w == Eval(t, mem, regs)
    requires x.fits && At(mem, p, x.bytes + [0x18]) && next == p + |x.bytes| + 1 <= end < TWO64
    requires |stack| + 1 + x.depth <= SLOTS && n >= w.cost + 1 && o == LoadedThrough(mem, v, w).outcome
    ensures Continue(v.outcome, m, p, end, stack, n) == Continue(o, m, next, end, stack, n - w.cost - 1)
  {
    TreeThenWorks(t, x, w, 0x18, m, mem, regs, p, end);
    ThroughRuns(x, w, m, mem, regs, p, end, stack, v, n);
  }

  lemma LinkRuns(l: Link, code: Code, cost: nat, o: Outcome, m: Machine, mem: seq<byte>, regs: map<nat, word64>, p: nat, end: nat, next: nat, stack: seq<word64>, v: Valued, n: nat)
    requires Executes(m, mem, regs, end) && code == LinkCode(l) && cost == LinkCost(l, mem, regs)
    requires code.fits && At(mem, p, code.bytes) && next == p + |code.bytes| <= end < TWO64
    requires |stack| + 1 + code.depth <= SLOTS && n >= cost && o == Linked(l, mem, regs, v).outcome
    ensures Continue(v.outcome, m, p, end, stack, n) == Continue(o, m, next, end, stack, n - cost)
  {
    match l
    case Then(c) => ChangeRuns(c, m, mem, regs, p, end, stack, v, n - 1);
    case With(op, t) => WithLinkRuns(op, t, Compile(t), Eval(t, mem, regs), o, m, mem, regs, p, end, next, stack, v, n);
    case Through(t) => ThroughLinkRuns(t, Compile(t), Eval(t, mem, regs), o, m, mem, regs, p, end, next, stack, v, n);
  }

  // ---------- The chain ----------

  function ChainCost(ls: seq<Link>, mem: seq<byte>, regs: map<nat, word64>): nat {
    if ls == [] then 0 else LinkCost(ls[0], mem, regs) + ChainCost(ls[1..], mem, regs)
  }

  lemma {:induction false} ChainRuns(ls: seq<Link>, code: Code, o: Outcome, m: Machine, mem: seq<byte>, regs: map<nat, word64>, p: nat, end: nat, next: nat, stack: seq<word64>, v: Valued, n: nat, left: nat)
    requires Executes(m, mem, regs, end) && code == ChainCode(ls) && o == Chained(ls, mem, regs, v).outcome
    requires code.fits && At(mem, p, code.bytes) && next == p + |code.bytes| <= end < TWO64
    requires |stack| + 1 + code.depth <= SLOTS && n == left + ChainCost(ls, mem, regs)
    ensures Continue(v.outcome, m, p, end, stack, n) == Continue(o, m, next, end, stack, left)
  {
    if ls != [] {
      var x, rest, cost, w := LinkCode(ls[0]), ChainCode(ls[1..]), LinkCost(ls[0], mem, regs), Linked(ls[0], mem, regs, v);
      var q := p + |x.bytes|;
      AtSplit(mem, p, x.bytes, rest.bytes);
      LinkRuns(ls[0], x, cost, w.outcome, m, mem, regs, p, end, q, stack, v, n);
      ChainRuns(ls[1..], rest, o, m, mem, regs, q, end, next, stack, w, n - cost, left);
    }
  }

  lemma ChainRunsToEnd(ls: seq<Link>, code: Code, mem: seq<byte>, regs: map<nat, word64>, p: nat, end: nat, initial: word64, fuel: nat)
    requires code == ChainCode(ls) && Stands(code, mem, p, end) && end == p + |code.bytes|
    requires code.depth + 1 <= SLOTS && fuel >= ChainCost(ls, mem, regs)
    ensures Run(MachineOf(mem, regs, end), p, end, [initial], fuel) == Chained(ls, mem, regs, Valued(Result(initial), 0)).outcome
  {
    var m := MachineOf(mem, regs, end);
    MachineExecutes(mem, regs, end);
    var v := Valued(Result(initial), 0);
    ChainRuns(ls, code, Chained(ls, mem, regs, v).outcome, m, mem, regs, p, end, end, [], v, fuel, fuel - ChainCost(ls, mem, regs));
    assert [] + [initial] == [initial];
  }

  lemma EvaluateBytes(code: seq<byte>, o: Outcome, mem: seq<byte>, regs: map<nat, word64>, expression: nat, p: nat, initial: word64, fuel: nat)
    requires At(mem, expression, EncodeUnsigned(|code|) + code) && p == expression + |EncodeUnsigned(|code|)| && p + |code| < TWO64
    requires Run(MachineOf(mem, regs, p + |code|), p, p + |code|, [initial], fuel) == o
    ensures Evaluate(mem, regs, expression, initial, fuel) == o
  {
    LengthDecodes(code, mem, expression);
    EvaluateRuns(mem, regs, expression, |code|, p, initial, fuel);
  }

  lemma ChainEvaluates(ls: seq<Link>, code: Code, mem: seq<byte>, regs: map<nat, word64>, expression: nat, p: nat, initial: word64, fuel: nat)
    requires code == ChainCode(ls) && Stands(code, mem, p, p + |code.bytes|) && code.depth < SLOTS && fuel >= ChainCost(ls, mem, regs)
    requires At(mem, expression, EncodeUnsigned(|code.bytes|) + code.bytes) && p == expression + |EncodeUnsigned(|code.bytes|)|
    ensures Evaluate(mem, regs, expression, initial, fuel) == Chained(ls, mem, regs, Valued(Result(initial), 0)).outcome
  {
    ChainRunsToEnd(ls, code, mem, regs, p, p + |code.bytes|, initial, fuel);
    EvaluateBytes(code.bytes, Chained(ls, mem, regs, Valued(Result(initial), 0)).outcome, mem, regs, expression, p, initial, fuel);
  }

  /** Evaluating the encoding of a chain gives what its links make of the word the evaluator is given. */
  lemma EvaluateIsChained(ls: seq<Link>, mem: seq<byte>, regs: map<nat, word64>, expression: nat, initial: word64, fuel: nat)
    requires ChainCode(ls).fits && ChainCode(ls).depth < SLOTS
    requires At(mem, expression, Encoding(ChainCode(ls))) && expression + |Encoding(ChainCode(ls))| < TWO64
    requires fuel >= ChainCost(ls, mem, regs)
    ensures Evaluate(mem, regs, expression, initial, fuel) == Chained(ls, mem, regs, Valued(Result(initial), 0)).outcome
  {
    var code := ChainCode(ls);
    var p := expression + |EncodeUnsigned(|code.bytes|)|;
    CodeStands(code, mem, expression, p);
    ChainEvaluates(ls, code, mem, regs, expression, p, initial, fuel);
  }

  // ---------- Moving words ----------

  /** The word `k` places below the top. */
  function Nth(stack: seq<word64>, k: nat): word64
    requires k < |stack|
  {
    stack[|stack| - 1 - k]
  }

  /** The instruction goes on at `q`, with `x` on top of the stack there was. */
  predicate Pushed(r: Next, q: nat, stack: seq<word64>, x: word64) {
    r.Go? && r.p == q && |r.stack| == |stack| + 1 && r.stack[..|stack|] == stack && Nth(r.stack, 0) == x
  }

  /** The instruction goes on at `q`, and the words from the `from`-th below the top on are where they were. */
  predicate Rearranged(r: Next, q: nat, stack: seq<word64>, from: nat) {
    r.Go? && r.p == q && |r.stack| == |stack| && forall k: nat :: from <= k < |stack| ==> Nth(r.stack, k) == Nth(stack, k)
  }

  /** Where the words of the stack are after an instruction that moves them, if there are enough of them and room. */
  lemma WordsMove(mem: seq<byte>, regs: map<nat, word64>, p: nat, end: nat, stack: seq<word64>)
    requires p < end && p < |mem|
    // Copies of the top word, of the second, and of the one an operand names
    ensures mem[p] == 0x12 && 0 < |stack| < SLOTS ==> Pushed(Step(mem, regs, p, end, stack), p + 1, stack, Nth(stack, 0))
    ensures mem[p] == 0x14 && 1 < |stack| < SLOTS ==> Pushed(Step(mem, regs, p, end, stack), p + 1, stack, Nth(stack, 1))
    ensures mem[p] == 0x15 && p + 1 < |mem| && mem[p + 1] < |stack| < SLOTS ==>
              Pushed(Step(mem, regs, p, end, stack), p + 2, stack, Nth(stack, mem[p + 1]))
    // The top word goes
    ensures mem[p] == 0x13 && 0 < |stack| ==> Step(mem, regs, p, end, stack) == Go(p + 1, stack[..|stack| - 1])
    // The two topmost change places
    ensures mem[p] == 0x16 && 1 < |stack| ==>
              var r := Step(mem, regs, p, end, stack);
              Rearranged(r, p + 1, stack, 2) && Nth(r.stack, 0) == Nth(stack, 1) && Nth(r.stack, 1) == Nth(stack, 0)
    // The second word comes to the top, the third takes its place, and the top goes third
    ensures mem[p] == 0x17 && 2 < |stack| ==>
              var r := Step(mem, regs, p, end, stack);
              Rearranged(r, p + 1, stack, 3) && Nth(r.stack, 0) == Nth(stack, 1) && Nth(r.stack, 1) == Nth(stack, 2) && Nth(r.stack, 2) == Nth(stack, 0)
  {
    if mem[p] == 0x15 && p + 1 < |mem| {
      assert LittleEndian(mem, p + 1, 1) == mem[p + 1] + 256 * LittleEndian(mem, p + 2, 0);
    }
  }

  // ---------- Everything else ----------

  /** The opcodes of DWARF 3 that the evaluator knows. */
  predicate IsKnown(op: byte) {
    op in {0x03, 0x06, 0x94} || 0x08 <= op <= 0x90 || op == 0x92
  }

  /** Any other stops the program, and so does reading an instruction outside memory. */
  lemma UnknownStops(mem: seq<byte>, regs: map<nat, word64>, p: nat, end: nat, stack: seq<word64>)
    requires p < end
    ensures p >= |mem| || !IsKnown(mem[p]) ==> Step(mem, regs, p, end, stack) == End(Stopped)
  {
  }

  // ---------- Loops ----------

  /** A jump to itself goes on for ever. */
  lemma {:induction false} RunsForever(mem: seq<byte>, regs: map<nat, word64>, p: nat, end: nat, stack: seq<word64>, fuel: nat)
    requires At(mem, p, [0x2F] + Short(-3)) && p < end < TWO64
    ensures Run(MachineOf(mem, regs, end), p, end, stack, fuel) == Running
  {
    if fuel > 0 {
      SkipStep(mem, regs, p, end, stack, -3);
      RunsForever(mem, regs, p, end, stack, fuel - 1);
    }
  }

  /** One less; and back to the start unless that is zero. */
  function Countdown(): seq<byte> { [0x31] + ([0x1C] + ([0x12] + ([0x28] + Short(-6)))) }

  lemma CountdownParts(mem: seq<byte>, p: nat)
    requires At(mem, p, Countdown())
    ensures p + 6 <= |mem| && mem[p + 2] == 0x12
    ensures At(mem, p, [0x31]) && At(mem, p + 1, [0x1C]) && At(mem, p + 3, [0x28] + Short(-6))
  {
    AtSplit(mem, p, [0x31], [0x1C] + ([0x12] + ([0x28] + Short(-6))));
    AtSplit(mem, p + 1, [0x1C], [0x12] + ([0x28] + Short(-6)));
    AtFirst(mem, p + 2, 0x12, [0x28] + Short(-6));
  }

  /** The first two instructions take one off. */
  lemma CountdownTakes(m: Machine, mem: seq<byte>, regs: map<nat, word64>, p: nat, end: nat, stack: seq<word64>, v: word64, fuel: nat)
    requires Executes(m, mem, regs, end) && At(mem, p, [0x31]) && At(mem, p + 1, [0x1C]) && p + 2 <= end && |stack| + 2 <= SLOTS && v > 0
    ensures Run(m, p, end, stack + [v], fuel + 2) == Run(m, p + 2, end, stack + [v - 1], fuel)
  {
    LeafRuns(Literal(1), Result(1), p + 1, m, mem, regs, p, end, stack + [v], fuel + 2);
    MinusRuns(m, mem, regs, p + 1, end, stack, v, 1, fuel);
  }

  lemma MinusRuns(m: Machine, mem: seq<byte>, regs: map<nat, word64>, p: nat, end: nat, stack: seq<word64>, a: word64, b: word64, fuel: nat)
    requires Executes(m, mem, regs, end) && At(mem, p, [0x1C]) && p + 1 <= end && b <= a
    ensures Run(m, p, end, stack + [a] + [b], fuel + 1) == Run(m, p + 1, end, stack + [a - b], fuel)
  {
    MinusStep(mem, regs, p, end, stack, a, b);
    LeavingAbove(m, mem, regs, p, end, stack, stack + [a] + [b], fuel, Result(a - b), p + 1);
  }

  lemma MinusIs(a: word64, b: word64)
    requires b <= a
    ensures Apply(Minus, a, b) == Result(a - b) && Opcode(Minus) == 0x1C
  {
  }

  lemma MinusStep(mem: seq<byte>, regs: map<nat, word64>, p: nat, end: nat, stack: seq<word64>, a: word64, b: word64)
    requires At(mem, p, [0x1C]) && p + 1 <= end && b <= a
    ensures Step(mem, regs, p, end, stack + [a] + [b]) == Leaving(Result(a - b), p + 1, stack)
  {
    MinusIs(a, b);
    OperatorStep(Minus, mem, regs, p, end, stack, a, b);
  }

  /** The other two look at what is left. */
  lemma CountdownLooks(m: Machine, mem: seq<byte>, regs: map<nat, word64>, q: nat, end: nat, stack: seq<word64>, w: word64, fuel: nat)
    requires Executes(m, mem, regs, end) && q < |mem| && mem[q] == 0x12 && At(mem, q + 1, [0x28] + Short(-6))
    requires 2 <= q && q + 4 <= end < TWO64 && |stack| + 2 <= SLOTS
    ensures Run(m, q, end, stack + [w], fuel + 2) == Run(m, if w != 0 then q - 2 else q + 4, end, stack + [w], fuel)
  {
    var s := stack + [w];
    WordsMove(mem, regs, q, end, s);
    assert Step(mem, regs, q, end, s) == Go(q + 1, s + [w]);
    RunStep(m, mem, regs, q, end, s, fuel + 1);
    BranchStep(mem, regs, q + 1, end, s, w, -6);
    RunStep(m, mem, regs, q + 1, end, s + [w], fuel);
  }

  lemma CountdownTurn(m: Machine, mem: seq<byte>, regs: map<nat, word64>, p: nat, end: nat, stack: seq<word64>, v: word64, fuel: nat)
    requires Executes(m, mem, regs, end) && At(mem, p, Countdown()) && p + 6 <= end < TWO64 && |stack| + 2 <= SLOTS && v > 0
    ensures Run(m, p, end, stack + [v], fuel + 4) == Run(m, if v > 1 then p else p + 6, end, stack + [v - 1], fuel)
  {
    CountdownParts(mem, p);
    CountdownTakes(m, mem, regs, p, end, stack, v, fuel + 2);
    CountdownLooks(m, mem, regs, p + 2, end, stack, v - 1, fuel);
  }

  /** Counting down from any number ends at zero, after four instructions for each turn. */
  lemma {:induction false} CountsDown(m: Machine, mem: seq<byte>, regs: map<nat, word64>, p: nat, end: nat, stack: seq<word64>, v: word64, fuel: nat)
    requires Executes(m, mem, regs, end) && At(mem, p, Countdown()) && p + 6 <= end < TWO64 && |stack| + 2 <= SLOTS && v > 0
    ensures Run(m, p, end, stack + [v], fuel + 4 * v) == Run(m, p + 6, end, stack + [0], fuel)
  {
    CountdownTurn(m, mem, regs, p, end, stack, v, fuel + 4 * (v - 1));
    if v > 1 { CountsDown(m, mem, regs, p, end, stack, v - 1, fuel); }
  }
}
