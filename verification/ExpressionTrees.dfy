/**
 Trees of constants, registers, memory and operators, their postfix form in
 bytes, and the proof that the evaluator computes a tree's value.
 */
module ExpressionTrees {
  import opened AddressSpace
  import opened Expressions
  import opened Leb128
  import opened WordMeanings
  import opened Words

  datatype Operator =
    | Plus | Minus | Times | DividedBy | Modulo
    | Conjoin | Disjoin | Differ | ShiftLeft | ShiftRight | ShiftRightSigned
    | Equal | AtLeast | Above | AtMost | Below | Unequal

  datatype Leaf =
    | Literal(value: word64)
    | Unsigned(value: word64)
    | Signed(number: int)
    | Contents(reg: nat)
    | Based(reg: nat, offset: int)
    | Address(value: word64)
    | Sized(value: word64, size: nat)
    | SizedSigned(number: int, size: nat)
    | ContentsOf(reg: nat)
    | BasedOn(reg: nat, offset: int)

  datatype Change = Load | LoadSized(size: nat) | Offset(value: word64) | Negate | Absolute | Complement

  datatype Tree =
    | Atom(leaf: Leaf)
    | Alter(change: Change, tree: Tree)
    | Combine(op: Operator, left: Tree, right: Tree)
    | Choose(condition: Tree, yes: Tree, no: Tree)

  // ---------- Values ----------

  /** Operators work on words as numbers modulo 2^64; division, remainder and one shift on signed numbers. */
  function Apply(op: Operator, a: word64, b: word64): Outcome {
    match op
    case Plus => Result(Wrap64(a + b))
    case Minus => Result(Wrap64(a - b))
    case Times => Result(Wrap64(a * b))
    case DividedBy => Division(0x1B, a, b)
    case Modulo => Division(0x1D, a, b)
    case Conjoin => Result(BitWord(And, a, b))
    case Disjoin => Result(BitWord(Or, a, b))
    case Differ => Result(BitWord(Xor, a, b))
    case ShiftLeft => if b < 64 then Result(Wrap64(a * Pow2(b))) else Undefined
    case ShiftRight => if b < 64 then Result(Wrap64(a / Pow2(b))) else Undefined
    case ShiftRightSigned => if b < 64 then Result(Wrap64(ToInt64(a) / Pow2(b))) else Undefined
    case Equal => Result(if a == b then 1 else 0)
    case AtLeast => Result(if a >= b then 1 else 0)
    case Above => Result(if a > b then 1 else 0)
    case AtMost => Result(if a <= b then 1 else 0)
    case Below => Result(if a < b then 1 else 0)
    case Unequal => Result(if a != b then 1 else 0)
  }

  function ReadWord(mem: seq<byte>, a: word64, size: nat): Outcome {
    match Fixed(mem, a, size) case Value(v, _) => Result(Wrap64(v)) case Abort => Stopped
  }

  function Leaves(l: Leaf, regs: map<nat, word64>): Outcome {
    if l.Literal? || l.Unsigned? || l.Address? || l.Sized? then Result(l.value)
    else if l.Signed? || l.SizedSigned? then Result(Wrap64(l.number))
    else if l.reg !in regs then Stopped
    else if l.Contents? || l.ContentsOf? then Result(regs[l.reg])
    else Result(Wrap64(regs[l.reg] + l.offset))
  }

  function Changed(c: Change, mem: seq<byte>, a: word64): Outcome {
    match c
    case Load => ReadWord(mem, a, 8)
    case LoadSized(size) => ReadWord(mem, a, size)
    case Offset(v) => Result(Wrap64(a + v))
    case Negate => Result(Wrap64(0 - a))
    case Absolute => Result(Wrap64(Abs(ToInt64(a))))
    case Complement => Result(TWO64 - 1 - a)
  }

  /** A tree's value, or how its evaluation ends; and how many instructions that takes. */
  datatype Valued = Valued(outcome: Outcome, cost: nat)

  function Altered(c: Change, mem: seq<byte>, v: Valued): Valued {
    Valued(if v.outcome.Result? then Changed(c, mem, v.outcome.value) else v.outcome, v.cost + 1)
  }

  function Combined(op: Operator, v: Valued, w: Valued): Valued {
    Valued(if !v.outcome.Result? then v.outcome else if !w.outcome.Result? then w.outcome
           else Apply(op, v.outcome.value, w.outcome.value),
           v.cost + w.cost + 1)
  }

  /** Only the chosen branch counts. */
  function Chosen(v: Valued, yes: Valued, no: Valued): Valued {
    if !v.outcome.Result? then v
    else if v.outcome.value != 0 then Valued(yes.outcome, v.cost + 1 + yes.cost)
    else Valued(no.outcome, v.cost + 1 + no.cost + 1)
  }

  /** From left to right. */
  function Eval(t: Tree, mem: seq<byte>, regs: map<nat, word64>): Valued {
    match t
    case Atom(l) => Valued(Leaves(l, regs), 1)
    case Alter(c, x) => Altered(c, mem, Eval(x, mem, regs))
    case Combine(op, x, y) => Combined(op, Eval(x, mem, regs), Eval(y, mem, regs))
    case Choose(x, yes, no) => Chosen(Eval(x, mem, regs), Eval(yes, mem, regs), Eval(no, mem, regs))
  }

  // ---------- Bytes ----------

  function Opcode(op: Operator): (r: byte)
    ensures IsBinary(r)
  {
    match op
    case Plus => 0x22
    case Minus => 0x1C
    case Times => 0x1E
    case DividedBy => 0x1B
    case Modulo => 0x1D
    case Conjoin => 0x1A
    case Disjoin => 0x21
    case Differ => 0x27
    case ShiftLeft => 0x24
    case ShiftRight => 0x25
    case ShiftRightSigned => 0x26
    case Equal => 0x29
    case AtLeast => 0x2A
    case Above => 0x2B
    case AtMost => 0x2C
    case Below => 0x2D
    case Unequal => 0x2E
  }

  /** A signed number in two bytes. */
  function Short(n: int): (r: seq<byte>)
    ensures |r| == 2
  {
    Bytes(n % 0x1_0000, 2)
  }

  predicate LeafFits(l: Leaf) {
    match l
    case Literal(v) => v < 32
    case Unsigned(_) => true
    case Signed(v) => -TWO63 <= v < TWO63
    case Contents(reg) => reg < 32
    case Based(reg, offset) => reg < 32 && -TWO63 <= offset < TWO63
    case Address(_) => true
    case Sized(v, size) => size in {1, 2, 4, 8} && v < Powers(size)
    case SizedSigned(v, size) => size in {1, 2, 4, 8} && 0 - Powers(size) <= 2 * v < Powers(size)
    case ContentsOf(reg) => reg < TWO32
    case BasedOn(reg, offset) => reg < TWO32 && -TWO63 <= offset < TWO63
  }

  /** The opcode of an unsigned constant; that of a signed one is the next. */
  function SizedOpcode(size: nat): byte {
    if size == 1 then 0x08 else if size == 2 then 0x0A else if size == 4 then 0x0C else 0x0E
  }

  function LeafBytes(l: Leaf): (r: seq<byte>)
    requires LeafFits(l)
    ensures r != []
  {
    match l
    case Literal(v) => [0x30 + v]
    case Unsigned(v) => [0x10] + EncodeUnsigned(v)
    case Signed(v) => [0x11] + EncodeSigned(v)
    case Contents(reg) => [0x50 + reg]
    case Based(reg, offset) => [0x70 + reg] + EncodeSigned(offset)
    case Address(v) => [0x03] + Bytes(v, 8)
    case Sized(v, size) => [SizedOpcode(size)] + Bytes(v, size)
    case SizedSigned(v, size) => [SizedOpcode(size) + 1] + Bytes(v % Powers(size), size)
    case ContentsOf(reg) => [0x90] + EncodeUnsigned(reg)
    case BasedOn(reg, offset) => [0x92] + (EncodeUnsigned(reg) + EncodeSigned(offset))
  }

  predicate ChangeFits(c: Change) { c.LoadSized? ==> c.size in {1, 2, 4, 8} }

  function ChangeBytes(c: Change): (r: seq<byte>)
    requires ChangeFits(c)
    ensures r != []
  {
    match c
    case Load => [0x06]
    case LoadSized(size) => [0x94, size]
    case Offset(v) => [0x23] + EncodeUnsigned(v)
    case Negate => [0x1F]
    case Absolute => [0x19]
    case Complement => [0x20]
  }

  /** A tree's bytes, whether it has any, and how many slots it needs. */
  datatype Code = Code(fits: bool, bytes: seq<byte>, depth: nat)

  function AtomCode(l: Leaf): Code {
    if LeafFits(l) then Code(true, LeafBytes(l), 1) else Code(false, [], 1)
  }

  function AlterCode(c: Change, x: Code): Code {
    if ChangeFits(c) then Code(x.fits, x.bytes + ChangeBytes(c), x.depth) else Code(false, [], x.depth)
  }

  function CombineCode(op: Operator, x: Code, y: Code): Code {
    Code(x.fits && y.fits, x.bytes + y.bytes + [Opcode(op)], Max(x.depth, y.depth + 1))
  }

  /** Branches must be short enough for a jump. */
  function ChooseCode(x: Code, yes: Code, no: Code): Code {
    var depth := Max(x.depth, Max(yes.depth, no.depth));
    if |no.bytes| + 3 < 0x8000 && |yes.bytes| < 0x8000 then
      Code(x.fits && yes.fits && no.fits,
           x.bytes + ([0x28] + Short(|no.bytes| + 3)) + no.bytes + ([0x2F] + Short(|yes.bytes|)) + yes.bytes,
           depth)
    else Code(false, [], depth)
  }

  function Max(a: nat, b: nat): nat { if a < b then b else a }

  /** The postfix form of a tree. */
  function Compile(t: Tree): Code {
    match t
    case Atom(l) => AtomCode(l)
    case Alter(c, x) => AlterCode(c, Compile(x))
    case Combine(op, x, y) => CombineCode(op, Compile(x), Compile(y))
    case Choose(x, yes, no) => ChooseCode(Compile(x), Compile(yes), Compile(no))
  }

  // ---------- The proof ----------

  /** The step that leaves `v` on top of `stack`, or ends as `o` does. */
  function Leaving(o: Outcome, p: nat, stack: seq<word64>): Next {
    match o
    case Result(v) => Go(p, stack + [v])
    case _ => End(o)
  }

  /** Marks the address and stack at which a machine's step is looked up. */
  predicate At1(p: nat, stack: seq<word64>) { true }

  /** `m` executes the instructions in memory. */
  ghost predicate Executes(m: Machine, mem: seq<byte>, regs: map<nat, word64>, end: nat) {
    forall p: nat, stack: seq<word64> {:trigger At1(p, stack)} :: At1(p, stack) && p < end ==> m(p, stack) == Step(mem, regs, p, end, stack)
  }

  lemma ShortIs(mem: seq<byte>, p: nat, n: int)
    requires -0x8000 <= n < 0x8000 && At(mem, p, Short(n))
    ensures Fixed(mem, p, 2) == Value(n % 0x1_0000, p + 2) && SignExtend(n % 0x1_0000, 2) == Wrap64(n)
  {
    WordPower();
    assert Powers(2) == 0x1_0000;
    BytesDecode(n % 0x1_0000, 2, mem, p);
    PatternExtends(n, 2);
  }

  /** Multiplying signed numbers and multiplying words is the same modulo 2^64. */
  lemma SignedProduct(a: word64, b: word64)
    ensures Wrap64(ToInt64(a) * ToInt64(b)) == Wrap64(a * b)
  {
    var i, j := if a < TWO63 then 0 else 1, if b < TWO63 then 0 else 1;
    assert ToInt64(a) == a - i * TWO64 && ToInt64(b) == b - j * TWO64;
    assert ToInt64(a) * ToInt64(b) == (i * j * TWO64 - i * b - j * a) * TWO64 + a * b;
    WrapMultiple(i * j * TWO64 - i * b - j * a, a * b);
  }

  lemma BinaryIsApply(mem: seq<byte>, op: Operator, a: word64, b: word64)
    ensures Binary(mem, Opcode(op), a, b) == Apply(op, a, b)
  {
    if op == Times { SignedProduct(a, b); }
  }

  /** What a leaf's instruction pushes, and where it ends. */
  function Pushes(o: Outcome, next: nat): Decoded<word64> {
    match o case Result(v) => Value(v, next) case _ => Abort
  }

  lemma UnsignedOperand(v: word64, mem: seq<byte>, regs: map<nat, word64>, p: nat, end: nat)
    requires At(mem, p, [0x10] + EncodeUnsigned(v)) && p + 1 + |EncodeUnsigned(v)| <= end <= |mem|
    ensures mem[p] == 0x10 && Operand(mem, regs, 0x10, p + 1, end) == Value(v, p + 1 + |EncodeUnsigned(v)|)
  {
    AtFirst(mem, p, 0x10, EncodeUnsigned(v));
    UnsignedRoundTrip(mem, p + 1, end, v);
  }

  lemma SignedOperand(v: int, mem: seq<byte>, regs: map<nat, word64>, p: nat, end: nat)
    requires -TWO63 <= v < TWO63
    requires At(mem, p, [0x11] + EncodeSigned(v)) && p + 1 + |EncodeSigned(v)| <= end <= |mem|
    ensures mem[p] == 0x11 && Operand(mem, regs, 0x11, p + 1, end) == Value(Wrap64(v), p + 1 + |EncodeSigned(v)|)
  {
    AtFirst(mem, p, 0x11, EncodeSigned(v));
    SignedRoundTrip(mem, p + 1, end, v);
  }

  lemma RegisterOperand(l: Leaf, mem: seq<byte>, regs: map<nat, word64>, p: nat, end: nat)
    requires LeafFits(l) && At(mem, p, LeafBytes(l)) && p + |LeafBytes(l)| <= end <= |mem|
    requires l.Literal? || l.Contents? || l.Based?
    ensures mem[p] == LeafBytes(l)[0] && IsPush(mem[p])
    ensures Operand(mem, regs, mem[p], p + 1, end) == Pushes(Leaves(l, regs), p + |LeafBytes(l)|)
  {
    if l.Based? {
      AtFirst(mem, p, 0x70 + l.reg, EncodeSigned(l.offset));
      SignedRoundTrip(mem, p + 1, end, l.offset);
    } else {
      AtFirst(mem, p, LeafBytes(l)[0], []);
    }
  }

  /** Registers numbered by an operand. */
  lemma ReadsContentsOf(reg: nat, mem: seq<byte>, regs: map<nat, word64>, p: nat, end: nat, next: nat)
    requires p <= end <= |mem| && reg < TWO32 && DecodeUnsigned(mem, p, end) == Value(reg, next)
    ensures Operand(mem, regs, 0x90, p, end) == if reg in regs then Value(regs[reg], next) else Abort
  {
  }

  lemma ReadsBasedOn(reg: nat, offset: int, mem: seq<byte>, regs: map<nat, word64>, p: nat, end: nat, q: nat, next: nat)
    requires p <= q <= end <= |mem| && reg < TWO32
    requires DecodeUnsigned(mem, p, end) == Value(reg, q) && DecodeSigned(mem, q, end) == Value(offset, next)
    ensures Operand(mem, regs, 0x92, p, end) == if reg in regs then Value(Wrap64(regs[reg] + offset), next) else Abort
  {
  }

  lemma ContentsOperand(reg: nat, mem: seq<byte>, regs: map<nat, word64>, p: nat, end: nat)
    requires reg < TWO32 && At(mem, p, [0x90] + EncodeUnsigned(reg)) && p + 1 + |EncodeUnsigned(reg)| <= end <= |mem|
    ensures mem[p] == 0x90
    ensures Operand(mem, regs, 0x90, p + 1, end) == Pushes(Leaves(ContentsOf(reg), regs), p + 1 + |EncodeUnsigned(reg)|)
  {
    AtFirst(mem, p, 0x90, EncodeUnsigned(reg));
    UnsignedRoundTrip(mem, p + 1, end, reg);
    ReadsContentsOf(reg, mem, regs, p + 1, end, p + 1 + |EncodeUnsigned(reg)|);
  }

  lemma BasedReads(reg: nat, offset: int, a: seq<byte>, b: seq<byte>, mem: seq<byte>, p: nat, end: nat, q: nat, next: nat)
    requires reg < TWO32 && -TWO63 <= offset < TWO63 && a == EncodeUnsigned(reg) && b == EncodeSigned(offset)
    requires At(mem, p, a + b) && q == p + |a| && next == q + |b| <= end <= |mem|
    ensures DecodeUnsigned(mem, p, end) == Value(reg, q) && DecodeSigned(mem, q, end) == Value(offset, next)
  {
    AtSplit(mem, p, a, b);
    UnsignedRoundTrip(mem, p, end, reg);
    SignedRoundTrip(mem, q, end, offset);
  }

  lemma BasedOperand(reg: nat, offset: int, a: seq<byte>, b: seq<byte>, mem: seq<byte>, regs: map<nat, word64>, p: nat, end: nat, next: nat)
    requires reg < TWO32 && -TWO63 <= offset < TWO63 && a == EncodeUnsigned(reg) && b == EncodeSigned(offset)
    requires At(mem, p, [0x92] + (a + b)) && next == p + 1 + |a| + |b| <= end <= |mem|
    ensures mem[p] == 0x92
    ensures Operand(mem, regs, 0x92, p + 1, end) == if reg in regs then Value(Wrap64(regs[reg] + offset), next) else Abort
  {
    AtFirst(mem, p, 0x92, a + b);
    BasedReads(reg, offset, a, b, mem, p + 1, end, p + 1 + |a|, next);
    ReadsBasedOn(reg, offset, mem, regs, p + 1, end, p + 1 + |a|, next);
  }

  /** Numbers of a fixed size. */
  lemma ReadsSizedUnsigned(op: byte, size: nat, v: word64, mem: seq<byte>, regs: map<nat, word64>, p: nat, end: nat)
    requires (op == 0x03 && size == 8) || (size in {1, 2, 4, 8} && op == SizedOpcode(size))
    requires p <= end <= |mem| && Fixed(mem, p, size) == Value(v, p + size)
    ensures Operand(mem, regs, op, p, end) == Value(v, p + size)
  {
  }

  lemma ReadsSizedSigned(x: int, size: nat, mem: seq<byte>, regs: map<nat, word64>, p: nat, end: nat)
    requires size in {1, 2, 4, 8} && 0 - Pow2(8 * size) <= 2 * x < Pow2(8 * size)
    requires p <= end <= |mem| && Fixed(mem, p, size) == Value(x % Pow2(8 * size), p + size)
    ensures Operand(mem, regs, SizedOpcode(size) + 1, p, end) == Value(Wrap64(x), p + size)
  {
    WordPower();
    PatternExtends(x, size);
  }

  lemma SizedUnsignedOperand(op: byte, size: nat, v: word64, mem: seq<byte>, regs: map<nat, word64>, p: nat, end: nat)
    requires (op == 0x03 && size == 8) || (size in {1, 2, 4, 8} && op == SizedOpcode(size))
    requires v < Powers(size) && At(mem, p, [op] + Bytes(v, size)) && p + 1 + size <= end <= |mem|
    ensures mem[p] == op && Operand(mem, regs, op, p + 1, end) == Value(v, p + 1 + size)
  {
    AtFirst(mem, p, op, Bytes(v, size));
    BytesDecode(v, size, mem, p + 1);
    ReadsSizedUnsigned(op, size, v, mem, regs, p + 1, end);
  }

  lemma SizedSignedOperand(x: int, size: nat, mem: seq<byte>, regs: map<nat, word64>, p: nat, end: nat)
    requires size in {1, 2, 4, 8} && 0 - Powers(size) <= 2 * x < Powers(size)
    requires At(mem, p, [SizedOpcode(size) + 1] + Bytes(x % Powers(size), size)) && p + 1 + size <= end <= |mem|
    ensures mem[p] == SizedOpcode(size) + 1 && Operand(mem, regs, SizedOpcode(size) + 1, p + 1, end) == Value(Wrap64(x), p + 1 + size)
  {
    PowersOfTwo(size);
    AtFirst(mem, p, SizedOpcode(size) + 1, Bytes(x % Powers(size), size));
    BytesDecode(x % Powers(size), size, mem, p + 1);
    ReadsSizedSigned(x, size, mem, regs, p + 1, end);
  }

  lemma LeafOperand(l: Leaf, mem: seq<byte>, regs: map<nat, word64>, p: nat, end: nat)
    requires LeafFits(l) && At(mem, p, LeafBytes(l)) && p + |LeafBytes(l)| <= end <= |mem|
    ensures IsPush(mem[p]) && Operand(mem, regs, mem[p], p + 1, end) == Pushes(Leaves(l, regs), p + |LeafBytes(l)|)
  {
    if l.Address? || l.Sized? || l.SizedSigned? {
      SizedOperand(l, mem, regs, p, end);
    } else if l.ContentsOf? || l.BasedOn? {
      NumberedOperand(l, mem, regs, p, end);
    } else if l.Unsigned? {
      UnsignedOperand(l.value, mem, regs, p, end);
    } else if l.Signed? {
      SignedOperand(l.number, mem, regs, p, end);
    } else {
      RegisterOperand(l, mem, regs, p, end);
    }
  }

  lemma SizedOperand(l: Leaf, mem: seq<byte>, regs: map<nat, word64>, p: nat, end: nat)
    requires l.Address? || l.Sized? || l.SizedSigned?
    requires LeafFits(l) && At(mem, p, LeafBytes(l)) && p + |LeafBytes(l)| <= end <= |mem|
    ensures IsPush(mem[p]) && Operand(mem, regs, mem[p], p + 1, end) == Pushes(Leaves(l, regs), p + |LeafBytes(l)|)
  {
    match l
    case Address(v) => AddressFits(v); SizedUnsignedOperand(0x03, 8, v, mem, regs, p, end);
    case Sized(v, size) => SizedUnsignedOperand(SizedOpcode(size), size, v, mem, regs, p, end);
    case SizedSigned(v, size) => SizedSignedOperand(v, size, mem, regs, p, end);
    case _ =>
  }

  lemma NumberedOperand(l: Leaf, mem: seq<byte>, regs: map<nat, word64>, p: nat, end: nat)
    requires l.ContentsOf? || l.BasedOn?
    requires LeafFits(l) && At(mem, p, LeafBytes(l)) && p + |LeafBytes(l)| <= end <= |mem|
    ensures IsPush(mem[p]) && Operand(mem, regs, mem[p], p + 1, end) == Pushes(Leaves(l, regs), p + |LeafBytes(l)|)
  {
    match l
    case ContentsOf(reg) => ContentsOperand(reg, mem, regs, p, end);
    case BasedOn(reg, offset) => BasedOperand(reg, offset, EncodeUnsigned(reg), EncodeSigned(offset), mem, regs, p, end, p + |LeafBytes(l)|);
    case _ =>
  }

  lemma AddressFits(v: word64)
    ensures v < Powers(8)
  {
    PowersOfTwo(8);
    WordPower();
  }

  lemma LeafStep(l: Leaf, mem: seq<byte>, regs: map<nat, word64>, p: nat, end: nat, stack: seq<word64>)
    requires LeafFits(l) && At(mem, p, LeafBytes(l)) && p + |LeafBytes(l)| <= end && |stack| < SLOTS
    ensures Step(mem, regs, p, end, stack) == Leaving(Leaves(l, regs), p + |LeafBytes(l)|, stack)
  {
    LeafOperand(l, mem, regs, p, Limit(mem, end));
  }

  /** The instruction that changes the top of the stack. */
  lemma ChangeUnary(c: Change, mem: seq<byte>, p: nat, end: nat, a: word64)
    requires ChangeFits(c) && At(mem, p, ChangeBytes(c)) && p + |ChangeBytes(c)| <= end <= |mem|
    ensures IsUnary(ChangeBytes(c)[0]) && mem[p] == ChangeBytes(c)[0]
    ensures Unary(mem, mem[p], p + 1, end, a) ==
            match Changed(c, mem, a) case Result(v) => Value(v, p + |ChangeBytes(c)|) case _ => Abort
  {
    match c
    case Offset(v) =>
      AtFirst(mem, p, 0x23, EncodeUnsigned(v));
      UnsignedRoundTrip(mem, p + 1, end, v);
      ReadsOffset(v, mem, p + 1, end, p + 1 + |EncodeUnsigned(v)|, a);
    case LoadSized(size) =>
      assert ChangeBytes(c)[0] == mem[p + 0] && ChangeBytes(c)[1] == mem[p + 1];
      ReadsSized(size, mem, p + 1, end, a);
    case _ =>
      assert ChangeBytes(c)[0] == mem[p + 0];
      ReadsPlain(c, mem, p + 1, end, a);
  }

  lemma ReadsOffset(v: word64, mem: seq<byte>, p: nat, end: nat, next: nat, a: word64)
    requires p <= end <= |mem| && DecodeUnsigned(mem, p, end) == Value(v, next)
    ensures Unary(mem, 0x23, p, end, a) == Value(Wrap64(a + v), next)
  {
  }

  lemma ReadsSized(size: byte, mem: seq<byte>, p: nat, end: nat, a: word64)
    requires p + 1 <= end <= |mem| && mem[p] == size && size in {1, 2, 4, 8}
    ensures Unary(mem, 0x94, p, end, a) == match ReadWord(mem, a, size) case Result(v) => Value(v, p + 1) case _ => Abort
  {
    assert LittleEndian(mem, p, 1) == mem[p] + 256 * LittleEndian(mem, p + 1, 0);
  }

  lemma ReadsPlain(c: Change, mem: seq<byte>, p: nat, end: nat, a: word64)
    requires p <= end <= |mem| && !c.Offset? && !c.LoadSized?
    ensures Unary(mem, ChangeBytes(c)[0], p, end, a) == match Changed(c, mem, a) case Result(v) => Value(v, p) case _ => Abort
  {
  }

  lemma ChangeStep(c: Change, mem: seq<byte>, regs: map<nat, word64>, p: nat, end: nat, stack: seq<word64>, a: word64)
    requires ChangeFits(c) && At(mem, p, ChangeBytes(c)) && p + |ChangeBytes(c)| <= end
    ensures Step(mem, regs, p, end, stack + [a]) == Leaving(Changed(c, mem, a), p + |ChangeBytes(c)|, stack)
  {
    var s := stack + [a];
    assert s[..|s| - 1] == stack && Top(s) == a;
    ChangeUnary(c, mem, p, Limit(mem, end), a);
  }

  /** The operator after both its operands. */
  lemma OperatorStep(op: Operator, mem: seq<byte>, regs: map<nat, word64>, p: nat, end: nat, stack: seq<word64>, a: word64, b: word64)
    requires At(mem, p, [Opcode(op)]) && p + 1 <= end
    ensures Step(mem, regs, p, end, stack + [a] + [b]) == Leaving(Apply(op, a, b), p + 1, stack)
  {
    AtFirst(mem, p, Opcode(op), []);
    var s := stack + [a] + [b];
    assert s[..|s| - 2] == stack && s[|s| - 2] == a && Top(s) == b;
    BinaryIsApply(mem, op, a, b);
  }

  /** Where a jump goes. */
  lemma TargetIs(mem: seq<byte>, q: nat, n: int)
    requires -0x8000 <= n < 0x8000 && At(mem, q, Short(n)) && 0 <= q + 2 + n < TWO64
    ensures Fixed(mem, q, 2) == Value(n % 0x1_0000, q + 2) && Wrap64(q + 2 + SignExtend(n % 0x1_0000, 2)) == q + 2 + n
  {
    ShortIs(mem, q, n);
    WrapAdds(n, q + 2);
  }

  /** A conditional jump after its condition, and an unconditional one; forward or back. */
  lemma BranchStep(mem: seq<byte>, regs: map<nat, word64>, p: nat, end: nat, stack: seq<word64>, v: word64, n: int)
    requires -0x8000 <= n < 0x8000 && At(mem, p, [0x28] + Short(n)) && p < end && 0 <= p + 3 + n < TWO64
    ensures Step(mem, regs, p, end, stack + [v]) == Go(if v != 0 then p + 3 + n else p + 3, stack)
  {
    AtFirst(mem, p, 0x28, Short(n));
    TargetIs(mem, p + 1, n);
    var s := stack + [v];
    assert s[..|s| - 1] == stack && Top(s) == v;
  }

  lemma SkipStep(mem: seq<byte>, regs: map<nat, word64>, p: nat, end: nat, stack: seq<word64>, n: int)
    requires -0x8000 <= n < 0x8000 && At(mem, p, [0x2F] + Short(n)) && p < end && 0 <= p + 3 + n < TWO64
    ensures Step(mem, regs, p, end, stack) == Go(p + 3 + n, stack)
  {
    AtFirst(mem, p, 0x2F, Short(n));
    TargetIs(mem, p + 1, n);
  }

  /** One step of a run. */
  lemma RunStep(m: Machine, mem: seq<byte>, regs: map<nat, word64>, p: nat, end: nat, stack: seq<word64>, fuel: nat)
    requires Executes(m, mem, regs, end) && p < end
    ensures Run(m, p, end, stack, 1 + fuel) == After(Step(mem, regs, p, end, stack), m, end, fuel)
  {
    assert At1(p, stack);
  }

  /** After a tree's bytes its value is on the stack; or the evaluation has ended as the tree's has. */
  function Continue(o: Outcome, m: Machine, p: nat, end: nat, stack: seq<word64>, fuel: nat): Outcome {
    if o.Result? then Run(m, p, end, stack + [o.value], fuel) else o
  }

  /** From `p` on, with any stack that leaves room, the code gives the value. */
  ghost predicate Works(m: Machine, end: nat, p: nat, code: Code, v: Valued) {
    forall stack: seq<word64>, n: nat | |stack| + code.depth <= SLOTS && v.cost <= n ::
      Run(m, p, end, stack, n) == Continue(v.outcome, m, p + |code.bytes|, end, stack, n - v.cost)
  }

  /** The code stands at `p`, before `end`. */
  predicate Stands(code: Code, mem: seq<byte>, p: nat, end: nat) {
    code.fits && At(mem, p, code.bytes) && p + |code.bytes| <= end < TWO64
  }

  lemma LeavingRuns(m: Machine, mem: seq<byte>, regs: map<nat, word64>, p: nat, end: nat, stack: seq<word64>, fuel: nat, o: Outcome, next: nat)
    requires Executes(m, mem, regs, end) && p < end && Step(mem, regs, p, end, stack) == Leaving(o, next, stack)
    ensures Run(m, p, end, stack, 1 + fuel) == Continue(o, m, next, end, stack, fuel)
  {
    RunStep(m, mem, regs, p, end, stack, fuel);
  }

  lemma LeafRuns(l: Leaf, o: Outcome, next: nat, m: Machine, mem: seq<byte>, regs: map<nat, word64>, p: nat, end: nat, stack: seq<word64>, n: nat)
    requires Executes(m, mem, regs, end) && LeafFits(l) && At(mem, p, LeafBytes(l))
    requires o == Leaves(l, regs) && next == p + |LeafBytes(l)| <= end && |stack| < SLOTS && 1 <= n
    ensures Run(m, p, end, stack, n) == Continue(o, m, next, end, stack, n - 1)
  {
    LeafStep(l, mem, regs, p, end, stack);
    LeavingRuns(m, mem, regs, p, end, stack, n - 1, o, next);
  }

  lemma AtomWorks(l: Leaf, m: Machine, mem: seq<byte>, regs: map<nat, word64>, p: nat, end: nat)
    requires Executes(m, mem, regs, end) && Stands(AtomCode(l), mem, p, end)
    ensures Works(m, end, p, AtomCode(l), Valued(Leaves(l, regs), 1))
  {
    var o, next := Leaves(l, regs), p + |LeafBytes(l)|;
    forall stack: seq<word64>, n: nat | |stack| + 1 <= SLOTS && 1 <= n
      ensures Run(m, p, end, stack, n) == Continue(o, m, next, end, stack, n - 1)
    {
      LeafRuns(l, o, next, m, mem, regs, p, end, stack, n);
    }
  }

  lemma AlterParts(c: Change, x: Code, mem: seq<byte>, p: nat, end: nat)
    requires Stands(AlterCode(c, x), mem, p, end)
    ensures Stands(x, mem, p, end) && ChangeFits(c) && At(mem, p + |x.bytes|, ChangeBytes(c))
  {
    AtSplit(mem, p, x.bytes, ChangeBytes(c));
  }

  lemma ChangeRuns(c: Change, m: Machine, mem: seq<byte>, regs: map<nat, word64>, q: nat, end: nat,
                   stack: seq<word64>, v: Valued, fuel: nat)
    requires Executes(m, mem, regs, end)
    requires ChangeFits(c) && At(mem, q, ChangeBytes(c)) && q + |ChangeBytes(c)| <= end
    ensures Continue(v.outcome, m, q, end, stack, fuel + 1) ==
            Continue(Altered(c, mem, v).outcome, m, q + |ChangeBytes(c)|, end, stack, fuel)
  {
    if v.outcome.Result? {
      var a := v.outcome.value;
      ChangeStep(c, mem, regs, q, end, stack, a);
      RunStep(m, mem, regs, q, end, stack + [a], fuel);
    }
  }

  lemma AlterWorks(c: Change, m: Machine, mem: seq<byte>, regs: map<nat, word64>, p: nat, end: nat, x: Code, v: Valued)
    requires Executes(m, mem, regs, end) && Stands(AlterCode(c, x), mem, p, end) && Works(m, end, p, x, v)
    ensures Works(m, end, p, AlterCode(c, x), Altered(c, mem, v))
  {
    AlterParts(c, x, mem, p, end);
    forall stack: seq<word64>, n: nat | |stack| + x.depth <= SLOTS && v.cost + 1 <= n
      ensures Run(m, p, end, stack, n) ==
              Continue(Altered(c, mem, v).outcome, m, p + |x.bytes| + |ChangeBytes(c)|, end, stack, n - (v.cost + 1))
    {
      ChangeRuns(c, m, mem, regs, p + |x.bytes|, end, stack, v, n - v.cost - 1);
    }
  }

  lemma CombineParts(op: Operator, x: Code, y: Code, mem: seq<byte>, p: nat, end: nat)
    requires Stands(CombineCode(op, x, y), mem, p, end)
    ensures Stands(x, mem, p, end) && Stands(y, mem, p + |x.bytes|, end)
    ensures At(mem, p + |x.bytes| + |y.bytes|, [Opcode(op)])
  {
    AtSplit(mem, p, x.bytes + y.bytes, [Opcode(op)]);
    AtSplit(mem, p, x.bytes, y.bytes);
  }

  lemma CombineWorks(op: Operator, m: Machine, mem: seq<byte>, regs: map<nat, word64>, p: nat, end: nat,
                     x: Code, v: Valued, y: Code, w: Valued)
    requires Executes(m, mem, regs, end) && Stands(CombineCode(op, x, y), mem, p, end)
    requires Works(m, end, p, x, v) && Works(m, end, p + |x.bytes|, y, w)
    ensures Works(m, end, p, CombineCode(op, x, y), Combined(op, v, w))
  {
    CombineParts(op, x, y, mem, p, end);
    var q := p + |x.bytes|;
    var r := q + |y.bytes|;
    var a, b := v.outcome, w.outcome;
    forall stack: seq<word64>, n: nat | |stack| + Max(x.depth, y.depth + 1) <= SLOTS && v.cost + w.cost + 1 <= n
      ensures Run(m, p, end, stack, n) == Continue(Combined(op, v, w).outcome, m, r + 1, end, stack, n - (v.cost + w.cost + 1))
    {
      if a.Result? {
        assert Run(m, q, end, stack + [a.value], n - v.cost) == Continue(b, m, r, end, stack + [a.value], n - v.cost - w.cost);
        if b.Result? {
          OperatorStep(op, mem, regs, r, end, stack, a.value, b.value);
          RunStep(m, mem, regs, r, end, stack + [a.value] + [b.value], n - v.cost - w.cost - 1);
        }
      }
    }
  }

  lemma ChooseParts(x: Code, yes: Code, no: Code, mem: seq<byte>, p: nat, end: nat)
    requires Stands(ChooseCode(x, yes, no), mem, p, end)
    ensures var q := p + |x.bytes|;
            var r := q + 3 + |no.bytes|;
            && Stands(x, mem, p, end) && Stands(no, mem, q + 3, end) && Stands(yes, mem, r + 3, end)
            && |no.bytes| + 3 < 0x8000 && At(mem, q, [0x28] + Short(|no.bytes| + 3))
            && |yes.bytes| < 0x8000 && At(mem, r, [0x2F] + Short(|yes.bytes|))
            && p + |ChooseCode(x, yes, no).bytes| == r + 3 + |yes.bytes|
  {
    var bra, skip := [0x28] + Short(|no.bytes| + 3), [0x2F] + Short(|yes.bytes|);
    AtSplit(mem, p, x.bytes + bra + no.bytes + skip, yes.bytes);
    AtSplit(mem, p, x.bytes + bra + no.bytes, skip);
    AtSplit(mem, p, x.bytes + bra, no.bytes);
    AtSplit(mem, p, x.bytes, bra);
  }

  lemma ChooseStands(x: Code, yes: Code, no: Code, mem: seq<byte>, p: nat, end: nat)
    requires Stands(ChooseCode(x, yes, no), mem, p, end)
    ensures Stands(x, mem, p, end) && Stands(no, mem, p + |x.bytes| + 3, end)
    ensures Stands(yes, mem, p + |x.bytes| + 3 + |no.bytes| + 3, end)
  {
    ChooseParts(x, yes, no, mem, p, end);
  }

  /** A branch, and the jump over the other. */
  lemma SkipWorks(m: Machine, mem: seq<byte>, regs: map<nat, word64>, end: nat, over: nat, stack: seq<word64>, n: nat, o: Outcome, q: nat, next: nat)
    requires Executes(m, mem, regs, end) && over < 0x8000 && At(mem, q, [0x2F] + Short(over)) && next == q + 3 + over <= end < TWO64
    ensures Continue(o, m, q, end, stack, n + 1) == Continue(o, m, next, end, stack, n)
  {
    if o.Result? {
      SkipRuns(m, mem, regs, end, over, stack + [o.value], n, q, next);
    }
  }

  lemma SkipRuns(m: Machine, mem: seq<byte>, regs: map<nat, word64>, end: nat, over: int, stack: seq<word64>, n: nat, q: nat, next: nat)
    requires Executes(m, mem, regs, end) && q < end && next == q + 3 + over < TWO64
    requires -0x8000 <= over < 0x8000 && At(mem, q, [0x2F] + Short(over))
    ensures Run(m, q, end, stack, n + 1) == Run(m, next, end, stack, n)
  {
    SkipStep(mem, regs, q, end, stack, over);
    RunStep(m, mem, regs, q, end, stack, n);
  }

  /** The conditional jump, then the branch it chooses. */
  lemma BranchRuns(m: Machine, mem: seq<byte>, regs: map<nat, word64>, end: nat, q: nat, over: nat, stack: seq<word64>, v: word64, n: nat)
    requires Executes(m, mem, regs, end) && over < 0x8000 && At(mem, q, [0x28] + Short(over)) && q + 3 + over <= end < TWO64
    ensures Run(m, q, end, stack + [v], n + 1) == Run(m, if v != 0 then q + 3 + over else q + 3, end, stack, n)
  {
    BranchStep(mem, regs, q, end, stack, v, over);
    RunStep(m, mem, regs, q, end, stack + [v], n);
  }

  lemma ChooseWorks(m: Machine, mem: seq<byte>, regs: map<nat, word64>, p: nat, q: nat, r: nat, end: nat,
                    x: Code, v: Valued, yes: Code, w: Valued, no: Code, u: Valued)
    requires Executes(m, mem, regs, end) && Stands(ChooseCode(x, yes, no), mem, p, end)
    requires q == p + |x.bytes| + 3 && r == q + |no.bytes| + 3
    requires Works(m, end, p, x, v) && Works(m, end, q, no, u) && Works(m, end, r, yes, w)
    ensures Works(m, end, p, ChooseCode(x, yes, no), Chosen(v, w, u))
  {
    ChooseParts(x, yes, no, mem, p, end);
    var o, result := v.outcome, Chosen(v, w, u);
    forall stack: seq<word64>, n: nat | |stack| + Max(x.depth, Max(yes.depth, no.depth)) <= SLOTS && result.cost <= n
      ensures Run(m, p, end, stack, n) == Continue(result.outcome, m, r + |yes.bytes|, end, stack, n - result.cost)
    {
      if o.Result? {
        var n' := n - v.cost - 1;
        BranchRuns(m, mem, regs, end, q - 3, |no.bytes| + 3, stack, o.value, n');
        if o.value != 0 {
          assert Run(m, r, end, stack, n') == Continue(w.outcome, m, r + |yes.bytes|, end, stack, n' - w.cost);
        } else {
          assert Run(m, q, end, stack, n') == Continue(u.outcome, m, r - 3, end, stack, n' - u.cost);
          SkipWorks(m, mem, regs, end, |yes.bytes|, stack, n' - u.cost - 1, u.outcome, r - 3, r + |yes.bytes|);
        }
      }
    }
  }

  /** Wherever a tree's bytes stand, and whatever comes after them. */
  lemma {:induction false} TreeWorks(t: Tree, m: Machine, mem: seq<byte>, regs: map<nat, word64>, p: nat, end: nat)
    requires Executes(m, mem, regs, end) && Stands(Compile(t), mem, p, end)
    ensures Works(m, end, p, Compile(t), Eval(t, mem, regs))
    decreases t, 3
  {
    match t
    case Atom(l) => AtomWorks(l, m, mem, regs, p, end);
    case Alter(c, x) => AlterTreeWorks(c, x, Compile(x), m, mem, regs, p, end);
    case Combine(op, x, y) => CombineTreeWorks(op, x, y, Compile(x), Compile(y), m, mem, regs, p, p + |Compile(x).bytes|, end);
    case Choose(x, yes, no) => ChooseTreeWorks(x, yes, no, Compile(x), Compile(yes), Compile(no), m, mem, regs, p, end);
  }

  lemma {:induction false} AlterTreeWorks(c: Change, x: Tree, a: Code, m: Machine, mem: seq<byte>, regs: map<nat, word64>, p: nat, end: nat)
    requires a == Compile(x) && Executes(m, mem, regs, end) && Stands(AlterCode(c, a), mem, p, end)
    ensures Works(m, end, p, AlterCode(c, a), Altered(c, mem, Eval(x, mem, regs)))
    decreases Alter(c, x), 1
  {
    AlterParts(c, a, mem, p, end);
    TreeWorks(x, m, mem, regs, p, end);
    AlterWorks(c, m, mem, regs, p, end, a, Eval(x, mem, regs));
  }

  lemma {:induction false} CombineTreeWorks(op: Operator, x: Tree, y: Tree, a: Code, b: Code,
                                            m: Machine, mem: seq<byte>, regs: map<nat, word64>, p: nat, q: nat, end: nat)
    requires a == Compile(x) && b == Compile(y) && q == p + |a.bytes|
    requires Executes(m, mem, regs, end) && Stands(CombineCode(op, a, b), mem, p, end)
    ensures Works(m, end, p, CombineCode(op, a, b), Combined(op, Eval(x, mem, regs), Eval(y, mem, regs)))
    decreases Combine(op, x, y), 1
  {
    CombineParts(op, a, b, mem, p, end);
    TreeWorks(x, m, mem, regs, p, end);
    TreeWorks(y, m, mem, regs, q, end);
    CombineWorks(op, m, mem, regs, p, end, a, Eval(x, mem, regs), b, Eval(y, mem, regs));
  }

  lemma {:induction false} ChooseTreeWorks(x: Tree, yes: Tree, no: Tree, a: Code, b: Code, c: Code,
                                           m: Machine, mem: seq<byte>, regs: map<nat, word64>, p: nat, end: nat)
    requires a == Compile(x) && b == Compile(yes) && c == Compile(no)
    requires Executes(m, mem, regs, end) && Stands(ChooseCode(a, b, c), mem, p, end)
    ensures Works(m, end, p, ChooseCode(a, b, c), Chosen(Eval(x, mem, regs), Eval(yes, mem, regs), Eval(no, mem, regs)))
    decreases Choose(x, yes, no), 2
  {
    var q := p + |a.bytes| + 3;
    var r := q + |c.bytes| + 3;
    ChooseTreesWork(x, yes, no, a, b, c, m, mem, regs, p, q, r, end);
    ChooseWorks(m, mem, regs, p, q, r, end, a, Eval(x, mem, regs), b, Eval(yes, mem, regs), c, Eval(no, mem, regs));
  }

  lemma {:induction false} ChooseTreesWork(x: Tree, yes: Tree, no: Tree, a: Code, b: Code, c: Code,
                                           m: Machine, mem: seq<byte>, regs: map<nat, word64>, p: nat, q: nat, r: nat, end: nat)
    requires a == Compile(x) && b == Compile(yes) && c == Compile(no)
    requires Executes(m, mem, regs, end) && Stands(ChooseCode(a, b, c), mem, p, end)
    requires q == p + |a.bytes| + 3 && r == q + |c.bytes| + 3
    ensures Works(m, end, p, a, Eval(x, mem, regs)) && Works(m, end, q, c, Eval(no, mem, regs)) && Works(m, end, r, b, Eval(yes, mem, regs))
    decreases Choose(x, yes, no), 1
  {
    ChooseStands(a, b, c, mem, p, end);
    TreeWorks(x, m, mem, regs, p, end);
    TreeWorks(no, m, mem, regs, q, end);
    TreeWorks(yes, m, mem, regs, r, end);
  }

  /** The bytes of a whole expression: its length, then the code. */
  function Encoding(code: Code): seq<byte> { EncodeUnsigned(|code.bytes|) + code.bytes }

  lemma MachineExecutes(mem: seq<byte>, regs: map<nat, word64>, end: nat)
    ensures Executes(MachineOf(mem, regs, end), mem, regs, end)
  {
  }

  /** The length an encoding starts with. */
  lemma LengthDecodes(code: seq<byte>, mem: seq<byte>, p: nat)
    requires At(mem, p, EncodeUnsigned(|code|) + code) && |code| < TWO64
    ensures p <= |mem| && At(mem, p + |EncodeUnsigned(|code|)|, code)
    ensures DecodeUnsigned(mem, p, Limit(mem, p + 20)) == Value(|code|, p + |EncodeUnsigned(|code|)|)
  {
    AtSplit(mem, p, EncodeUnsigned(|code|), code);
    TenthPower();
    EncodeUnsignedIsRight(|code|, 10);
    UnsignedRoundTrip(mem, p, Limit(mem, p + 20), |code|);
  }

  lemma CodeRuns(m: Machine, p: nat, code: Code, v: Valued, initial: word64, fuel: nat)
    requires Works(m, p + |code.bytes|, p, code, v) && code.depth < SLOTS && fuel >= v.cost
    ensures Run(m, p, p + |code.bytes|, [initial], fuel) == v.outcome
  {
    var end := p + |code.bytes|;
    assert Run(m, p, end, [initial], fuel) == Continue(v.outcome, m, end, end, [initial], fuel - v.cost);
  }

  /** The code gives the value on every machine that executes memory. */
  ghost predicate WorksIn(mem: seq<byte>, regs: map<nat, word64>, end: nat, p: nat, code: Code, v: Valued) {
    forall m: Machine :: Executes(m, mem, regs, end) ==> Works(m, end, p, code, v)
  }

  /** So it does when evaluation starts at its length. */
  lemma EvaluateCode(code: Code, v: Valued, mem: seq<byte>, regs: map<nat, word64>, expression: nat, p: nat, initial: word64, fuel: nat)
    requires At(mem, expression, Encoding(code)) && expression + |Encoding(code)| < TWO64
    requires p == expression + |EncodeUnsigned(|code.bytes|)| && code.depth < SLOTS && fuel >= v.cost
    requires WorksIn(mem, regs, p + |code.bytes|, p, code, v)
    ensures Evaluate(mem, regs, expression, initial, fuel) == v.outcome
  {
    LengthDecodes(code.bytes, mem, expression);
    EvaluateRuns(mem, regs, expression, |code.bytes|, p, initial, fuel);
    CodeRunsIn(code, v, mem, regs, p, initial, fuel);
  }

  lemma EvaluateRuns(mem: seq<byte>, regs: map<nat, word64>, expression: nat, length: nat, p: nat, initial: word64, fuel: nat)
    requires expression <= |mem| && DecodeUnsigned(mem, expression, Limit(mem, expression + 20)) == Value(length, p) && p + length < TWO64
    ensures Evaluate(mem, regs, expression, initial, fuel) == Run(MachineOf(mem, regs, p + length), p, p + length, [initial], fuel)
  {
    var end := Wrap64(p + length);
    assert end == p + length;
    assert Evaluate(mem, regs, expression, initial, fuel) == Run(MachineOf(mem, regs, end), p, end, [initial], fuel);
  }

  lemma CodeRunsIn(code: Code, v: Valued, mem: seq<byte>, regs: map<nat, word64>, p: nat, initial: word64, fuel: nat)
    requires WorksIn(mem, regs, p + |code.bytes|, p, code, v) && code.depth < SLOTS && fuel >= v.cost
    ensures Run(MachineOf(mem, regs, p + |code.bytes|), p, p + |code.bytes|, [initial], fuel) == v.outcome
  {
    var m := MachineOf(mem, regs, p + |code.bytes|);
    MachineExecutes(mem, regs, p + |code.bytes|);
    CodeRuns(m, p, code, v, initial, fuel);
  }

  lemma TreeWorksIn(t: Tree, mem: seq<byte>, regs: map<nat, word64>, end: nat, p: nat)
    requires Stands(Compile(t), mem, p, end)
    ensures WorksIn(mem, regs, end, p, Compile(t), Eval(t, mem, regs))
  {
    forall m: Machine | Executes(m, mem, regs, end) ensures Works(m, end, p, Compile(t), Eval(t, mem, regs)) {
      TreeWorks(t, m, mem, regs, p, end);
    }
  }

  lemma CodeStands(code: Code, mem: seq<byte>, expression: nat, p: nat)
    requires code.fits && At(mem, expression, Encoding(code)) && expression + |Encoding(code)| < TWO64
    requires p == expression + |EncodeUnsigned(|code.bytes|)|
    ensures Stands(code, mem, p, p + |code.bytes|)
  {
    AtSplit(mem, expression, EncodeUnsigned(|code.bytes|), code.bytes);
  }

  /**
   Evaluating the encoding of a tree whose postfix form fits the stack gives
   the tree's value, or ends as the tree does, whatever the initial value and
   everything else in memory.
   */
  lemma EvaluateIsEval(t: Tree, mem: seq<byte>, regs: map<nat, word64>, expression: nat, initial: word64, fuel: nat)
    requires Compile(t).fits && Compile(t).depth < SLOTS
    requires At(mem, expression, Encoding(Compile(t))) && expression + |Encoding(Compile(t))| < TWO64
    requires fuel >= Eval(t, mem, regs).cost
    ensures Evaluate(mem, regs, expression, initial, fuel) == Eval(t, mem, regs).outcome
  {
    var code := Compile(t);
    var p := expression + |EncodeUnsigned(|code.bytes|)|;
    CodeStands(code, mem, expression, p);
    TreeWorksIn(t, mem, regs, p + |code.bytes|, p);
    EvaluateCode(code, Eval(t, mem, regs), mem, regs, expression, p, initial, fuel);
  }

  // ---------- Signed comparisons ----------

  /**
   Comparisons are of unsigned words, where section 2.5.1.5 of DWARF 3 asks for
   signed ones. An order comparison comes out the same exactly if both words
   have the same sign; equality always does.
   */
  lemma UnsignedOrderIff(a: word64, b: word64)
    ensures (Apply(Below, a, b) == Result(Flag(ToInt64(a) < ToInt64(b)))) <==> ((ToInt64(a) < 0) == (ToInt64(b) < 0))
    ensures (Apply(AtLeast, a, b) == Result(Flag(ToInt64(a) >= ToInt64(b)))) <==> ((ToInt64(a) < 0) == (ToInt64(b) < 0))
    ensures (Apply(Above, a, b) == Result(Flag(ToInt64(a) > ToInt64(b)))) <==> ((ToInt64(a) < 0) == (ToInt64(b) < 0))
    ensures (Apply(AtMost, a, b) == Result(Flag(ToInt64(a) <= ToInt64(b)))) <==> ((ToInt64(a) < 0) == (ToInt64(b) < 0))
    ensures Apply(Equal, a, b) == Result(Flag(ToInt64(a) == ToInt64(b)))
  {
    assert ToInt64(a) == if a < TWO63 then a else a - TWO64;
    assert ToInt64(b) == if b < TWO63 then b else b - TWO64;
  }

  predicate IsOrder(op: Operator) { op in {Below, AtLeast, Above, AtMost} }

  /** The comparison of section 2.5.1.5. */
  predicate Ordered(op: Operator, a: int, b: int)
    requires IsOrder(op)
  {
    match op
    case Below => a < b
    case AtLeast => a >= b
    case Above => a > b
    case _ => a <= b
  }

  /** Two signed numbers, and a comparison. */
  function Comparison(op: Operator, a: int, b: int): Tree { Combine(op, Atom(Signed(a)), Atom(Signed(b))) }

  /** Evaluating a comparison of two signed numbers gives what it should if and only if both have the same sign. */
  lemma ComparisonIsSignedIff(op: Operator, a: int, b: int, mem: seq<byte>, regs: map<nat, word64>, expression: nat, initial: word64, fuel: nat)
    requires IsOrder(op) && -TWO63 <= a < TWO63 && -TWO63 <= b < TWO63 && fuel >= 3
    requires var code := Encoding(Compile(Comparison(op, a, b))); At(mem, expression, code) && expression + |code| < TWO64
    ensures Evaluate(mem, regs, expression, initial, fuel) == Result(Flag(Ordered(op, a, b))) <==> (a < 0) == (b < 0)
  {
    EvaluateIsEval(Comparison(op, a, b), mem, regs, expression, initial, fuel);
    UnsignedOrderIff(Wrap64(a), Wrap64(b));
    ToInt64OfWrap(a);
    ToInt64OfWrap(b);
  }

  lemma ToInt64OfWrap(v: int)
    requires -TWO63 <= v < TWO63
    ensures ToInt64(Wrap64(v)) == v
  {
    assert Wrap64(v) == if v < 0 then v + TWO64 else v;
  }

  lemma MinusOneBelowZeroCode()
    ensures var code := Compile(Comparison(Below, -1, 0));
            code.fits && code.depth == 2 && Encoding(code) == [0x05, 0x11, 0x7F, 0x11, 0x00, 0x2D]
  {
    assert EncodeSigned(-1) == [0x7F] && EncodeSigned(0) == [0x00] && EncodeUnsigned(5) == [0x05];
    assert AtomCode(Signed(-1)).bytes == [0x11, 0x7F] && AtomCode(Signed(0)).bytes == [0x11, 0x00];
  }

  lemma MinusOneBelowZeroValue(mem: seq<byte>, regs: map<nat, word64>)
    ensures Eval(Comparison(Below, -1, 0), mem, regs) == Valued(Result(0), 3)
  {
    assert Wrap64(-1) == TWO64 - 1;
    assert Eval(Atom(Signed(-1)), mem, regs) == Valued(Result(TWO64 - 1), 1) && Eval(Atom(Signed(0)), mem, regs) == Valued(Result(0), 1);
  }

  /** Whether -1 is below 0: no. */
  lemma MinusOneIsNotBelowZero(mem: seq<byte>, regs: map<nat, word64>, initial: word64)
    requires mem == [0x05, 0x11, 0x7F, 0x11, 0x00, 0x2D]
    ensures Evaluate(mem, regs, 0, initial, 3) == Result(0)
  {
    MinusOneBelowZeroCode();
    MinusOneBelowZeroValue(mem, regs);
    EvaluateIsEval(Comparison(Below, -1, 0), mem, regs, 0, initial, 3);
  }
}
