/**
 Call frame directives as an assembler writes them (section 6.4.2 and figure 40
 of DWARF 3), and the proof that the parser reads back what they mean. Rules
 that are expressions mean where the expression is, so what a directive means
 depends on its address.
 */
module CfiAssembler {
  import opened AddressSpace
  import opened CfiDecode
  import opened Leb128
  import opened Words

  /** Advances count in the code alignment factor, offsets from the frame's address in the data alignment factor. */
  datatype Directive =
    | AdvanceBy(steps: nat)
    | SavedAt(reg: nat, units: int)
    | ValueAt(reg: nat, units: int)
    | SavedInRegister(reg: nat, other: nat)
    | IsUndefined(reg: nat)
    | SameValue(reg: nat)
    | RestoreRule(reg: nat)
    | RememberState
    | RestoreState
    | CfaIs(reg: nat, offset: nat)
    | CfaRegister(reg: nat)
    | CfaOffset(offset: nat)
    | CfaInUnits(reg: nat, units: int)
    | CfaOffsetInUnits(units: int)
    | ArgumentsTake(size: nat)
    | CfaExpression(block: seq<byte>)
    | SavedAtExpression(reg: nat, block: seq<byte>)
    | ValueExpression(reg: nat, block: seq<byte>)
    | SavedBelow(reg: nat, units: int)
    | NoOperation

  /** Operands in range: of registers, of 64-bit offsets, and of the fields they go to. */
  predicate Fits(c: Cie, d: Directive) {
    match d
    case AdvanceBy(steps) => steps < TWO32 && steps * c.codeAlign < TWO32
    case SavedAt(reg, units) => Register(c, reg) && -TWO63 <= units < TWO63 && -TWO63 <= units * c.dataAlign < TWO63
    case ValueAt(reg, units) => Register(c, reg) && -TWO63 <= units < TWO63 && -TWO63 <= units * c.dataAlign < TWO63
    case SavedInRegister(reg, other) => Register(c, reg) && Register(c, other)
    case IsUndefined(reg) => Register(c, reg)
    case SameValue(reg) => Register(c, reg)
    case RestoreRule(reg) => Register(c, reg)
    case CfaIs(reg, offset) => Register(c, reg) && offset < TWO32 / 2
    case CfaRegister(reg) => Register(c, reg)
    case CfaOffset(offset) => offset < TWO32 / 2
    case CfaInUnits(reg, units) => Register(c, reg) && SmallUnits(c, units)
    case CfaOffsetInUnits(units) => SmallUnits(c, units)
    case ArgumentsTake(size) => size < TWO32
    case CfaExpression(block) => |block| < TWO64
    case SavedAtExpression(reg, block) => Register(c, reg) && |block| < TWO64
    case ValueExpression(reg, block) => Register(c, reg) && |block| < TWO64
    case SavedBelow(reg, units) => Register(c, reg) && 0 <= units < TWO63 && -TWO63 < units * c.dataAlign < TWO63
    case _ => true
  }

  predicate Register(c: Cie, reg: nat) { reg <= c.maxRegister && reg < TWO63 }

  predicate SmallUnits(c: Cie, units: int) {
    -TWO63 <= units < TWO63 && -TWO32 / 2 <= units * c.dataAlign < TWO32 / 2
  }

  /** Where the block is in the code at `p` of a directive for `reg`. */
  function BlockAddress(reg: nat, p: nat): int { ToInt64(p + 1 + |EncodeUnsigned(reg)|) }

  /** What a directive at address `p` means. */
  function Meaning(c: Cie, d: Directive, p: nat): (i: Instr)
    ensures !i.Malformed? && !i.Stop?
  {
    match d
    case AdvanceBy(steps) => Advance(steps * c.codeAlign)
    case SavedAt(reg, units) => SetRule(reg, InCfa, units * c.dataAlign)
    case ValueAt(reg, units) => SetRule(reg, OffsetFromCfa, units * c.dataAlign)
    case SavedInRegister(reg, other) => SetRule(reg, InRegister, other)
    case IsUndefined(reg) => SetPlace(reg, Undefined)
    case SameValue(reg) => SetPlace(reg, Unused)
    case RestoreRule(reg) => Restore(reg)
    case RememberState => Remember
    case RestoreState => Recall
    case CfaIs(reg, offset) => DefCfa(reg, offset)
    case CfaRegister(reg) => DefCfaRegister(reg)
    case CfaOffset(offset) => DefCfaOffset(offset)
    case CfaInUnits(reg, units) => DefCfa(reg, units * c.dataAlign)
    case CfaOffsetInUnits(units) => DefCfaOffset(units * c.dataAlign)
    case ArgumentsTake(size) => ArgsSize(size)
    case CfaExpression(_) => DefCfaExpression(ToInt64(p + 1))
    case SavedAtExpression(reg, _) => SetRule(reg, AtExpression, BlockAddress(reg, p))
    case ValueExpression(reg, _) => SetRule(reg, IsExpression, BlockAddress(reg, p))
    case SavedBelow(reg, units) => SetRule(reg, InCfa, -(units * c.dataAlign))
    case NoOperation => Nop
  }

  // ---------- Encoding ----------

  /** An opcode and its operands: a number of fixed size, numbers of variable length, and a block with its length in front. */
  datatype Form =
    | Bare(op: byte)
    | Sized(op: byte, x: nat, size: nat)
    | One(op: byte, a: nat)
    | OneSigned(op: byte, v: int)
    | Two(op: byte, a: nat, b: nat)
    | TwoSigned(op: byte, a: nat, v: int)
    | Counted(op: byte, block: seq<byte>)
    | OneCounted(op: byte, a: nat, block: seq<byte>)

  function BlockBytes(block: seq<byte>): seq<byte> { EncodeUnsigned(|block|) + block }

  function Operands(f: Form): seq<byte> {
    match f
    case Bare(_) => []
    case Sized(_, x, size) => Bytes(x, size)
    case One(_, a) => EncodeUnsigned(a)
    case OneSigned(_, v) => EncodeSigned(v)
    case Two(_, a, b) => EncodeUnsigned(a) + EncodeUnsigned(b)
    case TwoSigned(_, a, v) => EncodeUnsigned(a) + EncodeSigned(v)
    case Counted(_, block) => BlockBytes(block)
    case OneCounted(_, a, block) => EncodeUnsigned(a) + BlockBytes(block)
  }

  function Advancing(steps: nat): Form {
    if steps < 0x40 then Bare(0x40 + steps)
    else if steps < 0x100 then Sized(0x02, steps, 1)
    else if steps < 0x1_0000 then Sized(0x03, steps, 2)
    else Sized(0x04, steps, 4)
  }

  function Natural(x: int): nat { if x < 0 then 0 else x }

  /** The shortest form there is. */
  function FormOf(d: Directive): Form {
    match d
    case AdvanceBy(steps) => Advancing(steps)
    case SavedAt(reg, units) =>
      if units < 0 then TwoSigned(0x11, reg, units)
      else if reg < 0x40 then One(0x80 + reg, units) else Two(0x05, reg, units)
    case ValueAt(reg, units) => if units < 0 then TwoSigned(0x15, reg, units) else Two(0x14, reg, units)
    case SavedInRegister(reg, other) => Two(0x09, reg, other)
    case IsUndefined(reg) => One(0x07, reg)
    case SameValue(reg) => One(0x08, reg)
    case RestoreRule(reg) => if reg < 0x40 then Bare(0xC0 + reg) else One(0x06, reg)
    case RememberState => Bare(0x0A)
    case RestoreState => Bare(0x0B)
    case CfaIs(reg, offset) => Two(0x0C, reg, offset)
    case CfaRegister(reg) => One(0x0D, reg)
    case CfaOffset(offset) => One(0x0E, offset)
    case CfaInUnits(reg, units) => TwoSigned(0x12, reg, units)
    case CfaOffsetInUnits(units) => OneSigned(0x13, units)
    case ArgumentsTake(size) => One(0x2E, size)
    case CfaExpression(block) => Counted(0x0F, block)
    case SavedAtExpression(reg, block) => OneCounted(0x10, reg, block)
    case ValueExpression(reg, block) => OneCounted(0x16, reg, block)
    case SavedBelow(reg, units) => Two(0x2F, reg, Natural(units))
    case NoOperation => Bare(0x00)
  }

  function Code(f: Form): seq<byte> { [f.op] + Operands(f) }

  function Assemble(d: Directive): seq<byte> { Code(FormOf(d)) }

  // ---------- Reading operands ----------

  predicate FormFits(f: Form) {
    match f
    case Bare(_) => true
    case Sized(_, x, size) => x < Powers(size)
    case One(_, a) => a < TWO64
    case OneSigned(_, v) => -TWO63 <= v < TWO63
    case Two(_, a, b) => a < TWO64 && b < TWO64
    case TwoSigned(_, a, v) => a < TWO64 && -TWO63 <= v < TWO63
    case Counted(_, block) => |block| < TWO64
    case OneCounted(_, a, block) => a < TWO64 && |block| < TWO64
  }

  /** The operands as they are read from `p` on, and `next` is the address after them. */
  predicate ReadTwo(mem: seq<byte>, p: nat, end: nat, a: nat, b: nat, next: nat)
    requires p <= end <= |mem|
  {
    var q := p + |EncodeUnsigned(a)|;
    q <= end && DecodeUnsigned(mem, p, end) == Value(a, q) && DecodeUnsigned(mem, q, end) == Value(b, next)
  }

  predicate ReadTwoSigned(mem: seq<byte>, p: nat, end: nat, a: nat, v: int, next: nat)
    requires p <= end <= |mem|
  {
    var q := p + |EncodeUnsigned(a)|;
    q <= end && DecodeUnsigned(mem, p, end) == Value(a, q) && DecodeSigned(mem, q, end) == Value(v, next)
  }

  predicate ReadOneCounted(mem: seq<byte>, p: nat, end: nat, a: nat, block: seq<byte>, next: nat)
    requires p <= end <= |mem|
  {
    var q := p + |EncodeUnsigned(a)|;
    q <= end && DecodeUnsigned(mem, p, end) == Value(a, q) && Block(mem, q, end) == Value(|block|, next)
  }

  predicate Read(mem: seq<byte>, p: nat, end: nat, f: Form, next: nat)
    requires p <= end <= |mem|
  {
    match f
    case Bare(_) => next == p
    case Sized(_, x, size) => p + size <= |mem| && LittleEndian(mem, p, size) == x && next == p + size
    case One(_, a) => DecodeUnsigned(mem, p, end) == Value(a, next)
    case OneSigned(_, v) => DecodeSigned(mem, p, end) == Value(v, next)
    case Two(_, a, b) => ReadTwo(mem, p, end, a, b, next)
    case TwoSigned(_, a, v) => ReadTwoSigned(mem, p, end, a, v, next)
    case Counted(_, block) => Block(mem, p, end) == Value(|block|, next)
    case OneCounted(_, a, block) => ReadOneCounted(mem, p, end, a, block, next)
  }

  /** The opcode is at `p`, and the operands after it. */
  predicate OpAt(mem: seq<byte>, p: nat, end: nat, op: byte) { p < end <= |mem| && mem[p] == op }

  predicate Has(mem: seq<byte>, p: nat, end: nat, f: Form, next: nat) {
    OpAt(mem, p, end, f.op) && Read(mem, p + 1, end, f, next)
  }

  lemma BlockDecodes(block: seq<byte>, mem: seq<byte>, p: nat, end: nat)
    requires |block| < TWO64 && At(mem, p, BlockBytes(block)) && p + |BlockBytes(block)| <= end <= |mem| && end < TWO64
    ensures Block(mem, p, end) == Value(|block|, p + |BlockBytes(block)|)
  {
    AtSplit(mem, p, EncodeUnsigned(|block|), block);
    UnsignedRoundTrip(mem, p, end, |block|);
  }

  /** A first number, and that the rest stands after it. */
  lemma FirstNumber(a: nat, rest: seq<byte>, mem: seq<byte>, p: nat, end: nat)
    requires a < TWO64 && At(mem, p, EncodeUnsigned(a) + rest) && p + |EncodeUnsigned(a) + rest| <= end <= |mem|
    ensures var q := p + |EncodeUnsigned(a)|;
            && q + |rest| == p + |EncodeUnsigned(a) + rest|
            && DecodeUnsigned(mem, p, end) == Value(a, q) && At(mem, q, rest)
  {
    AtSplit(mem, p, EncodeUnsigned(a), rest);
    UnsignedRoundTrip(mem, p, end, a);
  }

  lemma TwoDecode(a: nat, b: nat, mem: seq<byte>, p: nat, end: nat, next: nat)
    requires a < TWO64 && b < TWO64 && p <= end <= |mem|
    requires At(mem, p, EncodeUnsigned(a) + EncodeUnsigned(b)) && next == p + |EncodeUnsigned(a) + EncodeUnsigned(b)| <= end
    ensures ReadTwo(mem, p, end, a, b, next)
  {
    FirstNumber(a, EncodeUnsigned(b), mem, p, end);
    UnsignedRoundTrip(mem, p + |EncodeUnsigned(a)|, end, b);
  }

  lemma TwoSignedDecode(a: nat, v: int, mem: seq<byte>, p: nat, end: nat, next: nat)
    requires a < TWO64 && -TWO63 <= v < TWO63 && p <= end <= |mem|
    requires At(mem, p, EncodeUnsigned(a) + EncodeSigned(v)) && next == p + |EncodeUnsigned(a) + EncodeSigned(v)| <= end
    ensures ReadTwoSigned(mem, p, end, a, v, next)
  {
    FirstNumber(a, EncodeSigned(v), mem, p, end);
    SignedRoundTrip(mem, p + |EncodeUnsigned(a)|, end, v);
  }

  lemma OneCountedDecode(a: nat, block: seq<byte>, mem: seq<byte>, p: nat, end: nat, next: nat)
    requires a < TWO64 && |block| < TWO64 && p <= end <= |mem| && end < TWO64
    requires At(mem, p, EncodeUnsigned(a) + BlockBytes(block)) && next == p + |EncodeUnsigned(a) + BlockBytes(block)| <= end
    ensures ReadOneCounted(mem, p, end, a, block, next)
  {
    FirstNumber(a, BlockBytes(block), mem, p, end);
    BlockDecodes(block, mem, p + |EncodeUnsigned(a)|, end);
  }

  lemma OperandsDecode(f: Form, mem: seq<byte>, p: nat, end: nat, next: nat)
    requires FormFits(f) && p <= end <= |mem| && end < TWO64
    requires At(mem, p, Operands(f)) && next == p + |Operands(f)| <= end
    ensures Read(mem, p, end, f, next)
  {
    match f
    case Bare(_) =>
    case Sized(_, x, size) => BytesDecode(x, size, mem, p);
    case One(_, a) => UnsignedRoundTrip(mem, p, end, a);
    case OneSigned(_, v) => SignedRoundTrip(mem, p, end, v);
    case Two(_, a, b) => TwoDecode(a, b, mem, p, end, next);
    case TwoSigned(_, a, v) => TwoSignedDecode(a, v, mem, p, end, next);
    case Counted(_, block) => BlockDecodes(block, mem, p, end);
    case OneCounted(_, a, block) => OneCountedDecode(a, block, mem, p, end, next);
  }

  lemma CodeDecodes(f: Form, mem: seq<byte>, p: nat, end: nat, next: nat)
    requires FormFits(f) && At(mem, p, Code(f)) && next == p + |Code(f)| <= end <= |mem| && end < TWO64
    ensures Has(mem, p, end, f, next)
  {
    AtFirst(mem, p, f.op, Operands(f));
    OperandsDecode(f, mem, p + 1, end, next);
  }

  // ---------- What the parser makes of operands read ----------

  lemma ReadsShortAdvance(c: Cie, steps: nat, delta: nat, mem: seq<byte>, p: nat, end: nat)
    requires steps < 0x40 && delta == steps * c.codeAlign && delta < TWO32 && OpAt(mem, p, end, 0x40 + steps)
    ensures Decode(c, mem, p, end) == Value(Advance(delta), p + 1)
  {
  }

  lemma ScaledIs(c: Cie, steps: nat, delta: nat)
    requires delta == steps * c.codeAlign && delta < TWO32
    ensures Scaled(c, steps) == delta
  {
  }

  lemma ReadsLongAdvance(c: Cie, op: byte, steps: nat, delta: nat, size: nat, mem: seq<byte>, p: nat, end: nat)
    requires (op == 0x02 && size == 1) || (op == 0x03 && size == 2) || (op == 0x04 && size == 4)
    requires OpAt(mem, p, end, op) && p + 1 + size <= |mem| && LittleEndian(mem, p + 1, size) == steps
    requires delta == steps * c.codeAlign && delta < TWO32
    ensures Decode(c, mem, p, end) == Value(Advance(delta), p + 1 + size)
  {
    assert Decode(c, mem, p, end) == Primary(c, mem, op, p + 1, end);
    assert Fixed(mem, p + 1, size) == Value(steps, p + 1 + size);
    ScaledIs(c, steps, delta);
  }

  lemma ReadsAdvance(c: Cie, steps: nat, delta: nat, f: Form, mem: seq<byte>, p: nat, end: nat, next: nat)
    requires delta == steps * c.codeAlign && delta < TWO32 && f == Advancing(steps) && Has(mem, p, end, f, next)
    ensures Decode(c, mem, p, end) == Value(Advance(delta), next)
  {
    if f.Bare? { ReadsShortAdvance(c, steps, delta, mem, p, end); } else { ReadsLongAdvance(c, f.op, steps, delta, f.size, mem, p, end); }
  }

  lemma ReadsStack(c: Cie, mem: seq<byte>, p: nat, end: nat, next: nat)
    ensures OpAt(mem, p, end, 0x0A) && next == p + 1 ==> Decode(c, mem, p, end) == Value(Remember, next)
    ensures OpAt(mem, p, end, 0x0B) && next == p + 1 ==> Decode(c, mem, p, end) == Value(Recall, next)
    ensures OpAt(mem, p, end, 0x00) && next == p + 1 ==> Decode(c, mem, p, end) == Value(Nop, next)
  {
  }

  lemma ReadsSavedShort(c: Cie, reg: nat, units: nat, offset: int, mem: seq<byte>, p: nat, end: nat, next: nat)
    requires reg < 0x40 && Register(c, reg) && offset == units * c.dataAlign && -TWO63 <= offset < TWO63
    requires OpAt(mem, p, end, 0x80 + reg) && DecodeUnsigned(mem, p + 1, end) == Value(units, next)
    ensures Decode(c, mem, p, end) == Value(SetRule(reg, InCfa, offset), next)
  {
  }

  lemma ReadsSaved(c: Cie, op: byte, place: Place, reg: nat, units: nat, offset: int, mem: seq<byte>, p: nat, end: nat, next: nat)
    requires (op == 0x05 && place == InCfa) || (op == 0x14 && place == OffsetFromCfa)
    requires Register(c, reg) && offset == units * c.dataAlign && -TWO63 <= offset < TWO63
    requires OpAt(mem, p, end, op) && ReadTwo(mem, p + 1, end, reg, units, next)
    ensures Decode(c, mem, p, end) == Value(SetRule(reg, place, offset), next)
  {
  }

  lemma ReadsSavedBelow(c: Cie, reg: nat, units: nat, offset: int, mem: seq<byte>, p: nat, end: nat, next: nat)
    requires Register(c, reg) && offset == units * c.dataAlign && -TWO63 < offset < TWO63
    requires OpAt(mem, p, end, 0x2F) && ReadTwo(mem, p + 1, end, reg, units, next)
    ensures Decode(c, mem, p, end) == Value(SetRule(reg, InCfa, -offset), next)
  {
  }

  lemma ReadsSavedSigned(c: Cie, op: byte, place: Place, reg: nat, units: int, offset: int, mem: seq<byte>, p: nat, end: nat, next: nat)
    requires (op == 0x11 && place == InCfa) || (op == 0x15 && place == OffsetFromCfa)
    requires Register(c, reg) && offset == units * c.dataAlign && -TWO63 <= offset < TWO63
    requires OpAt(mem, p, end, op) && ReadTwoSigned(mem, p + 1, end, reg, units, next)
    ensures Decode(c, mem, p, end) == Value(SetRule(reg, place, offset), next)
  {
  }

  lemma ReadsInRegister(c: Cie, reg: nat, other: nat, mem: seq<byte>, p: nat, end: nat, next: nat)
    requires Register(c, reg) && Register(c, other) && OpAt(mem, p, end, 0x09) && ReadTwo(mem, p + 1, end, reg, other, next)
    ensures Decode(c, mem, p, end) == Value(SetRule(reg, InRegister, other), next)
  {
  }

  lemma ReadsPlace(c: Cie, reg: nat, mem: seq<byte>, p: nat, end: nat, next: nat)
    requires Register(c, reg)
    ensures OpAt(mem, p, end, 0x07) && DecodeUnsigned(mem, p + 1, end) == Value(reg, next) ==> Decode(c, mem, p, end) == Value(SetPlace(reg, Undefined), next)
    ensures OpAt(mem, p, end, 0x08) && DecodeUnsigned(mem, p + 1, end) == Value(reg, next) ==> Decode(c, mem, p, end) == Value(SetPlace(reg, Unused), next)
  {
  }

  lemma ReadsRestore(c: Cie, reg: nat, mem: seq<byte>, p: nat, end: nat, next: nat)
    requires Register(c, reg) && Has(mem, p, end, FormOf(RestoreRule(reg)), next)
    ensures Decode(c, mem, p, end) == Value(Restore(reg), next)
  {
  }

  lemma ReadsCfa(c: Cie, reg: nat, offset: nat, mem: seq<byte>, p: nat, end: nat, next: nat)
    requires Register(c, reg) && offset < TWO32 / 2 && OpAt(mem, p, end, 0x0C) && ReadTwo(mem, p + 1, end, reg, offset, next)
    ensures Decode(c, mem, p, end) == Value(DefCfa(reg, offset), next)
  {
  }

  lemma ReadsCfaInUnits(c: Cie, reg: nat, units: int, mem: seq<byte>, p: nat, end: nat, next: nat)
    requires Register(c, reg) && SmallUnits(c, units) && OpAt(mem, p, end, 0x12) && ReadTwoSigned(mem, p + 1, end, reg, units, next)
    ensures Decode(c, mem, p, end) == Value(DefCfa(reg, units * c.dataAlign), next)
  {
  }

  lemma ReadsCfaPart(c: Cie, a: nat, mem: seq<byte>, p: nat, end: nat, next: nat)
    ensures Register(c, a) && OpAt(mem, p, end, 0x0D) && DecodeUnsigned(mem, p + 1, end) == Value(a, next) ==> Decode(c, mem, p, end) == Value(DefCfaRegister(a), next)
    ensures a < TWO32 / 2 && OpAt(mem, p, end, 0x0E) && DecodeUnsigned(mem, p + 1, end) == Value(a, next) ==> Decode(c, mem, p, end) == Value(DefCfaOffset(a), next)
    ensures a < TWO32 && OpAt(mem, p, end, 0x2E) && DecodeUnsigned(mem, p + 1, end) == Value(a, next) ==> Decode(c, mem, p, end) == Value(ArgsSize(a), next)
  {
  }

  lemma ReadsOffsetInUnits(c: Cie, units: int, mem: seq<byte>, p: nat, end: nat, next: nat)
    requires SmallUnits(c, units) && OpAt(mem, p, end, 0x13) && DecodeSigned(mem, p + 1, end) == Value(units, next)
    ensures Decode(c, mem, p, end) == Value(DefCfaOffset(units * c.dataAlign), next)
  {
  }

  lemma ReadsCfaExpression(c: Cie, block: seq<byte>, mem: seq<byte>, p: nat, end: nat, next: nat)
    requires OpAt(mem, p, end, 0x0F) && Block(mem, p + 1, end) == Value(|block|, next)
    ensures Decode(c, mem, p, end) == Value(DefCfaExpression(ToInt64(p + 1)), next)
  {
  }

  lemma ReadsSavedAtExpression(c: Cie, reg: nat, block: seq<byte>, mem: seq<byte>, p: nat, end: nat, next: nat)
    requires Register(c, reg) && OpAt(mem, p, end, 0x10) && ReadOneCounted(mem, p + 1, end, reg, block, next)
    ensures Decode(c, mem, p, end) == Value(SetRule(reg, AtExpression, BlockAddress(reg, p)), next)
  {
    assert Decode(c, mem, p, end) == SavedElsewhere(c, mem, 0x10, p + 1, end);
  }

  lemma ReadsValueExpression(c: Cie, reg: nat, block: seq<byte>, mem: seq<byte>, p: nat, end: nat, next: nat)
    requires Register(c, reg) && OpAt(mem, p, end, 0x16) && ReadOneCounted(mem, p + 1, end, reg, block, next)
    ensures Decode(c, mem, p, end) == Value(SetRule(reg, IsExpression, BlockAddress(reg, p)), next)
  {
    assert Decode(c, mem, p, end) == SavedElsewhere(c, mem, 0x16, p + 1, end);
  }

  lemma AdvanceMeans(c: Cie, d: Directive, f: Form, mem: seq<byte>, p: nat, end: nat, next: nat)
    requires d.AdvanceBy? && Fits(c, d) && f == FormOf(d) && Has(mem, p, end, f, next)
    ensures p < end <= |mem| && Decode(c, mem, p, end) == Value(Meaning(c, d, p), next)
  {
    ReadsAdvance(c, d.steps, d.steps * c.codeAlign, f, mem, p, end, next);
  }

  lemma BelowMeans(c: Cie, d: Directive, f: Form, mem: seq<byte>, p: nat, end: nat, next: nat)
    requires d.SavedBelow? && Fits(c, d) && f == FormOf(d) && Has(mem, p, end, f, next)
    ensures p < end <= |mem| && Decode(c, mem, p, end) == Value(Meaning(c, d, p), next)
  {
    ReadsSavedBelow(c, d.reg, d.units, d.units * c.dataAlign, mem, p, end, next);
  }

  lemma StackMeans(c: Cie, d: Directive, f: Form, mem: seq<byte>, p: nat, end: nat, next: nat)
    requires (d.RememberState? || d.RestoreState? || d.NoOperation?) && Fits(c, d) && f == FormOf(d) && Has(mem, p, end, f, next)
    ensures p < end <= |mem| && Decode(c, mem, p, end) == Value(Meaning(c, d, p), next)
  {
    ReadsStack(c, mem, p, end, next);
  }

  /** Operands of a directive that fits are decoded to what it means. */
  lemma FormMeans(c: Cie, d: Directive, f: Form, mem: seq<byte>, p: nat, end: nat, next: nat)
    requires Fits(c, d) && f == FormOf(d) && Has(mem, p, end, f, next)
    ensures p < end <= |mem| && Decode(c, mem, p, end) == Value(Meaning(c, d, p), next)
  {
    if d.SavedAt? || d.ValueAt? {
      SavedMeans(c, d, f, mem, p, end, next);
    } else if d.SavedBelow? {
      BelowMeans(c, d, f, mem, p, end, next);
    } else if OfPlace(d) {
      PlaceMeans(c, d, f, mem, p, end, next);
    } else if OfFrame(d) {
      FrameMeans(c, d, f, mem, p, end, next);
    } else if d.AdvanceBy? {
      AdvanceMeans(c, d, f, mem, p, end, next);
    } else {
      StackMeans(c, d, f, mem, p, end, next);
    }
  }

  predicate OfPlace(d: Directive) { d.SavedInRegister? || d.IsUndefined? || d.SameValue? || d.RestoreRule? }

  lemma PlaceMeans(c: Cie, d: Directive, f: Form, mem: seq<byte>, p: nat, end: nat, next: nat)
    requires OfPlace(d) && Fits(c, d) && f == FormOf(d) && Has(mem, p, end, f, next)
    ensures p < end <= |mem| && Decode(c, mem, p, end) == Value(Meaning(c, d, p), next)
  {
    match d
    case SavedInRegister(reg, other) => ReadsInRegister(c, reg, other, mem, p, end, next);
    case RestoreRule(reg) => ReadsRestore(c, reg, mem, p, end, next);
    case IsUndefined(reg) => ReadsPlace(c, reg, mem, p, end, next);
    case SameValue(reg) => ReadsPlace(c, reg, mem, p, end, next);
    case _ =>
  }

  lemma SavedMeans(c: Cie, d: Directive, f: Form, mem: seq<byte>, p: nat, end: nat, next: nat)
    requires (d.SavedAt? || d.ValueAt?) && Fits(c, d) && f == FormOf(d) && Has(mem, p, end, f, next)
    ensures p < end <= |mem| && Decode(c, mem, p, end) == Value(Meaning(c, d, p), next)
  {
    var place, offset := if d.SavedAt? then InCfa else OffsetFromCfa, d.units * c.dataAlign;
    if d.units < 0 {
      ReadsSavedSigned(c, f.op, place, d.reg, d.units, offset, mem, p, end, next);
    } else if d.SavedAt? && d.reg < 0x40 {
      ReadsSavedShort(c, d.reg, d.units, offset, mem, p, end, next);
    } else {
      ReadsSaved(c, f.op, place, d.reg, d.units, offset, mem, p, end, next);
    }
  }

  predicate OfFrame(d: Directive) {
    d.CfaIs? || d.CfaRegister? || d.CfaOffset? || d.CfaInUnits? || d.CfaOffsetInUnits? || d.ArgumentsTake? ||
    d.CfaExpression? || d.SavedAtExpression? || d.ValueExpression?
  }

  lemma SavedAtExpressionMeans(c: Cie, d: Directive, f: Form, mem: seq<byte>, p: nat, end: nat, next: nat)
    requires d.SavedAtExpression? && Fits(c, d) && f == FormOf(d) && Has(mem, p, end, f, next)
    ensures p < end <= |mem| && Decode(c, mem, p, end) == Value(Meaning(c, d, p), next)
  {
    ReadsSavedAtExpression(c, d.reg, d.block, mem, p, end, next);
  }

  lemma ValueExpressionMeans(c: Cie, d: Directive, f: Form, mem: seq<byte>, p: nat, end: nat, next: nat)
    requires d.ValueExpression? && Fits(c, d) && f == FormOf(d) && Has(mem, p, end, f, next)
    ensures p < end <= |mem| && Decode(c, mem, p, end) == Value(Meaning(c, d, p), next)
  {
    ReadsValueExpression(c, d.reg, d.block, mem, p, end, next);
  }

  lemma FrameMeans(c: Cie, d: Directive, f: Form, mem: seq<byte>, p: nat, end: nat, next: nat)
    requires OfFrame(d) && Fits(c, d) && f == FormOf(d) && Has(mem, p, end, f, next)
    ensures p < end <= |mem| && Decode(c, mem, p, end) == Value(Meaning(c, d, p), next)
  {
    match d
    case CfaIs(reg, offset) => ReadsCfa(c, reg, offset, mem, p, end, next);
    case CfaRegister(reg) => ReadsCfaPart(c, reg, mem, p, end, next);
    case CfaOffset(offset) => ReadsCfaPart(c, offset, mem, p, end, next);
    case CfaInUnits(reg, units) => ReadsCfaInUnits(c, reg, units, mem, p, end, next);
    case CfaOffsetInUnits(units) => ReadsOffsetInUnits(c, units, mem, p, end, next);
    case ArgumentsTake(size) => ReadsCfaPart(c, size, mem, p, end, next);
    case CfaExpression(block) => ReadsCfaExpression(c, block, mem, p, end, next);
    case SavedAtExpression(_, _) => SavedAtExpressionMeans(c, d, f, mem, p, end, next);
    case ValueExpression(_, _) => ValueExpressionMeans(c, d, f, mem, p, end, next);
  }

  lemma DirectiveFormFits(c: Cie, d: Directive)
    requires Fits(c, d)
    ensures FormFits(FormOf(d))
  {
    assert Powers(1) == 0x100 && Powers(2) == 0x1_0000 && Powers(4) == TWO32 by { assert Powers(3) == 0x100_0000; }
  }

  /** The parser reads a directive's bytes as what it means, and exactly those. */
  lemma DirectiveDecodes(c: Cie, d: Directive, mem: seq<byte>, p: nat, end: nat)
    requires Fits(c, d) && At(mem, p, Assemble(d)) && p + |Assemble(d)| <= end <= |mem| && end < TWO64
    ensures p < end && Decode(c, mem, p, end) == Value(Meaning(c, d, p), p + |Assemble(d)|)
  {
    var f, next := FormOf(d), p + |Assemble(d)|;
    DirectiveFormFits(c, d);
    CodeDecodes(f, mem, p, end, next);
    FormMeans(c, d, f, mem, p, end, next);
  }

  /** The opcodes with a meaning here: three with an operand in them, and these. */
  predicate HasMeaning(op: byte) {
    op >= 0x40 || op <= 0x16 || op in {0x2E, 0x2F}
  }

  /** Every other is malformed. A location is set to what the reader of pointers finds. */
  lemma OtherOpcodes(c: Cie, mem: seq<byte>, p: nat, end: nat)
    requires p < end <= |mem|
    ensures !HasMeaning(mem[p]) ==> Decode(c, mem, p, end) == Value(Malformed, p + 1)
    ensures mem[p] == 0x01 ==>
              Decode(c, mem, p, end) == match c.pointer(p + 1) case Value(a, q) => Value(SetLoc(a), q) case Abort => Abort
  {
  }

  /** Names a register above the highest one. */
  predicate NamesUnknown(c: Cie, d: Directive) {
    && !d.AdvanceBy? && !d.RememberState? && !d.RestoreState? && !d.NoOperation?
    && !d.CfaOffset? && !d.CfaOffsetInUnits? && !d.ArgumentsTake? && !d.CfaExpression?
    && (d.reg > c.maxRegister || (d.SavedInRegister? && d.other > c.maxRegister))
  }

  /** Where an opcode's first operand alone, or both operands, come before the check. */
  lemma UnknownFirst(c: Cie, op: byte, reg: nat, mem: seq<byte>, p: nat, end: nat, q: nat)
    requires op in {0x06, 0x07, 0x08, 0x10, 0x16, 0x11, 0x15, 0x0D} && reg > c.maxRegister
    requires OpAt(mem, p, end, op) && DecodeUnsigned(mem, p + 1, end) == Value(reg, q)
    ensures Decode(c, mem, p, end).Value? && Decode(c, mem, p, end).value == Malformed
  {
    if op in {0x11, 0x15} {
      assert Decode(c, mem, p, end) == SavedAtOffset(c, mem, op, p + 1, end);
    } else if op == 0x0D {
      assert Decode(c, mem, p, end) == Frame(c, mem, op, p + 1, end);
    } else {
      assert Decode(c, mem, p, end) == SavedElsewhere(c, mem, op, p + 1, end);
    }
  }

  lemma UnknownOfTwo(c: Cie, op: byte, reg: nat, b: nat, mem: seq<byte>, p: nat, end: nat, next: nat)
    requires op in {0x05, 0x14, 0x2F, 0x0C} && reg > c.maxRegister
    requires OpAt(mem, p, end, op) && ReadTwo(mem, p + 1, end, reg, b, next)
    ensures Decode(c, mem, p, end).Value? && Decode(c, mem, p, end).value == Malformed
  {
    if op == 0x0C { UnknownCfa(c, reg, b, mem, p, end, next); } else { UnknownOffset(c, op, reg, b, mem, p, end, next); }
  }

  lemma UnknownCfa(c: Cie, reg: nat, b: nat, mem: seq<byte>, p: nat, end: nat, next: nat)
    requires reg > c.maxRegister && OpAt(mem, p, end, 0x0C) && ReadTwo(mem, p + 1, end, reg, b, next)
    ensures Decode(c, mem, p, end).Value? && Decode(c, mem, p, end).value == Malformed
  {
    assert Decode(c, mem, p, end) == Frame(c, mem, 0x0C, p + 1, end);
  }

  lemma UnknownOffset(c: Cie, op: byte, reg: nat, b: nat, mem: seq<byte>, p: nat, end: nat, next: nat)
    requires op in {0x05, 0x14, 0x2F} && reg > c.maxRegister
    requires OpAt(mem, p, end, op) && ReadTwo(mem, p + 1, end, reg, b, next)
    ensures Decode(c, mem, p, end).Value? && Decode(c, mem, p, end).value == Malformed
  {
    assert Decode(c, mem, p, end) == SavedAtOffset(c, mem, op, p + 1, end);
  }

  lemma UnknownOfPair(c: Cie, reg: nat, other: nat, mem: seq<byte>, p: nat, end: nat, next: nat)
    requires reg > c.maxRegister || other > c.maxRegister
    requires OpAt(mem, p, end, 0x09) && ReadTwo(mem, p + 1, end, reg, other, next)
    ensures Decode(c, mem, p, end).Value? && Decode(c, mem, p, end).value == Malformed
  {
    assert Decode(c, mem, p, end) == SavedElsewhere(c, mem, 0x09, p + 1, end);
  }

  lemma UnknownOfTwoSigned(c: Cie, reg: nat, v: int, mem: seq<byte>, p: nat, end: nat, next: nat)
    requires reg > c.maxRegister && OpAt(mem, p, end, 0x12) && ReadTwoSigned(mem, p + 1, end, reg, v, next)
    ensures Decode(c, mem, p, end).Value? && Decode(c, mem, p, end).value == Malformed
  {
    assert Decode(c, mem, p, end) == Frame(c, mem, 0x12, p + 1, end);
  }

  lemma UnknownInOpcode(c: Cie, reg: nat, op: byte, mem: seq<byte>, p: nat, end: nat)
    requires reg > c.maxRegister && reg < 0x40 && op in {0x80 + reg, 0xC0 + reg} && OpAt(mem, p, end, op)
    ensures Decode(c, mem, p, end).Value? && Decode(c, mem, p, end).value == Malformed
  {
    assert Decode(c, mem, p, end) == Primary(c, mem, op, p + 1, end);
  }

  /** What is read of a directive for such a register. */
  lemma UnknownForm(c: Cie, d: Directive, f: Form, mem: seq<byte>, p: nat, end: nat, next: nat)
    requires NamesUnknown(c, d) && f == FormOf(d) && Has(mem, p, end, f, next)
    ensures Decode(c, mem, p, end).Value? && Decode(c, mem, p, end).value == Malformed
  {
    match f
    case Bare(op) => UnknownInOpcode(c, d.reg, op, mem, p, end);
    case One(op, a) => if op >= 0x80 { UnknownInOpcode(c, d.reg, op, mem, p, end); } else { UnknownFirst(c, op, a, mem, p, end, next); }
    case Two(op, a, b) => if op == 0x09 { UnknownOfPair(c, a, b, mem, p, end, next); } else { UnknownOfTwo(c, op, a, b, mem, p, end, next); }
    case TwoSigned(op, a, v) =>
      if op == 0x12 {
        UnknownOfTwoSigned(c, a, v, mem, p, end, next);
      } else {
        UnknownFirst(c, op, a, mem, p, end, p + 1 + |EncodeUnsigned(a)|);
      }
    case OneCounted(op, a, _) => UnknownFirst(c, op, a, mem, p, end, p + 1 + |EncodeUnsigned(a)|);
    case _ =>
  }

  /** Every directive for a register there is not is malformed, whatever its other operands. */
  lemma UnknownRegisterIsMalformed(c: Cie, d: Directive, mem: seq<byte>, p: nat, end: nat)
    requires NamesUnknown(c, d) && FormFits(FormOf(d))
    requires At(mem, p, Assemble(d)) && p + |Assemble(d)| <= end <= |mem| && end < TWO64
    ensures p < end && Decode(c, mem, p, end).Value? && Decode(c, mem, p, end).value == Malformed
  {
    var f, next := FormOf(d), p + |Assemble(d)|;
    CodeDecodes(f, mem, p, end, next);
    UnknownForm(c, d, f, mem, p, end, next);
  }

  /** Wherever the bytes stand, the parser reads them as what they mean there. */
  ghost predicate Reads(c: Cie, code: seq<byte>, meaning: nat -> Instr) {
    forall mem: seq<byte>, p: nat, end: nat {:trigger Decode(c, mem, p, end)} ::
      At(mem, p, code) && p + |code| <= end <= |mem| && end < TWO64 ==>
        p < end && Decode(c, mem, p, end) == Value(meaning(p), p + |code|)
  }

  function MeaningOf(c: Cie, d: Directive): nat -> Instr { (p: nat) => Meaning(c, d, p) }

  lemma DirectiveReads(c: Cie, d: Directive)
    requires Fits(c, d)
    ensures Reads(c, Assemble(d), MeaningOf(c, d))
  {
    forall mem: seq<byte>, p: nat, end: nat | At(mem, p, Assemble(d)) && p + |Assemble(d)| <= end <= |mem| && end < TWO64
      ensures p < end && Decode(c, mem, p, end) == Value(Meaning(c, d, p), p + |Assemble(d)|)
    {
      DirectiveDecodes(c, d, mem, p, end);
    }
  }

  function Joined(codes: seq<seq<byte>>): seq<byte> { if codes == [] then [] else codes[0] + Joined(codes[1..]) }

  /** What codes one after the other mean, from address `p` on. */
  function Listing(codes: seq<seq<byte>>, meanings: seq<nat -> Instr>, p: nat): seq<Instr>
    requires |codes| == |meanings|
  {
    if codes == [] then [] else [meanings[0](p)] + Listing(codes[1..], meanings[1..], p + |codes[0]|)
  }

  /** So codes one after the other are read as what they mean, in order. */
  lemma {:induction false} CodesRead(c: Cie, codes: seq<seq<byte>>, meanings: seq<nat -> Instr>, mem: seq<byte>, p: nat, end: nat)
    requires |codes| == |meanings|
    requires forall k :: 0 <= k < |codes| ==> Reads(c, codes[k], meanings[k]) && forall a: nat :: !meanings[k](a).Malformed?
    requires At(mem, p, Joined(codes)) && end == p + |Joined(codes)| < TWO64
    ensures Program(c, mem, p, end) == Listing(codes, meanings, p)
    decreases |codes|
  {
    if codes != [] {
      var q := p + |codes[0]|;
      AtSplit(mem, p, codes[0], Joined(codes[1..]));
      CodesRead(c, codes[1..], meanings[1..], mem, q, end);
      assert Reads(c, codes[0], meanings[0]) && !meanings[0](p).Malformed?;
      ProgramStep(c, mem, p, end, meanings[0](p), q);
    }
  }

  function Codes(ds: seq<Directive>): seq<seq<byte>> { seq(|ds|, k requires 0 <= k < |ds| => Assemble(ds[k])) }

  /** What a sequence of directives is assembled to, and what it means at address `p`. */
  function AssembleAll(ds: seq<Directive>): seq<byte> { Joined(Codes(ds)) }

  function Meanings(c: Cie, ds: seq<Directive>, p: nat): seq<Instr> {
    Listing(Codes(ds), seq(|ds|, k requires 0 <= k < |ds| => MeaningOf(c, ds[k])), p)
  }

  /** The parser reads back a whole stream of directives as what they mean, in order. */
  lemma StreamDecodes(c: Cie, ds: seq<Directive>, mem: seq<byte>, p: nat, end: nat)
    requires forall k :: 0 <= k < |ds| ==> Fits(c, ds[k])
    requires At(mem, p, AssembleAll(ds)) && end == p + |AssembleAll(ds)| < TWO64
    ensures Program(c, mem, p, end) == Meanings(c, ds, p)
  {
    var codes, meanings := Codes(ds), seq(|ds|, k requires 0 <= k < |ds| => MeaningOf(c, ds[k]));
    forall k | 0 <= k < |ds| ensures Reads(c, codes[k], meanings[k]) { DirectiveReads(c, ds[k]); }
    CodesRead(c, codes, meanings, mem, p, end);
  }
}
