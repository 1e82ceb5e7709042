/**
 A linker's table of functions, laid out as the format of the compact unwind
 section has it (`mach-o/compact_unwind_encoding.h`), and the proof that the
 lookup gives each function back with its own data.
 */
module CompactLayout {
  import opened CompactIndex
  import opened CompactSearch
  import opened Words
  import opened Wrappers

  /** How to unwind a function, in the low 28 bits; whether it is the second or a later range of one; and its data. */
  datatype Function = Function(start: nat, mode: nat, later: bool, lsda: Option<word32>, personality: Option<nat>)

  /** Its encoding: the routine's number, one-based, in bits 28 and 29; bit 30 for language-specific data. */
  function EncodingOf(f: Function): nat {
    f.mode
    + 0x1000_0000 * (match f.personality case None => 0 case Some(i) => i + 1)
    + (if f.lsda.Some? then 0x4000_0000 else 0)
    + if f.later then 0x8000_0000 else 0
  }

  /** A compressed page has encodings of its own. */
  datatype Page =
    | Regular(functions: seq<Function>)
    | Compressed(functions: seq<Function>, own: seq<word32>)

  datatype Lsda = Lsda(start: nat, offset: word32)

  /** Routines are given by the distance from the image's start to a pointer to them. */
  datatype Table = Table(common: seq<word32>, routines: seq<int>, pages: seq<Page>, lsdas: seq<seq<Lsda>>, end: nat)

  // ---------- Tables in order ----------

  predicate FunctionFits(t: Table, f: Function) {
    && f.mode < 0x1000_0000
    && (f.personality.Some? ==> f.personality.value < 3 && f.personality.value < |t.routines|)
  }

  /** Where page `k` starts, or the table ends. */
  function StartOf(t: Table, k: nat): nat {
    if k < |t.pages| && t.pages[k].functions != [] then t.pages[k].functions[0].start else t.end
  }

  /** Where a function ends: at the next of its page, or at the next page. */
  function EndOfFunction(t: Table, k: nat, i: nat): nat
    requires k < |t.pages|
  {
    if i + 1 < |t.pages[k].functions| then t.pages[k].functions[i + 1].start else StartOf(t, k + 1)
  }

  /** The functions of a page are in order, and end before the next page. */
  predicate PageInOrder(t: Table, k: nat)
    requires k < |t.pages|
  {
    var fs := t.pages[k].functions;
    && 0 < |fs| < TWO16
    && (forall i: nat :: i < |fs| ==> FunctionFits(t, fs[i]))
    && (forall i: nat :: i < |fs| ==> fs[i].start < EndOfFunction(t, k, i))
    && StartOf(t, k + 1) < TWO32
  }

  /** A page's table of language-specific data is in order, and has that of every function of the page. */
  predicate LsdasInOrder(ls: seq<Lsda>, fs: seq<Function>) {
    && (forall i: nat, j: nat :: i < j < |ls| ==> ls[i].start < ls[j].start)
    && (forall i: nat :: i < |fs| && fs[i].lsda.Some? ==> Lsda(fs[i].start, fs[i].lsda.value) in ls)
  }

  predicate DataInOrder(t: Table, k: nat)
    requires k < |t.pages| == |t.lsdas|
  {
    LsdasInOrder(t.lsdas[k], t.pages[k].functions)
  }

  predicate InOrder(t: Table) {
    && |t.lsdas| == |t.pages|
    && (forall i: nat :: i < |t.routines| ==> -TWO32 / 2 <= t.routines[i] < TWO32 / 2)
    && (forall k: nat {:trigger PageInOrder(t, k)} :: k < |t.pages| ==> PageInOrder(t, k))
    && (forall k: nat {:trigger DataInOrder(t, k)} :: k < |t.pages| ==> DataInOrder(t, k))
  }

  // ---------- In memory ----------

  /** Offsets of the parts: from the section's start, and of a page's parts from the page's. */
  datatype Places = Places(common: word32, routines: word32, index: word32, pages: seq<word32>,
                           entries: seq<word16>, encodings: seq<word16>, lsdas: seq<word32>)

  ghost predicate HasWords(m: Memory, a: nat, ws: seq<nat>) { forall i: nat :: i < |ws| ==> m.get32(a + 4 * i) == ws[i] }

  /** An entry of a compressed page: the distance from its start, and the number of the encoding, first the common ones. */
  predicate CompressedEntryIs(word: nat, start: nat, first: nat, encodings: seq<word32>, encoding: nat) {
    exists index: nat :: index < 256 && index < |encodings| && encodings[index] == encoding && word == index * TWO24 + (start - first) && start - first < TWO24
  }

  ghost predicate PageLaidOut(m: Memory, t: Table, page: Page, a: nat, entries: nat, encodings: nat) {
    && m.get16(a + 4) == entries && m.get16(a + 6) == |page.functions|
    && match page
       case Regular(fs) =>
         && m.get32(a) == REGULAR
         && forall i: nat :: i < |fs| ==> HasWords(m, a + entries + 8 * i, [fs[i].start, EncodingOf(fs[i])])
       case Compressed(fs, own) =>
         && m.get32(a) == COMPRESSED
         && m.get16(a + 8) == encodings && m.get16(a + 10) == |own| && HasWords(m, a + encodings, own)
         && forall i: nat :: i < |fs| ==>
              CompressedEntryIs(m.get32(a + entries + 4 * i), fs[i].start, fs[0].start, t.common + own, EncodingOf(fs[i]))
  }

  ghost predicate LsdasLaidOut(m: Memory, ls: seq<Lsda>, a: nat) {
    forall i: nat :: i < |ls| ==> HasWords(m, a + 8 * i, [ls[i].start, ls[i].offset])
  }

  predicate PlacesFor(t: Table, p: Places) {
    |p.pages| == |p.entries| == |p.encodings| == |t.pages| && |p.lsdas| == |t.pages| + 1 && |t.lsdas| == |t.pages|
  }

  /** Page `k`, its entry in the index, and its data. */
  ghost predicate Stands(m: Memory, s: Sections, t: Table, p: Places, k: nat)
    requires PlacesFor(t, p) && k < |t.pages|
  {
    && HasWords(m, s.unwind + p.index + 12 * k, [StartOf(t, k), p.pages[k], p.lsdas[k]])
    && PageLaidOut(m, t, t.pages[k], s.unwind + p.pages[k], p.entries[k], p.encodings[k])
    && LsdasLaidOut(m, t.lsdas[k], s.unwind + p.lsdas[k]) && p.lsdas[k + 1] == p.lsdas[k] + 8 * |t.lsdas[k]|
  }

  ghost predicate LaidOut(m: Memory, s: Sections, t: Table, p: Places) {
    && PlacesFor(t, p)
    && HasWords(m, s.unwind, [VERSION, p.common, |t.common|, p.routines, |t.routines|, p.index, |t.pages| + 1])
    && HasWords(m, s.unwind + p.common, t.common)
    && (forall i: nat :: i < |t.routines| ==> m.get32(s.unwind + p.routines + 4 * i) == Wrap32(t.routines[i]))
    && (forall k: nat {:trigger Stands(m, s, t, p, k)} :: k < |t.pages| ==> Stands(m, s, t, p, k))
    && HasWords(m, s.unwind + p.index + 12 * |t.pages|, [t.end, 0, p.lsdas[|t.pages|]])
  }

  // ---------- The parser's view ----------

  lemma HeaderIs(m: Memory, s: Sections, t: Table, p: Places)
    requires LaidOut(m, s, t, p)
    ensures HeaderField(m, s, 0) == VERSION && HeaderField(m, s, 1) == p.common && HeaderField(m, s, 2) == |t.common|
    ensures HeaderField(m, s, 3) == p.routines && HeaderField(m, s, 4) == |t.routines| && HeaderField(m, s, 5) == p.index
    ensures IndexCount(m, s) == |t.pages| + 1
  {
    var ws := [VERSION, p.common, |t.common|, p.routines, |t.routines|, p.index, |t.pages| + 1];
    forall i: nat | i < 7 ensures HeaderField(m, s, i) == ws[i] { assert m.get32(s.unwind + 4 * i) == ws[i]; }
  }

  lemma ThreeWords(m: Memory, a: nat, x: nat, y: nat, z: nat)
    requires HasWords(m, a, [x, y, z])
    ensures m.get32(a) == x && m.get32(a + 4) == y && m.get32(a + 8) == z
  {
    var ws := [x, y, z];
    assert m.get32(a + 4 * 0) == ws[0] && m.get32(a + 4 * 1) == ws[1] && m.get32(a + 4 * 2) == ws[2];
  }

  lemma TwoWords(m: Memory, a: nat, x: nat, y: nat)
    requires HasWords(m, a, [x, y])
    ensures m.get32(a) == x && m.get32(a + 4) == y
  {
    var ws := [x, y];
    assert m.get32(a + 4 * 0) == ws[0] && m.get32(a + 4 * 1) == ws[1];
  }

  lemma IndexEntryIs(m: Memory, s: Sections, index: nat, k: nat, start: nat, page: nat, lsdas: nat)
    requires HeaderField(m, s, 5) == index && HasWords(m, s.unwind + index + 12 * k, [start, page, lsdas])
    ensures PageStart(m, s, k) == start && IndexField(m, s, k, 1) == page && IndexField(m, s, k, 2) == lsdas
  {
    ThreeWords(m, s.unwind + index + 12 * k, start, page, lsdas);
  }

  lemma IndexIs(m: Memory, s: Sections, t: Table, p: Places, k: nat)
    requires LaidOut(m, s, t, p) && k <= |t.pages|
    ensures PageStart(m, s, k) == StartOf(t, k)
    ensures IndexField(m, s, k, 1) == if k < |t.pages| then p.pages[k] else 0
    ensures IndexField(m, s, k, 2) == p.lsdas[k]
  {
    HeaderIs(m, s, t, p);
    assert k < |t.pages| ==> Stands(m, s, t, p, k);
    IndexEntryIs(m, s, p.index, k, StartOf(t, k), if k < |t.pages| then p.pages[k] else 0, p.lsdas[k]);
  }

  // ---------- Pages ----------

  lemma RegularEntryIs(m: Memory, s: Sections, k: nat, i: nat, a: nat, entries: nat, start: nat, encoding: word32)
    requires PageAddress(m, s, k) == a && m.get32(a) == REGULAR && m.get16(a + 4) == entries
    requires HasWords(m, a + entries + 8 * i, [start, encoding])
    ensures EntryAt(m, s, k, i) == Entry(start, encoding, k)
  {
    TwoWords(m, a + entries + 8 * i, start, encoding);
  }

  lemma NumberedEncoding(m: Memory, s: Sections, k: nat, i: nat, a: nat, common: seq<word32>, own: seq<word32>, encodings: nat, index: nat)
    requires PageAddress(m, s, k) == a && EncodingIndex(m, s, k, i) == index < |common| + |own|
    requires HeaderField(m, s, 2) == |common| && HasWords(m, s.unwind + HeaderField(m, s, 1), common)
    requires m.get16(a + 8) == encodings && HasWords(m, a + encodings, own)
    ensures CompressedEncoding(m, s, k, i) == (common + own)[index]
  {
    if index >= |common| { assert m.get32(a + encodings + 4 * (index - |common|)) == own[index - |common|]; }
  }

  lemma CompressedEntryReads(m: Memory, s: Sections, k: nat, i: nat, a: nat, entries: nat, encodings: nat,
                             common: seq<word32>, own: seq<word32>, start: nat, first: nat, encoding: word32)
    requires PageAddress(m, s, k) == a && m.get32(a) == COMPRESSED && m.get16(a + 4) == entries
    requires HeaderField(m, s, 2) == |common| && HasWords(m, s.unwind + HeaderField(m, s, 1), common)
    requires m.get16(a + 8) == encodings && HasWords(m, a + encodings, own)
    requires first <= start && PageStart(m, s, k) == first
    requires CompressedEntryIs(m.get32(a + entries + 4 * i), start, first, common + own, encoding)
    ensures EntryAt(m, s, k, i) == Entry(start, encoding, k)
  {
    var word := m.get32(a + entries + 4 * i);
    var index: nat :| index < 256 && index < |common + own| && (common + own)[index] == encoding && word == index * TWO24 + (start - first) && start - first < TWO24;
    NumberedEncoding(m, s, k, i, a, common, own, encodings, index);
  }

  lemma EncodingFits(t: Table, f: Function)
    requires FunctionFits(t, f)
    ensures EncodingOf(f) < TWO32
    ensures HasLsda(EncodingOf(f)) == f.lsda.Some?
    ensures PersonalityIndex(EncodingOf(f)) == match f.personality case None => 0 case Some(i) => i + 1
  {
  }

  lemma {:induction false} FirstIsLeast(t: Table, k: nat, i: nat)
    requires k < |t.pages| && PageInOrder(t, k) && i < |t.pages[k].functions|
    ensures StartOf(t, k) <= t.pages[k].functions[i].start < StartOf(t, k + 1) < TWO32
    decreases |t.pages[k].functions| - i
  {
    FirstIsBelow(t, k, i);
    LastIsAbove(t, k, i);
  }

  lemma {:induction false} FirstIsBelow(t: Table, k: nat, i: nat)
    requires k < |t.pages| && PageInOrder(t, k) && i < |t.pages[k].functions|
    ensures StartOf(t, k) <= t.pages[k].functions[i].start
  {
    if i > 0 {
      FirstIsBelow(t, k, i - 1);
      assert t.pages[k].functions[i - 1].start < EndOfFunction(t, k, i - 1);
    }
  }

  lemma {:induction false} LastIsAbove(t: Table, k: nat, i: nat)
    requires k < |t.pages| && PageInOrder(t, k) && i < |t.pages[k].functions|
    ensures t.pages[k].functions[i].start < StartOf(t, k + 1)
    decreases |t.pages[k].functions| - i
  {
    assert t.pages[k].functions[i].start < EndOfFunction(t, k, i);
    if i + 1 < |t.pages[k].functions| { LastIsAbove(t, k, i + 1); }
  }

  lemma PageStands(m: Memory, s: Sections, t: Table, p: Places, k: nat)
    requires LaidOut(m, s, t, p) && k < |t.pages|
    ensures PageLaidOut(m, t, t.pages[k], s.unwind + p.pages[k], p.entries[k], p.encodings[k])
  {
    assert Stands(m, s, t, p, k);
  }

  lemma PageEntry(m: Memory, s: Sections, t: Table, k: nat, page: Page, i: nat, a: nat, entries: nat, encodings: nat, first: nat)
    requires PageLaidOut(m, t, page, a, entries, encodings) && i < |page.functions| && EncodingOf(page.functions[i]) < TWO32
    requires PageAddress(m, s, k) == a && PageStart(m, s, k) == first == page.functions[0].start <= page.functions[i].start
    requires HeaderField(m, s, 2) == |t.common| && HasWords(m, s.unwind + HeaderField(m, s, 1), t.common)
    ensures EntryAt(m, s, k, i) == Entry(page.functions[i].start, EncodingOf(page.functions[i]), k)
  {
    var f := page.functions[i];
    match page
    case Regular(_) => RegularEntryIs(m, s, k, i, a, entries, f.start, EncodingOf(f));
    case Compressed(_, own) => CompressedEntryReads(m, s, k, i, a, entries, encodings, t.common, own, f.start, first, EncodingOf(f));
  }

  /** The parser sees the entries of a page. */
  lemma EntryIs(m: Memory, s: Sections, t: Table, p: Places, k: nat, i: nat)
    requires InOrder(t) && LaidOut(m, s, t, p) && k < |t.pages| && i < |t.pages[k].functions|
    ensures var f := t.pages[k].functions[i]; EncodingOf(f) < TWO32 && EntryAt(m, s, k, i) == Entry(f.start, EncodingOf(f), k)
  {
    HeaderIs(m, s, t, p);
    IndexIs(m, s, t, p, k);
    PageStands(m, s, t, p, k);
    FunctionIsFit(t, k, i);
    PageEntry(m, s, t, k, t.pages[k], i, s.unwind + p.pages[k], p.entries[k], p.encodings[k], StartOf(t, k));
  }

  lemma FunctionIsFit(t: Table, k: nat, i: nat)
    requires InOrder(t) && k < |t.pages| && i < |t.pages[k].functions|
    ensures var f := t.pages[k].functions[i];
            FunctionFits(t, f) && EncodingOf(f) < TWO32 && StartOf(t, k) == t.pages[k].functions[0].start <= f.start < StartOf(t, k + 1) < TWO32
  {
    assert PageInOrder(t, k);
    EncodingFits(t, t.pages[k].functions[i]);
    FirstIsLeast(t, k, i);
  }

  lemma PageIs(m: Memory, s: Sections, t: Table, p: Places, k: nat)
    requires LaidOut(m, s, t, p) && k < |t.pages|
    ensures EntryCount(m, s, k) == |t.pages[k].functions| && PageKind(m, s, k) in {REGULAR, COMPRESSED}
  {
    IndexIs(m, s, t, p, k);
    PageStands(m, s, t, p, k);
  }

  lemma PageIsWell(m: Memory, s: Sections, t: Table, p: Places, k: nat)
    requires InOrder(t) && LaidOut(m, s, t, p) && k < |t.pages|
    ensures PageWell(m, s, k)
  {
    var n := |t.pages[k].functions|;
    assert PageInOrder(t, k);
    PageIs(m, s, t, p, k);
    IndexIs(m, s, t, p, k);
    IndexIs(m, s, t, p, k + 1);
    forall i: nat | i < n ensures EntryAt(m, s, k, i).start == t.pages[k].functions[i].start < EndOfFunction(t, k, i) {
      EntryIs(m, s, t, p, k, i);
    }
  }

  // ---------- Language-specific data and routines ----------

  lemma LsdasStand(m: Memory, s: Sections, t: Table, p: Places, k: nat)
    requires LaidOut(m, s, t, p) && k < |t.pages|
    ensures LsdasLaidOut(m, t.lsdas[k], s.unwind + p.lsdas[k]) && p.lsdas[k + 1] == p.lsdas[k] + 8 * |t.lsdas[k]|
  {
    assert Stands(m, s, t, p, k);
  }

  lemma LsdasAre(m: Memory, s: Sections, k: nat, ls: seq<Lsda>, at: word32, next: word32)
    requires IndexField(m, s, k, 2) == at && IndexField(m, s, k + 1, 2) == next == at + 8 * |ls| && LsdasLaidOut(m, ls, s.unwind + at)
    ensures LsdaCount(m, s, k) == |ls|
    ensures forall i: nat :: i < |ls| ==> LsdaFunction(m, s, k, i) == ls[i].start && m.get32(LsdaArray(m, s, k) + 8 * i + 4) == ls[i].offset
  {
    forall i: nat | i < |ls| ensures LsdaFunction(m, s, k, i) == ls[i].start && m.get32(LsdaArray(m, s, k) + 8 * i + 4) == ls[i].offset {
      TwoWords(m, s.unwind + at + 8 * i, ls[i].start, ls[i].offset);
    }
  }

  lemma LsdasOfPage(m: Memory, s: Sections, t: Table, p: Places, k: nat)
    requires LaidOut(m, s, t, p) && k < |t.pages|
    ensures var ls := t.lsdas[k];
            && LsdaCount(m, s, k) == |ls|
            && forall i: nat :: i < |ls| ==> LsdaFunction(m, s, k, i) == ls[i].start && m.get32(LsdaArray(m, s, k) + 8 * i + 4) == ls[i].offset
  {
    IndexIs(m, s, t, p, k);
    IndexIs(m, s, t, p, k + 1);
    LsdasStand(m, s, t, p, k);
    LsdasAre(m, s, k, t.lsdas[k], p.lsdas[k], p.lsdas[k + 1]);
  }

  lemma LsdasAscend(m: Memory, s: Sections, t: Table, p: Places, k: nat)
    requires InOrder(t) && LaidOut(m, s, t, p) && k < |t.pages|
    ensures LsdaAscends(m, s, k)
  {
    LsdasOfPage(m, s, t, p, k);
    assert DataInOrder(t, k);
    var ls := t.lsdas[k];
    forall i: nat, j: nat | i < j < LsdaCount(m, s, k) ensures LsdaFunction(m, s, k, i) < LsdaFunction(m, s, k, j) {
      assert ls[i].start < ls[j].start;
    }
  }

  /** A table in order is laid out as a section that is well formed. */
  lemma LaidOutIsWellFormed(m: Memory, s: Sections, t: Table, p: Places)
    requires InOrder(t) && LaidOut(m, s, t, p) && s.base + TWO32 <= TWO64
    ensures WellFormed(m, s) && Last(m, s) == |t.pages|
  {
    HeaderIs(m, s, t, p);
    IndexIs(m, s, t, p, |t.pages|);
    forall k: nat | k < |t.pages| ensures PageWell(m, s, k) && LsdaAscends(m, s, k) {
      PageIsWell(m, s, t, p, k);
      LsdasAscend(m, s, t, p, k);
    }
  }

  /** The data of a function that has some. */
  lemma LsdaIsFound(m: Memory, s: Sections, t: Table, p: Places, k: nat, i: nat)
    requires InOrder(t) && LaidOut(m, s, t, p) && k < |t.pages| && i < |t.pages[k].functions| && t.pages[k].functions[i].lsda.Some?
    ensures var f := t.pages[k].functions[i];
            LsdaScan(m, s, k, LsdaCount(m, s, k), f.start) == Wrap64(f.lsda.value + s.base)
  {
    var f, ls := t.pages[k].functions[i], t.lsdas[k];
    assert DataInOrder(t, k);
    var j: nat :| j < |ls| && ls[j] == Lsda(f.start, f.lsda.value);
    LsdasOfPage(m, s, t, p, k);
    LsdasAscend(m, s, t, p, k);
    LsdaScanFinds(m, s, k, LsdaCount(m, s, k), f.start, j);
  }

  /** What a routine's pointer holds. */
  function RoutineOf(m: Memory, s: Sections, t: Table, f: Function): word64
    requires FunctionFits(t, f)
  {
    match f.personality case None => 0 case Some(i) => m.getP(Wrap64(s.base + t.routines[i]))
  }

  lemma SignedPattern(x: int)
    requires -TWO32 / 2 <= x < TWO32 / 2
    ensures Wrap32(x) < 0x8000_0000 <==> x >= 0
    ensures (if Wrap32(x) < 0x8000_0000 then Wrap32(x) else Wrap32(x) - TWO32) == x
  {
  }

  lemma RoutineStands(m: Memory, s: Sections, t: Table, p: Places, i: nat)
    requires LaidOut(m, s, t, p) && i < |t.routines|
    ensures m.get32(s.unwind + p.routines + 4 * i) == Wrap32(t.routines[i])
  {
  }

  lemma RoutineIsFound(m: Memory, s: Sections, t: Table, p: Places, f: Function)
    requires InOrder(t) && LaidOut(m, s, t, p) && FunctionFits(t, f) && EncodingOf(f) < TWO32
    ensures CompactIndex.Personality(m, s, EncodingOf(f)) == Some(RoutineOf(m, s, t, f))
  {
    EncodingFits(t, f);
    HeaderIs(m, s, t, p);
    if f.personality.Some? {
      var i := f.personality.value;
      RoutineStands(m, s, t, p, i);
      SignedPattern(t.routines[i]);
    }
  }

  // ---------- The lookup ----------

  /** Everything the lookup should say about function `i` of page `k`. */
  function InfoOf(m: Memory, s: Sections, t: Table, k: nat, i: nat): Info
    requires k < |t.pages| && i < |t.pages[k].functions| && FunctionFits(t, t.pages[k].functions[i])
    requires EncodingOf(t.pages[k].functions[i]) < TWO32
  {
    var f := t.pages[k].functions[i];
    Info(f.start + s.base, EndOfFunction(t, k, i) + s.base,
         match f.lsda case None => 0 case Some(x) => Wrap64(x + s.base),
         RoutineOf(m, s, t, f), EncodingOf(f))
  }

  lemma CompleteIsInfo(m: Memory, s: Sections, t: Table, p: Places, k: nat, i: nat)
    requires InOrder(t) && LaidOut(m, s, t, p) && k < |t.pages| && i < |t.pages[k].functions| && s.base + TWO32 <= TWO64
    ensures var f := t.pages[k].functions[i];
            && FunctionFits(t, f) && EncodingOf(f) < TWO32
            && Complete(m, s, k, f.start, EndOfFunction(t, k, i), EncodingOf(f)) ==
                 if f.lsda == Some(0) && s.base == 0 then None else Some(InfoOf(m, s, t, k, i))
  {
    var f := t.pages[k].functions[i];
    FunctionIsFit(t, k, i);
    EndFits(t, k, i);
    EncodingFits(t, f);
    RoutineIsFound(m, s, t, p, f);
    if f.lsda.Some? { LsdaIsFound(m, s, t, p, k, i); }
  }

  lemma EndFits(t: Table, k: nat, i: nat)
    requires InOrder(t) && k < |t.pages| && i < |t.pages[k].functions|
    ensures t.pages[k].functions[i].start < EndOfFunction(t, k, i) < TWO32
  {
    assert PageInOrder(t, k);
    if i + 1 < |t.pages[k].functions| { FunctionIsFit(t, k, i + 1); }
  }

  lemma SpanIs(m: Memory, s: Sections, t: Table, p: Places, k: nat, i: nat)
    requires InOrder(t) && LaidOut(m, s, t, p) && k < |t.pages| && i < |t.pages[k].functions|
    ensures var f := t.pages[k].functions[i];
            && EncodingOf(f) < TWO32 && EntryAt(m, s, k, i).start == f.start
            && SpanAt(m, s, k, i) == Span(k, f.start, EndOfFunction(t, k, i), EncodingOf(f))
  {
    EntryIs(m, s, t, p, k, i);
    PageIs(m, s, t, p, k);
    IndexIs(m, s, t, p, k + 1);
    if i + 1 < |t.pages[k].functions| { EntryIs(m, s, t, p, k, i + 1); }
  }

  lemma ScanThenComplete(m: Memory, s: Sections, pc: word64, f: Span)
    requires IndexCount(m, s) > 0 && s.base <= pc && Scan(m, s, pc - s.base) == Some(f)
    ensures Linear(m, s, pc) == Complete(m, s, f.page, f.start, f.end, f.encoding)
  {
  }

  lemma FoundIsComplete(m: Memory, s: Sections, pc: word64, offset: nat, k: nat, i: nat, f: Span)
    requires WellFormed(m, s) && k < Last(m, s) && i < EntryCount(m, s, k) && SpanAt(m, s, k, i) == f
    requires EntryAt(m, s, k, i).start == f.start <= offset < f.end == EntryEnd(m, s, k, i) && pc == offset + s.base
    ensures Linear(m, s, pc) == Complete(m, s, f.page, f.start, f.end, f.encoding)
  {
    FoundIsLinear(m, s, offset, k, i);
    ScanThenComplete(m, s, pc, f);
  }

  lemma OutsideIsNothing(m: Memory, s: Sections, pc: word64, offset: nat)
    requires WellFormed(m, s) && offset == Wrap64(pc - s.base) && (offset < PageStart(m, s, 0) || offset >= PageStart(m, s, Last(m, s)))
    ensures Linear(m, s, pc) == None
  {
    OutsideIsNone(m, s, offset);
  }

  /**
   Of a table that is in order and laid out in memory, the lookup gives, for
   every pc in a function, that function: its bounds, its own encoding, its
   data and its routine. (Data at address zero counts as missing.)
   */
  lemma FunctionIsFound(m: Memory, s: Sections, t: Table, p: Places, k: nat, i: nat, pc: word64)
    requires InOrder(t) && LaidOut(m, s, t, p) && s.base + TWO32 <= TWO64
    requires k < |t.pages| && i < |t.pages[k].functions|
    requires t.pages[k].functions[i].start + s.base <= pc < EndOfFunction(t, k, i) + s.base
    ensures WellFormed(m, s)
    ensures var f := t.pages[k].functions[i];
            && FunctionFits(t, f) && EncodingOf(f) < TWO32
            && Linear(m, s, pc) == if f.lsda == Some(0) && s.base == 0 then None else Some(InfoOf(m, s, t, k, i))
  {
    LaidOutIsWellFormed(m, s, t, p);
    SpanIs(m, s, t, p, k, i);
    PageIs(m, s, t, p, k);
    CompleteIsInfo(m, s, t, p, k, i);
    FoundIsComplete(m, s, pc, pc - s.base, k, i, SpanAt(m, s, k, i));
  }

  /** And nothing for a pc outside the table. */
  lemma OutsideIsNotFound(m: Memory, s: Sections, t: Table, p: Places, pc: word64)
    requires InOrder(t) && LaidOut(m, s, t, p) && s.base + TWO32 <= TWO64
    requires pc < StartOf(t, 0) + s.base || pc >= t.end + s.base
    ensures WellFormed(m, s) && Linear(m, s, pc) == None
  {
    LaidOutIsWellFormed(m, s, t, p);
    IndexIs(m, s, t, p, 0);
    IndexIs(m, s, t, p, |t.pages|);
    OutsideIsNothing(m, s, pc, Wrap64(pc - s.base));
  }
}
