/**
 The compact unwind section: a first-level index of pages, pages of entries in
 two formats, and the flat table that they stand for.
 */
module CompactIndex {
  import opened Words
  import opened Wrappers

  /** What memory holds at every address. */
  datatype Memory = Memory(get16: nat -> word16, get32: nat -> word32, getP: nat -> word64)

  /** Where the image and its unwind section start. */
  datatype Sections = Sections(base: word64, unwind: word64)

  const VERSION: nat := 1
  const REGULAR: nat := 2
  const COMPRESSED: nat := 3

  // ---------- Accessors ----------

  function HeaderField(m: Memory, s: Sections, field: nat): word32 { m.get32(s.unwind + 4 * field) }

  function IndexCount(m: Memory, s: Sections): word32 { HeaderField(m, s, 6) }

  function IndexField(m: Memory, s: Sections, k: nat, field: nat): word32 {
    m.get32(s.unwind + HeaderField(m, s, 5) + 12 * k + 4 * field)
  }

  /** The first function of page `k`; of the last entry, where the table ends. */
  function PageStart(m: Memory, s: Sections, k: nat): word32 { IndexField(m, s, k, 0) }

  function PageAddress(m: Memory, s: Sections, k: nat): nat { s.unwind + IndexField(m, s, k, 1) }

  function PageKind(m: Memory, s: Sections, k: nat): word32 { m.get32(PageAddress(m, s, k)) }

  function EntryCount(m: Memory, s: Sections, k: nat): word16 { m.get16(PageAddress(m, s, k) + 6) }

  function Entries(m: Memory, s: Sections, k: nat): nat { PageAddress(m, s, k) + m.get16(PageAddress(m, s, k) + 4) }

  function RegularStart(m: Memory, s: Sections, k: nat, i: nat): word32 { m.get32(Entries(m, s, k) + 8 * i) }

  /** An offset from the page's start in the low 24 bits, an index of encodings above. */
  function CompressedOffset(m: Memory, s: Sections, k: nat, i: nat): nat { m.get32(Entries(m, s, k) + 4 * i) % TWO24 }

  function EncodingIndex(m: Memory, s: Sections, k: nat, i: nat): nat { m.get32(Entries(m, s, k) + 4 * i) / TWO24 }

  /** From the section's common encodings, or from the page's own. */
  function CompressedEncoding(m: Memory, s: Sections, k: nat, i: nat): word32 {
    var index, common := EncodingIndex(m, s, k, i), HeaderField(m, s, 2);
    if index < common then m.get32(s.unwind + HeaderField(m, s, 1) + 4 * index)
    else m.get32(PageAddress(m, s, k) + m.get16(PageAddress(m, s, k) + 8) + 4 * (index - common))
  }

  // ---------- The flat table ----------

  /** A function's first offset, its encoding, and the page it is from. */
  datatype Entry = Entry(start: nat, encoding: word32, page: nat)

  function EntryAt(m: Memory, s: Sections, k: nat, i: nat): Entry {
    if PageKind(m, s, k) == REGULAR then Entry(RegularStart(m, s, k, i), m.get32(Entries(m, s, k) + 8 * i + 4), k)
    else Entry(PageStart(m, s, k) + CompressedOffset(m, s, k, i), CompressedEncoding(m, s, k, i), k)
  }

  function PageEntries(m: Memory, s: Sections, k: nat): (es: seq<Entry>)
    ensures |es| == EntryCount(m, s, k) && forall i :: 0 <= i < |es| ==> es[i] == EntryAt(m, s, k, i)
  {
    seq(EntryCount(m, s, k), i requires 0 <= i => EntryAt(m, s, k, i))
  }

  /** The entries of the first `k` pages, in order. */
  function Flat(m: Memory, s: Sections, k: nat): seq<Entry> {
    if k == 0 then [] else Flat(m, s, k - 1) + PageEntries(m, s, k - 1)
  }

  function Last(m: Memory, s: Sections): nat
    requires IndexCount(m, s) > 0
  {
    IndexCount(m, s) - 1
  }

  /** Page `k` is of a known kind, starts where the index says, and its entries ascend up to the next page. */
  predicate PageWell(m: Memory, s: Sections, k: nat) {
    var n := EntryCount(m, s, k);
    && PageKind(m, s, k) in {REGULAR, COMPRESSED}
    && n > 0
    && EntryAt(m, s, k, 0).start == PageStart(m, s, k)
    && (forall i: nat :: i + 1 < n ==> EntryAt(m, s, k, i).start < EntryAt(m, s, k, i + 1).start)
    && EntryAt(m, s, k, n - 1).start < PageStart(m, s, k + 1)
  }

  // ---------- Data of a function ----------

  /** The table of language-specific data for the functions of page `k`. */
  function LsdaArray(m: Memory, s: Sections, k: nat): nat { s.unwind + IndexField(m, s, k, 2) }

  function LsdaCount(m: Memory, s: Sections, k: nat): nat { Wrap32(LsdaArray(m, s, k + 1) - LsdaArray(m, s, k)) / 8 }

  function LsdaFunction(m: Memory, s: Sections, k: nat, i: nat): word32 { m.get32(LsdaArray(m, s, k) + 8 * i) }

  predicate LsdaAscends(m: Memory, s: Sections, k: nat) {
    forall i: nat, j: nat :: i < j < LsdaCount(m, s, k) ==> LsdaFunction(m, s, k, i) < LsdaFunction(m, s, k, j)
  }

  /** The data of the function at `offset` among the first `n`, zero if there is none. */
  function LsdaScan(m: Memory, s: Sections, k: nat, n: nat, offset: nat): word64 {
    if n == 0 then 0
    else if LsdaFunction(m, s, k, n - 1) == offset then Wrap64(m.get32(LsdaArray(m, s, k) + 8 * (n - 1) + 4) + s.base)
    else LsdaScan(m, s, k, n - 1, offset)
  }

  /** Sorted pages, a sentinel that is no page, sorted data, and an image that does not wrap around. */
  predicate WellFormed(m: Memory, s: Sections) {
    && IndexCount(m, s) > 0
    && HeaderField(m, s, 0) == VERSION
    && (forall k: nat :: k < Last(m, s) ==> PageWell(m, s, k) && LsdaAscends(m, s, k))
    && IndexField(m, s, Last(m, s), 1) == 0
    && s.base + TWO32 <= TWO64
  }

  /** What unwinding needs to know of a function. */
  datatype Info = Info(start: nat, end: nat, lsda: word64, personality: word64, encoding: word32)

  predicate HasLsda(encoding: word32) { encoding / 0x4000_0000 % 2 == 1 }

  /** One-based; zero for none. */
  function PersonalityIndex(encoding: word32): nat { encoding / 0x1000_0000 % 4 }

  function Personality(m: Memory, s: Sections, encoding: word32): Option<word64> {
    var index := PersonalityIndex(encoding);
    if index == 0 then Some(0)
    else if index - 1 >= HeaderField(m, s, 4) then None
    else
      var delta := m.get32(s.unwind + HeaderField(m, s, 3) + 4 * (index - 1));
      var signed: int := if delta < 0x8000_0000 then delta else delta - TWO32;
      Some(m.getP(Wrap64(s.base + signed)))
  }

  /** The rest of a function's information, if the tables have what its encoding promises. */
  function Complete(m: Memory, s: Sections, page: nat, start: nat, end: nat, encoding: word32): Option<Info> {
    var lsda := if HasLsda(encoding) then LsdaScan(m, s, page, LsdaCount(m, s, page), start) else 0;
    if HasLsda(encoding) && lsda == 0 then None
    else match Personality(m, s, encoding)
      case None => None
      case Some(p) => Some(Info(Wrap64(start + s.base), Wrap64(end + s.base), lsda, p, encoding))
  }

  // ---------- The linear scan ----------

  /** The last entry that starts at or before `t`. */
  function LastBelow(es: seq<Entry>, t: nat): Option<nat> {
    if es == [] then None
    else if es[|es| - 1].start <= t then Some(|es| - 1)
    else LastBelow(es[..|es| - 1], t)
  }

  function EndOf(es: seq<Entry>, p: nat, sentinel: nat): nat {
    if p + 1 < |es| then es[p + 1].start else sentinel
  }

  /** A function: its page, where it starts and ends, and its encoding. */
  datatype Span = Span(page: nat, start: nat, end: nat, encoding: word32)

  /** Scanning the flat table for the function that contains offset `t`. */
  function Scan(m: Memory, s: Sections, t: nat): Option<Span>
    requires IndexCount(m, s) > 0
  {
    var es, sentinel := Flat(m, s, Last(m, s)), PageStart(m, s, Last(m, s));
    match LastBelow(es, t)
    case None => None
    case Some(p) =>
      if t >= sentinel || p >= |es| then None else Some(Span(es[p].page, es[p].start, EndOf(es, p, sentinel), es[p].encoding))
  }

  /** The information of the function that contains `pc`. */
  function Linear(m: Memory, s: Sections, pc: word64): Option<Info>
    requires IndexCount(m, s) > 0
  {
    match Scan(m, s, Wrap64(pc - s.base))
    case None => None
    case Some(f) => Complete(m, s, f.page, f.start, f.end, f.encoding)
  }

  /** Where the last entry starts. */
  function Final(es: seq<Entry>): nat
    requires es != []
  {
    es[|es| - 1].start
  }

  predicate Ascends(es: seq<Entry>) { forall i: nat :: i + 1 < |es| ==> es[i].start < es[i + 1].start }

  lemma {:induction false} AscendsFar(es: seq<Entry>, i: nat, j: nat)
    requires Ascends(es) && i < j < |es|
    ensures es[i].start < es[j].start
  {
    if i + 1 < j { AscendsFar(es, i, j - 1); }
    assert es[j - 1].start < es[j - 1 + 1].start;
  }

  lemma AscendsAppend(a: seq<Entry>, b: seq<Entry>)
    requires Ascends(a) && Ascends(b) && b != [] && (a != [] ==> Final(a) < b[0].start)
    ensures Ascends(a + b) && Final(a + b) == Final(b)
  {
    var c := a + b;
    forall i: nat | i + 1 < |c| ensures c[i].start < c[i + 1].start {
      if i + 1 < |a| {
        assert a[i].start < a[i + 1].start;
      } else if i + 1 > |a| {
        var j: nat := i - |a|;
        assert c[i] == b[j] && c[i + 1] == b[j + 1];
      }
    }
  }

  lemma PageAscends(m: Memory, s: Sections, k: nat)
    requires PageWell(m, s, k)
    ensures var page := PageEntries(m, s, k);
            Ascends(page) && page != [] && page[0].start == PageStart(m, s, k) && Final(page) < PageStart(m, s, k + 1)
  {
    var page := PageEntries(m, s, k);
    forall i: nat | i + 1 < |page| ensures page[i].start < page[i + 1].start {
      assert page[i] == EntryAt(m, s, k, i) && page[i + 1] == EntryAt(m, s, k, i + 1);
    }
  }

  /** The flat table of the first pages is sorted and ends before the next page starts. */
  lemma {:induction false} FlatAscends(m: Memory, s: Sections, k: nat)
    requires forall j: nat :: j < k ==> PageWell(m, s, j)
    ensures Ascends(Flat(m, s, k))
    ensures var es := Flat(m, s, k); k > 0 ==> es != [] && Final(es) < PageStart(m, s, k)
  {
    if k > 0 {
      var before, page := Flat(m, s, k - 1), PageEntries(m, s, k - 1);
      FlatAscends(m, s, k - 1);
      PageAscends(m, s, k - 1);
      AscendsAppend(before, page);
      assert Flat(m, s, k) == before + page;
    }
  }

  /** Where page `k`'s entries are in the flat table. */
  lemma {:induction false} FlatAt(m: Memory, s: Sections, k: nat, last: nat, i: nat)
    requires k < last && i < EntryCount(m, s, k)
    ensures var es, p := Flat(m, s, last), |Flat(m, s, k)| + i;
            p < |es| && es[p] == EntryAt(m, s, k, i)
  {
    var es, p := Flat(m, s, last), |Flat(m, s, k)| + i;
    if k + 1 < last {
      FlatAt(m, s, k, last - 1, i);
    }
  }

  /** In a sorted table the entry that contains `t` is the one the scan finds. */
  lemma {:induction false} ScanFinds(es: seq<Entry>, t: nat, p: nat)
    requires Ascends(es) && p < |es| && es[p].start <= t && (p + 1 < |es| ==> t < es[p + 1].start)
    ensures LastBelow(es, t) == Some(p)
  {
    var n := |es| - 1;
    if p < n {
      if p + 1 < n { AscendsFar(es, p + 1, n); }
      assert Ascends(es[..n]) by { forall i: nat | i + 1 < n ensures es[..n][i].start < es[..n][i + 1].start { assert es[i].start < es[i + 1].start; } }
      ScanFinds(es[..n], t, p);
    }
  }

  /** The scan's answer, and no other entry contains `t`. */
  lemma {:induction false} ScanIsUnique(es: seq<Entry>, t: nat, sentinel: nat, p: nat)
    requires Ascends(es) && LastBelow(es, t) == Some(p) && t < sentinel
    ensures p < |es| && es[p].start <= t < EndOf(es, p, sentinel)
    ensures forall q: nat :: q < |es| && es[q].start <= t < EndOf(es, q, sentinel) ==> q == p
  {
    ScanIsRight(es, t);
    forall q: nat | q < |es| && es[q].start <= t < EndOf(es, q, sentinel) ensures q == p {
      ScanFinds(es, t, q);
    }
  }

  lemma {:induction false} ScanIsRight(es: seq<Entry>, t: nat)
    ensures match LastBelow(es, t)
            case None => forall q :: 0 <= q < |es| ==> es[q].start > t
            case Some(p) => p < |es| && es[p].start <= t && forall q :: p < q < |es| ==> es[q].start > t
  {
    if es != [] { ScanIsRight(es[..|es| - 1], t); }
  }

  /**
   What success means: the information is of the one function of the flat
   table that contains `pc`.
   */
  lemma LinearIsTheFunction(m: Memory, s: Sections, pc: word64)
    requires WellFormed(m, s) && Linear(m, s, pc).Some?
    ensures var es, sentinel, info := Flat(m, s, Last(m, s)), PageStart(m, s, Last(m, s)), Linear(m, s, pc).value;
            && info.start <= pc < info.end
            && exists p :: 0 <= p < |es|
                 && info.start == es[p].start + s.base && info.end == EndOf(es, p, sentinel) + s.base && info.encoding == es[p].encoding
                 && forall q: nat :: q < |es| && es[q].start + s.base <= pc < EndOf(es, q, sentinel) + s.base ==> q == p
  {
    var es, sentinel, t := Flat(m, s, Last(m, s)), PageStart(m, s, Last(m, s)), Wrap64(pc - s.base);
    FlatAscends(m, s, Last(m, s));
    var p := LastBelow(es, t).value;
    ScanIsUnique(es, t, sentinel, p);
    EndsBefore(es, p, sentinel);
    InImage(pc, s.base, t, sentinel);
    CompleteIs(m, s, es[p].page, es[p].start, EndOf(es, p, sentinel), es[p].encoding);
  }

  lemma EndsBefore(es: seq<Entry>, p: nat, sentinel: nat)
    requires Ascends(es) && p < |es| && Final(es) < sentinel
    ensures EndOf(es, p, sentinel) <= sentinel
  {
    if p + 1 < |es| - 1 { AscendsFar(es, p + 1, |es| - 1); }
  }

  /** The scan finds the entry that contains `t`, and `t` lies before the end of the table. */
  lemma SpanFinds(es: seq<Entry>, sentinel: nat, t: nat, p: nat)
    requires Ascends(es) && p < |es| && Final(es) < sentinel && es[p].start <= t < EndOf(es, p, sentinel)
    ensures LastBelow(es, t) == Some(p) && t < sentinel
  {
    ScanFinds(es, t, p);
    EndsBefore(es, p, sentinel);
  }

  lemma CompleteIs(m: Memory, s: Sections, page: nat, start: nat, end: nat, encoding: word32)
    requires start < end < TWO32 && s.base + TWO32 <= TWO64
    ensures var c := Complete(m, s, page, start, end, encoding);
            c.Some? ==> c.value.start == start + s.base && c.value.end == end + s.base && c.value.encoding == encoding
  {
  }

  lemma InImage(pc: word64, base: word64, t: nat, sentinel: nat)
    requires t == Wrap64(pc - base) && t < sentinel < TWO32 && base + TWO32 <= TWO64
    ensures pc == t + base
  {
  }
}
