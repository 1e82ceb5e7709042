/**
 The binary searches of the compact unwind section: of the index, of a page of
 either kind, and of the language-specific data.
 */
module CompactSearch {
  import opened CompactIndex
  import opened Words
  import opened Wrappers

  /** The page that may contain `t`: the last that starts at or before it, or the first. */
  method SearchIndex(m: Memory, s: Sections, t: nat) returns (low: nat)
    ensures var n := IndexCount(m, s);
            n > 0 ==>
              low < n && if t < PageStart(m, s, low) then low == 0 else low + 1 == n || t < PageStart(m, s, low + 1)
  {
    low := 0;
    var high: nat := IndexCount(m, s);
    var last := high - 1;
    while low < high
      invariant low <= high <= IndexCount(m, s)
      invariant low > 0 ==> PageStart(m, s, low) <= t
      invariant high < IndexCount(m, s) ==> t < PageStart(m, s, high)
      invariant IndexCount(m, s) > 0 ==> low <= last
    {
      var mid := (low + high) / 2;
      if PageStart(m, s, mid) <= t {
        if mid == last || PageStart(m, s, mid + 1) > t {
          low := mid;
          break;
        } else {
          low := mid + 1;
        }
      } else {
        high := mid;
      }
    }
  }

  /** The entry of a regular page that contains `t`, and where it ends; or that `t` is before the page. */
  method SearchRegular(m: Memory, s: Sections, k: nat, t: nat, nextPage: nat) returns (low: nat, found: bool, end: nat)
    ensures var n := EntryCount(m, s, k);
            n > 0 ==>
              && low < n && found == (RegularStart(m, s, k, low) <= t) && (!found ==> low == 0)
              && (found ==> end == (if low + 1 < n then RegularStart(m, s, k, low + 1) else nextPage)
                            && (low + 1 < n ==> t < RegularStart(m, s, k, low + 1)))
  {
    low, found, end := 0, false, 0;
    var high: nat := EntryCount(m, s, k);
    while low < high
      invariant low <= high <= EntryCount(m, s, k) && !found
      invariant low > 0 ==> RegularStart(m, s, k, low) <= t
      invariant high < EntryCount(m, s, k) ==> t < RegularStart(m, s, k, high)
      invariant EntryCount(m, s, k) > 0 ==> low < EntryCount(m, s, k)
    {
      var mid := (low + high) / 2;
      if RegularStart(m, s, k, mid) <= t {
        if mid == EntryCount(m, s, k) as int - 1 {
          low, found, end := mid, true, nextPage;
          break;
        } else if RegularStart(m, s, k, mid + 1) > t {
          low, found := mid, true;
          end := RegularStart(m, s, k, low + 1);
          break;
        } else {
          low := mid + 1;
        }
      } else {
        high := mid;
      }
    }
  }

  /** The entry of a compressed page that contains the offset. */
  method SearchCompressed(m: Memory, s: Sections, k: nat, t: nat) returns (low: nat)
    ensures var n := EntryCount(m, s, k);
            n > 0 ==>
              low < n && if t < CompressedOffset(m, s, k, low) then low == 0 else low + 1 == n || t < CompressedOffset(m, s, k, low + 1)
  {
    low := 0;
    var high: nat := EntryCount(m, s, k);
    var last := high - 1;
    while low < high
      invariant low <= high <= EntryCount(m, s, k)
      invariant low > 0 ==> CompressedOffset(m, s, k, low) <= t
      invariant high < EntryCount(m, s, k) ==> t < CompressedOffset(m, s, k, high)
      invariant EntryCount(m, s, k) > 0 ==> low <= last
    {
      var mid := (low + high) / 2;
      if CompressedOffset(m, s, k, mid) <= t {
        if mid == last || CompressedOffset(m, s, k, mid + 1) > t {
          low := mid;
          break;
        } else {
          low := mid + 1;
        }
      } else {
        high := mid;
      }
    }
  }

  lemma {:induction false} LsdaScanFinds(m: Memory, s: Sections, k: nat, n: nat, offset: nat, i: nat)
    requires i < n <= LsdaCount(m, s, k) && LsdaAscends(m, s, k) && LsdaFunction(m, s, k, i) == offset
    ensures LsdaScan(m, s, k, n, offset) == Wrap64(m.get32(LsdaArray(m, s, k) + 8 * i + 4) + s.base)
  {
    if i < n - 1 {
      assert LsdaFunction(m, s, k, i) < LsdaFunction(m, s, k, n - 1);
      LsdaScanFinds(m, s, k, n - 1, offset, i);
    }
  }

  lemma {:induction false} LsdaScanMisses(m: Memory, s: Sections, k: nat, n: nat, offset: nat)
    requires forall i: nat :: i < n ==> LsdaFunction(m, s, k, i) != offset
    ensures LsdaScan(m, s, k, n, offset) == 0
  {
    if n > 0 {
      assert LsdaFunction(m, s, k, n - 1) != offset;
      LsdaScanMisses(m, s, k, n - 1, offset);
    }
  }

  /** In a sorted table the binary search finds what a scan finds. */
  method SearchLsda(m: Memory, s: Sections, k: nat, offset: nat) returns (lsda: word64)
    ensures LsdaAscends(m, s, k) ==> lsda == LsdaScan(m, s, k, LsdaCount(m, s, k), offset)
  {
    lsda := 0;
    var low, high: nat := 0, LsdaCount(m, s, k);
    ghost var n := high;
    while low < high
      invariant 0 <= low <= high <= n && lsda == 0
      invariant LsdaAscends(m, s, k) ==>
                  forall i: nat :: i < n && (i < low || i >= high) ==> LsdaFunction(m, s, k, i) != offset
    {
      var mid := (low + high) / 2;
      if LsdaFunction(m, s, k, mid) == offset {
        lsda := Wrap64(m.get32(LsdaArray(m, s, k) + 8 * mid + 4) + s.base);
        if LsdaAscends(m, s, k) { LsdaScanFinds(m, s, k, n, offset, mid); }
        return;
      } else if LsdaFunction(m, s, k, mid) < offset {
        low := mid + 1;
      } else {
        high := mid;
      }
    }
    if LsdaAscends(m, s, k) { LsdaScanMisses(m, s, k, n, offset); }
  }

  /** What follows the searches. */
  method Finish(m: Memory, s: Sections, page: nat, start: nat, end: nat, encoding: word32) returns (info: Option<Info>)
    requires start < TWO32
    ensures LsdaAscends(m, s, page) ==> info == Complete(m, s, page, start, end, encoding)
  {
    var lsda: word64 := 0;
    if HasLsda(encoding) {
      lsda := SearchLsda(m, s, page, Wrap32(start));
      if lsda == 0 { return None; }
    }
    var personality: word64 := 0;
    var index := PersonalityIndex(encoding);
    if index != 0 {
      index := index - 1;
      if index >= HeaderField(m, s, 4) { return None; }
      var delta: int := m.get32(s.unwind + HeaderField(m, s, 3) + 4 * index);
      if delta >= 0x8000_0000 { delta := delta - TWO32; }
      personality := m.getP(Wrap64(s.base + delta));
    }
    info := Some(Info(Wrap64(start + s.base), Wrap64(end + s.base), lsda, personality, encoding));
  }

  /** Where entry `i` of page `k` ends. */
  function EntryEnd(m: Memory, s: Sections, k: nat, i: nat): nat {
    if i + 1 < EntryCount(m, s, k) then EntryAt(m, s, k, i + 1).start else PageStart(m, s, k + 1)
  }

  function SpanAt(m: Memory, s: Sections, k: nat, i: nat): Span {
    var e := EntryAt(m, s, k, i);
    Span(k, e.start, EntryEnd(m, s, k, i), e.encoding)
  }

  /** An entry ends where the next of its page starts, or else the next page. */
  lemma FlatEndInside(m: Memory, s: Sections, k: nat, i: nat, last: nat, es: seq<Entry>, p: nat)
    requires k < last && i + 1 < EntryCount(m, s, k) && es == Flat(m, s, last) && p == |Flat(m, s, k)| + i
    ensures EndOf(es, p, PageStart(m, s, last)) == EntryEnd(m, s, k, i)
  {
    FlatAt(m, s, k, last, i + 1);
  }

  lemma FlatEndOfPage(m: Memory, s: Sections, k: nat, i: nat, last: nat, es: seq<Entry>, p: nat)
    requires k < last && i + 1 == EntryCount(m, s, k) && es == Flat(m, s, last) && p == |Flat(m, s, k)| + i
    requires k + 1 < last ==> PageWell(m, s, k + 1)
    ensures EndOf(es, p, PageStart(m, s, last)) == EntryEnd(m, s, k, i)
  {
    FlatGrows(m, s, k);
    if k + 1 < last { FlatAt(m, s, k + 1, last, 0); }
  }

  lemma FlatGrows(m: Memory, s: Sections, k: nat)
    ensures |Flat(m, s, k + 1)| == |Flat(m, s, k)| + EntryCount(m, s, k)
  {
  }

  lemma FlatEnd(m: Memory, s: Sections, k: nat, i: nat, last: nat, es: seq<Entry>, p: nat)
    requires k < last && i < EntryCount(m, s, k) && es == Flat(m, s, last) && p == |Flat(m, s, k)| + i
    requires k + 1 < last ==> PageWell(m, s, k + 1)
    ensures EndOf(es, p, PageStart(m, s, last)) == EntryEnd(m, s, k, i)
  {
    if i + 1 < EntryCount(m, s, k) { FlatEndInside(m, s, k, i, last, es, p); } else { FlatEndOfPage(m, s, k, i, last, es, p); }
  }

  /** An entry of a page that contains `t` is the one the linear scan finds. */
  lemma FoundIsLinear(m: Memory, s: Sections, t: nat, k: nat, i: nat)
    requires WellFormed(m, s) && k < Last(m, s) && i < EntryCount(m, s, k)
    requires EntryAt(m, s, k, i).start <= t < EntryEnd(m, s, k, i)
    ensures Scan(m, s, t) == Some(SpanAt(m, s, k, i))
  {
    var last := Last(m, s);
    var es, p := Flat(m, s, last), |Flat(m, s, k)| + i;
    FlatAscends(m, s, last);
    FlatAt(m, s, k, last, i);
    FlatEnd(m, s, k, i, last, es, p);
    SpanIsScanned(m, s, t, es, p, EntryAt(m, s, k, i), EntryEnd(m, s, k, i));
  }

  lemma SpanIsScanned(m: Memory, s: Sections, t: nat, es: seq<Entry>, p: nat, e: Entry, end: nat)
    requires IndexCount(m, s) > 0 && es == Flat(m, s, Last(m, s)) && Ascends(es)
    requires p < |es| && e == es[p] && Final(es) < PageStart(m, s, Last(m, s))
    requires EndOf(es, p, PageStart(m, s, Last(m, s))) == end && e.start <= t < end
    ensures Scan(m, s, t) == Some(Span(e.page, e.start, end, e.encoding))
  {
    SpanFinds(es, PageStart(m, s, Last(m, s)), t, p);
  }

  /** Before the first page and from the sentinel on there is nothing. */
  lemma OutsideIsNone(m: Memory, s: Sections, t: nat)
    requires WellFormed(m, s) && (t < PageStart(m, s, 0) || t >= PageStart(m, s, Last(m, s)))
    ensures Scan(m, s, t) == None
  {
    var last := Last(m, s);
    var es := Flat(m, s, last);
    if t < PageStart(m, s, 0) && last > 0 && es != [] {
      FlatAscends(m, s, last);
      assert PageWell(m, s, 0);
      FlatAt(m, s, 0, last, 0);
      ScanIsRight(es, t);
      if LastBelow(es, t).Some? {
        var p := LastBelow(es, t).value;
        if p > 0 { AscendsFar(es, 0, p); }
      }
    }
  }

  /** Offsets of an image that does not wrap around compare as addresses do. */
  lemma NoWrap(base: word64, pc: word64, t: nat, start: nat, end: nat)
    requires base + TWO32 <= TWO64 && t == Wrap64(pc - base) && t < TWO32 && start < TWO32 && end < TWO32
    ensures pc == t + base && Wrap64(start + base) == start + base && Wrap64(end + base) == end + base
  {
  }

  /** Page `k` is in order, and `t` is not beyond it. */
  predicate Reaches(m: Memory, s: Sections, k: nat, t: nat) {
    t < TWO32 && s.base + TWO32 <= TWO64 && PageWell(m, s, k) && t < PageStart(m, s, k + 1)
  }

  /** What the search of a page finds: nothing if `t` is before it, or else entry `i`, which contains it. */
  predicate Finds(m: Memory, s: Sections, k: nat, t: nat, f: Option<Span>, i: nat) {
    if t < PageStart(m, s, k) then f == None
    else i < EntryCount(m, s, k) && EntryAt(m, s, k, i).start <= t < EntryEnd(m, s, k, i) && f == Some(SpanAt(m, s, k, i))
  }

  /** What a search makes of the entry it ends at. */
  lemma Located(m: Memory, s: Sections, pc: word64, k: nat, t: nat, i: nat, start: nat, end: nat, encoding: word32)
    requires t == Wrap64(pc - s.base) && Reaches(m, s, k, t) && i < EntryCount(m, s, k)
    requires start < TWO32 && end < TWO32 && SpanAt(m, s, k, i) == Span(k, start, end, encoding)
    requires if t < PageStart(m, s, k) then t < start else start <= t < end
    ensures Finds(m, s, k, t, if pc < Wrap64(start + s.base) || pc > Wrap64(end + s.base) then None else Some(Span(k, start, end, encoding)), i)
  {
    NoWrap(s.base, pc, t, start, end);
  }

  /** The search of a regular page: none if `pc` is before it, or else the entry that contains it. */
  method SearchRegularPage(m: Memory, s: Sections, pc: word64, k: nat, t: nat) returns (f: Option<Span>, ghost i: nat)
    requires PageKind(m, s, k) == REGULAR && t == Wrap64(pc - s.base)
    ensures Reaches(m, s, k, t) ==> Finds(m, s, k, t, f, i)
    ensures f.Some? ==> f.value.start < TWO32
  {
    var nextPage := PageStart(m, s, k + 1);
    var low, found, end := SearchRegular(m, s, k, t, nextPage);
    i := low;
    var encoding := m.get32(Entries(m, s, k) + 8 * low + 4);
    var start := RegularStart(m, s, k, low);
    if !found { end := 0; }
    if Reaches(m, s, k, t) {
      OffsetsFit(m, s, k, low);
      NoWrap(s.base, pc, t, start, end);
    }
    if pc < Wrap64(start + s.base) { return None, i; }
    if pc > Wrap64(end + s.base) { return None, i; }
    f := Some(Span(k, start, end, encoding));
  }

  lemma CompressedEntry(m: Memory, s: Sections, k: nat, i: nat)
    requires PageKind(m, s, k) == COMPRESSED && PageWell(m, s, k) && i < EntryCount(m, s, k)
    ensures EntryAt(m, s, k, i).start == PageStart(m, s, k) + CompressedOffset(m, s, k, i) < TWO32
    ensures EntryAt(m, s, k, 0).start == PageStart(m, s, k)
  {
    OffsetsFit(m, s, k, i);
  }

  lemma CompressedSpan(m: Memory, s: Sections, k: nat, i: nat, start: nat, end: nat)
    requires PageKind(m, s, k) == COMPRESSED && PageWell(m, s, k) && i < EntryCount(m, s, k)
    requires start == Wrap32(CompressedOffset(m, s, k, i) + PageStart(m, s, k))
    requires end == if i + 1 < EntryCount(m, s, k) then Wrap32(CompressedOffset(m, s, k, i + 1) + PageStart(m, s, k)) else PageStart(m, s, k + 1)
    ensures start == EntryAt(m, s, k, i).start && end == EntryEnd(m, s, k, i)
  {
    CompressedEntry(m, s, k, i);
    if i + 1 < EntryCount(m, s, k) { CompressedEntry(m, s, k, i + 1); }
  }

  lemma CompressedFinds(m: Memory, s: Sections, k: nat, t: nat, i: nat, start: nat, end: nat)
    requires PageKind(m, s, k) == COMPRESSED && Reaches(m, s, k, t) && i < EntryCount(m, s, k)
    requires var n, target := EntryCount(m, s, k), Wrap32(t - PageStart(m, s, k));
             if target < CompressedOffset(m, s, k, i) then i == 0 else i + 1 == n || target < CompressedOffset(m, s, k, i + 1)
    requires start == EntryAt(m, s, k, i).start && end == EntryEnd(m, s, k, i)
    ensures t < PageStart(m, s, k) ==> t < start
    ensures t >= PageStart(m, s, k) ==> start <= t < end
  {
    CompressedEntry(m, s, k, i);
    if i + 1 < EntryCount(m, s, k) { CompressedEntry(m, s, k, i + 1); }
  }

  /** The search of a compressed page, whose offsets count from the page's start. */
  method SearchCompressedPage(m: Memory, s: Sections, pc: word64, k: nat, t: nat) returns (f: Option<Span>, ghost i: nat)
    requires PageKind(m, s, k) == COMPRESSED && t == Wrap64(pc - s.base)
    ensures Reaches(m, s, k, t) ==> Finds(m, s, k, t, f, i)
    ensures f.Some? ==> f.value.start < TWO32
  {
    var first: int, nextPage := PageStart(m, s, k), PageStart(m, s, k + 1);
    var low := SearchCompressed(m, s, k, Wrap32(t - first));
    i := low;
    var last := Wrap32(EntryCount(m, s, k) as int - 1);
    var start := Wrap32(CompressedOffset(m, s, k, low) + first);
    var end := if low < last then Wrap32(CompressedOffset(m, s, k, low + 1) + first) else nextPage;
    var encoding := CompressedEncoding(m, s, k, low);
    if Reaches(m, s, k, t) {
      CompressedSpan(m, s, k, low, start, end);
      CompressedFinds(m, s, k, t, low, start, end);
      Located(m, s, pc, k, t, low, start, end, encoding);
    }
    if pc < Wrap64(start + s.base) { return None, i; }
    if pc > Wrap64(end + s.base) { return None, i; }
    f := Some(Span(k, start, end, encoding));
  }

  /** The entries of a page stay below the next page. */
  lemma OffsetsFit(m: Memory, s: Sections, k: nat, i: nat)
    requires PageWell(m, s, k) && i < EntryCount(m, s, k)
    ensures PageStart(m, s, k) <= EntryAt(m, s, k, i).start < PageStart(m, s, k + 1)
    ensures i + 1 < EntryCount(m, s, k) ==> EntryAt(m, s, k, i).start < EntryAt(m, s, k, i + 1).start < PageStart(m, s, k + 1)
  {
    PageAscends(m, s, k);
    var page := PageEntries(m, s, k);
    assert page[i] == EntryAt(m, s, k, i);
    Between(page, i);
    if i + 1 < |page| {
      assert page[i + 1] == EntryAt(m, s, k, i + 1);
      Between(page, i + 1);
      AscendsFar(page, i, i + 1);
    }
  }

  lemma Between(es: seq<Entry>, i: nat)
    requires Ascends(es) && i < |es|
    ensures es[0].start <= es[i].start <= Final(es)
  {
    if i > 0 { AscendsFar(es, 0, i); }
    if i < |es| - 1 { AscendsFar(es, i, |es| - 1); }
  }

  /**
   The two-level search. In a well-formed section it answers, for every pc,
   what the linear scan of the flat table answers.
   */
  method GetInfoFromCompactEncodingSection(m: Memory, s: Sections, pc: word64) returns (info: Option<Info>)
    ensures WellFormed(m, s) ==> info == Linear(m, s, pc)
    ensures HeaderField(m, s, 0) != VERSION ==> info == None
  {
    if HeaderField(m, s, 0) != VERSION { return None; }
    var t := Wrap64(pc - s.base as int);
    var low := SearchIndex(m, s, t);
    var kind := PageKind(m, s, low);
    var f: Option<Span> := None;
    if kind == REGULAR || kind == COMPRESSED {
      f := SearchPage(m, s, pc, low, t);
    } else if WellFormed(m, s) {
      NoSuchPage(m, s, low, t);
    }
    if f.None? { return None; }
    if WellFormed(m, s) { LsdaOfPage(m, s, t); }
    info := Finish(m, s, f.value.page, f.value.start, f.value.end, f.value.encoding);
  }

  lemma KnownKind(m: Memory, s: Sections, k: nat)
    requires WellFormed(m, s) && k < Last(m, s)
    ensures PageKind(m, s, k) in {REGULAR, COMPRESSED} && PageStart(m, s, k) < PageStart(m, s, k + 1)
  {
    assert PageWell(m, s, k);
    OffsetsFit(m, s, k, 0);
  }

  /** The index gives no page only from the sentinel on. */
  lemma NoSuchPage(m: Memory, s: Sections, k: nat, t: nat)
    requires WellFormed(m, s) && k <= Last(m, s) && PageKind(m, s, k) !in {REGULAR, COMPRESSED}
    requires if t < PageStart(m, s, k) then k == 0 else k == Last(m, s) || t < PageStart(m, s, k + 1)
    ensures Scan(m, s, t) == None
  {
    if k < Last(m, s) {
      KnownKind(m, s, k);
      assert false;
    }
    OutsideIsNone(m, s, t);
  }

  lemma LsdaOfPage(m: Memory, s: Sections, t: nat)
    requires WellFormed(m, s) && Scan(m, s, t).Some?
    ensures LsdaAscends(m, s, Scan(m, s, t).value.page) && Scan(m, s, t).value.start < TWO32
  {
    var es, last := Flat(m, s, Last(m, s)), Last(m, s);
    FlatAscends(m, s, last);
    var p := LastBelow(es, t).value;
    PagesOfFlat(m, s, last, p);
    if p < |es| - 1 { AscendsFar(es, p, |es| - 1); }
    assert LsdaAscends(m, s, es[p].page);
  }

  lemma {:induction false} PagesOfFlat(m: Memory, s: Sections, k: nat, p: nat)
    requires p < |Flat(m, s, k)|
    ensures Flat(m, s, k)[p].page < k
  {
    var before := Flat(m, s, k - 1);
    if p < |before| {
      PagesOfFlat(m, s, k - 1, p);
      assert Flat(m, s, k)[p] == before[p];
    } else {
      assert Flat(m, s, k)[p] == PageEntries(m, s, k - 1)[p - |before|];
    }
  }

  method SearchPage(m: Memory, s: Sections, pc: word64, k: nat, t: nat) returns (f: Option<Span>)
    requires t == Wrap64(pc - s.base) && PageKind(m, s, k) in {REGULAR, COMPRESSED}
    requires IndexCount(m, s) > 0 ==>
               k <= Last(m, s) && if t < PageStart(m, s, k) then k == 0 else k == Last(m, s) || t < PageStart(m, s, k + 1)
    ensures WellFormed(m, s) ==> f == Scan(m, s, t)
    ensures f.Some? ==> f.value.start < TWO32
  {
    ghost var i;
    if PageKind(m, s, k) == REGULAR {
      f, i := SearchRegularPage(m, s, pc, k, t);
    } else {
      f, i := SearchCompressedPage(m, s, pc, k, t);
    }
    if WellFormed(m, s) { PageFinds(m, s, k, t, f, i); }
  }

  lemma PageFinds(m: Memory, s: Sections, k: nat, t: nat, f: Option<Span>, i: nat)
    requires WellFormed(m, s) && k <= Last(m, s) && PageKind(m, s, k) in {REGULAR, COMPRESSED}
    requires if t < PageStart(m, s, k) then k == 0 else k == Last(m, s) || t < PageStart(m, s, k + 1)
    requires Reaches(m, s, k, t) ==> Finds(m, s, k, t, f, i)
    ensures f == Scan(m, s, t)
  {
    KnownKind(m, s, k);
    assert PageWell(m, s, k);
    if t < PageStart(m, s, k) { OutsideIsNone(m, s, t); } else { FoundIsLinear(m, s, t, k, i); }
  }
}
