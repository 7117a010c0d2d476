/** Power lost while flash is being programmed: what the boot scan makes of the pages then.

    Programming is logged with the pages as they were before it. Interrupted, it leaves some of its
    first bytes, and blank flash for the rest.
 */
module KvCrash {
  import opened Bits
  import opened KvRecord
  import opened KvLog
  import opened KvIndex
  import opened KvPages
  import opened KvLayout

  type Flash = s: seq<Bytes> | |s| == SECTORS && forall p :: 0 <= p < SECTORS ==> |s[p]| == SECTOR
    witness seq(SECTORS, _ => Blank(SECTOR))

  // What the scan applies from one page; a page without a valid header is skipped.
  function PageOps(page: Bytes, p: nat): seq<Op>
    requires |page| == SECTOR
  {
    if HeaderOk(page) then Scan(page, p, HEADER, Nothing).ops else []
  }

  function LogOps(pages: Flash, n: nat): seq<Op>
    requires n <= SECTORS
  {
    if n == 0 then [] else LogOps(pages, n - 1) + PageOps(pages[n - 1], n - 1)
  }

  lemma NothingApplied(m: Index)
    ensures ApplyOps(m, []) == m
  {
  }

  lemma PagesSized(pages: seq<Bytes>, slots: AllSlots)
    requires AllPagesOk(pages, slots)
    ensures forall p :: 0 <= p < SECTORS ==> |pages[p]| == SECTOR
  {
    forall p | 0 <= p < SECTORS ensures |pages[p]| == SECTOR {
      assert PageOk(pages[p], slots[p]);
    }
  }

  // A page as the store keeps it, with nothing dropped, scans to exactly its slots.
  lemma PageOpsAre(page: Bytes, slots: Slots, p: nat)
    requires PageOk(page, slots) && AllRecs(slots)
    ensures PageOps(page, p) == OpsFrom(slots, p, 0)
    ensures HeaderOk(page) ==> Scan(page, p, HEADER, Nothing).end == Offset(slots, |slots|)
  {
    hide Scan, HeaderOk, Body, OpOf;
    ScanWhole(page, p, slots);
  }

  lemma {:induction false} LogOpsAre(pages: Flash, slots: AllSlots, n: nat)
    requires n <= SECTORS && AllPagesOk(pages, slots) && forall p :: 0 <= p < SECTORS ==> AllRecs(slots[p])
    ensures LogOps(pages, n) == AllOps(slots, n)
  {
    hide PageOk, OpsFrom, PageOps, AllRecs;
    if n > 0 {
      LogOpsAre(pages, slots, n - 1);
      assert PageOk(pages[n - 1], slots[n - 1]);
      PageOpsAre(pages[n - 1], slots[n - 1], n - 1);
    }
  }

  lemma EmptyAfter(pages: Flash, slots: AllSlots, w: nat)
    requires AllPagesOk(pages, slots) && InOrder(slots, w)
    ensures forall p :: w < p < SECTORS ==> PageOps(pages[p], p) == []
  {
    hide PageOk, PageOps;
    forall p | w < p < SECTORS ensures PageOps(pages[p], p) == [] {
      assert PageOk(pages[p], slots[p]);
      PageOpsAre(pages[p], slots[p], p);
    }
  }

  lemma {:induction false} LogOpsReplace(pages: Flash, w: nat, page: Bytes, n: nat)
    requires w < SECTORS && n <= SECTORS && |page| == SECTOR && forall p :: w < p < n ==> PageOps(pages[p], p) == []
    requires exists ops :: PageOps(page, w) == PageOps(pages[w], w) + ops
    ensures n <= w ==> LogOps(pages[w := page], n) == LogOps(pages, n)
    ensures n > w ==> LogOps(pages[w := page], n) == LogOps(pages, n) + PageOps(page, w)[|PageOps(pages[w], w)|..]
  {
    hide PageOps;
    if n > 0 {
      LogOpsReplace(pages, w, page, n - 1);
      if n - 1 == w {
        var a := PageOps(pages[w], w);
        assert PageOps(page, w) == a + PageOps(page, w)[|a|..];
      }
    }
  }

  lemma {:induction false} SamePageOps(pages: Flash, p: nat, page: Bytes, n: nat)
    requires p < SECTORS && n <= SECTORS && |page| == SECTOR && PageOps(page, p) == PageOps(pages[p], p)
    ensures LogOps(pages[p := page], n) == LogOps(pages, n)
  {
    hide PageOps;
    if n > 0 {
      SamePageOps(pages, p, page, n - 1);
    }
  }

  lemma TornPageOps(before: Bytes, page: Bytes, w: nat, slots: Slots, it: Item, cut: nat)
    requires PageOk(before, slots) && HeaderOk(before) && AllRecs(slots) && Storable(it)
    requires var off := Offset(slots, |slots|);
      |page| == SECTOR && page[..off] == before[..off] && Torn(page, off, PairBytes(it), cut)
    ensures PageOps(page, w) == PageOps(before, w)
      + if Holds(page, Offset(slots, |slots|), PairBytes(it)) then [OpOf(it, w, Offset(slots, |slots|))] else []
  {
    hide Scan, Body, OpOf, PairBytes, OpsFrom, HeaderOk;
    var off := Offset(slots, |slots|);
    BodyLength(slots);
    assert page[HEADER..off] == page[..off][HEADER..] && before[HEADER..off] == before[..off][HEADER..];
    assert page[..HEADER] == page[..off][..HEADER] && before[..HEADER] == before[..off][..HEADER];
    HeaderKept(before, page);
    CrashAtomicity(page, w, slots, it, cut);
    PageOpsAre(before, slots, w);
  }

  lemma ApplyOne(m: Index, op: Op)
    ensures ApplyOps(m, [op]) == ApplyOp(m, op)
  {
    assert [op][1..] == [];
  }

  // The index that a boot scan of these pages rebuilds.
  function Recovered(pages: Flash): Index {
    ApplyOps(map[], LogOps(pages, SECTORS))
  }

  // One programming of data on a page.
  datatype Burn = Burn(pages: seq<Bytes>, page: nat, off: nat, data: Bytes) {
    predicate Whole() {
      && |pages| == SECTORS && (forall p :: 0 <= p < SECTORS ==> |pages[p]| == SECTOR)
      && page < SECTORS && off + |data| <= SECTOR
    }

    // The flash when only the first `cut` bytes were programmed.
    function After(cut: nat): Flash
      requires Whole() && cut <= |data|
    {
      pages[page := pages[page][..off] + data[..cut] + pages[page][off + cut..]]
    }
  }

  // The programmings that took the flash from one state to another, one after the other.
  ghost predicate Chained(start: seq<Bytes>, burns: seq<Burn>, now: seq<Bytes>)
    decreases |burns|
  {
    if burns == [] then now == start
    else
      var b := burns[|burns| - 1];
      b.Whole() && now == b.After(|b.data|) && Chained(start, burns[..|burns| - 1], b.pages)
  }

  // Whenever power goes, the boot scan rebuilds one of the two.
  ghost predicate CrashSafe(burns: seq<Burn>, before: Index, after: Index) {
    forall b, cut: nat :: b in burns && b.Whole() && cut <= |b.data| ==> Recovered(b.After(cut)) in {before, after}
  }

  // The flash as power lost at some point of the programming leaves it.
  ghost predicate LeftBy(flash: Flash, start: seq<Bytes>, burns: seq<Burn>) {
    flash == start || exists b, cut: nat :: b in burns && b.Whole() && cut <= |b.data| && flash == b.After(cut)
  }

  lemma {:induction false} ChainedJoin(start: seq<Bytes>, a: seq<Burn>, mid: seq<Bytes>, b: seq<Burn>, now: seq<Bytes>)
    requires Chained(start, a, mid) && Chained(mid, b, now)
    ensures Chained(start, a + b, now)
    decreases |b|
  {
    if b == [] {
      assert a + b == a;
    } else {
      assert (a + b)[..|a + b| - 1] == a + b[..|b| - 1];
      ChainedJoin(start, a, mid, b[..|b| - 1], b[|b| - 1].pages);
    }
  }

  lemma CrashSafeJoin(a: seq<Burn>, b: seq<Burn>, before: Index, after: Index)
    requires CrashSafe(a, before, after) && CrashSafe(b, before, after)
    ensures CrashSafe(a + b, before, after)
  {
    hide Recovered;
  }

  // The header of a blank page.
  ghost predicate IsHeader(b: Burn, pages: seq<Bytes>) {
    b.pages == pages && b.page < |pages| && |pages[b.page]| == SECTOR && BlankFrom(pages[b.page], 0) && b.off == 0
    && exists sequence :: b.data == HeaderBytes(sequence) + Blank(PROGRAM_PAGE - HEADER)
  }

  // Exactly b was programmed.
  ghost predicate Programmed(b: Burn, was: seq<Burn>, burns: seq<Burn>, now: seq<Bytes>) {
    burns == was + [b] && b.Whole() && now == b.After(|b.data|)
  }

  // Nothing was programmed, or the header of an empty page.
  ghost predicate HeaderAtMost(start: seq<Bytes>, slots: AllSlots, was: seq<Burn>, burns: seq<Burn>, now: seq<Bytes>) {
    || (burns == was && now == start)
    || (burns != [] && var b := burns[|burns| - 1];
        Programmed(b, was, burns, now) && IsHeader(b, start) && slots[b.page] == [])
  }

  lemma Unchanged(pages: seq<Bytes>, slots: AllSlots, burns: seq<Burn>)
    ensures HeaderAtMost(pages, slots, burns, burns, pages)
  {
  }

  lemma BurnDone(pages: seq<Bytes>, slots: AllSlots, b: Burn, page: Bytes, was: seq<Burn>)
    requires AllPagesOk(pages, slots) && b.pages == pages && b.page < SECTORS && b.off + |b.data| <= SECTOR
    requires page == pages[b.page][..b.off] + b.data + pages[b.page][b.off + |b.data|..]
    ensures Programmed(b, was, was + [b], pages[b.page := page])
  {
    hide PageOk, AllPagesOk;
    PageAt(pages, slots, b.page);
    PagesSized(pages, slots);
    assert b.data[..|b.data|] == b.data;
  }

  lemma HeaderDone(pages: seq<Bytes>, slots: AllSlots, p: nat, sequence: word, page: Bytes, was: seq<Burn>)
    requires AllPagesOk(pages, slots) && p < SECTORS && slots[p] == [] && BlankFrom(pages[p], 0)
    requires page == pages[p][..0] + (HeaderBytes(sequence) + Blank(PROGRAM_PAGE - HEADER)) + pages[p][PROGRAM_PAGE..]
    ensures var b := Burn(pages, p, 0, HeaderBytes(sequence) + Blank(PROGRAM_PAGE - HEADER));
      HeaderAtMost(pages, slots, was, was + [b], pages[p := page])
  {
    hide PageOk, AllPagesOk, BlankFrom, HeaderBytes, Programmed;
    var b := Burn(pages, p, 0, HeaderBytes(sequence) + Blank(PROGRAM_PAGE - HEADER));
    PagesSized(pages, slots);
    PageAt(pages, slots, p);
    BurnDone(pages, slots, b, page, was);
    assert IsHeader(b, pages);
  }

  // Power lost while an empty page's header was being programmed: whatever is there of it, the rebuilt
  // index has everything that was logged.
  lemma TornHeader(pages: seq<Bytes>, slots: AllSlots, w: nat, b: Burn, cut: nat)
    requires AllPagesOk(pages, slots) && InOrder(slots, w) && IsHeader(b, pages) && b.Whole() && slots[b.page] == []
    requires cut <= |b.data|
    ensures Recovered(b.After(cut)) == ApplyOps(map[], AllOps(slots, SECTORS))
  {
    hide PageOk, Scan, Body, OpOf, AllOps, LogOps, HeaderOk, HeaderBytes, ApplyOps, AllRecs;
    var flash: Flash := pages;
    var page := b.After(cut)[b.page];
    assert PageOk(pages[b.page], slots[b.page]);
    PageOpsAre(pages[b.page], slots[b.page], b.page);
    forall k | HEADER <= k < SECTOR
      ensures page[k] == 0xFF
    {
    }
    ScanBlank(page, b.page, HEADER, Nothing);
    SamePageOps(flash, b.page, page, SECTORS);
    LogOpsAre(flash, slots, SECTORS);
  }

  // Power lost while the next pair was being programmed: everything logged before it, and that one
  // when all of it is there.
  lemma CrashRecovery(pages: seq<Bytes>, slots: AllSlots, w: nat, it: Item, cut: nat)
    requires AllPagesOk(pages, slots) && InOrder(slots, w) && HeaderOk(pages[w]) && Storable(it)
    requires Offset(slots[w], |slots[w]|) + PairSize(it) <= SECTOR && cut <= PairSize(it)
    ensures var b := Burn(pages, w, Offset(slots[w], |slots[w]|), PairBytes(it));
      var m := ApplyOps(map[], AllOps(slots, SECTORS));
      b.Whole() && Recovered(b.After(cut)) ==
        if Holds(b.After(cut)[w], b.off, b.data) then ApplyOp(m, OpOf(it, w, b.off)) else m
  {
    hide PageOk, Scan, Body, OpOf, PairBytes, AllOps, LogOps, ApplyOp, PairSize, HeaderOk, ApplyOps, AllRecs, Offset;
    PagesSized(pages, slots);
    var flash: Flash, off := pages, Offset(slots[w], |slots[w]|);
    var b := Burn(pages, w, off, PairBytes(it));
    var page := b.After(cut)[w];
    assert PageOk(pages[w], slots[w]);
    PageFacts(pages[w], slots[w]);
    var op := if Holds(page, off, PairBytes(it)) then [OpOf(it, w, off)] else [];
    assert Torn(page, off, PairBytes(it), cut);
    TornPageOps(pages[w], page, w, slots[w], it, cut);
    EmptyAfter(flash, slots, w);
    LogOpsReplace(flash, w, page, SECTORS);
    LogOpsAre(flash, slots, SECTORS);
    ApplyOpsAppend(map[], LogOps(flash, SECTORS), op);
    var m := ApplyOps(map[], AllOps(slots, SECTORS));
    if op == [] {
      NothingApplied(m);
    } else {
      ApplyOne(m, op[0]);
    }
  }

  lemma OneChained(b: Burn, was: seq<Burn>, burns: seq<Burn>, now: seq<Bytes>)
    requires Programmed(b, was, burns, now)
    ensures was <= burns && burns[|was|..] == [b] && Chained(b.pages, burns[|was|..], now)
  {
    assert [b][..0] == [];
  }

  lemma HeaderSafe(start: seq<Bytes>, slots: AllSlots, w: nat, was: seq<Burn>, burns: seq<Burn>, now: seq<Bytes>)
    requires AllPagesOk(start, slots) && HeaderAtMost(start, slots, was, burns, now)
    ensures was <= burns && Chained(start, burns[|was|..], now)
    ensures InOrder(slots, w) ==>
      var m := ApplyOps(map[], AllOps(slots, SECTORS)); CrashSafe(burns[|was|..], m, m)
  {
    hide PageOk, AllPagesOk, InOrder, AllOps, ApplyOps, Recovered, IsHeader, Burn.After, Burn.Whole;
    if burns != was {
      var b := burns[|burns| - 1];
      HeaderOn(b, start);
      OneChained(b, was, burns, now);
      forall cut: nat | cut <= |b.data| && InOrder(slots, w)
        ensures Recovered(b.After(cut)) == ApplyOps(map[], AllOps(slots, SECTORS))
      {
        TornHeader(start, slots, w, b, cut);
      }
    }
  }

  lemma HeaderOn(b: Burn, start: seq<Bytes>)
    requires IsHeader(b, start)
    ensures b.pages == start
  {
  }

  lemma PairSafe(pages: seq<Bytes>, slots: AllSlots, w: nat, it: Item, was: seq<Burn>, burns: seq<Burn>, now: seq<Bytes>)
    requires AllPagesOk(pages, slots) && w < SECTORS && Storable(it)
    requires Programmed(Burn(pages, w, Offset(slots[w], |slots[w]|), PairBytes(it)), was, burns, now)
    ensures was <= burns && Chained(pages, burns[|was|..], now)
    ensures InOrder(slots, w) && HeaderOk(pages[w]) && Offset(slots[w], |slots[w]|) + PairSize(it) <= SECTOR ==>
      var m := ApplyOps(map[], AllOps(slots, SECTORS));
      CrashSafe(burns[|was|..], m, ApplyOp(m, OpOf(it, w, Offset(slots[w], |slots[w]|))))
  {
    hide PageOk, AllPagesOk, InOrder, AllOps, ApplyOps, Recovered, Burn.After, Burn.Whole, HeaderOk, Holds;
    hide PairBytes, PairSize, Offset, ApplyOp, OpOf;
    var off := Offset(slots[w], |slots[w]|);
    var b := Burn(pages, w, off, PairBytes(it));
    OneChained(b, was, burns, now);
    PageAt(pages, slots, w);
    PagesSized(pages, slots);
    if InOrder(slots, w) && HeaderOk(pages[w]) && off + PairSize(it) <= SECTOR {
      var m := ApplyOps(map[], AllOps(slots, SECTORS));
      forall cut: nat | cut <= |b.data|
        ensures Recovered(b.After(cut)) in {m, ApplyOp(m, OpOf(it, w, off))}
      {
        CrashRecovery(pages, slots, w, it, cut);
      }
    }
  }

  lemma CrashSafeOr(burns: seq<Burn>, m: Index, m': Index, after: Index)
    requires CrashSafe(burns, m, m') && m' in {m, after}
    ensures CrashSafe(burns, m, after)
  {
    hide Recovered;
  }

  lemma CrashSafeEither(burns: seq<Burn>, m: Index, before: Index, after: Index)
    requires CrashSafe(burns, m, m) && m in {before, after}
    ensures CrashSafe(burns, before, after)
  {
    hide Recovered;
  }

  // A whole append: the header of its page if it has none, the pair unless it is dropped, and the header
  // of the next page.
  lemma AppendSafe(p0: seq<Bytes>, p1: seq<Bytes>, p2: seq<Bytes>, p3: seq<Bytes>, slots: AllSlots, w: nat, s: Slot,
                   it: Item, b0: seq<Burn>, b1: seq<Burn>, b2: seq<Burn>, b3: seq<Burn>)
    requires AllPagesOk(p0, slots) && AllPagesOk(p1, slots) && w < SECTORS && HeaderOk(p1[w])
    requires s.Ok() && AllPagesOk(p2, slots[w := slots[w] + [s]]) && (s.Rec? ==> s.item == it) && Storable(it)
    requires Offset(slots[w], |slots[w]|) + PairSize(it) <= SECTOR
    requires HeaderAtMost(p0, slots, b0, b1, p1)
    requires if s.Gap? then p2 == p1 && b2 == b1
      else Programmed(Burn(p1, w, Offset(slots[w], |slots[w]|), PairBytes(it)), b1, b2, p2)
    requires HeaderAtMost(p2, slots[w := slots[w] + [s]], b2, b3, p3)
    ensures b0 <= b3 && Chained(p0, b3[|b0|..], p3)
    ensures InOrder(slots, w) ==>
      var m := ApplyOps(map[], AllOps(slots, SECTORS));
      CrashSafe(b3[|b0|..], m, if s.Rec? then ApplyOp(m, OpOf(it, w, Offset(slots[w], |slots[w]|))) else m)
  {
    hide *;
    var after: AllSlots := slots[w := slots[w] + [s]];
    var op := OpOf(it, w, Offset(slots[w], |slots[w]|));
    var m := ApplyOps(map[], AllOps(slots, SECTORS));
    var m' := if s.Rec? then ApplyOp(m, op) else m;
    HeaderSafe(p0, slots, w, b0, b1, p1);
    if s.Rec? {
      PairSafe(p1, slots, w, it, b1, b2, p2);
      HeaderSafe(p2, after, w, b2, b3, p3);
      if InOrder(slots, w) {
        OrderKept(slots, w, s);
        AllOpsAppend(slots, w, s, SECTORS);
        ApplyOpsAppend(map[], AllOps(slots, SECTORS), [op]);
        ApplyOne(m, op);
        assert w < SECTORS;
      }
    } else {
      HeaderEarlier(p2, slots, w, s, b2, b3, p3);
      HeaderSafe(p2, slots, w, b2, b3, p3);
      NoBurns(p1, m, m');
    }
    var x, y, z := b1[|b0|..], b2[|b1|..], b3[|b2|..];
    assert b3[|b0|..] == x + y + z;
    ChainedJoin(p0, x, p1, y, p2);
    ChainedJoin(p0, x + y, p2, z, p3);
    if InOrder(slots, w) {
      CrashSafeEither(x, m, m, m');
      CrashSafeEither(z, m', m, m');
      CrashSafeJoin(x, y, m, m');
      CrashSafeJoin(x + y, z, m, m');
    }
  }

  lemma NoBurns(pages: seq<Bytes>, before: Index, after: Index)
    ensures Chained(pages, [], pages) && CrashSafe([], before, after)
  {
  }

  // A page that is empty after an append was empty before it.
  lemma HeaderEarlier(p: seq<Bytes>, slots: AllSlots, w: nat, s: Slot, was: seq<Burn>, burns: seq<Burn>, now: seq<Bytes>)
    requires w < SECTORS && s.Ok() && HeaderAtMost(p, slots[w := slots[w] + [s]], was, burns, now)
    ensures HeaderAtMost(p, slots, was, burns, now)
  {
    hide IsHeader, Burn.After;
  }
}
