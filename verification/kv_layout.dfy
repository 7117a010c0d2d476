/** All pages of the flash store together: what is on each, the order they are used in, and everything
    logged on them.
 */
module KvLayout {
  import opened Bits
  import opened KvRecord
  import opened KvLog
  import opened KvIndex
  import opened KvPages

  const NO_SLOTS: Slots := []
  type AllSlots = s: seq<Slots> | |s| == SECTORS witness seq(SECTORS, _ => NO_SLOTS)

  ghost predicate AllPagesOk(pages: seq<Bytes>, slots: AllSlots) {
    |pages| == SECTORS && forall p :: 0 <= p < SECTORS ==> PageOk(pages[p], slots[p])
  }

  // Pages are used in order, none is skipped, and nothing was dropped.
  ghost predicate InOrder(slots: AllSlots, w: nat) {
    && w < SECTORS
    && (forall p :: 0 <= p < SECTORS ==> AllRecs(slots[p]))
    && (forall p :: 0 <= p < w ==> slots[p] != [])
    && (forall p :: w < p < SECTORS ==> slots[p] == [])
  }

  lemma OrderKept(slots: AllSlots, w: nat, s: Slot)
    requires InOrder(slots, w) && s.Ok() && s.Rec?
    ensures InOrder(slots[w := slots[w] + [s]], w)
  {
  }

  // Everything logged on the first n pages.
  ghost function AllOps(slots: AllSlots, n: nat): seq<Op>
    requires n <= SECTORS
  {
    if n == 0 then [] else AllOps(slots, n - 1) + OpsFrom(slots[n - 1], n - 1, 0)
  }

  lemma {:induction false} NoOps(slots: AllSlots, n: nat)
    requires n <= SECTORS && forall p :: 0 <= p < SECTORS ==> slots[p] == []
    ensures AllOps(slots, n) == []
  {
    if n > 0 {
      NoOps(slots, n - 1);
    }
  }

  // A slot appended to the last page in use is the last operation of all.
  lemma {:induction false} AllOpsAppend(slots: AllSlots, w: nat, s: Slot, n: nat)
    requires s.Ok() && s.Rec? && InOrder(slots, w) && n <= SECTORS
    ensures AllOps(slots[w := slots[w] + [s]], n)
         == AllOps(slots, n) + if w < n then [OpOf(s.item, w, Offset(slots[w], |slots[w]|))] else []
  {
    hide OpOf, Offset, Slot.Ok;
    if n > 0 {
      AllOpsAppend(slots, w, s, n - 1);
      if n - 1 == w {
        OpsFromAppend(slots[w], s, w, 0);
      } else if n - 1 > w {
        assert OpsFrom(slots[n - 1], n - 1, 0) == [];
      }
    }
  }

  // The page i steps further, going round.
  function Around(w: nat, i: nat): (p: nat)
    requires w < SECTORS && i <= SECTORS
    ensures p < SECTORS
  {
    if w + i < SECTORS then w + i else w + i - SECTORS
  }

  ghost predicate NoneBefore(slots: AllSlots, w: nat, i: nat)
    requires w < SECTORS && i <= SECTORS + 1
  {
    forall j :: 1 <= j < i ==> slots[Around(w, j)] != []
  }

  // The first page with nothing on it, going round from page w.
  ghost predicate NextEmpty(slots: AllSlots, w: nat, p: nat)
    requires w < SECTORS
  {
    p < SECTORS && slots[p] == [] && exists i: nat :: 1 <= i <= SECTORS && p == Around(w, i) && NoneBefore(slots, w, i)
  }

  lemma AllAround(slots: AllSlots, w: nat)
    requires w < SECTORS && NoneBefore(slots, w, SECTORS + 1)
    ensures forall p :: 0 <= p < SECTORS ==> slots[p] != []
    ensures InOrder(slots, w) ==> w + 1 == SECTORS
  {
    forall p | 0 <= p < SECTORS ensures slots[p] != [] {
      assert p == Around(w, if p > w then p - w else p + SECTORS - w);
    }
    assert w + 1 < SECTORS ==> slots[w + 1] != [];
  }

  // When pages are used in order, the first empty one found is the one after the write page.
  lemma NextInOrder(slots: AllSlots, w: nat, i: nat)
    requires w < SECTORS && 1 <= i <= SECTORS && slots[Around(w, i)] == [] && NoneBefore(slots, w, i)
    ensures InOrder(slots, w) && slots[w] != [] ==> w + 1 < SECTORS && Around(w, i) == w + 1
  {
    assert i > 1 ==> slots[Around(w, 1)] != [];
  }

  lemma ErasedIsOk()
    ensures PageOk(Blank(SECTOR), NO_SLOTS)
  {
    assert Blank(SECTOR)[HEADER..HEADER] == [];
  }

  lemma PageAt(pages: seq<Bytes>, slots: AllSlots, w: nat)
    requires AllPagesOk(pages, slots) && w < SECTORS
    ensures |pages| == SECTORS && PageOk(pages[w], slots[w])
  {
  }

  lemma WithSlot(pages: seq<Bytes>, slots: AllSlots, w: nat, page: Bytes, s: Slot)
    requires AllPagesOk(pages, slots) && w < SECTORS && s.Ok() && PageOk(page, slots[w] + [s])
    ensures |pages| == SECTORS && AllPagesOk(pages[w := page], slots[w := slots[w] + [s]])
  {
    hide PageOk, Slot.Ok;
  }

  lemma PageFacts(page: Bytes, slots: Slots)
    requires PageOk(page, slots)
    ensures |page| == SECTOR && BlankFrom(page, Offset(slots, |slots|))
  {
  }

  // The first record of a page always fits.
  lemma FirstFits(slots: Slots, n: nat)
    requires n <= 552
    ensures slots == [] ==> Fits(Offset(slots, |slots|), n)
  {
  }

  lemma BytesOfRec(it: Item)
    requires Storable(it)
    ensures Rec(it).Bytes() == PairBytes(it) && Rec(it).Size() == PairSize(it)
  {
  }

  lemma HeaderProgrammed(blank: Bytes, sequence: word, page: Bytes)
    requires |blank| == SECTOR && BlankFrom(blank, 0)
    requires page == HeaderBytes(sequence) + Blank(PROGRAM_PAGE - HEADER) + blank[PROGRAM_PAGE..]
    ensures page == HeaderBytes(sequence) + blank[HEADER..]
  {
    hide HeaderBytes;
    assert page[PROGRAM_PAGE..] == blank[PROGRAM_PAGE..];
    forall k | HEADER <= k < PROGRAM_PAGE ensures page[k] == blank[k] {
    }
  }
}
