/** Boot-time recovery: scan every page in order and rebuild the index from what was committed. */
module KvRecovery {
  import opened Bits
  import opened KvRecord
  import opened KvLog
  import opened KvIndex
  import opened KvPages
  import opened KvLayout
  import opened KvCrash
  import opened KvStore

  // Where the last page with data ends.
  function LastUsed(pages: Flash, n: nat): (nat, nat)
    requires n <= SECTORS
  {
    if n == 0 then (0, HEADER)
    else if HeaderOk(pages[n - 1]) && Scan(pages[n - 1], n - 1, HEADER, Nothing).end > HEADER
    then (n - 1, Scan(pages[n - 1], n - 1, HEADER, Nothing).end)
    else LastUsed(pages, n - 1)
  }

  lemma {:induction false} ScanOnPage(page: Bytes, p: nat, off: nat, pending: Pending)
    requires |page| == SECTOR && p < SECTORS && off % 4 == 0 && off >= HEADER
    requires pending.Waiting? ==> LocPage(pending.op.loc) == p
    ensures var step := ScanStep(page, p, off, pending);
            && (step.Next? && step.pending.Waiting? ==> LocPage(step.pending.op.loc) == p)
            && (step.Next? ==> forall i :: 0 <= i < |step.op| ==> LocPage(step.op[i].loc) == p)
  {
    hide Load32, Load16, Crc32, PackLoc, LocPage, LocOff, LocLen;
    if off + COMMIT_RAW <= SECTOR {
      var len := Load16(page, off);
      if PREFIX <= len && off + len <= SECTOR {
        LocRoundTrip(p, off, Align4(len));
      }
    }
  }

  // Apply one committed operation, unless the index already has a newer version.
  method Apply(index: KeyIndex, op: Op)
    requires index.Valid() && LocPage(op.loc) < SECTORS
    modifies index
    ensures index.Valid() && index.contents == ApplyOp(old(index.contents), op)
  {
    hide Represents, Counts, CountsExactly, OnPages, KeysOn, LocPage;
    var found, loc0, version := index.Get(op.key);
    if !found || op.version >= version {
      if IsTomb(op.flags) {
        index.Remove(op.key);
      } else {
        var ok := index.Set(op.key, op.loc, op.version);
      }
    }
  }

  method ScanInto(index: KeyIndex, page: Bytes, p: nat) returns (off: nat)
    requires index.Valid() && |page| == SECTOR && p < SECTORS
    modifies index
    ensures index.Valid()
    ensures index.contents == ApplyOps(old(index.contents), Scan(page, p, HEADER, Nothing).ops)
    ensures off == Scan(page, p, HEADER, Nothing).end
  {
    hide Scan, ScanStep, Represents, Counts, CountsExactly, OnPages, KeysOn, LocPage, ApplyOp, ApplyOps, KeyIndex.Valid;
    NothingApplied(index.contents);
    off := HEADER;
    var pending := Nothing;
    ghost var m, all := index.contents, Scan(page, p, HEADER, Nothing);
    ghost var done: seq<Op> := [];
    var step := ScanStep(page, p, off, pending);
    while step.Next?
      invariant index.Valid() && off % 4 == 0 && off >= HEADER && step == ScanStep(page, p, off, pending)
      invariant pending.Waiting? ==> LocPage(pending.op.loc) == p
      invariant index.contents == ApplyOps(m, done)
      invariant done + Scan(page, p, off, pending).ops == all.ops && Scan(page, p, off, pending).end == all.end
      decreases SECTOR + 14 - off
    {
      ScanOnPage(page, p, off, pending);
      ScanUnfolds(page, p, off, pending);
      ghost var rest := Scan(page, p, off + Align4(step.len), step.pending).ops;
      assert done + (step.op + rest) == done + step.op + rest;
      OneOp(page, p, off, pending);
      if step.op == [] {
        assert done + step.op == done;
      } else {
        assert step.op == [step.op[0]];
        ApplyOpsAppend(m, done, step.op);
        ApplyOne(index.contents, step.op[0]);
        Apply(index, step.op[0]);
      }
      done := done + step.op;
      off, pending := off + Align4(step.len), step.pending;
      step := ScanStep(page, p, off, pending);
    }
    ScanUnfolds(page, p, off, pending);
    assert done + [] == done;
  }

  lemma ScanUnfolds(page: Bytes, p: nat, off: nat, pending: Pending)
    requires |page| == SECTOR
    ensures Scan(page, p, off, pending) ==
      match ScanStep(page, p, off, pending)
      case Stop => ScanResult([], off)
      case Next(len, op, next) =>
        var rest := Scan(page, p, off + Align4(len), next);
        ScanResult(op + rest.ops, rest.end)
  {
    hide ScanStep;
  }

  lemma OneOp(page: Bytes, p: nat, off: nat, pending: Pending)
    requires |page| == SECTOR
    ensures ScanStep(page, p, off, pending).Next? ==> |ScanStep(page, p, off, pending).op| <= 1
  {
    hide Load32, Load16, Crc32, PackLoc;
  }

  method BootScan(pages: Flash) returns (index: KeyIndex, writePage: nat, writeOff: nat)
    ensures fresh(index) && index.Valid()
    ensures index.contents == ApplyOps(map[], LogOps(pages, SECTORS))
    ensures var last := LastUsed(pages, SECTORS);
            (writePage, writeOff) == if last.1 >= SECTOR then ((last.0 + 1) % SECTORS, HEADER) else last
  {
    hide Scan, HeaderOk, Represents, Counts, CountsExactly, OnPages, KeysOn, ApplyOp, ApplyOps, ScanStep, Load32;
    index := new KeyIndex();
    NothingApplied(map[]);
    writePage, writeOff := 0, HEADER;
    for p := 0 to SECTORS
      invariant fresh(index) && index.Valid()
      invariant index.contents == ApplyOps(map[], LogOps(pages, p))
      invariant (writePage, writeOff) == LastUsed(pages, p)
    {
      ApplyOpsAppend(map[], LogOps(pages, p), PageOps(pages[p], p));
      NothingApplied(index.contents);
      if HeaderOk(pages[p]) {
        var off := ScanInto(index, pages[p], p);
        if off > HEADER {
          writePage, writeOff := p, off;
        }
      }
    }
    if writeOff >= SECTOR {
      writePage, writeOff := (writePage + 1) % SECTORS, HEADER;
    }
  }

  // The scan resumes where the store was writing.
  lemma {:induction false} LastUsedIs(pages: Flash, slots: AllSlots, w: nat, n: nat)
    requires w < n <= SECTORS && AllPagesOk(pages, slots) && InOrder(slots, w) && slots[w] != []
    ensures LastUsed(pages, n) == (w, Offset(slots[w], |slots[w]|))
  {
    hide PageOk, Scan, HeaderOk, AllRecs;
    var p := n - 1;
    assert PageOk(pages[p], slots[p]);
    PageOpsAre(pages[p], slots[p], p);
    LooksEmptyIs(pages[p], slots[p]);
    if w < p {
      LastUsedIs(pages, slots, w, n - 1);
    }
  }

  // Recovery equals the live index: after any run in which no page was reclaimed, no record was
  // dropped and no version wrapped around, the boot scan rebuilds the same entries and resumes at
  // the same place.
  method Reboot(store: Store) returns (index: KeyIndex, writePage: nat, writeOff: nat)
    requires store.Valid()
    ensures index.Valid()
    ensures store.pristine ==> index.contents == store.index.contents
    ensures store.pristine && store.slots[store.writePage] != [] && store.writeOff < SECTOR ==>
              writePage == store.writePage && writeOff == store.writeOff
  {
    hide PageOk, AllOps, LogOps, LastUsed, Represents, Counts, OnPages, EntriesOk, ApplyOps, AllRecs;
    PagesSized(store.pages, store.slots);
    var pages: Flash := store.pages;
    index, writePage, writeOff := BootScan(pages);
    if store.pristine {
      LogOpsAre(pages, store.slots, SECTORS);
      if store.slots[store.writePage] != [] {
        LastUsedIs(pages, store.slots, store.writePage, SECTORS);
      }
    }
  }

  // Power lost anywhere during a put, while a header or the record itself was being programmed, on
  // whichever page it goes to: the boot scan rebuilds the index from before the call or from after it.
  method CrashInPut(store: Store, key: word, value: Bytes, expected: half, flash: Flash) returns (index: KeyIndex)
    requires store.Valid()
    modifies store, store.index
    ensures index.Valid() && index.contents == Recovered(flash)
    ensures old(store.burns) <= store.burns && Chained(old(store.pages), store.burns[|old(store.burns)|..], store.pages)
    ensures old(store.pristine) && LeftBy(flash, old(store.pages), store.burns[|old(store.burns)|..]) ==>
      index.contents in {old(store.index.contents), store.index.contents}
  {
    hide *;
    StartRecovered(store);
    var ok, version;
    ghost var n;
    ok, version, n := store.PutIfVersion(key, value, expected);
    LeftRecovered(flash, old(store.pages), store.burns[|old(store.burns)|..], old(store.index.contents), store.index.contents);
    var writePage, writeOff;
    index, writePage, writeOff := BootScan(flash);
    RecoveredIs(flash);
  }

  // The same for a delete.
  method CrashInRemove(store: Store, key: word, flash: Flash) returns (index: KeyIndex)
    requires store.Valid()
    modifies store, store.index
    ensures index.Valid() && index.contents == Recovered(flash)
    ensures old(store.burns) <= store.burns && Chained(old(store.pages), store.burns[|old(store.burns)|..], store.pages)
    ensures old(store.pristine) && LeftBy(flash, old(store.pages), store.burns[|old(store.burns)|..]) ==>
      index.contents in {old(store.index.contents), store.index.contents}
  {
    hide *;
    StartRecovered(store);
    var ok := store.Remove(key);
    LeftRecovered(flash, old(store.pages), store.burns[|old(store.burns)|..], old(store.index.contents), store.index.contents);
    var writePage, writeOff;
    index, writePage, writeOff := BootScan(flash);
    RecoveredIs(flash);
  }

  lemma RecoveredIs(flash: Flash)
    ensures Recovered(flash) == ApplyOps(map[], LogOps(flash, SECTORS))
  {
  }

  lemma StartRecovered(store: Store)
    requires store.Valid()
    ensures (|store.pages| == SECTORS && forall p :: 0 <= p < SECTORS ==> |store.pages[p]| == SECTOR)
    ensures store.pristine ==> Recovered(store.pages) == store.index.contents
  {
    hide PageOk, AllOps, LogOps, Represents, Counts, OnPages, EntriesOk, ApplyOps, AllRecs;
    PagesSized(store.pages, store.slots);
    if store.pristine {
      LogOpsAre(store.pages, store.slots, SECTORS);
    }
  }

  lemma LeftRecovered(flash: Flash, start: seq<Bytes>, burns: seq<Burn>, before: Index, after: Index)
    requires |start| == SECTORS && forall p :: 0 <= p < SECTORS ==> |start[p]| == SECTOR
    ensures Recovered(start) == before && CrashSafe(burns, before, after) && LeftBy(flash, start, burns) ==>
      Recovered(flash) in {before, after}
  {
    hide Recovered, Burn.After, Burn.Whole;
  }
}
