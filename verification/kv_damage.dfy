/** What the boot scan makes of a record whose checksum does not match. */
module KvDamage {
  import opened Bits
  import opened KvRecord
  import opened KvLog
  import opened KvIndex
  import opened KvPages
  import opened KvCrash
  import opened KvRecovery
  import KvCrc

  // A data record that the scan accepts in form.
  predicate IsRecord(page: Bytes, off: nat)
    requires |page| == SECTOR
  {
    && off + COMMIT_RAW <= SECTOR && Load16(page, off) != 0xFFFF && Load32(page, off + 6) == KV_MAGIC
    && PREFIX <= Load16(page, off) && off + Load16(page, off) <= SECTOR
    && PREFIX + Load16(page, off + 16) <= Load16(page, off)
  }

  // Its stored bytes do not have the checksum it carries.
  predicate Damaged(page: Bytes, off: nat)
    requires |page| == SECTOR && IsRecord(page, off)
  {
    Crc32(page[off + PREFIX..off + PREFIX + Load16(page, off + 16)]) != Load32(page, off + 22)
  }

  // A record met while an earlier one is pending leaves that one pending exactly when it is damaged.
  lemma PendingSurvives(page: Bytes, p: nat, off: nat, pending: Pending)
    requires |page| == SECTOR && IsRecord(page, off) && HEADER <= off && off % 4 == 0 && p < 0x1000
    requires pending.Waiting? && LocOff(pending.op.loc) != off
    ensures var step := ScanStep(page, p, off, pending);
      step.Next? && step.op == [] && (step.pending == pending <==> Damaged(page, off))
  {
    hide Load32, Load16, Crc32, PackLoc, LocPage, LocOff, LocLen;
    LocRoundTrip(p, off, Align4(Load16(page, off)));
  }

  lemma ScanNext(page: Bytes, p: nat, off: nat, pending: Pending, len: nat, op: seq<Op>, next: Pending)
    requires |page| == SECTOR && ScanStep(page, p, off, pending) == Next(len, op, next)
    ensures Scan(page, p, off, pending).ops == op + Scan(page, p, off + Align4(len), next).ops
  {
    hide ScanStep;
  }

  lemma DamagedStep(page: Bytes, p: nat, off: nat, op: Op, group: word)
    requires |page| == SECTOR && IsRecord(page, off)
    ensures var step := ScanStep(page, p, off, Waiting(op, group));
      step.Next? && step.len == Load16(page, off) && step.op == [] && step.pending.Waiting?
      && (Damaged(page, off) ==> step.pending == Waiting(op, group))
      && (!Damaged(page, off) ==> step.pending.group == Load32(page, off + 2))
  {
    hide Load32, Load16, Crc32, PackLoc;
  }

  // A record, another one, and the commit marker of the first. Its operation is applied exactly when
  // the record in between is damaged.
  lemma AppliedPastDamage(page: Bytes, p: nat, off: nat, a: Item)
    requires |page| == SECTOR && Storable(a) && Holds(page, off, RecordBytes(a))
    requires IsRecord(page, off + |RecordBytes(a)|)
    requires Load32(page, off + |RecordBytes(a)| + 2) != a.group
    requires Holds(page, off + |RecordBytes(a)| + Align4(Load16(page, off + |RecordBytes(a)|)), CommitBytes(a.group))
    ensures var next := off + |RecordBytes(a)|;
      var end := next + Align4(Load16(page, next)) + COMMIT;
      Scan(page, p, off, Nothing).ops
      == (if Damaged(page, next) then [OpOf(a, p, off)] else []) + Scan(page, p, end, Nothing).ops
  {
    hide Load32, Load16, Crc32, RecordBytes, CommitBytes, Holds, Scan, ScanStep, OpOf, Damaged;
    var op, next := OpOf(a, p, off), off + |RecordBytes(a)|;
    var len := Load16(page, next);
    var third := next + Align4(len);
    ScanAtRecord(page, p, off, Nothing, a);
    ScanNext(page, p, off, Nothing, RecLen(a), [], Waiting(op, a.group));
    DamagedStep(page, p, next, op, a.group);
    var pending := ScanStep(page, p, next, Waiting(op, a.group)).pending;
    ScanNext(page, p, next, Waiting(op, a.group), len, [], pending);
    ScanAtCommit(page, p, third, pending, a.group);
    ScanNext(page, p, third, pending, COMMIT, if Damaged(page, next) then [op] else [], Nothing);
    assert third + Align4(COMMIT) == third + COMMIT;
  }

  // Such a page: its header, a whole record, one with a wrong checksum, and the marker of the first.
  function DamagedPage(sequence: word, a: Item, b: Item, crc: word): (page: Bytes)
    requires Storable(a) && Storable(b)
    ensures |page| == SECTOR
  {
    var bytes := HeaderBytes(sequence) + RecordBytes(a) + FramedBytes(b, crc) + CommitBytes(a.group);
    bytes + Blank(SECTOR - |bytes|)
  }

  lemma DamagedParts(sequence: word, a: Item, b: Item, crc: word)
    requires Storable(a) && Storable(b)
    ensures var page := DamagedPage(sequence, a, b, crc);
      var next := HEADER + |RecordBytes(a)|;
      var third := next + |FramedBytes(b, crc)|;
      && Holds(page, 0, HeaderBytes(sequence)) && Holds(page, HEADER, RecordBytes(a))
      && Holds(page, next, FramedBytes(b, crc)) && Holds(page, third, CommitBytes(a.group))
      && third + COMMIT <= SECTOR && forall k :: third + COMMIT <= k < SECTOR ==> page[k] == 0xFF
  {
    hide HeaderBytes, RecordBytes, FramedBytes, CommitBytes;
    var page, next := DamagedPage(sequence, a, b, crc), HEADER + |RecordBytes(a)|;
    var third := next + |FramedBytes(b, crc)|;
    assert page[0..HEADER] == HeaderBytes(sequence);
    assert page[HEADER..next] == RecordBytes(a) && page[next..third] == FramedBytes(b, crc);
    assert page[third..third + COMMIT] == CommitBytes(a.group);
  }

  // The scan applies the first record there, although its marker does not follow it.
  lemma DamagedPageOps(sequence: word, a: Item, b: Item, crc: word, p: nat)
    requires Storable(a) && Storable(b) && a.group != b.group && crc != Crc32(b.stored)
    ensures PageOps(DamagedPage(sequence, a, b, crc), p) == [OpOf(a, p, HEADER)]
  {
    hide Load32, Load16, Crc32, PackLoc, HeaderBytes, RecordBytes, FramedBytes, CommitBytes, Scan, OpOf, HeaderOk;
    hide DamagedPage, Holds;
    var page, next := DamagedPage(sequence, a, b, crc), HEADER + |RecordBytes(a)|;
    var third := next + |FramedBytes(b, crc)|;
    DamagedParts(sequence, a, b, crc);
    HeaderFields(page, sequence);
    FramedFields(page, next, b, crc);
    AppliedPastDamage(page, p, HEADER, a);
    ScanBlank(page, p, third + COMMIT, Nothing);
    assert [OpOf(a, p, HEADER)] + [] == [OpOf(a, p, HEADER)];
  }

  // A boot on flash with that page alone: the index it rebuilds has the record's key, at its place.
  method DamageExample(sequence: word, a: Item, b: Item, crc: word) returns (index: KeyIndex)
    requires Storable(a) && Storable(b) && a.group != b.group && crc != Crc32(b.stored) && !IsTomb(a.flags)
    ensures index.Valid()
    ensures index.contents == map[a.key := Entry(PackLoc(0, HEADER, Align4(RecLen(a))), a.version)]
  {
    hide DamagedPage, PageOps, HeaderOk, PackLoc, Recovered;
    var erased: Flash := seq(SECTORS, _ => Blank(SECTOR));
    var page := DamagedPage(sequence, a, b, crc);
    var flash: Flash := erased[0 := page];
    var writePage, writeOff;
    index, writePage, writeOff := BootScan(flash);
    DamagedPageOps(sequence, a, b, crc, 0);
    OnlyFirst(flash, SECTORS);
    ApplyOne(map[], OpOf(a, 0, HEADER));
  }

  lemma {:induction false} OnlyFirst(flash: Flash, n: nat)
    requires 1 <= n <= SECTORS && forall p :: 1 <= p < SECTORS ==> flash[p] == Blank(SECTOR)
    ensures LogOps(flash, n) == PageOps(flash[0], 0)
  {
    hide PageOps;
    if n > 1 {
      OnlyFirst(flash, n - 1);
      NoHeader(n - 1);
    } else {
      assert LogOps(flash, 0) == [];
    }
  }

  lemma NoHeader(p: nat)
    ensures PageOps(Blank(SECTOR), p) == []
  {
    assert Load32(Blank(SECTOR), 0) == 0xFFFF_FFFF;
  }

  // t is s with byte i changed.
  predicate Changed(s: Bytes, t: Bytes, i: nat) {
    |s| == |t| && i < |s| && s[i] != t[i] && forall k :: 0 <= k < |s| && k != i ==> s[k] == t[k]
  }

  // A pair of which one byte of the stored value was changed afterwards.
  function ChangedPair(it: Item, t: Bytes): (b: Bytes)
    requires Storable(it) && |t| == |it.stored|
    ensures |b| == PairSize(it)
  {
    FramedBytes(it.(stored := t), Crc32(it.stored)) + CommitBytes(it.group)
  }

  // The scan does not apply it, and goes on after it.
  lemma ChangedNotApplied(page: Bytes, p: nat, off: nat, it: Item, t: Bytes, i: nat)
    requires |page| == SECTOR && Storable(it) && Changed(it.stored, t, i) && Holds(page, off, ChangedPair(it, t))
    ensures Scan(page, p, off, Nothing) == Scan(page, p, off + PairSize(it), Nothing)
  {
    hide Crc32, FramedBytes, CommitBytes, Holds, Scan, ScanStep;
    var it' := it.(stored := t);
    ChangedParts(page, off, it, t);
    ChangedChecksum(it.stored, t, i);
    WrongChecksum(page, p, off, it', Crc32(it.stored));
    var end := off + Align4(RecLen(it));
    ScanAtCommit(page, p, end, Nothing, it.group);
    ScanOn(page, p, off, Nothing, RecLen(it), Nothing);
    ScanOn(page, p, end, Nothing, COMMIT, Nothing);
  }

  lemma WrongChecksum(page: Bytes, p: nat, off: nat, it: Item, crc: word)
    requires |page| == SECTOR && Storable(it) && crc != Crc32(it.stored) && Holds(page, off, FramedBytes(it, crc))
    ensures ScanStep(page, p, off, Nothing) == Next(RecLen(it), [], Nothing)
  {
    hide Load32, Load16, Crc32, PackLoc, FramedBytes;
    FramedFields(page, off, it, crc);
    assert page[off + PREFIX..off + PREFIX + |it.stored|] == it.stored;
  }

  lemma ChangedChecksum(s: Bytes, t: Bytes, i: nat)
    requires Changed(s, t, i)
    ensures Crc32(s) != Crc32(t)
  {
    KvCrc.ChecksumDiffers(s, t, i);
  }

  lemma ChangedParts(page: Bytes, off: nat, it: Item, t: Bytes)
    requires |page| == SECTOR && Storable(it) && |t| == |it.stored| && Holds(page, off, ChangedPair(it, t))
    ensures var r := FramedBytes(it.(stored := t), Crc32(it.stored));
      && Holds(page, off, r) && Holds(page, off + |r|, CommitBytes(it.group))
      && |r| == Align4(RecLen(it)) && off + |r| + Align4(COMMIT) == off + PairSize(it)
  {
    hide FramedBytes, CommitBytes, Holds;
    var r, c := FramedBytes(it.(stored := t), Crc32(it.stored)), CommitBytes(it.group);
    HoldsPart(page, off, r + c, 0, |r|);
    HoldsPart(page, off, r + c, |r|, |r| + |c|);
    assert (r + c)[0..|r|] == r && (r + c)[|r|..|r| + |c|] == c;
  }

  lemma ScanOn(page: Bytes, p: nat, off: nat, pending: Pending, len: nat, next: Pending)
    requires |page| == SECTOR && ScanStep(page, p, off, pending) == Next(len, [], next)
    ensures Scan(page, p, off, pending) == Scan(page, p, off + Align4(len), next)
  {
    hide ScanStep;
    var rest := Scan(page, p, off + Align4(len), next);
    assert [] + rest.ops == rest.ops;
  }

  // A page header of which one byte was changed is no header.
  lemma ChangedHeader(page: Bytes, sequence: word, i: nat)
    requires |page| == SECTOR && Changed(HeaderBytes(sequence), page[..HEADER], i)
    ensures !HeaderOk(page)
  {
    hide HeaderBytes, HeaderBody, Load32, Crc32;
    var h := HeaderBytes(sequence);
    HeaderWord(sequence);
    ChangedAt(h, page, i);
    if i < 12 {
      ChangedChecksum(h[..12], page[..12], i);
      SameWord(page, 12, h, 12);
    } else {
      assert page[..12] == h[..12];
      OtherWord(page, 12, h, 12, i - 12);
    }
  }

  lemma HeaderWord(sequence: word)
    ensures Load32(HeaderBytes(sequence), 12) == Crc32(HeaderBytes(sequence)[..12])
  {
    hide HeaderBody, Load32, Crc32, Store32;
    var b := HeaderBody(sequence);
    Load32Store(b, Crc32(b), []);
    assert b + Store32(Crc32(b)) + [] == HeaderBytes(sequence) && HeaderBytes(sequence)[..12] == b;
  }

  lemma ChangedAt(h: Bytes, page: Bytes, i: nat)
    requires |h| == HEADER <= |page| && Changed(h, page[..HEADER], i)
    ensures page[i] != h[i] && forall k :: 0 <= k < HEADER && k != i ==> page[k] == h[k]
    ensures i < 12 ==> Changed(h[..12], page[..12], i)
  {
    assert forall k :: 0 <= k < HEADER ==> page[k] == page[..HEADER][k];
  }

  lemma SameWord(s: Bytes, i: nat, t: Bytes, j: nat)
    requires i + 4 <= |s| && j + 4 <= |t|
    requires s[i] == t[j] && s[i + 1] == t[j + 1] && s[i + 2] == t[j + 2] && s[i + 3] == t[j + 3]
    ensures Load32(s, i) == Load32(t, j)
  {
  }

  lemma OtherWord(s: Bytes, i: nat, t: Bytes, j: nat, k: nat)
    requires i + 4 <= |s| && j + 4 <= |t| && k < 4 && s[i + k] != t[j + k]
    ensures Load32(s, i) != Load32(t, j)
  {
    hide Load32;
    if Load32(s, i) == Load32(t, j) {
      Load32Determines(s, i, t, j);
    }
  }

  // A boot on flash with one page, on which a stored byte of its only record was changed: nothing is
  // applied.
  method ChangedBoot(sequence: word, it: Item, t: Bytes, i: nat) returns (index: KeyIndex)
    requires Storable(it) && Changed(it.stored, t, i)
    ensures index.Valid() && index.contents == map[]
  {
    hide ChangedPage, PageOps, HeaderOk, PackLoc, Recovered, Crc32;
    var erased: Flash := seq(SECTORS, _ => Blank(SECTOR));
    var flash: Flash := erased[0 := ChangedPage(sequence, it, t)];
    var writePage, writeOff;
    index, writePage, writeOff := BootScan(flash);
    ChangedPageOps(sequence, it, t, i);
    OnlyFirst(flash, SECTORS);
  }

  function ChangedPage(sequence: word, it: Item, t: Bytes): (page: Bytes)
    requires Storable(it) && |t| == |it.stored|
    ensures |page| == SECTOR
  {
    HeaderBytes(sequence) + ChangedPair(it, t) + Blank(SECTOR - HEADER - PairSize(it))
  }

  lemma ChangedPageOps(sequence: word, it: Item, t: Bytes, i: nat)
    requires Storable(it) && Changed(it.stored, t, i)
    ensures PageOps(ChangedPage(sequence, it, t), 0) == []
  {
    hide HeaderBytes, ChangedPair, Scan, HeaderOk, PairSize;
    var page := ChangedPage(sequence, it, t);
    assert page[0..HEADER] == HeaderBytes(sequence);
    assert page[HEADER..HEADER + PairSize(it)] == ChangedPair(it, t);
    HeaderFields(page, sequence);
    ChangedNotApplied(page, 0, HEADER, it, t, i);
    ScanBlank(page, 0, HEADER + PairSize(it), Nothing);
  }
}
