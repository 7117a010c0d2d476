/** The flash log: what a page holds, and what the boot-time scan makes of it.

    A page is a header followed by record/commit pairs. Some slots may be gaps: spans that were
    reserved but never programmed. The scan applies a record only when its commit marker follows.
 */
module KvLog {
  import opened Bits
  import opened KvRecord

  const HEADER := 16
  const PAGE_MAGIC := 0x4B56_5031
  const INDEX_CAPACITY := 4096

  // A location packs a page number, an offset and a length, the latter two in units of 4 bytes.
  function PackLoc(page: nat, off: nat, len: nat): nat {
    var offQ := if off / 4 > 0x3ff then 0x3ff else off / 4;
    var lenQ := if (len + 3) / 4 > 0x3ff then 0x3ff else (len + 3) / 4;
    page % 0x1000 * 0x10_0000 + offQ * 0x400 + lenQ
  }

  function LocPage(loc: nat): nat { loc / 0x10_0000 % 0x1000 }
  function LocOff(loc: nat): nat { loc / 0x400 % 0x400 * 4 }
  function LocLen(loc: nat): nat { loc % 0x400 * 4 }

  lemma LocRoundTrip(page: nat, off: nat, len: nat)
    requires page < 0x1000 && off < 0x1000 && off % 4 == 0 && len < 0x1000 && len % 4 == 0
    ensures LocPage(PackLoc(page, off, len)) == page
    ensures LocOff(PackLoc(page, off, len)) == off
    ensures LocLen(PackLoc(page, off, len)) == len
  {
    DivModUnique(page * 0x400 + off / 4, 0x400, page, off / 4);
    DivModUnique(PackLoc(page, off, len), 0x400, page * 0x400 + off / 4, len / 4);
    DivModUnique(PackLoc(page, off, len), 0x10_0000, page, off / 4 * 0x400 + len / 4);
  }

  datatype Slot = Rec(item: Item) | Gap(size: nat, owner: word) {
    // The key the slot was written for.
    function Key(): word { if Rec? then item.key else owner }

    predicate Ok() { if Rec? then Storable(item) else size % 4 == 0 && 44 <= size <= 552 }

    function Size(): (n: nat)
      ensures Ok() ==> 44 <= n <= 552 && n % 4 == 0
    {
      if Rec? then PairSize(item) else size
    }

    function Bytes(): (r: Bytes)
      requires Ok()
      ensures |r| == Size()
    {
      if Rec? then PairBytes(item) else Blank(size)
    }
  }

  type Slots = s: seq<Slot> | forall i :: 0 <= i < |s| ==> s[i].Ok()

  // The slots laid end to end, and where slot number i begins on a page.
  function Body(slots: Slots): Bytes {
    if slots == [] then [] else Body(slots[..|slots| - 1]) + slots[|slots| - 1].Bytes()
  }

  function Offset(slots: Slots, i: nat): (off: nat)
    requires i <= |slots|
    ensures off % 4 == 0 && off >= HEADER + 44 * i
  {
    if i == 0 then HEADER else Offset(slots, i - 1) + slots[i - 1].Size()
  }

  lemma {:induction false} BodyLength(slots: Slots)
    ensures HEADER + |Body(slots)| == Offset(slots, |slots|)
  {
    if slots != [] {
      var init := slots[..|slots| - 1];
      BodyLength(init);
      OffsetPrefix(slots, init, |init|);
    }
  }

  // Offsets depend only on the slots before.
  lemma {:induction false} OffsetPrefix(s: Slots, t: Slots, i: nat)
    requires i <= |s| && i <= |t| && s[..i] == t[..i]
    ensures Offset(s, i) == Offset(t, i)
  {
    if i > 0 {
      assert s[..i - 1] == s[..i][..i - 1] && t[..i - 1] == t[..i][..i - 1];
      assert s[i - 1] == s[..i][i - 1] && t[i - 1] == t[..i][i - 1];
      OffsetPrefix(s, t, i - 1);
    }
  }

  lemma {:induction false} OffsetMonotone(s: Slots, i: nat, j: nat)
    requires i < j <= |s|
    ensures Offset(s, i) + s[i].Size() <= Offset(s, j)
    decreases j
  {
    if i < j - 1 {
      OffsetMonotone(s, i, j - 1);
    }
  }

  // Every slot's bytes are where its offset says.
  lemma {:induction false} SlotHeld(page: Bytes, slots: Slots, i: nat)
    requires Holds(page, HEADER, Body(slots)) && i < |slots|
    ensures Holds(page, Offset(slots, i), slots[i].Bytes())
    decreases |slots|
  {
    hide Slot.Bytes, Slot.Size;
    var init := slots[..|slots| - 1];
    BodyLength(init);
    OffsetPrefix(slots, init, |init|);
    var b := Body(slots);
    if i == |slots| - 1 {
      HoldsPart(page, HEADER, b, |Body(init)|, |b|);
      assert b[|Body(init)|..|b|] == slots[i].Bytes();
    } else {
      HoldsPart(page, HEADER, b, 0, |Body(init)|);
      assert b[0..|Body(init)|] == Body(init);
      SlotHeld(page, init, i);
      OffsetPrefix(slots, init, i);
    }
  }

  // A record seen but not yet committed, and an operation the scan applies.
  datatype Pending = Nothing | Waiting(op: Op, group: word)
  datatype Op = Op(key: word, loc: nat, version: half, flags: byte)
  datatype ScanResult = ScanResult(ops: seq<Op>, end: nat)

  // One step of the scan at off: stop, or move on past a record of some length.
  datatype Step = Stop | Next(len: nat, op: seq<Op>, pending: Pending)

  function ScanStep(page: Bytes, p: nat, off: nat, pending: Pending): (r: Step)
    requires |page| == SECTOR
    ensures r.Next? ==> 14 <= r.len && off + r.len <= SECTOR
  {
    if off + COMMIT_RAW > SECTOR then Stop
    else
      var len := Load16(page, off);
      if len == 0xFFFF || len == 0 then Stop
      else
        var magic := Load32(page, off + 6);
        if magic == COMMIT_MAGIC then ScanCommit(page, off, len, pending)
        else if magic == KV_MAGIC then ScanRecord(page, p, off, len, pending)
        else Stop
  }

  function ScanCommit(page: Bytes, off: nat, len: nat, pending: Pending): (r: Step)
    requires |page| == SECTOR && off + COMMIT_RAW <= SECTOR
    ensures r.Next? ==> 14 <= r.len && off + r.len <= SECTOR
  {
    if len < COMMIT_RAW || off + len > SECTOR then Stop
    else if Load32(page, off + 10) == Crc32(page[off + 2..off + 10]) && pending.Waiting? && Load32(page, off + 2) == pending.group
    then Next(len, [pending.op], Nothing)
    else Next(len, [], Nothing)
  }

  function ScanRecord(page: Bytes, p: nat, off: nat, len: nat, pending: Pending): (r: Step)
    requires |page| == SECTOR
    ensures r.Next? ==> 14 <= r.len && off + r.len <= SECTOR
  {
    if len < PREFIX || off + len > SECTOR then Stop
    else if PREFIX + Load16(page, off + 16) > len then Stop
    else if Crc32(page[off + PREFIX..off + PREFIX + Load16(page, off + 16)]) == Load32(page, off + 22)
    then
      var op := Op(Load32(page, off + 10), PackLoc(p, off, Align4(len)), Load16(page, off + 18), page[off + 20]);
      Next(len, [], Waiting(op, Load32(page, off + 2)))
    else Next(len, [], pending)
  }

  function Scan(page: Bytes, p: nat, off: nat, pending: Pending): ScanResult
    requires |page| == SECTOR
    decreases SECTOR + 14 - off
  {
    match ScanStep(page, p, off, pending)
    case Stop => ScanResult([], off)
    case Next(len, op, pending') =>
      var rest := Scan(page, p, off + Align4(len), pending');
      ScanResult(op + rest.ops, rest.end)
  }

  function OpOf(it: Item, p: nat, off: nat): Op {
    Op(it.key, PackLoc(p, off, Align4(RecLen(it))), it.version, it.flags)
  }

  // A complete record is held until its commit marker arrives.
  lemma ScanAtRecord(page: Bytes, p: nat, off: nat, pending: Pending, it: Item)
    requires |page| == SECTOR && Storable(it) && Holds(page, off, RecordBytes(it))
    ensures ScanStep(page, p, off, pending) == Next(RecLen(it), [], Waiting(OpOf(it, p, off), it.group))
  {
    hide Load32, Load16, Crc32, PackLoc;
    RecordFields(page, off, it);
  }

  lemma ScanAtCommit(page: Bytes, p: nat, off: nat, pending: Pending, group: word)
    requires |page| == SECTOR && Holds(page, off, CommitBytes(group))
    ensures ScanStep(page, p, off, pending)
         == Next(COMMIT, if pending.Waiting? && pending.group == group then [pending.op] else [], Nothing)
  {
    hide Load32, Load16, Crc32;
    CommitFields(page, off, group);
  }

  // A complete pair is applied, whatever was pending before it.
  lemma ScanPair(page: Bytes, p: nat, off: nat, pending: Pending, it: Item)
    requires |page| == SECTOR && Storable(it) && Holds(page, off, PairBytes(it))
    ensures var rest := Scan(page, p, off + PairSize(it), Nothing);
            Scan(page, p, off, pending) == ScanResult([OpOf(it, p, off)] + rest.ops, rest.end)
  {
    hide ScanStep, PackLoc, RecordBytes, CommitBytes;
    var r, c := RecordBytes(it), CommitBytes(it.group);
    HoldsPart(page, off, PairBytes(it), 0, |r|);
    HoldsPart(page, off, PairBytes(it), |r|, |r| + |c|);
    assert PairBytes(it)[0..|r|] == r && PairBytes(it)[|r|..|r| + |c|] == c;
    ScanAtRecord(page, p, off, pending, it);
    ScanAtCommit(page, p, off + |r|, Waiting(OpOf(it, p, off), it.group), it.group);
    assert off + |r| + Align4(COMMIT) == off + PairSize(it);
  }

  // Blank flash ends the scan.
  lemma ScanBlank(page: Bytes, p: nat, off: nat, pending: Pending)
    requires |page| == SECTOR && (off + COMMIT_RAW <= SECTOR ==> page[off] == 0xFF && page[off + 1] == 0xFF)
    ensures Scan(page, p, off, pending) == ScanResult([], off)
  {
  }

  predicate AllRecs(slots: Slots) {
    forall i :: 0 <= i < |slots| ==> slots[i].Rec?
  }

  // The operations of the slots from number i on.
  function OpsFrom(slots: Slots, p: nat, i: nat): seq<Op>
    requires i <= |slots|
    decreases |slots| - i
  {
    if i == |slots| then []
    else (if slots[i].Rec? then [OpOf(slots[i].item, p, Offset(slots, i))] else []) + OpsFrom(slots, p, i + 1)
  }

  // The scan applies one slot and moves on to the next.
  lemma ScanSlot(page: Bytes, p: nat, slots: Slots, i: nat)
    requires |page| == SECTOR && Holds(page, HEADER, Body(slots)) && i < |slots| && slots[i].Rec?
    ensures Scan(page, p, Offset(slots, i), Nothing).end == Scan(page, p, Offset(slots, i + 1), Nothing).end
    ensures Scan(page, p, Offset(slots, i), Nothing).ops
         == [OpOf(slots[i].item, p, Offset(slots, i))] + Scan(page, p, Offset(slots, i + 1), Nothing).ops
  {
    hide Scan, PackLoc, Body, PairBytes, PairSize, OpOf;
    SlotHeld(page, slots, i);
    ScanPair(page, p, Offset(slots, i), Nothing, slots[i].item);
  }

  // Whatever follows the slots, the scan first applies all of them.
  lemma {:induction false} ScanSlots(page: Bytes, p: nat, slots: Slots, i: nat)
    requires |page| == SECTOR && Holds(page, HEADER, Body(slots)) && AllRecs(slots) && i <= |slots|
    ensures var rest := Scan(page, p, Offset(slots, |slots|), Nothing);
            Scan(page, p, Offset(slots, i), Nothing) == ScanResult(OpsFrom(slots, p, i) + rest.ops, rest.end)
    decreases |slots| - i
  {
    hide Scan, PackLoc, Body, OpOf, Holds, Offset;
    if i < |slots| {
      ScanSlot(page, p, slots, i);
      ScanSlots(page, p, slots, i + 1);
      var op, tail := OpOf(slots[i].item, p, Offset(slots, i)), Scan(page, p, Offset(slots, |slots|), Nothing).ops;
      assert [op] + (OpsFrom(slots, p, i + 1) + tail) == [op] + OpsFrom(slots, p, i + 1) + tail;
    }
  }

  // Power was lost while b was being programmed at off: some prefix of it is there, and the flash
  // after that is still blank.
  ghost predicate Torn(page: Bytes, off: nat, b: Bytes, cut: nat) {
    && |page| == SECTOR && off + |b| <= SECTOR && cut <= |b|
    && (forall k :: off <= k < off + cut ==> page[k] == b[k - off])
    && (forall k :: off + cut <= k < SECTOR ==> page[k] == 0xFF)
  }

  lemma TornHolds(page: Bytes, off: nat, b: Bytes, cut: nat, n: nat)
    requires Torn(page, off, b, cut) && n <= cut
    ensures Holds(page, off, b[..n])
  {
    forall k | 0 <= k < n ensures page[off..off + n][k] == b[..n][k] {
      assert page[off + k] == b[off + k - off];
    }
  }

  lemma Load32Top(s: Bytes, i: nat)
    requires i + 4 <= |s| && s[i + 3] == 0xFF
    ensures Load32(s, i) >= 0xFF00_0000
  {
  }

  lemma LowByte(a: byte, h: nat, b: byte, k: nat)
    requires a + 0x100 * h == b + 0x100 * k
    ensures a == b && h == k
  {
  }

  lemma Load32Determines(s: Bytes, i: nat, t: Bytes, j: nat)
    requires i + 4 <= |s| && j + 4 <= |t| && Load32(s, i) == Load32(t, j)
    ensures s[i] == t[j] && s[i + 1] == t[j + 1] && s[i + 2] == t[j + 2] && s[i + 3] == t[j + 3]
  {
    var a0: int, a1: int, a2: int, a3: int := s[i], s[i + 1], s[i + 2], s[i + 3];
    var b0: int, b1: int, b2: int, b3: int := t[j], t[j + 1], t[j + 2], t[j + 3];
    LowByte(s[i], a1 + 0x100 * (a2 + 0x100 * a3), t[j], b1 + 0x100 * (b2 + 0x100 * b3));
    LowByte(s[i + 1], a2 + 0x100 * a3, t[j + 1], b2 + 0x100 * b3);
    LowByte(s[i + 2], a3, t[j + 2], b3);
  }

  // Cut before the end of the magic number, either kind of record stops the scan.
  lemma TornLink(page: Bytes, p: nat, off: nat, b: Bytes, cut: nat, pending: Pending)
    requires Torn(page, off, b, cut) && cut < 10 && 14 <= |b|
    ensures ScanStep(page, p, off, pending) == Stop
  {
    assert page[off + 9] == 0xFF;
    Load32Top(page, off + 6);
  }

  // Cut inside the record proper: it may look like some record, but no marker follows it.
  lemma TornRecord(page: Bytes, p: nat, off: nat, it: Item, cut: nat)
    requires Storable(it) && Torn(page, off, PairBytes(it), cut) && cut <= |RecordBytes(it)|
    ensures Scan(page, p, off, Nothing).ops == []
  {
    hide Load32, Load16, Crc32, PackLoc, PairBytes, RecordBytes;
    if cut < 10 {
      TornLink(page, p, off, PairBytes(it), cut, Nothing);
    } else {
      var n := Align4(RecLen(it));
      TornLinkFields(page, off, it, cut);
      var step := ScanStep(page, p, off, Nothing);
      if step.Next? {
        assert step.len == RecLen(it) && step.op == [];
        assert page[off + n] == 0xFF && page[off + n + 1] == 0xFF;
        ScanBlank(page, p, off + n, step.pending);
      }
    }
  }

  lemma TornLinkFields(page: Bytes, off: nat, it: Item, cut: nat)
    requires Storable(it) && Torn(page, off, PairBytes(it), cut) && 10 <= cut
    ensures Load16(page, off) == RecLen(it) && Load32(page, off + 6) == KV_MAGIC
  {
    hide Load32, Load16, Crc32, Link, Identity, Check;
    var a := Link(RecLen(it), it.group, KV_MAGIC);
    TornHolds(page, off, PairBytes(it), cut, 10);
    assert PairBytes(it)[..10] == a;
    LinkFields(RecLen(it), it.group, KV_MAGIC);
    LoadHeld(page, off, a, 0);
    LoadHeld(page, off, a, 6);
  }

  lemma LinkBody(group: word)
    ensures Link(COMMIT, group, COMMIT_MAGIC)[2..10] == CommitBody(group)
  {
  }

  // Cut inside the commit marker: applied only if what is missing was blank anyway.
  lemma TornCommit(page: Bytes, p: nat, off: nat, group: word, cut: nat, pending: Pending)
    requires Torn(page, off, CommitBytes(group), cut) && !Holds(page, off, CommitBytes(group))
    ensures Scan(page, p, off, pending).ops == []
  {
    hide Crc32, PackLoc, Load32, Load16, Link;
    var b := CommitBytes(group);
    if cut < 10 {
      TornLink(page, p, off, b, cut, pending);
    } else {
      var a := Link(COMMIT, group, COMMIT_MAGIC);
      TornHolds(page, off, b, cut, 10);
      assert b[..10] == a;
      LinkFields(COMMIT, group, COMMIT_MAGIC);
      LoadHeld(page, off, a, 0);
      LoadHeld(page, off, a, 2);
      LoadHeld(page, off, a, 6);
      HoldsPart(page, off, a, 2, 10);
      LinkBody(group);
      if Load32(page, off + 10) == Crc32(CommitBody(group)) {
        WholeCommit(page, off, group, cut);
      }
      assert ScanStep(page, p, off, pending) == Next(COMMIT, [], Nothing);
      if off + COMMIT + COMMIT_RAW <= SECTOR {
        assert page[off + COMMIT] == 0xFF && page[off + COMMIT + 1] == 0xFF;
      }
      ScanBlank(page, p, off + COMMIT, Nothing);
    }
  }

  // With the right checksum in place, the marker is complete.
  lemma WholeCommit(page: Bytes, off: nat, group: word, cut: nat)
    requires Torn(page, off, CommitBytes(group), cut) && 10 <= cut
    requires Load32(page, off + 10) == Crc32(CommitBody(group))
    ensures Holds(page, off, CommitBytes(group))
  {
    hide Crc32, Load32, Link, Store32;
    var b, c := CommitBytes(group), Store32(Crc32(CommitBody(group)));
    assert [] + c + [] == c;
    Load32Store([], Crc32(CommitBody(group)), []);
    Load32Determines(page, off + 10, c, 0);
    forall k | 0 <= k < COMMIT ensures page[off..off + COMMIT][k] == b[k] {
      if k < 10 {
        assert page[off + k] == b[off + k - off];
      } else if k < 14 {
        assert b[k] == c[k - 10];
        assert k == 10 || k == 11 || k == 12 || k == 13;
      } else if k < cut {
        assert page[off + k] == b[off + k - off];
      } else {
        assert page[off + k] == 0xFF;
      }
    }
  }

  // A crash in the middle of programming a pair: the scan applies it only if it is all there.
  lemma TornPair(page: Bytes, p: nat, off: nat, it: Item, cut: nat)
    requires Storable(it) && Torn(page, off, PairBytes(it), cut)
    ensures Scan(page, p, off, Nothing).ops == if Holds(page, off, PairBytes(it)) then [OpOf(it, p, off)] else []
  {
    hide Scan, ScanStep, PackLoc, RecordBytes, CommitBytes;
    var b, r, c := PairBytes(it), RecordBytes(it), CommitBytes(it.group);
    var end := off + |r|;
    if Holds(page, off, b) {
      ScanPair(page, p, off, Nothing, it);
      AfterPairBlank(page, off, b, cut);
      ScanBlank(page, p, off + |b|, Nothing);
    } else if cut <= |r| {
      TornRecord(page, p, off, it, cut);
    } else {
      TornHolds(page, off, b, cut, |r|);
      assert b[..|r|] == r;
      TornTail(page, off, it, cut);
      if Holds(page, end, c) {
        JoinHeld(page, off, r, c);
      }
      TornCommit(page, p, end, it.group, cut - |r|, Waiting(OpOf(it, p, off), it.group));
      ScanAtRecord(page, p, off, Nothing, it);
      ScanUnfold(page, p, off, Nothing);
    }
  }

  lemma ScanUnfold(page: Bytes, p: nat, off: nat, pending: Pending)
    requires |page| == SECTOR && ScanStep(page, p, off, pending).Next?
    ensures var s := ScanStep(page, p, off, pending);
            Scan(page, p, off, pending).ops == s.op + Scan(page, p, off + Align4(s.len), s.pending).ops
  {
  }

  lemma AfterPairBlank(page: Bytes, off: nat, b: Bytes, cut: nat)
    requires Torn(page, off, b, cut)
    ensures off + |b| + COMMIT_RAW <= SECTOR ==> page[off + |b|] == 0xFF && page[off + |b| + 1] == 0xFF
  {
  }

  lemma TornTail(page: Bytes, off: nat, it: Item, cut: nat)
    requires Storable(it) && Torn(page, off, PairBytes(it), cut) && cut > |RecordBytes(it)|
    ensures Torn(page, off + |RecordBytes(it)|, CommitBytes(it.group), cut - |RecordBytes(it)|)
  {
    hide RecordBytes, CommitBytes;
    var b, r, c := PairBytes(it), RecordBytes(it), CommitBytes(it.group);
    forall k | off + |r| <= k < off + cut ensures page[k] == c[k - (off + |r|)] {
      assert page[k] == b[k - off];
    }
  }

  lemma JoinHeld(s: Bytes, off: nat, a: Bytes, b: Bytes)
    requires Holds(s, off, a) && Holds(s, off + |a|, b)
    ensures Holds(s, off, a + b)
  {
    assert s[off..off + |a + b|] == s[off..off + |a|] + s[off + |a|..off + |a| + |b|];
  }

  // Crash atomicity of a page: with power lost anywhere while the next pair was being programmed,
  // the scan applies the pairs before it, and that one only if all of it is there.
  lemma CrashAtomicity(page: Bytes, p: nat, slots: Slots, it: Item, cut: nat)
    requires |page| == SECTOR && Holds(page, HEADER, Body(slots)) && AllRecs(slots)
    requires Storable(it) && Torn(page, Offset(slots, |slots|), PairBytes(it), cut)
    ensures Scan(page, p, HEADER, Nothing).ops
         == OpsFrom(slots, p, 0)
          + if Holds(page, Offset(slots, |slots|), PairBytes(it)) then [OpOf(it, p, Offset(slots, |slots|))] else []
  {
    hide Scan, PackLoc, Body, PairBytes;
    ScanSlots(page, p, slots, 0);
    TornPair(page, p, Offset(slots, |slots|), it, cut);
  }

  // Without a crash: the scan applies every pair and stops where the blank flash begins.
  lemma ScanWhole(page: Bytes, p: nat, slots: Slots)
    requires |page| == SECTOR && Holds(page, HEADER, Body(slots)) && AllRecs(slots)
    requires forall k :: Offset(slots, |slots|) <= k < SECTOR ==> page[k] == 0xFF
    ensures Scan(page, p, HEADER, Nothing) == ScanResult(OpsFrom(slots, p, 0), Offset(slots, |slots|))
  {
    hide Scan, PackLoc, Body;
    ScanSlots(page, p, slots, 0);
    ScanBlank(page, p, Offset(slots, |slots|), Nothing);
  }

  // What the applied operations do to the index.
  datatype Entry = Entry(loc: nat, version: half)
  type Index = map<word, Entry>

  predicate IsTomb(flags: byte) {
    flags / 2 % 2 == 1
  }

  function ApplyOp(m: Index, op: Op): Index {
    if op.key in m && op.version < m[op.key].version then m
    else if IsTomb(op.flags) then m - {op.key}
    else if op.key !in m && |m| >= INDEX_CAPACITY then m
    else m[op.key := Entry(op.loc, op.version)]
  }

  function ApplyOps(m: Index, ops: seq<Op>): Index
    decreases |ops|
  {
    if ops == [] then m else ApplyOps(ApplyOp(m, ops[0]), ops[1..])
  }

  lemma {:induction false} ApplyOpsAppend(m: Index, a: seq<Op>, b: seq<Op>)
    ensures ApplyOps(m, a + b) == ApplyOps(ApplyOps(m, a), b)
    decreases |a|
  {
    if a == [] {
      assert a + b == b;
    } else {
      assert (a + b)[1..] == a[1..] + b;
      ApplyOpsAppend(ApplyOp(m, a[0]), a[1..], b);
    }
  }

  // A slot added at the end adds its operation at the end.
  lemma {:induction false} OpsFromAppend(slots: Slots, s: Slot, p: nat, i: nat)
    requires s.Ok() && i <= |slots|
    ensures OpsFrom(slots + [s], p, i)
         == OpsFrom(slots, p, i) + if s.Rec? then [OpOf(s.item, p, Offset(slots, |slots|))] else []
    decreases |slots| - i
  {
    hide PackLoc, Offset, Slot.Ok, OpOf;
    var t: Slots := slots + [s];
    assert t[..i] == slots[..i];
    OffsetPrefix(t, slots, i);
    assert t[i] == if i < |slots| then slots[i] else s;
    if i < |slots| {
      OpsFromAppend(slots, s, p, i + 1);
    } else {
      assert OpsFrom(t, p, i + 1) == [];
    }
  }
}
