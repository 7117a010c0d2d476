/** Runs of the write-ahead log: how its slots run out for good, and exactly when they do not. */
module WalRuns {
  import opened Bits
  import opened Collections
  import opened WalOrder
  import opened WalState
  import opened WalSlots

  // A delta as core 0 makes it: key, length and operation, then its fields.
  function DeltaBytes(key: word, op: byte, fields: Bytes): (b: Bytes)
    requires |fields| < 0x1_0000
    ensures |b| == HEADER + |fields|
  {
    Store32(key) + Store16(|fields|) + [op, 0] + fields
  }

  // One append from start to end, through request r. The fields go into the slot with the header, or are
  // handed over where they were received.
  method AppendKey(e: Engine, r: nat, key: word, op: byte, fields: Bytes, handed: bool)
    requires HEADER + |fields| <= SLOT_SIZE
    requires e.Valid() && r < RING && e.requests[r].ready.Empty? && e.nextSeq < 0xFFFF_FFFF
    requires exists s :: 0 <= s < SLOTS && e.owner[s].Free?
    modifies e
    ensures e.Valid() && e.requests[r].ready.Empty? && e.nextSeq == old(e.nextSeq) + 1
    ensures var i := FirstDead(old(e.entries));
      && i < MAX_ENTRIES
      && e.entries[i] == Entry(old(e.nextSeq), key, e.entries[i].slot, HEADER + |fields|, true, false, op == DELETE)
      && e.entries == old(e.entries)[i := e.entries[i]] && e.entries[i].slot < SLOTS
      && old(e.owner)[e.entries[i].slot].Free? && e.owner == old(e.owner)[e.entries[i].slot := OfEntry(i)]
      && e.data == old(e.data)[e.entries[i].slot := e.data[e.entries[i].slot]]
      && e.data[e.entries[i].slot][..HEADER + |fields|] == DeltaBytes(key, op, fields)
      && forall s :: 0 <= s < e.entries[i].slot ==> !old(e.owner)[s].Free?
  {
    hide EntriesOwned, RequestsOwned, ResponsesOwned, EntriesSane, LiveCount, FreeOwned, FirstDead, DeltaBytes;
    var s := e.TakeSlot();
    ghost var was := e.data[s];
    var head := if handed then [] else fields;
    var zc := if handed then fields else [];
    e.Fill(s, 0, DeltaBytes(key, op, fields)[..HEADER] + head);
    ghost var filled := e.data[s];
    e.Dispatch(r, Append, s, HEADER + |fields|, key, zc);
    e.DoAppend(r);
    DeltaRead(e.data[s], filled, was, key, op, fields, head, zc);
    e.Collect(r);
  }

  lemma DeltaRead(d: Bytes, filled: Bytes, was: Bytes, key: word, op: byte, fields: Bytes, head: Bytes, zc: Bytes)
    requires |d| == |filled| == |was| == SLOT_SIZE && HEADER + |fields| <= SLOT_SIZE
    requires (head, zc) == ([], fields) || (head, zc) == (fields, [])
    requires filled == was[..0] + (DeltaBytes(key, op, fields)[..HEADER] + head) + was[HEADER + |head|..]
    requires d[..HEADER] == filled[..HEADER] && d[HEADER..HEADER + |zc|] == zc
    requires d[HEADER + |zc|..] == filled[HEADER + |zc|..]
    ensures Load32(filled, 0) == key && filled[6] == op && d[..HEADER + |fields|] == DeltaBytes(key, op, fields)
  {
    var b, n := DeltaBytes(key, op, fields), HEADER + |fields|;
    assert filled[..HEADER] == b[..HEADER];
    Load32Store([], key, Store16(|fields|) + [op, 0] + fields);
    assert [] + Store32(key) + (Store16(|fields|) + [op, 0] + fields) == b;
    forall k | 0 <= k < HEADER
      ensures filled[k] == b[k]
    {
      assert filled[..HEADER][k] == b[..HEADER][k];
    }
    assert d[..n] == d[..HEADER] + d[HEADER..n];
    assert b == b[..HEADER] + fields;
    if zc == [] {
      assert d == filled[..HEADER] + d[HEADER..] == filled;
      assert filled[HEADER..n] == head;
    }
  }

  lemma FirstDeadIs(entries: seq<Entry>, k: nat)
    requires k < |entries| && !Live(entries[k]) && forall i :: 0 <= i < k ==> Live(entries[i])
    ensures FirstDead(entries) == k
  {
    assert FirstDead(entries) < |entries| ==> !Live(entries[FirstDead(entries)]);
  }

  // From boot, 32 appends of different keys leave every slot with an entry, and no two share a key.
  method FillPool(memory: seq<Bytes>) returns (e: Engine)
    requires |memory| == SLOTS && forall s :: 0 <= s < SLOTS ==> |memory[s]| == SLOT_SIZE
    ensures fresh(e) && e.Valid() && e.Exhausted()
  {
    hide EntriesOwned, RequestsOwned, ResponsesOwned, EntriesSane, LiveCount, FreeOwned, FirstDead;
    e := new Engine(memory);
    for k := 0 to SLOTS
      invariant fresh(e) && e.Valid() && e.requests[0].ready.Empty? && e.nextSeq == k + 1
      invariant forall i :: 0 <= i < k ==> Live(e.entries[i]) && e.entries[i].key == i
      invariant forall i :: k <= i < MAX_ENTRIES ==> !Live(e.entries[i])
      invariant forall s :: 0 <= s < k ==> e.owner[s].OfEntry?
      invariant forall s :: k <= s < SLOTS ==> e.owner[s].Free?
    {
      FirstDeadIs(e.entries, k);
      assert e.owner[k].Free?;
      AppendKey(e, 0, k, 0, [], false);
    }
  }

  // Two live entries with the same key.
  ghost predicate Shared(entries: seq<Entry>) {
    exists i, j :: 0 <= i < j < |entries| && Live(entries[i]) && Live(entries[j]) && entries[i].key == entries[j].key
  }

  ghost predicate AnyFree(owner: seq<Owner>) {
    exists s :: 0 <= s < |owner| && owner[s].Free?
  }

  // With every slot held by an entry, every entry is live.
  lemma AllLive(entries: seq<Entry>, owner: seq<Owner>)
    requires EntriesOwned(entries, owner) && forall s :: 0 <= s < SLOTS ==> owner[s].OfEntry?
    ensures forall i :: 0 <= i < MAX_ENTRIES ==> Live(entries[i])
  {
    forall s, t | 0 <= s < t < SLOTS
      ensures owner[s].i != owner[t].i && owner[s].i < MAX_ENTRIES && owner[t].i < MAX_ENTRIES
    {
      HoldersDiffer(entries, owner, s, t);
    }
    hide Live;
    HoldersSize(owner, SLOTS);
    SameSize(Holders(owner, SLOTS), Below(MAX_ENTRIES));
    forall i: nat | i < MAX_ENTRIES
      ensures Live(entries[i])
    {
      assert i in Holders(owner, SLOTS);
      var s :| 0 <= s < SLOTS && owner[s].i == i;
      HolderLive(entries, owner, s);
    }
  }

  lemma HolderLive(entries: seq<Entry>, owner: seq<Owner>, s: nat)
    requires EntriesOwned(entries, owner) && s < SLOTS && owner[s].OfEntry?
    ensures owner[s].i < MAX_ENTRIES && Live(entries[owner[s].i])
  {
  }

  // The entries that hold the first n slots.
  ghost function Holders(owner: seq<Owner>, n: nat): (h: set<nat>)
    requires n <= |owner| && forall s :: 0 <= s < n ==> owner[s].OfEntry?
    ensures forall i :: i in h <==> exists s :: 0 <= s < n && owner[s].i == i
  {
    if n == 0 then {} else Holders(owner, n - 1) + {owner[n - 1].i}
  }

  lemma HoldersDiffer(entries: seq<Entry>, owner: seq<Owner>, s: nat, t: nat)
    requires EntriesOwned(entries, owner) && s < t < SLOTS && owner[s].OfEntry? && owner[t].OfEntry?
    ensures owner[s].i != owner[t].i && owner[s].i < MAX_ENTRIES && owner[t].i < MAX_ENTRIES
  {
    assert entries[owner[s].i].slot == s && entries[owner[t].i].slot == t;
  }

  lemma {:induction false} HoldersSize(owner: seq<Owner>, n: nat)
    requires n <= |owner| && forall s :: 0 <= s < n ==> owner[s].OfEntry? && owner[s].i < MAX_ENTRIES
    requires forall s, t :: 0 <= s < t < n ==> owner[s].i != owner[t].i
    ensures |Holders(owner, n)| == n && Holders(owner, n) <= Below(MAX_ENTRIES)
  {
    hide Below, Holders;
    if n > 0 {
      HoldersSize(owner, n - 1);
      HoldersMore(owner, n);
      assert owner[n - 1].i in Below(MAX_ENTRIES);
    } else {
      NoHolders(owner);
    }
  }

  lemma NoHolders(owner: seq<Owner>)
    ensures Holders(owner, 0) == {}
  {
  }

  lemma HoldersMore(owner: seq<Owner>, n: nat)
    requires 0 < n <= |owner| && forall s :: 0 <= s < n ==> owner[s].OfEntry?
    requires forall s :: 0 <= s < n - 1 ==> owner[s].i != owner[n - 1].i
    ensures Holders(owner, n) == Holders(owner, n - 1) + {owner[n - 1].i} && owner[n - 1].i !in Holders(owner, n - 1)
  {
  }

  // With every slot held by an entry, the next 32 compaction steps free a slot if and only if two live
  // entries share a key.
  method CompactRound(e: Engine)
    requires e.Valid() && forall s :: 0 <= s < SLOTS ==> e.owner[s].OfEntry?
    modifies e
    ensures e.Valid()
    ensures AnyFree(e.owner) <==> Shared(old(e.entries))
  {
    hide RequestsOwned, ResponsesOwned, LiveCount, FreeOwned, Wrapped, Several, Compacted, EntriesOwned;
    AllLive(e.entries, e.owner);
    ghost var start := e.compactCursor;
    WrappedStart(start);
    for k := 0 to MAX_ENTRIES
      invariant e.Valid()
      invariant AnyFree(e.owner) ==> Shared(old(e.entries))
      invariant !AnyFree(e.owner) ==> e.entries == old(e.entries) && e.owner == old(e.owner)
      invariant !AnyFree(e.owner) ==> e.compactCursor == Wrapped(start, k)
      invariant !AnyFree(e.owner) ==>
        forall d :: 0 <= d < k ==> !Several(e.entries, e.entries[Wrapped(start, d)].key)
    {
      ghost var owner, entries, cursor := e.owner, e.entries, e.compactCursor;
      var anchor, dist := e.CompactStep();
      if AnyFree(owner) {
        StaysFree(e.entries, owner, e.owner);
      } else {
        FirstLive(entries, cursor, dist);
        StepFrees(entries, e.entries, owner, e.owner, entries[anchor].key);
        WrappedNext(start, k);
      }
    }
    if !AnyFree(e.owner) {
      NoneShared(e.entries, start);
    }
  }

  lemma WrappedStart(cursor: nat)
    ensures cursor < MAX_ENTRIES ==> Wrapped(cursor, 0) == cursor
  {
  }

  lemma WrappedNext(start: nat, k: nat)
    ensures Wrapped(Wrapped(start, k), 1) == Wrapped(start, k + 1)
  {
  }

  lemma StaysFree(after: seq<Entry>, was: seq<Owner>, owner: seq<Owner>)
    requires SlotsFollow(after, was, owner) && AnyFree(was)
    ensures AnyFree(owner)
  {
    var s :| 0 <= s < |was| && was[s].Free?;
    assert owner[s].Free?;
  }

  // When every entry is live, the anchor is the entry under the cursor.
  lemma FirstLive(entries: seq<Entry>, cursor: nat, dist: nat)
    requires |entries| == MAX_ENTRIES && cursor < MAX_ENTRIES
    requires forall i :: 0 <= i < MAX_ENTRIES ==> Live(entries[i])
    requires forall d :: 0 <= d < dist ==> !Live(entries[Wrapped(cursor, d)])
    ensures dist == 0 && Wrapped(cursor, 0) == cursor
  {
    assert Live(entries[Wrapped(cursor, 0)]);
  }

  // A step on a key frees a slot exactly when the key has several entries.
  lemma StepFrees(before: seq<Entry>, after: seq<Entry>, was: seq<Owner>, owner: seq<Owner>, key: word)
    requires EntriesOwned(before, was) && SlotsFollow(after, was, owner) && Compacted(before, after, key)
    requires forall i :: 0 <= i < |before| && Live(before[i]) ==> before[i].active && !before[i].compacted
    requires forall s :: 0 <= s < SLOTS ==> was[s].OfEntry?
    requires forall i, j :: 0 <= i < j < |before| && Live(before[i]) && Live(before[j]) ==>
      before[i].seqNo != before[j].seqNo
    ensures AnyFree(owner) <==> Several(before, key)
    ensures Several(before, key) ==> Shared(before)
    ensures !AnyFree(owner) ==> after == before && owner == was
  {
    if Several(before, key) {
      var i, j :| 0 <= i < j < |before| && Matches(before[i], key) && Matches(before[j], key);
      var older := if before[i].seqNo < before[j].seqNo then i else j;
      assert !Newest(before, key, older);
      assert after[older] == Dead(before[older]);
      assert owner[before[older].slot].Free?;
    }
  }

  lemma NoneShared(entries: seq<Entry>, start: nat)
    requires |entries| == MAX_ENTRIES && start < MAX_ENTRIES
    requires forall i :: 0 <= i < |entries| && Live(entries[i]) ==> entries[i].active && !entries[i].compacted
    requires forall d :: 0 <= d < MAX_ENTRIES ==> !Several(entries, entries[Wrapped(start, d)].key)
    ensures !Shared(entries)
  {
    if Shared(entries) {
      var i, j :| 0 <= i < j < |entries| && Live(entries[i]) && Live(entries[j]) && entries[i].key == entries[j].key;
      var d := if i >= start then i - start else i + MAX_ENTRIES - start;
      assert Wrapped(start, d) == i;
      TwoMatch(entries, entries[i].key, i, j);
      assert false;
    }
  }

  // From boot, one append and a read of its key: the answer is the delta as it was sent, however its
  // fields were received.
  method ReadOne(memory: seq<Bytes>, key: word, op: byte, fields: Bytes, handed: bool) returns (e: Engine)
    requires |memory| == SLOTS && forall s :: 0 <= s < SLOTS ==> |memory[s]| == SLOT_SIZE
    requires HEADER + |fields| <= SLOT_SIZE
    ensures fresh(e) && e.Valid() && e.entries[0].key == key && (e.entries[0].tombstone <==> op == DELETE)
    ensures var p := e.responses[0];
      && p.ok && p.deltaCount == 1 && p.resultLen == HEADER + |fields| && p.resultSlot < SLOTS
      && e.data[p.resultSlot][..p.resultLen] == DeltaBytes(key, op, fields)
  {
    hide EntriesOwned, RequestsOwned, ResponsesOwned, EntriesSane, LiveCount, FreeOwned, FirstDead, Packed, Deltas, Listed;
    hide WalOrder.InOrder, DeltaBytes;
    e := new Engine(memory);
    FirstDeadIs(e.entries, 0);
    assert e.owner[0].Free?;
    AppendKey(e, 0, key, op, fields, handed);
    assert e.owner[1].Free?;
    e.Dispatch(0, Read, 0, 0, key, []);
    ghost var data := e.data;
    ghost var xs := e.DoRead(0);
    OneInOrder(e.entries, key, xs);
    OnePacked(e.entries, data, DeltaBytes(key, op, fields));
  }

  lemma OneInOrder(entries: seq<Entry>, key: word, xs: seq<nat>)
    requires |entries| == MAX_ENTRIES && Matches(entries[0], key)
    requires forall i :: 1 <= i < MAX_ENTRIES ==> !Live(entries[i])
    requires WalOrder.InOrder(entries, key, xs)
    ensures xs == [0]
  {
    RisingUnique(entries, xs, [0]);
  }

  lemma OnePacked(entries: seq<Entry>, data: seq<Bytes>, d: Bytes)
    requires |entries| > 0 && Listed(entries, data, [0]) && |d| <= SLOT_SIZE
    requires entries[0].slot < |data| && entries[0].len <= |data[entries[0].slot]|
    requires data[entries[0].slot][..entries[0].len] == d
    ensures Packed(Deltas(entries, data, [0]), SLOT_SIZE) == d
  {
    var ds := Deltas(entries, data, [0]);
    DeltaAt(entries, data, [0], 0);
    var none: seq<Bytes> := ds[1..];
    assert Packed(none, SLOT_SIZE - |d|) == [] && d + [] == d;
  }

  // From boot, two appends under one key and a read: the answer counts both, and carries both when they
  // fit one slot together, else only the first.
  method ReadTwo(memory: seq<Bytes>, key: word, first: Bytes, second: Bytes, handed: bool) returns (e: Engine)
    requires |memory| == SLOTS && forall s :: 0 <= s < SLOTS ==> |memory[s]| == SLOT_SIZE
    requires HEADER + |first| <= SLOT_SIZE && HEADER + |second| <= SLOT_SIZE
    ensures fresh(e) && e.Valid() && e.responses[0].ok && e.responses[0].deltaCount == 2
    ensures var p := e.responses[0];
      var one, two := DeltaBytes(key, 0, first), DeltaBytes(key, 0, second);
      && p.resultLen <= SLOT_SIZE && p.resultSlot < SLOTS
      && e.data[p.resultSlot][..p.resultLen] == if |one| + |two| <= SLOT_SIZE then one + two else one
  {
    hide EntriesOwned, RequestsOwned, ResponsesOwned, EntriesSane, LiveCount, FreeOwned, FirstDead, Packed, Deltas, Listed;
    hide WalOrder.InOrder, DeltaBytes;
    e := new Engine(memory);
    FirstDeadIs(e.entries, 0);
    assert e.owner[0].Free?;
    AppendKey(e, 0, key, 0, first, handed);
    FirstDeadIs(e.entries, 1);
    assert e.owner[1].Free?;
    AppendKey(e, 0, key, 0, second, handed);
    assert e.owner[2].Free?;
    e.Dispatch(0, Read, 0, 0, key, []);
    ghost var data := e.data;
    ghost var xs := e.DoRead(0);
    BothInOrder(e.entries, key, xs);
    TwoPacked(e.entries, data, DeltaBytes(key, 0, first), DeltaBytes(key, 0, second));
  }

  // Two entries of a key are read in the order of their sequence numbers.
  lemma BothInOrder(entries: seq<Entry>, key: word, xs: seq<nat>)
    requires |entries| == MAX_ENTRIES && Matches(entries[0], key) && Matches(entries[1], key)
    requires entries[0].seqNo < entries[1].seqNo && forall i :: 2 <= i < MAX_ENTRIES ==> !Live(entries[i])
    requires WalOrder.InOrder(entries, key, xs)
    ensures xs == [0, 1]
  {
    RisingUnique(entries, xs, [0, 1]);
  }

  lemma TwoPacked(entries: seq<Entry>, data: seq<Bytes>, one: Bytes, two: Bytes)
    requires |entries| > 1 && Listed(entries, data, [0, 1]) && |one| <= SLOT_SIZE
    requires entries[0].slot < |data| && entries[0].len <= |data[entries[0].slot]|
    requires entries[1].slot < |data| && entries[1].len <= |data[entries[1].slot]|
    requires data[entries[0].slot][..entries[0].len] == one && data[entries[1].slot][..entries[1].len] == two
    ensures Packed(Deltas(entries, data, [0, 1]), SLOT_SIZE) == if |one| + |two| <= SLOT_SIZE then one + two else one
  {
    var ds := Deltas(entries, data, [0, 1]);
    DeltaAt(entries, data, [0, 1], 0);
    DeltaAt(entries, data, [0, 1], 1);
    var rest: seq<Bytes> := ds[1..];
    var none: seq<Bytes> := rest[1..];
    assert rest[0] == two && Packed(ds, SLOT_SIZE) == one + Packed(rest, SLOT_SIZE - |one|);
    if |one| + |two| <= SLOT_SIZE {
      assert Packed(none, SLOT_SIZE - |one| - |two|) == [];
      assert two + [] == two;
    } else {
      assert one + [] == one;
    }
  }
}
