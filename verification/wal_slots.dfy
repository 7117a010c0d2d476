/** Every step that either core takes on the slots, entries and requests of the write-ahead log. */
module WalSlots {
  import opened Bits
  import opened WalOrder
  import opened WalState

  class Engine {
    var data: seq<Bytes>
    var slotFree: seq<bool>
    var entries: seq<Entry>
    var entryCount: nat
    var nextSeq: nat
    var requests: seq<Request>
    var responses: seq<Response>
    var compactCursor: nat
    ghost var owner: seq<Owner>

    ghost predicate Valid()
      reads this
    {
      && |owner| == |slotFree| == SLOTS && |entries| == MAX_ENTRIES && |requests| == |responses| == RING
      && |data| == SLOTS && (forall s :: 0 <= s < SLOTS ==> |data[s]| == SLOT_SIZE)
      && FreeOwned(slotFree, owner)
      && EntriesOwned(entries, owner)
      && RequestsOwned(requests, owner)
      && ResponsesOwned(requests, responses, owner)
      && EntriesSane(entries, nextSeq)
      && entryCount == LiveCount(entries)
      && nextSeq >= 1 && compactCursor < MAX_ENTRIES
    }

    // At boot every slot is free and nothing is pending.
    constructor (memory: seq<Bytes>)
      requires |memory| == SLOTS && forall s :: 0 <= s < SLOTS ==> |memory[s]| == SLOT_SIZE
      ensures Valid() && owner == seq(SLOTS, s => Free) && data == memory && nextSeq == 1 && compactCursor == 0
      ensures forall i :: 0 <= i < MAX_ENTRIES ==> !Live(entries[i])
      ensures forall r :: 0 <= r < RING ==> requests[r].ready.Empty?
    {
      var none := Entry(0, 0, 0, 0, false, false, false);
      data, slotFree := memory, seq(SLOTS, s => true);
      entries, entryCount, nextSeq, compactCursor := seq(MAX_ENTRIES, i => none), 0, 1, 0;
      requests := seq(RING, r => Request(Empty, Noop, 0, 0, 0, []));
      responses := seq(RING, r => CLEARED);
      owner := seq(SLOTS, s => Free);
      new;
      NoneLive(entries);
    }

    // Every slot is held by a live entry, and no two of those share a key.
    ghost predicate Exhausted()
      requires Valid()
      reads this
    {
      && (forall s :: 0 <= s < SLOTS ==> owner[s].OfEntry?)
      && (forall i, j :: 0 <= i < j < MAX_ENTRIES && Live(entries[i]) && Live(entries[j]) ==>
            entries[i].key != entries[j].key)
    }

    lemma Carried(r: nat)
      requires Valid() && r < RING && Carries(requests[r])
      ensures requests[r].slot < SLOTS && owner[requests[r].slot] == OfRequest(r)
      ensures requests[r].len <= SLOT_SIZE && HEADER + |requests[r].zc| <= SLOT_SIZE
      ensures requests[r].op.Append? ==> HEADER <= requests[r].len
    {
    }

    lemma Returned(r: nat)
      requires Valid() && r < RING && Returns(requests[r], responses[r])
      ensures responses[r].resultSlot < SLOTS && owner[responses[r].resultSlot] == OfResponse(r)
    {
    }

    lemma Kept(s: nat, o: Owner)
      requires Valid() && s < SLOTS
      ensures FreeOwned(slotFree[s := o.Free?], owner[s := o])
      ensures o.Free? == owner[s].Free? ==> FreeOwned(slotFree, owner[s := o])
      ensures !owner[s].OfEntry? && !o.OfEntry? ==> EntriesOwned(entries, owner[s := o])
      ensures !owner[s].OfRequest? && !o.OfRequest? ==> RequestsOwned(requests, owner[s := o])
      ensures !owner[s].OfResponse? && !o.OfResponse? ==> ResponsesOwned(requests, responses, owner[s := o])
    {
    }

    // What the flags, entries and ring say about who holds a slot.
    ghost predicate Holds(o: Owner, s: nat)
      requires Valid() && s < SLOTS
      reads this
    {
      match o
      case Free => slotFree[s]
      case OfEntry(i) => i < MAX_ENTRIES && Live(entries[i]) && entries[i].slot == s
      case OfRequest(r) => r < RING && Carries(requests[r]) && requests[r].slot == s
      case OfResponse(r) => r < RING && Returns(requests[r], responses[r]) && responses[r].resultSlot == s
      case Client => owner[s] == Client
    }

    // Each slot has exactly one holder: it is free, or one entry's, or one request's, or one
    // answer's, or still being filled by core 0. None is ever lost.
    lemma OneHolder(o: Owner, s: nat)
      requires Valid() && s < SLOTS
      ensures Holds(o, s) <==> o == owner[s]
    {
    }

    // A pool that is exhausted has no request or answer left that could free a slot.
    lemma Stuck(r: nat)
      requires Valid() && Exhausted() && r < RING
      ensures !Carries(requests[r]) && !Returns(requests[r], responses[r])
      ensures forall s :: 0 <= s < SLOTS ==> !owner[s].Free? && !owner[s].Client?
    {
    }

    // The first free slot, now held by the caller.
    method TakeSlot() returns (r: int)
      requires Valid()
      modifies this`slotFree, this`owner
      ensures Valid()
      ensures old(Exhausted()) ==> Exhausted()
      ensures r == -1 <==> forall s :: 0 <= s < SLOTS ==> !old(owner)[s].Free?
      ensures r == -1 ==> owner == old(owner) && slotFree == old(slotFree)
      ensures r != -1 ==> 0 <= r < SLOTS && old(owner)[r].Free? && owner == old(owner)[r := Client]
      ensures forall s :: 0 <= s < r ==> !old(owner)[s].Free?
    {
      for i := 0 to SLOTS
        invariant slotFree == old(slotFree) && owner == old(owner)
        invariant forall s :: 0 <= s < i ==> !slotFree[s]
      {
        if slotFree[i] {
          slotFree := slotFree[i := false];
          owner := owner[i := Client];
          return i;
        }
      }
      r := -1;
    }

    method GiveBack(s: nat)
      requires Valid() && s < SLOTS && owner[s].Client?
      modifies this`slotFree, this`owner
      ensures Valid() && owner == old(owner)[s := Free]
    {
      slotFree := slotFree[s := true];
      owner := owner[s := Free];
    }

    // Core 0 writes into a slot it holds.
    method Fill(s: nat, off: nat, bytes: Bytes)
      requires Valid() && s < SLOTS && owner[s].Client? && off + |bytes| <= SLOT_SIZE
      modifies this`data
      ensures Valid() && data == old(data)[s := data[s]]
      ensures data[s][..] == old(data)[s][..off] + bytes + old(data)[s][off + |bytes|..]
    {
      hide EntriesOwned, RequestsOwned, ResponsesOwned, EntriesSane, LiveCount, FreeOwned;
      data := data[s := data[s][..off] + bytes + data[s][off + |bytes|..]];
    }

    // Core 0 hands a request, and the slot it filled, to core 1. An append always has a whole header.
    method Dispatch(r: nat, op: Op, slot: nat, len: nat, key: word, zc: Bytes)
      requires Valid() && r < RING && requests[r].ready.Empty?
      requires op.Append? || op.KvPut? ==> slot < SLOTS && owner[slot].Client?
      requires op.Append? || op.KvPut? ==> len <= SLOT_SIZE && HEADER + |zc| <= SLOT_SIZE
      requires op.Append? ==> HEADER <= len
      modifies this`requests, this`owner
      ensures Valid()
      ensures old(Exhausted()) ==> Exhausted()
      ensures requests == old(requests)[r := Request(Pending, op, slot, len, key, zc)]
      ensures owner == if op.Append? || op.KvPut? then old(owner)[slot := OfRequest(r)] else old(owner)
    {
      hide EntriesOwned, RequestsOwned, ResponsesOwned, EntriesSane, LiveCount, FreeOwned;
      var q := Request(Pending, op, slot, len, key, zc);
      ghost var s := if Carries(q) then slot else 0;
      ghost var o := if Carries(q) then OfRequest(r) else owner[0];
      RequestsStep(requests, owner, r, q, s, o);
      ResponsesStep(requests, responses, owner, r, q, responses[r], s, o);
      Kept(s, o);
      assert owner[0 := owner[0]] == owner && responses[r := responses[r]] == responses;
      requests := requests[r := q];
      if op.Append? || op.KvPut? {
        owner := owner[slot := OfRequest(r)];
      }
    }

    // Core 0 takes the answer, and puts back the slot it came in.
    method Collect(r: nat)
      requires Valid() && r < RING && requests[r].ready.Done?
      modifies this`requests, this`slotFree, this`owner
      ensures Valid()
      ensures old(Exhausted()) ==> Exhausted()
      ensures requests == old(requests)[r := old(requests)[r].(ready := Empty)]
      ensures owner == if Returns(old(requests)[r], responses[r])
        then old(owner)[responses[r].resultSlot := Free] else old(owner)
    {
      hide EntriesOwned, RequestsOwned, ResponsesOwned, EntriesSane, LiveCount, FreeOwned;
      var q, p := requests[r], responses[r];
      ghost var s, o := 0, owner[0];
      if Returns(q, p) {
        Returned(r);
        s, o := p.resultSlot, Free;
      }
      RequestsStep(requests, owner, r, q.(ready := Empty), s, o);
      ResponsesStep(requests, responses, owner, r, q.(ready := Empty), p, s, o);
      Kept(s, o);
      assert owner[0 := owner[0]] == owner && responses[r := p] == responses;
      if (q.op.Read? && p.resultLen > 0) || (q.op.KvGet? && p.ok) {
        slotFree := slotFree[p.resultSlot := true];
        owner := owner[p.resultSlot := Free];
      }
      requests := requests[r := q.(ready := Empty)];
    }

    method Respond(r: nat, p: Response)
      requires Valid() && r < RING && requests[r].ready.Pending? && !Carries(requests[r])
      requires !Returns(requests[r].(ready := Done), p)
      modifies this`requests, this`responses
      ensures Valid()
      ensures requests == old(requests)[r := old(requests)[r].(ready := Done)]
      ensures responses == old(responses)[r := p]
    {
      responses := responses[r := p];
      requests := requests[r := requests[r].(ready := Done)];
    }

    // A slot that core 1 took for an answer goes to that answer's collector.
    method RespondWith(r: nat, p: Response)
      requires Valid() && r < RING && requests[r].ready.Pending? && !Carries(requests[r])
      requires Returns(requests[r].(ready := Done), p)
      requires p.resultSlot < SLOTS && owner[p.resultSlot].Client?
      modifies this`requests, this`responses, this`owner
      ensures Valid()
      ensures requests == old(requests)[r := old(requests)[r].(ready := Done)]
      ensures responses == old(responses)[r := p]
      ensures owner == old(owner)[p.resultSlot := OfResponse(r)]
    {
      responses := responses[r := p];
      requests := requests[r := requests[r].(ready := Done)];
      owner := owner[p.resultSlot := OfResponse(r)];
    }

    // Answering a request whose slot goes back to the pool.
    method Retire(r: nat, p: Response)
      requires Valid() && r < RING && Carries(requests[r])
      modifies this`requests, this`responses, this`owner, this`slotFree
      ensures Valid()
      ensures requests == old(requests)[r := old(requests)[r].(ready := Done)]
      ensures responses == old(responses)[r := p]
      ensures owner == old(owner)[old(requests)[r].slot := Free]
    {
      slotFree := slotFree[requests[r].slot := true];
      owner := owner[requests[r].slot := Free];
      responses := responses[r := p];
      requests := requests[r := requests[r].(ready := Done)];
    }

    // Answering a request whose slot becomes a live entry's.
    method Register(r: nat, p: Response, i: nat, e: Entry)
      requires Valid() && r < RING && Carries(requests[r])
      requires i < MAX_ENTRIES && !Live(entries[i]) && nextSeq < 0xFFFF_FFFF
      requires Live(e) && e.active && !e.compacted && HEADER <= e.len <= SLOT_SIZE
      requires e.seqNo == nextSeq && e.slot == requests[r].slot
      modifies this`requests, this`responses, this`owner, this`entries, this`entryCount, this`nextSeq
      ensures Valid() && nextSeq == old(nextSeq) + 1
      ensures requests == old(requests)[r := old(requests)[r].(ready := Done)]
      ensures responses == old(responses)[r := p]
      ensures entries == old(entries)[i := e]
      ensures owner == old(owner)[old(requests)[r].slot := OfEntry(i)]
    {
      hide LiveCount;
      nextSeq := nextSeq + 1;
      LiveCountUpdate(entries, i, e);
      entries := entries[i := e];
      entryCount := entryCount + 1;
      owner := owner[e.slot := OfEntry(i)];
      responses := responses[r := p];
      requests := requests[r := requests[r].(ready := Done)];
    }

    // An append keeps its slot as a new live entry.
    method DoAppend(r: nat)
      requires Valid() && r < RING && requests[r].ready.Pending? && requests[r].op.Append?
      requires nextSeq < 0xFFFF_FFFF
      modifies this`data, this`entries, this`entryCount, this`nextSeq
      modifies this`requests, this`responses, this`owner
      ensures Valid()
      ensures requests == old(requests)[r := old(requests)[r].(ready := Done)]
      ensures responses == old(responses)[r := CLEARED.(seqNo := old(nextSeq))]
      ensures var q, i := old(requests)[r], FirstDead(old(entries));
        q.slot < SLOTS && HEADER + |q.zc| <= SLOT_SIZE && i < MAX_ENTRIES
      ensures var q, i := old(requests)[r], FirstDead(old(entries));
        var was, d := old(data)[q.slot], data[q.slot];
        && data == old(data)[q.slot := d] && |d| == |was|
        && d[..HEADER] == was[..HEADER] && d[HEADER..HEADER + |q.zc|] == q.zc
        && d[HEADER + |q.zc|..] == was[HEADER + |q.zc|..]
        && entries == old(entries)[i :=
             Entry(old(nextSeq), Load32(was, 0), q.slot, q.len, true, false, was[6] == DELETE)]
        && owner == old(owner)[q.slot := OfEntry(i)] && nextSeq == old(nextSeq) + 1
    {
      hide EntriesOwned, RequestsOwned, ResponsesOwned, EntriesSane, LiveCount, FreeOwned;
      Carried(r);
      var q := requests[r];
      if q.len < HEADER {
        // Core 0 never sends so little, so the refusal, which would not free the slot, is not taken.
        assert false;
      }
      if |q.zc| > 0 {
        data := data[q.slot := Filled(data[q.slot], q.zc)];
      }
      FilledIs(old(data)[q.slot], q.zc);
      assert q.zc == [] ==> Filled(data[q.slot], q.zc) == data[q.slot];
      RoomForEntry(r);
      var i := FirstDead(entries);
      var tomb := data[q.slot][6] == DELETE;
      var e := Entry(nextSeq, Load32(data[q.slot], 0), q.slot, q.len, true, false, tomb);
      Register(r, CLEARED.(seqNo := nextSeq), i, e);
    }

    // An append always finds an entry: 32 live ones would leave no slot for its request.
    lemma RoomForEntry(r: nat)
      requires Valid() && r < RING && Carries(requests[r])
      ensures FirstDead(entries) < MAX_ENTRIES
    {
      if FirstDead(entries) == MAX_ENTRIES {
        Crowded(entries, requests[r].slot);
      }
    }

    method DoKvPut(r: nat, stored: bool)
      requires Valid() && r < RING && requests[r].ready.Pending? && requests[r].op.KvPut?
      modifies this`requests, this`responses, this`owner, this`slotFree
      ensures Valid()
      ensures requests == old(requests)[r := old(requests)[r].(ready := Done)]
      ensures responses == old(responses)[r := CLEARED.(ok := stored)]
      ensures owner == old(owner)[old(requests)[r].slot := Free]
    {
      Retire(r, CLEARED.(ok := stored));
    }

    method DoNoop(r: nat)
      requires Valid() && r < RING && requests[r].ready.Pending? && requests[r].op.Noop?
      modifies this`requests, this`responses
      ensures Valid()
      ensures old(Exhausted()) ==> Exhausted()
      ensures requests == old(requests)[r := old(requests)[r].(ready := Done)]
      ensures responses == old(responses)[r := responses[r]]
      ensures responses[r].ok
    {
      Respond(r, responses[r].(ok := true));
    }

    // A get answers with the stored value in a slot of its own, or keeps no slot at all.
    method DoKvGet(r: nat, stored: bool, value: Bytes)
      requires Valid() && r < RING && requests[r].ready.Pending? && requests[r].op.KvGet?
      requires stored ==> |value| <= SLOT_SIZE
      modifies this`data, this`slotFree, this`requests, this`responses, this`owner
      ensures Valid()
      ensures old(Exhausted()) ==> Exhausted()
      ensures requests == old(requests)[r := old(requests)[r].(ready := Done)]
      ensures responses == old(responses)[r := responses[r]]
      ensures responses[r].ok <==> stored && exists s :: 0 <= s < SLOTS && old(owner)[s].Free?
      ensures responses[r].ok ==> var p := responses[r];
        p.resultLen == |value| && p.resultSlot < SLOTS && old(owner)[p.resultSlot].Free?
        && owner == old(owner)[p.resultSlot := OfResponse(r)]
        && data[p.resultSlot][..p.resultLen] == value
      ensures !responses[r].ok ==> owner == old(owner)
      ensures forall s :: 0 <= s < SLOTS && !old(owner)[s].Free? ==> data[s] == old(data)[s]
    {
      hide EntriesOwned, RequestsOwned, ResponsesOwned, LiveCount, FreeOwned, EntriesSane;
      var s := TakeSlot();
      if s < 0 {
        Respond(r, CLEARED.(ok := false));
        return;
      }
      if !stored {
        GiveBack(s);
        Respond(r, CLEARED.(ok := false));
      } else {
        data := data[s := value + data[s][|value|..]];
        RespondWith(r, Response(true, s, |value|, 0, 0));
      }
    }

    // A superseded entry goes, and its slot returns to the pool.
    method Drop(i: nat)
      requires Valid() && i < MAX_ENTRIES && Live(entries[i])
      modifies this`entries, this`entryCount, this`owner, this`slotFree
      ensures Valid()
      ensures entries == old(entries)[i := Dead(old(entries)[i])]
      ensures owner == old(owner)[old(entries)[i].slot := Free]
    {
      hide LiveCount;
      slotFree := slotFree[entries[i].slot := true];
      owner := owner[entries[i].slot := Free];
      LiveCountUpdate(entries, i, Dead(entries[i]));
      entries := entries[i := Dead(entries[i])];
      entryCount := entryCount - 1;
    }

    // The next live entry from the cursor on, going round.
    method FindAnchor() returns (anchor: int, dist: nat)
      requires Valid()
      ensures dist <= MAX_ENTRIES && forall d :: 0 <= d < dist ==> !Live(entries[Wrapped(compactCursor, d)])
      ensures anchor == -1 <==> dist == MAX_ENTRIES
      ensures anchor != -1 ==> anchor == Wrapped(compactCursor, dist) && Live(entries[anchor])
    {
      hide EntriesOwned, RequestsOwned, ResponsesOwned, LiveCount, FreeOwned;
      for i := 0 to MAX_ENTRIES
        invariant forall d :: 0 <= d < i ==> !Live(entries[Wrapped(compactCursor, d)])
      {
        var idx := Wrapped(compactCursor, i);
        var e := entries[idx];
        if e.seqNo != 0 && e.active && !e.compacted {
          return idx, i;
        }
      }
      return -1, MAX_ENTRIES;
    }

    // The entries of one key: how many, and which is the newest.
    method FindLatest(key: word) returns (count: nat, latest: nat)
      requires Valid()
      ensures count == 0 <==> forall j :: 0 <= j < MAX_ENTRIES ==> !Matches(entries[j], key)
      ensures count > 0 ==> Newest(entries, key, latest)
      ensures count > 1 <==> Several(entries, key)
    {
      hide EntriesOwned, RequestsOwned, ResponsesOwned, LiveCount, FreeOwned;
      var latestSeq := 0;
      count, latest := 0, 0;
      ghost var earlier := 0;
      for i := 0 to MAX_ENTRIES
        invariant latest < MAX_ENTRIES && earlier < MAX_ENTRIES
        invariant count == 0 ==> latestSeq == 0 && forall j :: 0 <= j < i ==> !Matches(entries[j], key)
        invariant count > 0 ==> latest < i && Matches(entries[latest], key)
        invariant count > 0 ==> entries[latest].seqNo == latestSeq
        invariant forall j :: 0 <= j < i && Matches(entries[j], key) ==> entries[j].seqNo <= latestSeq
        invariant count == 1 ==> forall j :: 0 <= j < i && Matches(entries[j], key) ==> j == latest
        invariant count > 1 ==> earlier != latest && earlier < i && Matches(entries[earlier], key)
      {
        var e := entries[i];
        if e.seqNo != 0 && e.key == key && e.active && !e.compacted {
          if count > 0 {
            earlier := if e.seqNo > latestSeq then latest else i;
          }
          count := count + 1;
          if e.seqNo > latestSeq {
            latestSeq, latest := e.seqNo, i;
          }
        }
      }
    }

    // All the entries of one key but the newest go, and that one too when it is a tombstone.
    method Sweep(key: word, latest: nat)
      requires Valid() && Newest(entries, key, latest)
      modifies this`entries, this`entryCount, this`owner, this`slotFree
      ensures Valid()
      ensures Swept(old(entries), entries, key,
                    if old(entries)[latest].tombstone then -1 else latest, MAX_ENTRIES)
      ensures SlotsFollow(entries, old(owner), owner)
    {
      hide RequestsOwned, ResponsesOwned, LiveCount, FreeOwned, EntriesSane;
      for i := 0 to MAX_ENTRIES
        invariant Valid() && Swept(old(entries), entries, key, latest, i)
        invariant SlotsFollow(entries, old(owner), owner)
      {
        var e := entries[i];
        if i != latest && e.seqNo != 0 && e.key == key && e.active && !e.compacted {
          DropFollows(entries, owner, old(owner), i);
          Drop(i);
        }
      }
      if entries[latest].tombstone {
        DropFollows(entries, owner, old(owner), latest);
        Drop(latest);
      }
    }

    // One step of background compaction, on the key of the next live entry after the cursor.
    method CompactStep() returns (anchor: int, dist: nat)
      requires Valid()
      modifies this`entries, this`entryCount, this`owner, this`slotFree, this`compactCursor
      ensures Valid()
      ensures dist <= MAX_ENTRIES
      ensures forall d :: 0 <= d < dist ==> !Live(old(entries)[Wrapped(old(compactCursor), d)])
      ensures dist == MAX_ENTRIES ==>
        anchor == -1 && entries == old(entries) && owner == old(owner) && compactCursor == 0
      ensures dist < MAX_ENTRIES ==>
        anchor == Wrapped(old(compactCursor), dist) && compactCursor == Wrapped(anchor, 1)
        && Live(old(entries)[anchor]) && Compacted(old(entries), entries, old(entries)[anchor].key)
      ensures SlotsFollow(entries, old(owner), owner)
      ensures old(Exhausted()) ==> Exhausted()
    {
      anchor, dist := FindAnchor();
      if anchor == -1 {
        compactCursor := 0;
        return;
      }
      compactCursor := Wrapped(anchor, 1);
      var key := entries[anchor].key;
      var count, latest := FindLatest(key);
      if count <= 1 {
        return;
      }
      Sweep(key, latest);
      SweptCompacts(old(entries), entries, key, latest);
    }

    // The live entries of a key, as the read collects them.
    method CollectMatches(key: word) returns (seqs: seq<word>, idxs: seq<nat>)
      requires Valid()
      ensures forall i: nat :: i in idxs <==> i < MAX_ENTRIES && Matches(entries[i], key)
      ensures InStep(seqs, idxs, entries) && AllDiffer(seqs)
    {
      hide EntriesOwned, RequestsOwned, ResponsesOwned, LiveCount, FreeOwned;
      seqs, idxs := [], [];
      for i := 0 to MAX_ENTRIES
        invariant |seqs| == |idxs| <= i
        invariant forall j: nat :: j in idxs <==> j < i && Matches(entries[j], key)
        invariant forall k :: 0 <= k < |idxs| ==> idxs[k] < i && seqs[k] == entries[idxs[k]].seqNo
        invariant forall k, l :: 0 <= k < l < |idxs| ==> idxs[k] < idxs[l]
      {
        var e := entries[i];
        if e.seqNo != 0 && e.key == key && e.active && !e.compacted {
          seqs, idxs := seqs + [e.seqNo], idxs + [i];
        }
      }
      forall k, l | 0 <= k < l < |seqs|
        ensures seqs[k] != seqs[l]
      {
        assert idxs[k] in idxs && idxs[l] in idxs;
      }
    }

    lemma AllListed(key: word, xs: seq<nat>)
      requires Valid() && InOrder(entries, key, xs)
      ensures forall k :: 0 <= k < |xs| ==> xs[k] < MAX_ENTRIES && Live(entries[xs[k]])
      ensures Listed(entries, data, xs)
    {
      forall k | 0 <= k < |xs|
        ensures xs[k] < MAX_ENTRIES && Live(entries[xs[k]])
      {
        assert xs[k] in xs;
      }
    }

    // The deltas packed into a slot of core 1's own, none of them the slot itself.
    method Pack(rslot: nat, xs: seq<nat>) returns (outPos: nat)
      requires Valid() && rslot < SLOTS && owner[rslot].Client?
      requires forall k :: 0 <= k < |xs| ==> xs[k] < MAX_ENTRIES && Live(entries[xs[k]])
      requires Listed(entries, data, xs)
      modifies this`data
      ensures Valid() && outPos <= SLOT_SIZE
      ensures forall s :: 0 <= s < SLOTS && s != rslot ==> data[s] == old(data)[s]
      ensures data[rslot][..outPos] == Packed(Deltas(entries, old(data), xs), SLOT_SIZE)
    {
      hide RequestsOwned, ResponsesOwned, LiveCount, FreeOwned, Deltas, Packed;
      outPos := 0;
      ghost var ds := Deltas(entries, data, xs);
      var i := 0;
      while i < |xs|
        invariant i <= |xs| && outPos <= SLOT_SIZE && Valid()
        invariant forall s :: 0 <= s < SLOTS && s != rslot ==> data[s] == old(data)[s]
        invariant Packed(ds, SLOT_SIZE) == data[rslot][..outPos] + Packed(ds[i..], SLOT_SIZE - outPos)
      {
        var e := entries[xs[i]];
        PackStep(ds, i, SLOT_SIZE - outPos);
        assert ds[i] == data[e.slot][..e.len] by { DeltaAt(entries, old(data), xs, i); }
        if outPos + e.len > SLOT_SIZE {
          break;
        }
        var out := data[rslot];
        data := data[rslot := out[..outPos] + data[e.slot][..e.len] + out[outPos + e.len..]];
        assert data[rslot][..outPos + e.len] == out[..outPos] + ds[i];
        outPos := outPos + e.len;
        i := i + 1;
      }
      PackStep(ds, i, SLOT_SIZE - outPos);
      assert data[rslot][..outPos] + [] == data[rslot][..outPos];
    }

    // A read answers with the key's deltas, oldest first, as many as one slot takes; the count it
    // reports is of all of them. It keeps no slot when there is nothing to answer or no slot free.
    method DoRead(r: nat) returns (ghost xs: seq<nat>)
      requires Valid() && r < RING && requests[r].ready.Pending? && requests[r].op.Read?
      modifies this`data, this`slotFree, this`requests, this`responses, this`owner
      ensures Valid()
      ensures old(Exhausted()) ==> Exhausted()
      ensures requests == old(requests)[r := old(requests)[r].(ready := Done)]
      ensures responses == old(responses)[r := responses[r]]
      ensures InOrder(entries, requests[r].key, xs)
      ensures xs == [] ==> responses[r] == CLEARED && owner == old(owner)
      ensures xs != [] && (forall s :: 0 <= s < SLOTS ==> !old(owner)[s].Free?) ==>
        responses[r] == CLEARED.(ok := false) && owner == old(owner)
      ensures xs != [] && (exists s :: 0 <= s < SLOTS && old(owner)[s].Free?) ==>
        Listed(entries, old(data), xs) && AnswersWith(r, old(owner), old(data), xs)
      ensures forall s :: 0 <= s < SLOTS && !old(owner)[s].Free? ==> data[s] == old(data)[s]
    {
      hide EntriesOwned, RequestsOwned, ResponsesOwned, LiveCount, FreeOwned, EntriesSane;
      hide Packed, Deltas, AllDiffer, Rising, Listed;
      var key := requests[r].key;
      var seqs, idxs := CollectMatches(key);
      if |idxs| == 0 {
        NoneInOrder(entries, key);
        Respond(r, CLEARED);
        return [];
      }
      var ss, order := SortBySeq(seqs, idxs, entries);
      xs := order;
      assert xs != [] && InOrder(entries, key, xs);
      AllListed(key, xs);
      var rslot := TakeSlot();
      if rslot < 0 {
        Respond(r, CLEARED.(ok := false));
        return;
      }
      var outPos := Pack(rslot, order);
      ghost var ds := Deltas(entries, old(data), xs);
      PackStep(ds, 0, SLOT_SIZE);
      DeltaAt(entries, old(data), xs, 0);
      assert ds[0..] == ds;
      RespondWith(r, Response(true, rslot, outPos, ss[|order| - 1], |order|));
    }

    ghost predicate AnswersWith(r: nat, was: seq<Owner>, before: seq<Bytes>, xs: seq<nat>)
      requires Valid() && r < RING && |before| == SLOTS && |was| == SLOTS && xs != []
      requires Listed(entries, before, xs)
      reads this
    {
      var p := responses[r];
      && p.ok && p.resultSlot < SLOTS && was[p.resultSlot].Free?
      && owner == was[p.resultSlot := OfResponse(r)]
      && 0 < p.resultLen <= SLOT_SIZE
      && data[p.resultSlot][..p.resultLen] == Packed(Deltas(entries, before, xs), SLOT_SIZE)
      && p.deltaCount == |xs| && p.seqNo == entries[xs[|xs| - 1]].seqNo
    }
  }
}
