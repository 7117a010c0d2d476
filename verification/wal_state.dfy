/** The write-ahead log's records and the rules on who holds which buffer slot: the log's entries,
    the request ring and the answers waiting in it.
 */
module WalState {
  import opened Bits
  import opened Collections

  const SLOTS := 32
  const SLOT_SIZE := 512
  const MAX_ENTRIES := 32
  const RING := 32
  const HEADER := 8
  const DELETE := 1

  datatype Entry = Entry(seqNo: word, key: word, slot: nat, len: nat,
                         active: bool, compacted: bool, tombstone: bool)
  datatype Op = Noop | Append | Read | KvGet | KvPut
  datatype Ready = Empty | Pending | Done
  datatype Request = Request(ready: Ready, op: Op, slot: nat, len: nat, key: word, zc: Bytes)
  datatype Response = Response(ok: bool, resultSlot: nat, resultLen: nat, seqNo: word, deltaCount: nat)

  // Who may touch a slot.
  datatype Owner = Free | Client | OfRequest(r: nat) | OfEntry(i: nat) | OfResponse(r: nat)

  const CLEARED := Response(true, 0, 0, 0, 0)

  predicate Live(e: Entry) {
    e.seqNo != 0
  }

  // An entry that reads and compaction consider.
  predicate Matches(e: Entry, key: word) {
    e.seqNo != 0 && e.key == key && e.active && !e.compacted
  }

  // A request not yet served that carries a slot.
  predicate Carries(q: Request) {
    q.ready.Pending? && (q.op.Append? || q.op.KvPut?)
  }

  // A response not yet collected that the collector will free a slot for.
  predicate Returns(q: Request, p: Response) {
    q.ready.Done? && ((q.op.Read? && p.resultLen > 0) || (q.op.KvGet? && p.ok))
  }

  function LiveCount(entries: seq<Entry>): (n: nat)
    ensures n <= |entries|
  {
    if entries == [] then 0
    else LiveCount(entries[..|entries| - 1]) + (if Live(entries[|entries| - 1]) then 1 else 0)
  }

  lemma {:induction false} LiveCountUpdate(entries: seq<Entry>, i: nat, e: Entry)
    requires i < |entries|
    ensures LiveCount(entries[i := e])
      == LiveCount(entries) + (if Live(e) then 1 else 0) - (if Live(entries[i]) then 1 else 0)
  {
    var n := |entries| - 1;
    if i < n {
      LiveCountUpdate(entries[..n], i, e);
      assert entries[i := e][..n] == entries[..n][i := e];
    } else {
      assert entries[i := e][..n] == entries[..n];
    }
  }

  lemma {:induction false} NoneLive(entries: seq<Entry>)
    requires forall i :: 0 <= i < |entries| ==> !Live(entries[i])
    ensures LiveCount(entries) == 0
  {
    if entries != [] {
      NoneLive(entries[..|entries| - 1]);
    }
  }

  ghost predicate FreeOwned(slotFree: seq<bool>, owner: seq<Owner>) {
    && |slotFree| == |owner| == SLOTS
    && forall s :: 0 <= s < SLOTS ==> (slotFree[s] <==> owner[s].Free?)
  }

  ghost predicate EntriesOwned(entries: seq<Entry>, owner: seq<Owner>) {
    && |entries| == MAX_ENTRIES && |owner| == SLOTS
    && (forall i :: 0 <= i < MAX_ENTRIES && Live(entries[i]) ==>
          entries[i].slot < SLOTS && owner[entries[i].slot] == OfEntry(i))
    && (forall s :: 0 <= s < SLOTS && owner[s].OfEntry? ==>
          owner[s].i < MAX_ENTRIES && Live(entries[owner[s].i]) && entries[owner[s].i].slot == s)
  }

  ghost predicate RequestsOwned(requests: seq<Request>, owner: seq<Owner>) {
    && |requests| == RING && |owner| == SLOTS
    && (forall r :: 0 <= r < RING && Carries(requests[r]) ==>
          requests[r].slot < SLOTS && owner[requests[r].slot] == OfRequest(r)
          && requests[r].len <= SLOT_SIZE && HEADER + |requests[r].zc| <= SLOT_SIZE
          && (requests[r].op.Append? ==> HEADER <= requests[r].len))
    && (forall s :: 0 <= s < SLOTS && owner[s].OfRequest? ==>
          owner[s].r < RING && Carries(requests[owner[s].r]) && requests[owner[s].r].slot == s)
  }

  ghost predicate ResponsesOwned(requests: seq<Request>, responses: seq<Response>, owner: seq<Owner>) {
    && |requests| == |responses| == RING && |owner| == SLOTS
    && (forall r :: 0 <= r < RING && Returns(requests[r], responses[r]) ==>
          responses[r].resultSlot < SLOTS && owner[responses[r].resultSlot] == OfResponse(r))
    && (forall s :: 0 <= s < SLOTS && owner[s].OfResponse? ==>
          owner[s].r < RING && Returns(requests[owner[s].r], responses[owner[s].r])
          && responses[owner[s].r].resultSlot == s)
  }

  // Live entries are active, carry a whole header, and have distinct past sequence numbers.
  ghost predicate EntriesSane(entries: seq<Entry>, nextSeq: nat) {
    && (forall i :: 0 <= i < |entries| && Live(entries[i]) ==>
          entries[i].active && !entries[i].compacted && HEADER <= entries[i].len <= SLOT_SIZE
          && entries[i].seqNo < nextSeq)
    && (forall i, j :: 0 <= i < j < |entries| && Live(entries[i]) && Live(entries[j]) ==>
          entries[i].seqNo != entries[j].seqNo)
  }

  // The entry slot an append takes: the first that is not live.
  function FirstDead(entries: seq<Entry>): (i: nat)
    ensures i <= |entries| && (i < |entries| ==> !Live(entries[i]))
    ensures forall j :: 0 <= j < i ==> Live(entries[j])
  {
    if entries == [] || !Live(entries[0]) then 0 else 1 + FirstDead(entries[1..])
  }

  // An entry whose delta has been superseded.
  function Dead(e: Entry): Entry {
    e.(seqNo := 0, active := false, compacted := true, tombstone := false)
  }

  // Entry i has the greatest sequence number of its key.
  ghost predicate Newest(entries: seq<Entry>, key: word, i: nat) {
    && i < |entries| && Matches(entries[i], key)
    && forall j :: 0 <= j < |entries| && Matches(entries[j], key) ==> entries[j].seqNo <= entries[i].seqNo
  }

  ghost predicate Several(entries: seq<Entry>, key: word) {
    exists i, j :: 0 <= i < j < |entries| && Matches(entries[i], key) && Matches(entries[j], key)
  }

  // Compaction of one key: of several entries only the newest stays, and not even that one when it
  // is a tombstone; a single entry, and every other key, is left alone.
  ghost predicate Compacted(before: seq<Entry>, after: seq<Entry>, key: word) {
    && |after| == |before|
    && forall i :: 0 <= i < |before| ==>
         after[i] == if Matches(before[i], key) && Several(before, key)
                        && !(Newest(before, key, i) && !before[i].tombstone)
                     then Dead(before[i]) else before[i]
  }

  // The delta in a slot once the part received without copying is in place.
  function Filled(slot: Bytes, zc: Bytes): (b: Bytes)
    requires HEADER + |zc| <= |slot|
    ensures |b| == |slot|
  {
    slot[..HEADER] + zc + slot[HEADER + |zc|..]
  }

  // The header stays, the part follows it, and the rest is as it was.
  lemma FilledIs(slot: Bytes, zc: Bytes)
    requires HEADER + |zc| <= |slot|
    ensures var d := Filled(slot, zc);
      && d[..HEADER] == slot[..HEADER] && d[HEADER..HEADER + |zc|] == zc && d[HEADER + |zc|..] == slot[HEADER + |zc|..]
      && Load32(d, 0) == Load32(slot, 0) && d[6] == slot[6]
  {
    var d := Filled(slot, zc);
    assert forall k :: 0 <= k < HEADER ==> d[k] == d[..HEADER][k] && slot[k] == slot[..HEADER][k];
  }

  // Request r changes while slot s passes from its holder to o.
  lemma RequestsStep(requests: seq<Request>, owner: seq<Owner>, r: nat, q: Request, s: nat, o: Owner)
    requires RequestsOwned(requests, owner) && r < RING && s < SLOTS
    requires
      if Carries(q) then
        !Carries(requests[r]) && q.slot == s && !owner[s].OfRequest? && o == OfRequest(r)
        && q.len <= SLOT_SIZE && HEADER + |q.zc| <= SLOT_SIZE && (q.op.Append? ==> HEADER <= q.len)
      else if Carries(requests[r]) then requests[r].slot == s && !o.OfRequest?
      else owner[s] == o || (!owner[s].OfRequest? && !o.OfRequest?)
    ensures RequestsOwned(requests[r := q], owner[s := o])
  {
  }

  lemma ResponsesStep(requests: seq<Request>, responses: seq<Response>, owner: seq<Owner>,
                      r: nat, q: Request, p: Response, s: nat, o: Owner)
    requires ResponsesOwned(requests, responses, owner) && r < RING && s < SLOTS
    requires
      if Returns(q, p) then
        !Returns(requests[r], responses[r]) && p.resultSlot == s && !owner[s].OfResponse?
        && o == OfResponse(r)
      else if Returns(requests[r], responses[r]) then responses[r].resultSlot == s && !o.OfResponse?
      else owner[s] == o || (!owner[s].OfResponse? && !o.OfResponse?)
    ensures ResponsesOwned(requests[r := q], responses[r := p], owner[s := o])
  {
  }

  function Wrapped(cursor: nat, d: nat): (i: nat)
    ensures i < MAX_ENTRIES
  {
    (cursor + d) % MAX_ENTRIES
  }

  // The first n entries of one key dropped, but for entry `keep`.
  ghost predicate Swept(before: seq<Entry>, after: seq<Entry>, key: word, keep: int, n: nat) {
    && |after| == |before|
    && forall j :: 0 <= j < |before| ==>
         after[j] == if j < n && j != keep && Matches(before[j], key) then Dead(before[j]) else before[j]
  }

  // Exactly the slots of entries that went are free now.
  ghost predicate SlotsFollow(after: seq<Entry>, was: seq<Owner>, owner: seq<Owner>) {
    && |was| == |owner|
    && forall s :: 0 <= s < |was| ==>
         owner[s] == if was[s].OfEntry? && was[s].i < |after| && !Live(after[was[s].i]) then Free else was[s]
  }

  lemma DropFollows(entries: seq<Entry>, owner: seq<Owner>, was: seq<Owner>, i: nat)
    requires EntriesOwned(entries, owner) && i < MAX_ENTRIES && Live(entries[i])
    requires SlotsFollow(entries, was, owner)
    ensures SlotsFollow(entries[i := Dead(entries[i])], was, owner[entries[i].slot := Free])
  {
    assert owner[entries[i].slot] == OfEntry(i);
  }

  lemma SweptCompacts(before: seq<Entry>, after: seq<Entry>, key: word, latest: nat)
    requires Newest(before, key, latest) && Several(before, key)
    requires forall i, j :: 0 <= i < j < |before| && Live(before[i]) && Live(before[j]) ==>
      before[i].seqNo != before[j].seqNo
    requires Swept(before, after, key, if before[latest].tombstone then -1 else latest, |before|)
    ensures Compacted(before, after, key)
  {
    forall i | 0 <= i < |before| && Newest(before, key, i)
      ensures i == latest
    {
    }
  }

  lemma TwoMatch(entries: seq<Entry>, key: word, i: nat, j: nat)
    requires i < |entries| && j < |entries| && Matches(entries[i], key) && Matches(entries[j], key)
    ensures i != j ==> Several(entries, key)
  {
    if i < j {
      assert Several(entries, key);
    }
  }

  // Through compaction every key keeps its newest entry, unless that was a tombstone with older
  // entries before it: then the key has none.
  lemma CompactionKeepsLatest(before: seq<Entry>, after: seq<Entry>, key: word, other: word, i: nat)
    requires Compacted(before, after, key) && Newest(before, other, i)
    requires forall i, j :: 0 <= i < j < |before| && Live(before[i]) && Live(before[j]) ==>
      before[i].seqNo != before[j].seqNo
    ensures if other == key && before[i].tombstone && Several(before, key)
      then forall j :: 0 <= j < |after| ==> !Matches(after[j], other)
      else Newest(after, other, i) && after[i] == before[i]
    ensures other == key ==> forall j :: 0 <= j < |after| && Matches(after[j], key) ==> j == i
  {
    hide Several;
    forall j | other == key && 0 <= j < |after| && Matches(after[j], key)
      ensures j == i && !(before[i].tombstone && Several(before, key))
    {
      TwoMatch(before, key, i, j);
      assert Several(before, key) ==> Newest(before, key, j);
    }
  }

  // As many entries in distinct slots as there are slots leave none out.
  lemma Crowded(entries: seq<Entry>, s: nat)
    requires |entries| == SLOTS && s < SLOTS
    requires forall i :: 0 <= i < SLOTS ==> entries[i].slot < SLOTS
    requires forall i, j :: 0 <= i < j < SLOTS ==> entries[i].slot != entries[j].slot
    ensures exists i :: 0 <= i < SLOTS && entries[i].slot == s
  {
    hide SlotSet, Below;
    SameSize(SlotSet(entries), Below(SLOTS));
    assert s in SlotSet(entries);
  }

  function SlotSet(entries: seq<Entry>): (u: set<nat>)
    ensures forall s :: s in u <==> exists i :: 0 <= i < |entries| && entries[i].slot == s
    ensures (forall i, j :: 0 <= i < j < |entries| ==> entries[i].slot != entries[j].slot) ==> |u| == |entries|
  {
    if entries == [] then {} else SlotSet(entries[..|entries| - 1]) + {entries[|entries| - 1].slot}
  }
}
