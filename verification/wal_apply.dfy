/** What an append does to the flash store: the record of its key is read, the fields of the delta are
    merged into it, and the result is written as a new record; a delta that deletes removes the key.
 */
module WalApply {
  import opened Bits
  import opened Collections
  import opened WalMerge
  import KvLog
  import KvPages
  import KvRecord
  import KvRuns
  import KvStore
  import WalState

  // A slot with a delta: a header of key, length and operation, and the fields.
  predicate HasDelta(slot: Bytes) {
    |slot| == WalState.SLOT_SIZE && WalState.HEADER + Load16(slot, 4) <= WalState.SLOT_SIZE
  }

  function KeyOf(slot: Bytes): word
    requires HasDelta(slot)
  {
    Load32(slot, 0)
  }

  predicate Deletes(slot: Bytes)
    requires HasDelta(slot)
  {
    slot[6] == WalState.DELETE
  }

  function DeltaOf(slot: Bytes): Bytes
    requires HasDelta(slot)
  {
    slot[WalState.HEADER..WalState.HEADER + Load16(slot, 4)]
  }

  // What reading a key starts from: nothing if it is unknown or its record was lost.
  function RecordOf(m: map<word, KvStore.Value>, key: word): Bytes {
    if key in m && m[key].Some? then m[key].value else []
  }

  // The command to the store that an append amounts to.
  function CommandOf(m: map<word, KvStore.Value>, slot: Bytes): KvRuns.Command
    requires HasDelta(slot)
  {
    if Deletes(slot) then KvRuns.Remove(KeyOf(slot))
    else
      KvRuns.Put(KeyOf(slot), Encode(PutAll(Parse(RecordOf(m, KeyOf(slot))), Parse(DeltaOf(slot)))), KvStore.VERSION_ANY)
  }

  // Every record is a sequence of whole fields with different ids.
  ghost predicate AllWhole(m: map<word, KvStore.Value>) {
    forall k :: k in m && m[k].Some? ==> Whole(m[k].value)
  }

  predicate Whole(b: Bytes) {
    WellFormed(b) && Distinct(Parse(b)) && |b| <= KV_MAX_VALUE
  }

  lemma NothingWhole()
    ensures Whole([]) && Parse([]) == []
  {
  }

  lemma MergedWhole(b: Bytes, fs: seq<Entry>)
    requires Whole(b)
    ensures Whole(Encode(PutAll(Parse(b), fs))) && Parse(Encode(PutAll(Parse(b), fs))) == PutAll(Parse(b), fs)
  {
    hide Put, PutAll, Parse, Encode, Distinct;
    PutAllMap(Parse(b), fs);
    ParseEncode(PutAll(Parse(b), fs));
  }

  lemma RecordWhole(m: map<word, KvStore.Value>, key: word)
    requires AllWhole(m)
    ensures Whole(RecordOf(m, key))
  {
    hide Whole;
    NothingWhole();
  }

  lemma NextWhole(m: map<word, KvStore.Value>, slot: Bytes, out: KvRuns.Outcome, off: nat)
    requires AllWhole(m) && HasDelta(slot)
    ensures AllWhole(KvRuns.NextModel(m, CommandOf(m, slot), out, off))
  {
    hide Whole, Encode, PutAll, Parse, KvPages.Lost;
    RecordWhole(m, KeyOf(slot));
    MergedWhole(RecordOf(m, KeyOf(slot)), Parse(DeltaOf(slot)));
  }

  // The record with the delta merged into it.
  method MergedRecord(store: KvStore.Store, slot: Bytes) returns (record: Bytes)
    requires store.Valid() && HasDelta(slot) && AllWhole(store.model)
    ensures record == Encode(PutAll(Parse(RecordOf(store.model, KeyOf(slot))), Parse(DeltaOf(slot))))
  {
    hide KvStore.Store.Valid, Encode, PutAll, Put, Parse, AllWhole, Distinct, WellFormed;
    var key := Load32(slot, 0);
    RecordWhole(store.model, KeyOf(slot));
    RecordFits(store.model, key);
    var merged := new byte[KV_MAX_VALUE];
    var found, existing, version := store.GetCopy(key, KV_MAX_VALUE);
    var existingLen := 0;
    if found && |existing| > 0 {
      existingLen := |existing|;
      forall k | 0 <= k < existingLen {
        merged[k] := existing[k];
      }
    }
    assert merged[..existingLen] == RecordOf(store.model, KeyOf(slot));
    var mergedLen := Merge(merged, existingLen, slot[WalState.HEADER..WalState.HEADER + Load16(slot, 4)]);
    record := merged[..mergedLen];
    WellFormedIs(record);
  }

  lemma WellFormedIs(b: Bytes)
    requires WellFormed(b)
    ensures Encode(Parse(b)) == b
  {
  }

  // A stored record fits the buffer it is read into.
  lemma RecordFits(m: map<word, KvStore.Value>, key: word)
    requires AllWhole(m)
    ensures key in m && m[key].Some? ==> |m[key].value| <= KV_MAX_VALUE
  {
  }

  // One append.
  method ApplyAppend(store: KvStore.Store, slot: Bytes) returns (ghost out: KvRuns.Outcome)
    requires store.Valid() && HasDelta(slot) && AllWhole(store.model)
    modifies store, store.index
    ensures store.Valid() && AllWhole(store.model)
    ensures KvRuns.Outcomes(store.dict, old(store.model), CommandOf(old(store.model), slot), out)
    ensures store.model == KvRuns.NextModel(old(store.model), CommandOf(old(store.model), slot), out, old(store.writeOff))
    ensures store.writeOff == KvRuns.NextOffset(old(store.writeOff), out)
  {
    hide KvStore.Store.Valid, Encode, PutAll, Put, Parse, AllWhole, KvRuns.Outcomes, KvRuns.NextModel, KvRuns.NextOffset;
    ghost var m, off := store.model, store.writeOff;
    var ok;
    if slot[6] == WalState.DELETE {
      ok, out := KvRuns.Step(store, KvRuns.Remove(Load32(slot, 0)), 0);
    } else {
      var record := MergedRecord(store, slot);
      ok, out := KvRuns.Step(store, KvRuns.Put(Load32(slot, 0), record, KvStore.VERSION_ANY), 0);
    }
    NextWhole(m, slot, out, off);
  }

  predicate AllDeltas(slots: seq<Bytes>) {
    forall i :: 0 <= i < |slots| ==> HasDelta(slots[i])
  }

  // The commands are what the appends came to, one by one.
  ghost predicate Derived(slots: seq<Bytes>, cmds: seq<KvRuns.Command>, outs: seq<KvRuns.Outcome>) {
    && |slots| == |cmds| == |outs| && AllDeltas(slots)
    && forall i :: 0 <= i < |slots| ==> cmds[i] == CommandOf(KvRuns.Played(cmds[..i], outs[..i]), slots[i])
  }

  // A run of appends from an erased region.
  method ApplyAll(dict: KvStore.Dictionary, slots: seq<Bytes>)
    returns (store: KvStore.Store, ghost cmds: seq<KvRuns.Command>, ghost outs: seq<KvRuns.Outcome>)
    requires AllDeltas(slots)
    ensures store.Valid() && store.dict == dict && AllWhole(store.model)
    ensures Derived(slots, cmds, outs) && KvRuns.AllOutcomes(dict, cmds, outs)
    ensures store.model == KvRuns.Played(cmds, outs) && store.writeOff == KvRuns.OffsetAfter(outs)
  {
    hide *;
    store := new KvStore.Store(dict);
    cmds, outs := [], [];
    KvRuns.Started(dict, store);
    NothingApplied(store.model);
    for i := 0 to |slots|
      invariant fresh(store) && fresh(store.index) && store.Valid() && store.dict == dict && AllWhole(store.model)
      invariant |cmds| == |outs| == i && Derived(slots[..i], cmds, outs) && KvRuns.AllOutcomes(dict, cmds, outs)
      invariant store.model == KvRuns.Played(cmds, outs) && store.writeOff == KvRuns.OffsetAfter(outs)
    {
      OneOfAll(slots, i);
      ghost var cmd := CommandOf(store.model, slots[i]);
      ghost var out := ApplyAppend(store, slots[i]);
      assert slots[..i + 1] == slots[..i] + [slots[i]];
      KvRuns.OneMore(dict, cmds, outs, cmd, out);
      DerivedMore(slots[..i], cmds, outs, slots[i], cmd, out);
      cmds, outs := cmds + [cmd], outs + [out];
    }
    assert slots[..|slots|] == slots;
  }

  lemma OneOfAll(slots: seq<Bytes>, i: nat)
    requires AllDeltas(slots) && i < |slots|
    ensures HasDelta(slots[i])
  {
  }

  lemma NothingApplied(m: map<word, KvStore.Value>)
    requires m == map[]
    ensures AllWhole(m) && Derived([], [], [])
  {
  }

  lemma DerivedMore(slots: seq<Bytes>, cmds: seq<KvRuns.Command>, outs: seq<KvRuns.Outcome>,
                    slot: Bytes, cmd: KvRuns.Command, out: KvRuns.Outcome)
    requires Derived(slots, cmds, outs) && HasDelta(slot) && |cmds| == |outs|
    requires cmd == CommandOf(KvRuns.Played(cmds, outs), slot)
    ensures Derived(slots + [slot], cmds + [cmd], outs + [out])
  {
    hide CommandOf, KvRuns.Played, HasDelta;
    var n, cmds', outs' := |slots|, cmds + [cmd], outs + [out];
    forall i | 0 <= i <= n
      ensures HasDelta((slots + [slot])[i])
      ensures cmds'[i] == CommandOf(KvRuns.Played(cmds'[..i], outs'[..i]), (slots + [slot])[i])
    {
      assert cmds'[..i] == cmds[..i] && outs'[..i] == outs[..i];
      assert i == n ==> cmds[..i] == cmds && outs[..i] == outs;
    }
  }

  // The fields that the stored appends of a key brought since it was last deleted.
  function FieldsSince(slots: seq<Bytes>, outs: seq<KvRuns.Outcome>, key: word): seq<Entry>
    requires |slots| == |outs| && AllDeltas(slots)
  {
    if slots == [] then []
    else
      var n := |slots| - 1;
      var before := FieldsSince(slots[..n], outs[..n], key);
      if KeyOf(slots[n]) != key || !outs[n].ok then before
      else if Deletes(slots[n]) then []
      else before + Parse(DeltaOf(slots[n]))
  }

  // Whether there was one.
  predicate Written(slots: seq<Bytes>, outs: seq<KvRuns.Outcome>, key: word)
    requires |slots| == |outs| && AllDeltas(slots)
  {
    if slots == [] then false
    else
      var n := |slots| - 1;
      if KeyOf(slots[n]) != key || !outs[n].ok then Written(slots[..n], outs[..n], key) else !Deletes(slots[n])
  }

  // A record that holds these fields, the last one of each id, in no more bytes than they take.
  ghost predicate HoldsFields(m: map<word, KvStore.Value>, key: word, written: bool, fs: seq<Entry>) {
    && (key in m <==> written) && (!written ==> fs == [])
    && (written ==>
          && m[key].Some? && Whole(m[key].value) && |m[key].value| <= |Encode(fs)|
          && AsMap(Parse(m[key].value)) == Overlaid(map[], fs))
  }

  lemma {:induction false} OverlaidAppend(m: map<half, Bytes>, a: seq<Entry>, b: seq<Entry>)
    ensures Overlaid(m, a + b) == Overlaid(Overlaid(m, a), b)
    decreases |a|
  {
    if a == [] {
      assert a + b == b;
    } else {
      assert (a + b)[1..] == a[1..] + b;
      OverlaidAppend(m[a[0].id := a[0].data], a[1..], b);
    }
  }

  // Merging makes a record no longer than both together.
  lemma {:induction false} PutAllSize(rec: seq<Entry>, fs: seq<Entry>)
    requires Distinct(rec) && |Encode(rec)| <= KV_MAX_VALUE
    ensures |Encode(PutAll(rec, fs))| <= |Encode(rec)| + |Encode(fs)|
    decreases |fs|
  {
    hide Put, Distinct, AsMap;
    if fs != [] {
      PutMap(rec, fs[0]);
      PutAllSize(Put(rec, fs[0]), fs[1..]);
    }
  }

  lemma MergeHolds(b: Bytes, before: seq<Entry>, fs: seq<Entry>)
    requires Whole(b) && |b| <= |Encode(before)| && AsMap(Parse(b)) == Overlaid(map[], before)
    requires |Encode(before + fs)| <= 474
    ensures var r := Encode(PutAll(Parse(b), fs));
      Whole(r) && |r| <= |Encode(before + fs)| && AsMap(Parse(r)) == Overlaid(map[], before + fs)
  {
    hide Put, PutAll, Parse, Encode, AsMap, Override, Overlaid;
    WholeIs(b);
    EncodeConcat(before, fs);
    MergedWhole(b, fs);
    PutAllMap(Parse(b), fs);
    PutAllSize(Parse(b), fs);
    AllFit(AsMap(Parse(b)), |b|, fs);
    OverlaidAppend(map[], before, fs);
  }

  lemma WholeIs(b: Bytes)
    requires Whole(b)
    ensures Encode(Parse(b)) == b && Distinct(Parse(b)) && |b| <= KV_MAX_VALUE
  {
  }

  lemma NoFields()
    ensures Whole([]) && |Encode([])| == 0 && AsMap(Parse([])) == Overlaid(map[], [])
  {
  }

  // One more append of the key, merged.
  lemma MergeStep(m: map<word, KvStore.Value>, key: word, written: bool, before: seq<Entry>, fs: seq<Entry>,
                  value: Bytes, next: map<word, KvStore.Value>)
    requires HoldsFields(m, key, written, before) && |Encode(before + fs)| <= 474
    requires value == Encode(PutAll(Parse(RecordOf(m, key)), fs)) && next == m[key := Some(value)]
    ensures HoldsFields(next, key, true, before + fs)
  {
    hide Put, PutAll, Parse, Encode, AsMap, Overlaid, Whole;
    NoFields();
    MergeHolds(RecordOf(m, key), before, fs);
  }

  lemma DerivedInit(slots: seq<Bytes>, cmds: seq<KvRuns.Command>, outs: seq<KvRuns.Outcome>)
    requires Derived(slots, cmds, outs) && slots != []
    ensures var n := |slots| - 1;
      Derived(slots[..n], cmds[..n], outs[..n]) && cmds[n] == CommandOf(KvRuns.Played(cmds[..n], outs[..n]), slots[n])
  {
    hide CommandOf, KvRuns.Played, HasDelta;
    var n := |slots| - 1;
    forall i | 0 <= i < n
      ensures cmds[..n][..i] == cmds[..i] && outs[..n][..i] == outs[..i]
    {
    }
  }

  // Nothing of up to 474 bytes is lost.
  lemma NotLost(dict: KvStore.Dictionary, cmds: seq<KvRuns.Command>, outs: seq<KvRuns.Outcome>, i: nat)
    requires KvRuns.AllOutcomes(dict, cmds, outs) && i < |cmds| && cmds[i].Put? && |cmds[i].value| <= 474 && outs[i].ok
    ensures !KvPages.Lost(KvRuns.OffsetAfter(outs[..i]), outs[i].n)
  {
    hide KvPages.Lost, KvRuns.Played, KvRuns.OffsetAfter, KvStore.StoresIn;
    assert KvRuns.Outcomes(dict, KvRuns.Played(cmds[..i], outs[..i]), cmds[i], outs[i]);
    KvRuns.Aligned(outs[..i]);
    KvPages.LostWhen(KvRuns.OffsetAfter(outs[..i]), outs[i].n);
  }

  // While the fields of a key take no more than 474 bytes, none is lost: its record holds the last field
  // of each id, whatever else is appended and whichever appends the store refuses.
  lemma {:induction false} LastFieldWins(dict: KvStore.Dictionary, slots: seq<Bytes>, cmds: seq<KvRuns.Command>,
                                         outs: seq<KvRuns.Outcome>, key: word)
    requires |slots| == |cmds| == |outs| && AllDeltas(slots)
    requires Derived(slots, cmds, outs) && KvRuns.AllOutcomes(dict, cmds, outs)
    requires |Encode(FieldsSince(slots, outs, key))| <= 474
    ensures HoldsFields(KvRuns.Played(cmds, outs), key, Written(slots, outs, key), FieldsSince(slots, outs, key))
    decreases |slots|
  {
    hide KvPages.Lost, KvRuns.Outcomes, KvRuns.AllOutcomes, KvRuns.OffsetAfter;
    hide HoldsFields, Encode, PutAll, Parse, HasDelta, Derived;
    if slots == [] {
      NothingHeld(key);
    } else {
      var n := |slots| - 1;
      var m, slot := KvRuns.Played(cmds[..n], outs[..n]), slots[n];
      var before := FieldsSince(slots[..n], outs[..n], key);
      DerivedInit(slots, cmds, outs);
      KvRuns.InitOutcomes(dict, cmds, outs);
      assert HasDelta(slot) && AllDeltas(slots[..n]);
      if KeyOf(slot) != key || !outs[n].ok {
        LastFieldWins(dict, slots[..n], cmds[..n], outs[..n], key);
        OtherKey(m, KvRuns.Played(cmds, outs), key, Written(slots[..n], outs[..n], key), before);
      } else if Deletes(slot) {
        Forgotten(m, key);
      } else {
        var fs := Parse(DeltaOf(slot));
        EncodeConcat(before, fs);
        LastFieldWins(dict, slots[..n], cmds[..n], outs[..n], key);
        var value := cmds[n].value;
        MergeStep(m, key, Written(slots[..n], outs[..n], key), before, fs, value, m[key := Some(value)]);
        HeldFits(m[key := Some(value)], key, before + fs);
        NotLost(dict, cmds, outs, n);
      }
    }
  }

  lemma NothingHeld(key: word)
    ensures HoldsFields(map[], key, false, [])
  {
  }

  lemma OtherKey(m: map<word, KvStore.Value>, next: map<word, KvStore.Value>, key: word, written: bool, fs: seq<Entry>)
    requires HoldsFields(m, key, written, fs) && (key in next <==> key in m) && (key in m ==> next[key] == m[key])
    ensures HoldsFields(next, key, written, fs)
  {
  }

  lemma Forgotten(m: map<word, KvStore.Value>, key: word)
    ensures HoldsFields(m - {key}, key, false, [])
  {
  }

  lemma HeldFits(m: map<word, KvStore.Value>, key: word, fs: seq<Entry>)
    requires HoldsFields(m, key, true, fs)
    ensures key in m && m[key].Some? && |m[key].value| <= |Encode(fs)|
  {
  }

  // So a read after the run returns the last field of each id that was appended under a key.
  method ApplyThenGet(dict: KvStore.Dictionary, slots: seq<Bytes>, key: word)
    returns (ghost outs: seq<KvRuns.Outcome>, ok: bool, value: Bytes)
    requires AllDeltas(slots)
    ensures |outs| == |slots|
    ensures |Encode(FieldsSince(slots, outs, key))| <= 474 ==>
      && (ok <==> Written(slots, outs, key))
      && (ok ==> WellFormed(value) && AsMap(Parse(value)) == Overlaid(map[], FieldsSince(slots, outs, key)))
  {
    hide KvStore.Store.Valid, Encode, PutAll, Put, Parse, AllWhole, Distinct, WellFormed;
    hide FieldsSince, Written, Overlaid, AsMap;
    hide KvRuns.Played, KvRuns.AllOutcomes, Derived;
    var store, version;
    ghost var cmds;
    store, cmds, outs := ApplyAll(dict, slots);
    DerivedSizes(slots, cmds, outs);
    ok, value, version := store.GetCopy(key, KV_MAX_VALUE);
    if |Encode(FieldsSince(slots, outs, key))| <= 474 {
      LastFieldWins(dict, slots, cmds, outs, key);
    }
  }

  lemma DerivedSizes(slots: seq<Bytes>, cmds: seq<KvRuns.Command>, outs: seq<KvRuns.Outcome>)
    requires Derived(slots, cmds, outs)
    ensures |slots| == |cmds| == |outs|
  {
  }
}
