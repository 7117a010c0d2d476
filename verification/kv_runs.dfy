/** Whole runs of the flash store from an erased region: what every key reads as, that a reboot rebuilds
    the live index.
 */
module KvRuns {
  import opened Bits
  import opened Collections
  import opened KvRecord
  import opened KvLog
  import opened KvIndex
  import opened KvPages
  import opened KvLayout
  import opened KvCrash
  import opened KvStore
  import opened KvRecovery
  import PicoStream

  datatype Command = Put(key: word, value: Bytes, expected: half) | Remove(key: word) | Compact(dead: nat)

  // Whether a command succeeded, and whether it reached the log, with n stored bytes.
  datatype Outcome = Outcome(ok: bool, logged: bool, n: nat)

  // Where the log goes on: each record after the last, or at the start of a page.
  function OffsetAfter(outs: seq<Outcome>): (off: nat) {
    if outs == [] then HEADER else NextOffset(OffsetAfter(outs[..|outs| - 1]), outs[|outs| - 1])
  }

  function NextOffset(off: nat, out: Outcome): nat {
    if out.logged then PlaceOf(off, out.n) + PairSpan(out.n) else off
  }

  // What the keys hold after a command, from offset off: a put that starts too late on its page leaves
  // its key without a value.
  function NextModel(m: map<word, Value>, cmd: Command, out: Outcome, off: nat): map<word, Value> {
    if !out.ok then m
    else
      match cmd
      case Put(key, value, _) => m[key := if Lost(off, out.n) then None else Some(value)]
      case Remove(key) => m - {key}
      case Compact(_) => m
  }

  function Played(cmds: seq<Command>, outs: seq<Outcome>): map<word, Value>
    requires |cmds| == |outs|
  {
    if cmds == [] then map[]
    else
      var n := |cmds| - 1;
      NextModel(Played(cmds[..n], outs[..n]), cmds[n], outs[n], OffsetAfter(outs[..n]))
  }

  // A put stores its value or a shorter encoding, and succeeds once logged unless the index is full.
  ghost predicate Outcomes(dict: Dictionary, m: map<word, Value>, cmd: Command, out: Outcome) {
    match cmd
    case Put(key, value, _) =>
      && (out.logged ==> |value| <= MAX_VALUE && StoresIn(dict, value, out.n) && out.n <= |value|)
      && (out.ok <==> out.logged && (key in m || |m| < INDEX_CAPACITY))
    case Remove(key) => out.ok == out.logged && out.n == 0 && (out.ok ==> key in m)
    case Compact(_) => !out.logged
  }

  ghost predicate AllOutcomes(dict: Dictionary, cmds: seq<Command>, outs: seq<Outcome>) {
    |cmds| == |outs| && forall i :: 0 <= i < |cmds| ==> Outcomes(dict, Played(cmds[..i], outs[..i]), cmds[i], outs[i])
  }

  // No compaction step erased a page, and no record was dropped.
  ghost predicate Kept(cmds: seq<Command>, outs: seq<Outcome>)
    requires |cmds| == |outs|
  {
    forall i :: 0 <= i < |cmds| ==> KeptBy(cmds[i], outs[i], OffsetAfter(outs[..i]))
  }

  predicate KeptBy(cmd: Command, out: Outcome, off: nat) {
    !(cmd.Compact? && out.ok) && !(out.logged && Lost(off, out.n))
  }

  // The puts of a key since it was last absent.
  function Puts(cmds: seq<Command>, outs: seq<Outcome>, key: word): nat
    requires |cmds| == |outs|
  {
    if cmds == [] then 0
    else
      var n := |cmds| - 1;
      var before := Puts(cmds[..n], outs[..n], key);
      if !outs[n].ok then before
      else
        match cmds[n]
        case Put(k, _, _) => if k == key then before + 1 else before
        case Remove(k) => if k == key then 0 else before
        case Compact(_) => before
  }

  // A key's version counts them, going round from 0xFFFE to 1.
  function VersionAfter(puts: nat): half {
    if puts == 0 then 0 else (puts - 1) % 0xFFFE + 1
  }

  ghost predicate VersionsCount(m: Index, cmds: seq<Command>, outs: seq<Outcome>) {
    |cmds| == |outs| && forall k: word :: CurrentVersion(m, k) == VersionAfter(Puts(cmds, outs, k))
  }

  // No put that expects another version than that reaches the log.
  ghost predicate Expected(cmds: seq<Command>, outs: seq<Outcome>) {
    |cmds| == |outs| && forall i :: 0 <= i < |cmds| && outs[i].logged ==>
      Meets(cmds[i], cmds[..i], outs[..i])
  }

  ghost predicate Meets(cmd: Command, cmds: seq<Command>, outs: seq<Outcome>)
    requires |cmds| == |outs|
  {
    cmd.Put? && cmd.expected != VERSION_ANY ==> cmd.expected == VersionAfter(Puts(cmds, outs, cmd.key))
  }

  // What one command does to a key's version.
  function VersionStep(v: half, cmd: Command, out: Outcome, key: word): half {
    if !out.ok then v
    else
      match cmd
      case Put(k, _, _) => if k == key then NextVersion(v) else v
      case Remove(k) => if k == key then 0 else v
      case Compact(_) => v
  }

  ghost predicate VersionsStep(before: Index, after: Index, cmd: Command, out: Outcome) {
    && (forall k: word :: CurrentVersion(after, k) == VersionStep(CurrentVersion(before, k), cmd, out, k))
    && (cmd.Put? && out.logged && cmd.expected != VERSION_ANY ==> cmd.expected == CurrentVersion(before, cmd.key))
  }

  lemma NextCounts(puts: nat)
    ensures NextVersion(VersionAfter(puts)) == VersionAfter(puts + 1)
  {
    if puts > 0 {
      var q, r := (puts - 1) / 0xFFFE, (puts - 1) % 0xFFFE;
      assert puts - 1 == 0xFFFE * q + r;
      if r == 0xFFFD {
        DivModUnique(puts, 0xFFFE, q + 1, 0);
      } else {
        DivModUnique(puts, 0xFFFE, q, r + 1);
      }
    }
  }

  lemma VersionsMore(before: Index, after: Index, cmds: seq<Command>, outs: seq<Outcome>, cmd: Command, out: Outcome)
    requires VersionsCount(before, cmds, outs) && VersionsStep(before, after, cmd, out) && Expected(cmds, outs)
    ensures VersionsCount(after, cmds + [cmd], outs + [out]) && Expected(cmds + [cmd], outs + [out])
  {
    var n := |cmds|;
    var cmds', outs' := cmds + [cmd], outs + [out];
    assert cmds'[..n] == cmds && outs'[..n] == outs;
    forall k: word ensures CurrentVersion(after, k) == VersionAfter(Puts(cmds', outs', k)) {
      NextCounts(Puts(cmds, outs, k));
    }
    forall i | 0 <= i <= n && outs'[i].logged ensures Meets(cmds'[i], cmds'[..i], outs'[..i]) {
      if i < n {
        assert cmds'[..i] == cmds[..i] && outs'[..i] == outs[..i];
        assert Meets(cmds[i], cmds[..i], outs[..i]);
      }
    }
  }

  // Of two puts that expect the same version of a key, at most one succeeds, and the key then has the
  // next version.
  method StalePut(store: Store, key: word, first: Bytes, second: Bytes, expected: half) returns (ok: bool, again: bool)
    requires store.Valid() && expected != VERSION_ANY
    modifies store, store.index
    ensures store.Valid() && !(ok && again)
    ensures ok ==> CurrentVersion(store.index.contents, key) == (if expected == 0xFFFE then 1 else expected + 1)
    ensures ok ==> key in store.model && store.model[key] in {None, Some(first)}
    ensures ok ==> store.model == old(store.model)[key := store.model[key]]
  {
    hide AllPagesOk, InOrder, AllOps, EntryOk, CountsExactly, ApplyOps, Room, Lost, PlaceOf, PairSpan, StoresIn, KeysOn;
    hide Chained, CrashSafe, KeyIndex.Valid;
    var version;
    ghost var n;
    ok, version, n := store.PutIfVersion(key, first, expected);
    again, version, n := store.PutIfVersion(key, second, expected);
  }

  // Versions count the commands, so none wraps while there are few.
  ghost predicate VersionsTo(m: Index, n: nat) {
    forall k :: k in m ==> m[k].version <= n
  }

  ghost predicate Fresh(store: Store, n: nat)
    reads store, store.index
  {
    store.pristine && VersionsTo(store.index.contents, n)
  }

  method StepPut(store: Store, key: word, value: Bytes, expected: half, ghost n: nat)
    returns (ok: bool, ghost out: Outcome)
    requires store.Valid()
    modifies store, store.index
    ensures store.Valid() && out.ok == ok
    ensures Outcomes(store.dict, old(store.model), Put(key, value, expected), out)
    ensures store.model == NextModel(old(store.model), Put(key, value, expected), out, old(store.writeOff))
    ensures store.writeOff == NextOffset(old(store.writeOff), out)
    ensures VersionsStep(old(store.index.contents), store.index.contents, Put(key, value, expected), out)
    ensures old(Fresh(store, n)) && n < 0xFFFE && KeptBy(Put(key, value, expected), out, old(store.writeOff)) ==>
      Fresh(store, n + 1)
  {
    hide AllPagesOk, InOrder, AllOps, EntryOk, CountsExactly, ApplyOps, Room, Lost, PlaceOf, PairSpan, StoresIn, KeysOn;
    hide Chained, CrashSafe, KeyIndex.Valid;
    SameKeys(store);
    var version;
    ghost var stored;
    ok, version, stored := store.PutIfVersion(key, value, expected);
    out := Outcome(ok, old(store.Reaches(key, value, expected, stored)), stored);
  }

  method StepRemove(store: Store, key: word, ghost n: nat) returns (ok: bool, ghost out: Outcome)
    requires store.Valid()
    modifies store, store.index
    ensures store.Valid() && out.ok == ok && Outcomes(store.dict, old(store.model), Remove(key), out)
    ensures store.model == NextModel(old(store.model), Remove(key), out, old(store.writeOff))
    ensures store.writeOff == NextOffset(old(store.writeOff), out)
    ensures VersionsStep(old(store.index.contents), store.index.contents, Remove(key), out)
    ensures old(Fresh(store, n)) && n < 0xFFFE && KeptBy(Remove(key), out, old(store.writeOff)) ==> Fresh(store, n + 1)
  {
    hide AllPagesOk, InOrder, AllOps, EntryOk, CountsExactly, ApplyOps, Room, Lost, PlaceOf, PairSpan, StoresIn, KeysOn;
    hide Chained, CrashSafe, KeyIndex.Valid;
    ok := store.Remove(key);
    out := Outcome(ok, ok, 0);
  }

  method Step(store: Store, cmd: Command, ghost n: nat) returns (ok: bool, ghost out: Outcome)
    requires store.Valid()
    modifies store, store.index
    ensures store.Valid() && out.ok == ok && Outcomes(store.dict, old(store.model), cmd, out)
    ensures store.model == NextModel(old(store.model), cmd, out, old(store.writeOff))
    ensures store.writeOff == NextOffset(old(store.writeOff), out)
    ensures VersionsStep(old(store.index.contents), store.index.contents, cmd, out)
    ensures old(Fresh(store, n)) && n < 0xFFFE && KeptBy(cmd, out, old(store.writeOff)) ==> Fresh(store, n + 1)
  {
    hide AllPagesOk, InOrder, AllOps, EntryOk, CountsExactly, ApplyOps, Room, Lost, PlaceOf, PairSpan, StoresIn, KeysOn;
    hide Chained, CrashSafe, KeyIndex.Valid;
    match cmd
    case Put(key, value, expected) =>
      ok, out := StepPut(store, key, value, expected, n);
    case Remove(key) =>
      ok, out := StepRemove(store, key, n);
    case Compact(dead) =>
      ok := store.CompactStep(dead);
      out := Outcome(ok, false, 0);
  }

  lemma SameKeys(store: Store)
    requires store.Valid()
    ensures store.index.contents.Keys == store.model.Keys && |store.index.contents| == |store.model|
  {
    assert |store.index.contents| == |store.index.contents.Keys| && |store.model| == |store.model.Keys|;
  }

  // Every run: the store holds what the commands and their outcomes say, and the log stays pristine
  // while nothing is erased or dropped and no version can have wrapped.
  method Run(dict: Dictionary, cmds: seq<Command>) returns (store: Store, oks: seq<bool>, ghost outs: seq<Outcome>)
    ensures fresh(store) && fresh(store.index) && store.Valid() && store.dict == dict
    ensures AllOutcomes(dict, cmds, outs) && |oks| == |cmds| && forall i :: 0 <= i < |cmds| ==> oks[i] == outs[i].ok
    ensures store.model == Played(cmds, outs) && store.writeOff == OffsetAfter(outs)
    ensures VersionsCount(store.index.contents, cmds, outs) && Expected(cmds, outs)
    ensures Kept(cmds, outs) && |cmds| < 0xFFFE ==> store.pristine
  {
    hide *;
    store := new Store(dict);
    oks, outs := [], [];
    Started(dict, store);
    for i := 0 to |cmds|
      invariant fresh(store) && fresh(store.index) && store.Valid() && store.dict == dict
      invariant |oks| == |outs| == i && forall j :: 0 <= j < i ==> oks[j] == outs[j].ok
      invariant AllOutcomes(dict, cmds[..i], outs)
      invariant store.model == Played(cmds[..i], outs) && store.writeOff == OffsetAfter(outs)
      invariant VersionsCount(store.index.contents, cmds[..i], outs) && Expected(cmds[..i], outs)
      invariant Kept(cmds[..i], outs) && |cmds| < 0xFFFE ==> Fresh(store, i)
    {
      var ok;
      ghost var out;
      ghost var before := store.index.contents;
      ok, out := Step(store, cmds[i], i);
      assert cmds[..i + 1] == cmds[..i] + [cmds[i]];
      OneMore(dict, cmds[..i], outs, cmds[i], out);
      VersionsMore(before, store.index.contents, cmds[..i], outs, cmds[i], out);
      oks, outs := oks + [ok], outs + [out];
    }
    assert cmds[..|cmds|] == cmds;
    FreshIs(store, |cmds|);
  }

  lemma OneMore(dict: Dictionary, cmds: seq<Command>, outs: seq<Outcome>, cmd: Command, out: Outcome)
    requires |cmds| == |outs| && AllOutcomes(dict, cmds, outs) && Outcomes(dict, Played(cmds, outs), cmd, out)
    ensures AllOutcomes(dict, cmds + [cmd], outs + [out])
    ensures Played(cmds + [cmd], outs + [out]) == NextModel(Played(cmds, outs), cmd, out, OffsetAfter(outs))
    ensures OffsetAfter(outs + [out]) == NextOffset(OffsetAfter(outs), out)
    ensures Kept(cmds + [cmd], outs + [out]) ==> Kept(cmds, outs) && KeptBy(cmd, out, OffsetAfter(outs))
  {
    hide Outcomes, AllOutcomes, NextModel, NextOffset, KeptBy, Kept;
    assert (cmds + [cmd])[..|cmds|] == cmds && (outs + [out])[..|cmds|] == outs;
    OutcomesMore(dict, cmds, outs, cmd, out);
    KeptMore(cmds, outs, cmd, out);
  }

  lemma OutcomesMore(dict: Dictionary, cmds: seq<Command>, outs: seq<Outcome>, cmd: Command, out: Outcome)
    requires AllOutcomes(dict, cmds, outs) && Outcomes(dict, Played(cmds, outs), cmd, out)
    ensures AllOutcomes(dict, cmds + [cmd], outs + [out])
  {
    hide Outcomes, Played;
    var n, cmds', outs' := |cmds|, cmds + [cmd], outs + [out];
    forall i | 0 <= i <= n
      ensures Outcomes(dict, Played(cmds'[..i], outs'[..i]), cmds'[i], outs'[i])
    {
      assert cmds'[..i] == cmds[..i] && outs'[..i] == outs[..i];
      assert i == n ==> cmds[..i] == cmds && outs[..i] == outs;
    }
  }

  lemma KeptMore(cmds: seq<Command>, outs: seq<Outcome>, cmd: Command, out: Outcome)
    requires |cmds| == |outs|
    ensures Kept(cmds + [cmd], outs + [out]) ==> Kept(cmds, outs) && KeptBy(cmd, out, OffsetAfter(outs))
  {
    hide KeptBy, OffsetAfter;
    var n, cmds', outs' := |cmds|, cmds + [cmd], outs + [out];
    if Kept(cmds', outs') {
      forall i | 0 <= i <= n
        ensures KeptBy(cmds'[i], outs'[i], OffsetAfter(outs[..i]))
      {
        assert outs'[..i] == outs[..i];
        assert KeptBy(cmds'[i], outs'[i], OffsetAfter(outs'[..i]));
      }
      assert outs[..n] == outs && KeptBy(cmds'[n], outs'[n], OffsetAfter(outs[..n]));
      forall i | 0 <= i < n
        ensures KeptBy(cmds[i], outs[i], OffsetAfter(outs[..i]))
      {
        assert KeptBy(cmds'[i], outs'[i], OffsetAfter(outs[..i]));
      }
    }
  }

  lemma Started(dict: Dictionary, store: Store)
    requires store.Valid() && store.model == map[] && store.pristine
    ensures VersionsCount(store.index.contents, [], []) && Expected([], [])
    ensures Fresh(store, 0) && AllOutcomes(dict, [], []) && Played([], []) == map[] && OffsetAfter([]) == HEADER
  {
  }

  lemma FreshIs(store: Store, n: nat)
    ensures Fresh(store, n) ==> store.pristine
  {
  }

  // Then a read returns the value last put, unless that put was lost, the key was deleted since, or the
  // buffer is too small.
  method RunThenGet(dict: Dictionary, cmds: seq<Command>, key: word, cap: nat)
    returns (oks: seq<bool>, ghost outs: seq<Outcome>, ok: bool, value: Bytes)
    ensures AllOutcomes(dict, cmds, outs) && |oks| == |cmds| && forall i :: 0 <= i < |cmds| ==> oks[i] == outs[i].ok
    ensures var m := Played(cmds, outs);
      (ok <==> key in m && m[key].Some? && |m[key].value| <= cap) && (ok ==> value == m[key].value)
    ensures Small(cmds) ==> var v := LastPut(cmds, oks, key);
      (ok <==> v.Some? && |v.value| <= cap) && (ok ==> value == v.value)
  {
    hide AllPagesOk, InOrder, AllOps, EntriesOk, CountsExactly, ApplyOps, Played, AllOutcomes, LastPut, Small;
    var store, version;
    store, oks, outs := Run(dict, cmds);
    ok, value, version := store.GetCopy(key, cap);
    if Small(cmds) {
      LastPutIs(dict, cmds, oks, outs, key);
    }
  }

  // Values that are never dropped, compressible or not.
  predicate Small(cmds: seq<Command>) {
    forall i :: 0 <= i < |cmds| && cmds[i].Put? ==> |cmds[i].value| <= 474
  }

  // The last value put under a key, unless it was deleted since.
  function LastPut(cmds: seq<Command>, oks: seq<bool>, key: word): Option<Bytes>
    requires |cmds| == |oks|
  {
    if cmds == [] then None
    else
      var n := |cmds| - 1;
      if oks[n] && cmds[n].Put? && cmds[n].key == key then Some(cmds[n].value)
      else if oks[n] && cmds[n].Remove? && cmds[n].key == key then None
      else LastPut(cmds[..n], oks[..n], key)
  }

  lemma {:induction false} LastPutIs(dict: Dictionary, cmds: seq<Command>, oks: seq<bool>, outs: seq<Outcome>, key: word)
    requires AllOutcomes(dict, cmds, outs) && Small(cmds)
    requires |oks| == |cmds| && forall i :: 0 <= i < |cmds| ==> oks[i] == outs[i].ok
    ensures var m := Played(cmds, outs); LastPut(cmds, oks, key) == if key in m then m[key] else None
  {
    hide Lost, PlaceOf, PairSpan, StoresIn, OffsetAfter;
    if cmds != [] {
      var n := |cmds| - 1;
      InitOutcomes(dict, cmds, outs);
      LastPutIs(dict, cmds[..n], oks[..n], outs[..n], key);
      SmallFits(dict, cmds, outs, n);
      assert Outcomes(dict, Played(cmds[..n], outs[..n]), cmds[n], outs[n]);
    }
  }

  lemma InitOutcomes(dict: Dictionary, cmds: seq<Command>, outs: seq<Outcome>)
    requires AllOutcomes(dict, cmds, outs) && cmds != []
    ensures AllOutcomes(dict, cmds[..|cmds| - 1], outs[..|cmds| - 1])
  {
    hide Outcomes, Played;
    var n := |cmds| - 1;
    forall i | 0 <= i < n
      ensures cmds[..n][..i] == cmds[..i] && outs[..n][..i] == outs[..i]
    {
    }
  }

  lemma SmallFits(dict: Dictionary, cmds: seq<Command>, outs: seq<Outcome>, i: nat)
    requires AllOutcomes(dict, cmds, outs) && Small(cmds) && i < |cmds|
    ensures outs[i].logged ==> !Lost(OffsetAfter(outs[..i]), outs[i].n)
  {
    hide Lost, PlaceOf, PairSpan, StoresIn, OffsetAfter;
    assert Outcomes(dict, Played(cmds[..i], outs[..i]), cmds[i], outs[i]);
    Aligned(outs[..i]);
    if outs[i].logged {
      LostWhen(OffsetAfter(outs[..i]), outs[i].n);
    }
  }

  // And a reboot rebuilds the index the store had: every run without an erased page or a dropped record
  // and with fewer commands than versions.
  method RunThenReboot(dict: Dictionary, cmds: seq<Command>)
    returns (store: Store, oks: seq<bool>, ghost outs: seq<Outcome>, index: KeyIndex, writePage: nat, writeOff: nat)
    ensures store.Valid() && AllOutcomes(dict, cmds, outs) && store.model == Played(cmds, outs)
    ensures |oks| == |cmds| && forall i :: 0 <= i < |cmds| ==> oks[i] == outs[i].ok
    ensures Kept(cmds, outs) && |cmds| < 0xFFFE ==>
      index.contents == store.index.contents && index.contents.Keys == Played(cmds, outs).Keys
  {
    hide AllPagesOk, InOrder, AllOps, CountsExactly, ApplyOps, Played, Kept, EntryOk, AllOutcomes;
    store, oks, outs := Run(dict, cmds);
    index, writePage, writeOff := Reboot(store);
  }

  // In a run of values up to 474 bytes nothing is dropped, whatever the outcomes, and every key has its
  // value.
  lemma SmallKept(dict: Dictionary, cmds: seq<Command>, outs: seq<Outcome>)
    requires AllOutcomes(dict, cmds, outs) && Small(cmds)
    ensures forall k :: k in Played(cmds, outs) ==> Played(cmds, outs)[k].Some?
    ensures (forall i :: 0 <= i < |cmds| && cmds[i].Compact? ==> !outs[i].ok) ==> Kept(cmds, outs)
  {
    assert |cmds| == |outs|;
    hide AllOutcomes, Played, Small, Lost, OffsetAfter;
    SmallValues(dict, cmds, outs);
    forall i | 0 <= i < |cmds|
      ensures outs[i].logged ==> !Lost(OffsetAfter(outs[..i]), outs[i].n)
    {
      SmallFits(dict, cmds, outs, i);
    }
  }

  lemma {:induction false} SmallValues(dict: Dictionary, cmds: seq<Command>, outs: seq<Outcome>)
    requires AllOutcomes(dict, cmds, outs) && Small(cmds)
    ensures forall k :: k in Played(cmds, outs) ==> Played(cmds, outs)[k].Some?
  {
    assert |cmds| == |outs|;
    hide AllOutcomes, Outcomes, OffsetAfter, NextModel;
    if cmds != [] {
      var n := |cmds| - 1;
      InitOutcomes(dict, cmds, outs);
      SmallValues(dict, cmds[..n], outs[..n]);
      SmallNext(dict, cmds, outs, n);
    }
  }

  lemma SmallNext(dict: Dictionary, cmds: seq<Command>, outs: seq<Outcome>, i: nat)
    requires AllOutcomes(dict, cmds, outs) && Small(cmds) && i < |cmds|
    ensures var m := Played(cmds[..i], outs[..i]);
      (forall k :: k in m ==> m[k].Some?) ==>
      forall k :: k in NextModel(m, cmds[i], outs[i], OffsetAfter(outs[..i])) ==>
        NextModel(m, cmds[i], outs[i], OffsetAfter(outs[..i]))[k].Some?
  {
    hide Lost, OffsetAfter, StoresIn, Played;
    SmallFits(dict, cmds, outs, i);
    assert Outcomes(dict, Played(cmds[..i], outs[..i]), cmds[i], outs[i]);
  }

  lemma {:induction false} Aligned(outs: seq<Outcome>)
    ensures OffsetAfter(outs) % 4 == 0
  {
    if outs != [] {
      Aligned(outs[..|outs| - 1]);
    }
  }
}
