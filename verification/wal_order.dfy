/** Reading a key's deltas in order: the sort by sequence number and the packing into one slot. */
module WalOrder {
  import opened Bits
  import opened WalState

  // xs lists the entries of one key, oldest first.
  ghost predicate InOrder(entries: seq<Entry>, key: word, xs: seq<nat>) {
    && (forall i: nat :: i in xs <==> i < |entries| && Matches(entries[i], key))
    && Rising(entries, xs)
  }

  ghost predicate Rising(entries: seq<Entry>, xs: seq<nat>) {
    && (forall k :: 0 <= k < |xs| ==> xs[k] < |entries|)
    && forall k, l :: 0 <= k < l < |xs| ==> entries[xs[k]].seqNo < entries[xs[l]].seqNo
  }

  lemma NoneInOrder(entries: seq<Entry>, key: word)
    requires forall i :: 0 <= i < |entries| ==> !Matches(entries[i], key)
    ensures InOrder(entries, key, [])
  {
  }

  // The last entry of a rising list is the newest, and is met nowhere else.
  lemma LastNewest(entries: seq<Entry>, xs: seq<nat>, i: nat)
    requires Rising(entries, xs) && i in xs
    ensures var last := xs[|xs| - 1];
      i < |entries| && last < |entries|
      && (i == last || entries[i].seqNo < entries[last].seqNo)
    ensures (i in xs[..|xs| - 1]) == (i != xs[|xs| - 1])
  {
    var k :| 0 <= k < |xs| && xs[k] == i;
    if k < |xs| - 1 {
      assert xs[..|xs| - 1][k] == i;
    }
  }

  // There is one such list.
  lemma {:induction false} RisingUnique(entries: seq<Entry>, xs: seq<nat>, ys: seq<nat>)
    requires Rising(entries, xs) && Rising(entries, ys)
    requires forall i: nat :: i in xs <==> i in ys
    ensures xs == ys
  {
    assert xs != [] ==> xs[|xs| - 1] in xs;
    assert ys != [] ==> ys[|ys| - 1] in ys;
    if xs != [] && ys != [] {
      var init, rest := xs[..|xs| - 1], ys[..|ys| - 1];
      assert Rising(entries, init) && Rising(entries, rest);
      hide Rising;
      LastNewest(entries, xs, ys[|ys| - 1]);
      LastNewest(entries, ys, xs[|xs| - 1]);
      forall i: nat
        ensures i in init <==> i in rest
      {
        if i in xs {
          LastNewest(entries, xs, i);
          LastNewest(entries, ys, i);
        }
      }
      RisingUnique(entries, init, rest);
      assert xs == init + [xs[|xs| - 1]] && ys == rest + [ys[|ys| - 1]];
    }
  }

  // As many whole deltas, from the first on, as fit in the room.
  function Packed(ds: seq<Bytes>, room: nat): (b: Bytes)
    ensures |b| <= room
  {
    if ds == [] || |ds[0]| > room then [] else ds[0] + Packed(ds[1..], room - |ds[0]|)
  }

  function Concat(ds: seq<Bytes>): Bytes {
    if ds == [] then [] else ds[0] + Concat(ds[1..])
  }

  // Nothing is cut off exactly when all of it fits.
  lemma {:induction false} PackedWhole(ds: seq<Bytes>, room: nat)
    requires forall k :: 0 <= k < |ds| ==> |ds[k]| > 0
    ensures Packed(ds, room) == Concat(ds) <==> |Concat(ds)| <= room
  {
    if ds != [] && |ds[0]| <= room {
      PackedWhole(ds[1..], room - |ds[0]|);
      if Packed(ds, room) == Concat(ds) {
        assert Packed(ds, room)[|ds[0]|..] == Packed(ds[1..], room - |ds[0]|);
        assert Concat(ds)[|ds[0]|..] == Concat(ds[1..]);
      }
    }
  }

  // Every listed entry lies within its slot.
  predicate Listed(entries: seq<Entry>, data: seq<Bytes>, xs: seq<nat>) {
    forall k :: 0 <= k < |xs| ==>
      && xs[k] < |entries| && entries[xs[k]].slot < |data|
      && HEADER <= entries[xs[k]].len <= |data[entries[xs[k]].slot]|
  }

  // The deltas of the listed entries.
  function Deltas(entries: seq<Entry>, data: seq<Bytes>, xs: seq<nat>): (ds: seq<Bytes>)
    requires Listed(entries, data, xs)
    ensures |ds| == |xs|
  {
    seq(|xs|, k requires 0 <= k < |xs| => data[entries[xs[k]].slot][..entries[xs[k]].len])
  }

  // Insertion sort of the matches by sequence number, both lists moved together.
  method SortBySeq(seqs: seq<word>, idxs: seq<nat>, ghost entries: seq<Entry>)
    returns (ss: seq<word>, xs: seq<nat>)
    requires InStep(seqs, idxs, entries) && AllDiffer(seqs)
    ensures InStep(ss, xs, entries) && Rising(entries, xs)
    ensures |xs| == |idxs| && forall i :: i in xs <==> i in idxs
  {
    hide AllDiffer;
    ss, xs := seqs, idxs;
    var i := 1;
    while i < |ss|
      invariant 1 <= i && (i <= |ss| || i == 1)
      invariant InStep(ss, xs, entries) && multiset(xs) == multiset(idxs)
      invariant AllDiffer(ss) && RisingTo(ss, i)
    {
      ss, xs := InsertAt(ss, xs, i, entries);
      i := i + 1;
    }
    assert |multiset(xs)| == |multiset(idxs)|;
    assert forall x :: x in xs <==> x in multiset(xs);
    assert forall x :: x in idxs <==> x in multiset(idxs);
  }

  // With x put at position h, the list is a reordering of ys.
  ghost predicate Perm(xs: seq<nat>, h: nat, x: nat, ys: seq<nat>) {
    h < |xs| && multiset(xs[h := x]) == multiset(ys)
  }

  lemma PermStarts(xs: seq<nat>, i: nat)
    requires i < |xs|
    ensures Perm(xs, i, xs[i], xs)
  {
    assert xs[i := xs[i]] == xs;
  }

  lemma PermMoves(xs: seq<nat>, j: nat, x: nat, ys: seq<nat>)
    requires j + 1 < |xs| && Perm(xs, j + 1, x, ys)
    ensures Perm(xs[j + 1 := xs[j]], j, x, ys)
  {
    var zs := xs[j + 1 := x];
    assert xs[j + 1 := xs[j]][j := x] == zs[j := zs[j + 1]][j + 1 := zs[j]];
  }

  lemma PermFills(xs: seq<nat>, h: nat, x: nat, ys: seq<nat>)
    requires Perm(xs, h, x, ys)
    ensures multiset(xs[h := x]) == multiset(ys)
  {
  }

  ghost predicate AllDiffer(ss: seq<word>) {
    forall k, l :: 0 <= k < l < |ss| ==> ss[k] != ss[l]
  }

  ghost predicate RisingTo(ss: seq<word>, i: nat) {
    forall k, l :: 0 <= k < l < i && l < |ss| ==> ss[k] < ss[l]
  }

  // With s put at position h, the list has no repeats; up to i it rises but for s, which belongs
  // somewhere at or below h.
  ghost predicate Hole(ss: seq<word>, s: word, h: nat, i: nat) {
    && h <= i < |ss|
    && AllDiffer(ss[h := s])
    && (forall k, l :: 0 <= k < l <= i && k != h && l != h ==> ss[k] < ss[l])
    && forall k :: h < k <= i ==> ss[k] > s
  }

  lemma HoleStarts(ss: seq<word>, i: nat)
    requires i < |ss| && AllDiffer(ss) && RisingTo(ss, i)
    ensures Hole(ss, ss[i], i, i)
  {
    assert ss[i := ss[i]] == ss;
  }

  lemma HoleMoves(ss: seq<word>, s: word, h: nat, i: nat)
    requires 0 < h && Hole(ss, s, h, i) && ss[h - 1] > s
    ensures Hole(ss[h := ss[h - 1]], s, h - 1, i)
  {
    var t := ss[h := ss[h - 1]];
    var was, filled := ss[h := s], t[h - 1 := s];
    forall k, l | 0 <= k < l < |filled|
      ensures filled[k] != filled[l]
    {
      var k', l' := if k == h then h - 1 else if k == h - 1 then h else k,
                    if l == h then h - 1 else if l == h - 1 then h else l;
      assert was[k'] == filled[k] && was[l'] == filled[l];
    }
  }

  lemma HoleFills(ss: seq<word>, s: word, h: nat, i: nat)
    requires Hole(ss, s, h, i) && (h == 0 || ss[h - 1] <= s)
    ensures AllDiffer(ss[h := s]) && RisingTo(ss[h := s], i + 1)
  {
    var t := ss[h := s];
    assert h > 0 ==> t[h - 1] != t[h];
    forall k, l | 0 <= k < l <= i
      ensures t[k] < t[l]
    {
      assert k < h - 1 ==> ss[k] < ss[h - 1];
    }
  }

  // Both lists stay in step.
  ghost predicate InStep(ss: seq<word>, xs: seq<nat>, entries: seq<Entry>) {
    && |ss| == |xs|
    && forall k :: 0 <= k < |xs| ==> xs[k] < |entries| && ss[k] == entries[xs[k]].seqNo
  }

  lemma InStepAt(ss: seq<word>, xs: seq<nat>, entries: seq<Entry>, k: nat)
    requires InStep(ss, xs, entries) && k < |xs|
    ensures xs[k] < |entries| && ss[k] == entries[xs[k]].seqNo
  {
  }

  lemma StepSet(ss: seq<word>, xs: seq<nat>, entries: seq<Entry>, h: nat, x: nat)
    requires InStep(ss, xs, entries) && h < |xs| && x < |entries|
    ensures InStep(ss[h := entries[x].seqNo], xs[h := x], entries)
  {
  }

  // The inner loop: element i moves down past the greater ones before it.
  method InsertAt(seqs: seq<word>, idxs: seq<nat>, i: nat, ghost entries: seq<Entry>)
    returns (ss: seq<word>, xs: seq<nat>)
    requires InStep(seqs, idxs, entries) && i < |seqs| == |idxs| && AllDiffer(seqs) && RisingTo(seqs, i)
    ensures |ss| == |xs| == |idxs| && InStep(ss, xs, entries) && multiset(xs) == multiset(idxs)
    ensures AllDiffer(ss) && RisingTo(ss, i + 1)
  {
    hide *;
    ss, xs := seqs, idxs;
    InStepAt(ss, xs, entries, i);
    var s, x := ss[i], xs[i];
    var j: int := i - 1;
    HoleStarts(ss, i);
    PermStarts(xs, i);
    while j >= 0 && ss[j] > s
      invariant -1 <= j < i < |ss| == |xs| == |idxs|
      invariant Perm(xs, j + 1, x, idxs)
      invariant InStep(ss, xs, entries) && Hole(ss, s, j + 1, i)
    {
      PermMoves(xs, j, x, idxs);
      HoleMoves(ss, s, j + 1, i);
      InStepAt(ss, xs, entries, j);
      StepSet(ss, xs, entries, j + 1, xs[j]);
      ss, xs := ss[j + 1 := ss[j]], xs[j + 1 := xs[j]];
      j := j - 1;
    }
    HoleFills(ss, s, j + 1, i);
    StepSet(ss, xs, entries, j + 1, x);
    PermFills(xs, j + 1, x, idxs);
    ss, xs := ss[j + 1 := s], xs[j + 1 := x];
  }

  lemma PackStep(ds: seq<Bytes>, i: nat, room: nat)
    requires i <= |ds|
    ensures i == |ds| || |ds[i]| > room ==> Packed(ds[i..], room) == []
    ensures i < |ds| && |ds[i]| <= room ==>
      Packed(ds[i..], room) == ds[i] + Packed(ds[i + 1..], room - |ds[i]|)
  {
    if i < |ds| {
      assert ds[i..][1..] == ds[i + 1..];
    }
  }

  lemma DeltaAt(entries: seq<Entry>, data: seq<Bytes>, xs: seq<nat>, k: nat)
    requires Listed(entries, data, xs)
    requires k < |xs|
    ensures Deltas(entries, data, xs)[k] == data[entries[xs[k]].slot][..entries[xs[k]].len]
  {
  }
}
