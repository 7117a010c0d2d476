/** The in-place merge of a delta's fields into a stored record: type-length-value entries, each a
    two-byte id, a two-byte length and the data, both little-endian.
 */
module WalMerge {
  import opened Bits

  const KV_MAX_VALUE := 508

  datatype Field = Field(id: half, data: Bytes)
  type Entry = f: Field | |f.data| < 0x1_0000 witness Field(0, [])

  function EncodeOne(f: Entry): (b: Bytes)
    ensures |b| == 4 + |f.data|
  {
    Store16(f.id) + Store16(|f.data|) + f.data
  }

  function Encode(rec: seq<Entry>): Bytes {
    if rec == [] then [] else EncodeOne(rec[0]) + Encode(rec[1..])
  }

  // The complete fields of a byte string, up to the first one that is cut short.
  function Parse(b: Bytes): seq<Entry> {
    if |b| < 4 || 4 + Load16(b, 2) > |b| then []
    else [Field(Load16(b, 0), b[4..4 + Load16(b, 2)])] + Parse(b[4 + Load16(b, 2)..])
  }

  // A byte string that is nothing but complete fields.
  predicate WellFormed(b: Bytes) {
    Encode(Parse(b)) == b
  }

  lemma HeaderOf(f: Entry, rest: Bytes)
    ensures var b := EncodeOne(f) + rest;
      Load16(b, 0) == f.id && Load16(b, 2) == |f.data| && b[4..4 + |f.data|] == f.data
      && b[4 + |f.data|..] == rest
  {
    var b := EncodeOne(f) + rest;
    assert b[..2] == Store16(f.id) && b[2..4] == Store16(|f.data|);
  }

  // Reading back what was written.
  lemma {:induction false} ParseEncode(rec: seq<Entry>)
    ensures Parse(Encode(rec)) == rec
  {
    if rec != [] {
      HeaderOf(rec[0], Encode(rec[1..]));
      ParseEncode(rec[1..]);
    }
  }

  lemma {:induction false} EncodeConcat(a: seq<Entry>, b: seq<Entry>)
    ensures Encode(a + b) == Encode(a) + Encode(b)
  {
    if a == [] {
      assert a + b == b;
    } else {
      assert (a + b)[1..] == a[1..] + b;
      EncodeConcat(a[1..], b);
    }
  }

  function IndexOf(rec: seq<Entry>, id: half): (i: nat)
    ensures i <= |rec| && (i < |rec| ==> rec[i].id == id)
    ensures forall j :: 0 <= j < i ==> rec[j].id != id
  {
    if rec == [] || rec[0].id == id then 0 else 1 + IndexOf(rec[1..], id)
  }

  // One field into a record: replace its entry, or add one, unless the record would outgrow its limit.
  function Put(rec: seq<Entry>, f: Entry): seq<Entry> {
    var i, size := IndexOf(rec, f.id), |Encode(rec)|;
    if i < |rec| then
      if size - |rec[i].data| + |f.data| <= KV_MAX_VALUE then rec[i := f] else rec
    else if size + 4 + |f.data| <= KV_MAX_VALUE then rec + [f] else rec
  }

  function PutAll(rec: seq<Entry>, fs: seq<Entry>): seq<Entry>
    decreases |fs|
  {
    if fs == [] then rec else PutAll(Put(rec, fs[0]), fs[1..])
  }

  predicate Distinct(rec: seq<Entry>) {
    forall i, j :: 0 <= i < j < |rec| ==> rec[i].id != rec[j].id
  }

  function AsMap(rec: seq<Entry>): (m: map<half, Bytes>)
  {
    if rec == [] then map[] else AsMap(rec[..|rec| - 1])[rec[|rec| - 1].id := rec[|rec| - 1].data]
  }

  lemma {:induction false} AsMapAt(rec: seq<Entry>, i: nat)
    requires Distinct(rec) && i < |rec|
    ensures rec[i].id in AsMap(rec) && AsMap(rec)[rec[i].id] == rec[i].data
  {
    if i < |rec| - 1 {
      AsMapAt(rec[..|rec| - 1], i);
    }
  }

  // What the stored map becomes: each field overrides its id, or is dropped whole when the record,
  // now `size` bytes, would outgrow its limit.
  function Override(m: map<half, Bytes>, size: int, fs: seq<Entry>): map<half, Bytes>
    decreases |fs|
  {
    if fs == [] then m
    else
      var grown := size + 4 + |fs[0].data| - (if fs[0].id in m then 4 + |m[fs[0].id]| else 0);
      if grown <= KV_MAX_VALUE then Override(m[fs[0].id := fs[0].data], grown, fs[1..])
      else Override(m, size, fs[1..])
  }

  lemma ReplaceSize(rec: seq<Entry>, i: nat, f: Entry)
    requires i < |rec|
    ensures Encode(rec) == Encode(rec[..i]) + EncodeOne(rec[i]) + Encode(rec[i + 1..])
    ensures Encode(rec[i := f]) == Encode(rec[..i]) + EncodeOne(f) + Encode(rec[i + 1..])
  {
    var upd := rec[i := f];
    assert rec == rec[..i] + rec[i..] && upd == rec[..i] + upd[i..];
    EncodeConcat(rec[..i], rec[i..]);
    EncodeConcat(rec[..i], upd[i..]);
    assert rec[i..][1..] == rec[i + 1..] && upd[i..][1..] == rec[i + 1..];
  }

  lemma AppendSize(rec: seq<Entry>, f: Entry)
    ensures Encode(rec + [f]) == Encode(rec) + EncodeOne(f)
  {
    EncodeConcat(rec, [f]);
    assert [f][1..] == [] && EncodeOne(f) + [] == EncodeOne(f);
    assert Encode([f]) == EncodeOne(f);
  }

  // One field: the record stays within its limit with distinct ids, and its map changes only there.
  lemma PutMap(rec: seq<Entry>, f: Entry)
    requires Distinct(rec) && |Encode(rec)| <= KV_MAX_VALUE
    ensures Distinct(Put(rec, f)) && |Encode(Put(rec, f))| <= KV_MAX_VALUE
    ensures var m, size := AsMap(rec), |Encode(rec)|;
      var grown := size + 4 + |f.data| - (if f.id in m then 4 + |m[f.id]| else 0);
      if grown <= KV_MAX_VALUE then
        AsMap(Put(rec, f)) == m[f.id := f.data] && |Encode(Put(rec, f))| == grown
      else Put(rec, f) == rec
  {
    var i := IndexOf(rec, f.id);
    if i < |rec| {
      AsMapAt(rec, i);
      ReplaceSize(rec, i, f);
      ReplacedMap(rec, i, f);
    } else {
      AsMapLacks(rec, f.id);
      AppendSize(rec, f);
      assert (rec + [f])[..|rec|] == rec;
    }
  }

  lemma {:induction false} AsMapLacks(rec: seq<Entry>, id: half)
    requires forall j :: 0 <= j < |rec| ==> rec[j].id != id
    ensures id !in AsMap(rec)
  {
    if rec != [] {
      AsMapLacks(rec[..|rec| - 1], id);
    }
  }

  lemma {:induction false} ReplacedMap(rec: seq<Entry>, i: nat, f: Entry)
    requires Distinct(rec) && i < |rec| && rec[i].id == f.id
    ensures AsMap(rec[i := f]) == AsMap(rec)[f.id := f.data]
  {
    var n := |rec| - 1;
    if i < n {
      ReplacedMap(rec[..n], i, f);
      assert rec[i := f][..n] == rec[..n][i := f];
    } else {
      assert rec[i := f][..n] == rec[..n];
    }
  }

  // The merge of a whole delta is the override of the stored map.
  lemma {:induction false} PutAllMap(rec: seq<Entry>, fs: seq<Entry>)
    requires Distinct(rec) && |Encode(rec)| <= KV_MAX_VALUE
    ensures Distinct(PutAll(rec, fs)) && |Encode(PutAll(rec, fs))| <= KV_MAX_VALUE
    ensures AsMap(PutAll(rec, fs)) == Override(AsMap(rec), |Encode(rec)|, fs)
    decreases |fs|
  {
    hide Put, Encode, AsMap, Distinct;
    if fs != [] {
      PutMap(rec, fs[0]);
      PutAllMap(Put(rec, fs[0]), fs[1..]);
    }
  }

  function Overlaid(m: map<half, Bytes>, fs: seq<Entry>): map<half, Bytes>
    decreases |fs|
  {
    if fs == [] then m else Overlaid(m[fs[0].id := fs[0].data], fs[1..])
  }

  // When record and delta fit together, every field is taken and the last one for an id wins.
  lemma {:induction false} AllFit(m: map<half, Bytes>, size: int, fs: seq<Entry>)
    requires size + |Encode(fs)| <= KV_MAX_VALUE
    ensures Override(m, size, fs) == Overlaid(m, fs)
    decreases |fs|
  {
    if fs != [] {
      var grown := size + 4 + |fs[0].data| - (if fs[0].id in m then 4 + |m[fs[0].id]| else 0);
      AllFit(m[fs[0].id := fs[0].data], grown, fs[1..]);
    }
  }

  method StoreHalf(buf: array<byte>, at: nat, h: half)
    requires at + 2 <= buf.Length
    modifies buf
    ensures buf[..] == old(buf[..at]) + Store16(h) + old(buf[at + 2..])
  {
    buf[at], buf[at + 1] := h % 0x100, h / 0x100;
  }

  lemma Joined(s: Bytes, a: Bytes, b: Bytes, c: Bytes)
    requires |s| == |a| + |b| + |c|
    requires s[..|a|] == a && s[|a|..|a| + |b|] == b && s[|a| + |b|..] == c
    ensures s == a + b + c
  {
  }

  lemma TakeJoined(s: Bytes, a: Bytes, b: Bytes, c: Bytes, n: nat)
    requires s == a + b + c && n <= |c|
    ensures s[..|a| + |b| + n] == a + b + c[..n]
  {
  }

  lemma FieldBytes(f: Entry, pre: Bytes, post: Bytes)
    ensures pre + Store16(f.id) + Store16(|f.data|) + f.data + post == pre + EncodeOne(f) + post
  {
    hide Store16;
  }

  // Header, length and data of a field, copied from the delta.
  method StoreField(buf: array<byte>, at: nat, f: Entry)
    requires at + 4 + |f.data| <= buf.Length
    modifies buf
    ensures buf[..] == old(buf[..at]) + EncodeOne(f) + old(buf[at + 4 + |f.data|..])
  {
    hide *;
    ghost var n, was := 4 + |f.data|, buf[..];
    StoreHalf(buf, at, f.id);
    StoreHalf(buf, at + 2, |f.data|);
    ghost var head, rest := buf[..at + 4], buf[at + n..];
    assert head == was[..at] + Store16(f.id) + Store16(|f.data|);
    assert rest == was[at + n..];
    forall i | 0 <= i < |f.data| {
      buf[at + 4 + i] := f.data[i];
    }
    Joined(buf[..], head, f.data, rest);
    FieldBytes(f, was[..at], rest);
  }

  lemma NoBytes(rec: seq<Entry>)
    ensures |Encode(rec[..0])| == 0
  {
  }

  // Where the entry with this id starts, or the end of the record.
  method Locate(merged: array<byte>, mergedLen: nat, id: half, ghost rec: seq<Entry>)
    returns (mpos: nat, found: bool)
    requires mergedLen <= merged.Length && merged[..mergedLen] == Encode(rec)
    ensures var i := IndexOf(rec, id);
      found == (i < |rec|) && mpos == |Encode(rec[..i])| <= mergedLen
    ensures var i := IndexOf(rec, id);
      found ==> mpos + 4 + |rec[i].data| <= mergedLen
                && Load16(merged[..mergedLen], mpos + 2) == |rec[i].data|
  {
    hide Encode, Load16;
    ghost var k := 0;
    mpos := 0;
    NoBytes(rec);
    while mpos + 4 <= mergedLen
      invariant k <= |rec| && mpos == |Encode(rec[..k])| <= mergedLen
      invariant forall j :: 0 <= j < k ==> rec[j].id != id
    {
      EntryAt(rec, k);
      var mfLen := Load16(merged[..mergedLen], mpos + 2);
      if Load16(merged[..mergedLen], mpos) == id {
        return mpos, true;
      }
      assert rec[..k + 1][..k] == rec[..k];
      AppendSize(rec[..k], rec[k]);
      assert rec[..k] + [rec[k]] == rec[..k + 1];
      mpos := mpos + 4 + mfLen;
      k := k + 1;
    }
    EntryAt(rec, k);
    assert rec[..|rec|] == rec;
    found := false;
  }

  // A record that goes on past its first k entries has the next one's header there.
  lemma EntryAt(rec: seq<Entry>, k: nat)
    requires k <= |rec|
    ensures |Encode(rec[..k])| < |Encode(rec)| ==> k < |rec|
    ensures k < |rec| ==> var at := |Encode(rec[..k])|;
      at + 4 + |rec[k].data| <= |Encode(rec)|
      && Load16(Encode(rec), at) == rec[k].id && Load16(Encode(rec), at + 2) == |rec[k].data|
  {
    hide *;
    if k < |rec| {
      var at := |Encode(rec[..k])|;
      ReplaceSize(rec, k, rec[k]);
      HeaderOf(rec[k], Encode(rec[k + 1..]));
      assert Encode(rec)[at..] == EncodeOne(rec[k]) + Encode(rec[k + 1..]);
      HalfShift(Encode(rec), at, 0);
      HalfShift(Encode(rec), at, 2);
    } else {
      assert rec[..k] == rec;
    }
  }

  method Shift(buf: array<byte>, from: nat, to: nat, n: nat)
    requires from + n <= buf.Length && to + n <= buf.Length
    modifies buf
    ensures buf[..to] == old(buf[..to]) && buf[to..to + n] == old(buf[from..from + n])
  {
    forall j | 0 <= j < n {
      buf[to + j] := buf[from + j];
    }
  }

  // The n bytes at `from` have been moved to `to`, and nothing below them touched.
  ghost predicate Moved(was: Bytes, now: Bytes, from: nat, to: nat, n: nat) {
    && |was| == |now| && from + n <= |was| && to + n <= |was|
    && now[..to] == was[..to] && now[to..to + n] == was[from..from + n]
  }

  // The bytes at `at` have been overwritten with b.
  ghost predicate Written(was: Bytes, now: Bytes, at: nat, b: Bytes) {
    at + |b| <= |was| && now == was[..at] + b + was[at + |b|..]
  }

  method MoveTail(buf: array<byte>, from: nat, to: nat, n: nat)
    requires from + n <= buf.Length && to + n <= buf.Length
    modifies buf
    ensures Moved(old(buf[..]), buf[..], from, to, n)
  {
    if n > 0 && from != to {
      Shift(buf, from, to, n);
    }
  }

  method WriteField(buf: array<byte>, at: nat, f: Entry)
    requires at + 4 + |f.data| <= buf.Length
    modifies buf
    ensures Written(old(buf[..]), buf[..], at, EncodeOne(f))
  {
    StoreField(buf, at, f);
  }

  // The first `end` bytes, with what lay between mpos and `from` replaced by b.
  ghost predicate Respliced(was: Bytes, now: Bytes, mpos: nat, from: nat, end: nat, b: Bytes) {
    && mpos <= from <= end <= |was| && mpos + |b| + end - from <= |now|
    && now[..mpos + |b| + end - from] == was[..mpos] + b + was[from..end]
  }

  // Write a field over the oldSize bytes at mpos, the rest of the record shifted to meet it.
  method Splice(merged: array<byte>, mergedLen: nat, mpos: nat, oldSize: nat, f: Entry)
    returns (len: nat)
    requires mpos + oldSize <= mergedLen <= merged.Length
    requires mergedLen - oldSize + 4 + |f.data| <= merged.Length
    modifies merged
    ensures len == mergedLen - oldSize + 4 + |f.data|
    ensures Respliced(old(merged[..]), merged[..], mpos, mpos + oldSize, mergedLen, EncodeOne(f))
  {
    hide *;
    var newSize := 4 + |f.data|;
    var tailStart := mpos + oldSize;
    ghost var was := merged[..];
    len := mergedLen + newSize - oldSize;
    MoveTail(merged, tailStart, mpos + newSize, mergedLen - tailStart);
    ghost var mid := merged[..];
    WriteField(merged, mpos, f);
    Spliced(was, mid, merged[..], mpos, tailStart, mergedLen - tailStart, EncodeOne(f));
  }

  lemma Spliced(was: Bytes, mid: Bytes, now: Bytes, mpos: nat, from: nat, n: nat, b: Bytes)
    requires mpos <= from && Moved(was, mid, from, mpos + |b|, n) && Written(mid, now, mpos, b)
    ensures Respliced(was, now, mpos, from, from + n, b)
  {
    assert mid[..mpos] == mid[..mpos + |b|][..mpos] == was[..mpos];
    TakeJoined(now, mid[..mpos], b, mid[mpos + |b|..], n);
    assert mid[mpos + |b|..][..n] == mid[mpos + |b|..mpos + |b| + n];
  }

  method Replace(merged: array<byte>, mergedLen: nat, mpos: nat, f: Entry, ghost rec: seq<Entry>)
    returns (len: nat)
    requires mergedLen <= merged.Length && merged[..mergedLen] == Encode(rec)
    requires IndexOf(rec, f.id) < |rec| && mpos == |Encode(rec[..IndexOf(rec, f.id)])|
    requires mergedLen - |rec[IndexOf(rec, f.id)].data| + |f.data| <= merged.Length
    requires mpos + 4 + |rec[IndexOf(rec, f.id)].data| <= mergedLen
    requires Load16(merged[..mergedLen], mpos + 2) == |rec[IndexOf(rec, f.id)].data|
    modifies merged
    ensures len == mergedLen - |rec[IndexOf(rec, f.id)].data| + |f.data|
    ensures merged[..len] == Encode(rec[IndexOf(rec, f.id) := f])
  {
    hide *;
    ghost var i := IndexOf(rec, f.id);
    ReplaceSize(rec, i, f);
    var oldSize := 4 + Load16(merged[..mergedLen], mpos + 2);
    ghost var head, tail := merged[..mpos], merged[mpos + oldSize..mergedLen];
    assert head == Encode(rec[..i]) && tail == Encode(rec[i + 1..]) by {
      assert merged[..mergedLen] == head + merged[mpos..mpos + oldSize] + tail;
    }
    ghost var was := merged[..];
    len := Splice(merged, mergedLen, mpos, oldSize, f);
    RespliceMeans(was, merged[..], mpos, mpos + oldSize, mergedLen, EncodeOne(f));
    assert merged[..len] == merged[..][..len];
    assert was[..mpos] == head && was[mpos + oldSize..mergedLen] == tail;
  }

  lemma RespliceMeans(was: Bytes, now: Bytes, mpos: nat, from: nat, end: nat, b: Bytes)
    requires Respliced(was, now, mpos, from, end, b)
    ensures mpos <= from <= end <= |was| && mpos + |b| + end - from <= |now|
    ensures now[..mpos + |b| + end - from] == was[..mpos] + b + was[from..end]
  {
  }

  lemma HalfShift(s: Bytes, at: nat, i: nat)
    requires at + i + 2 <= |s|
    ensures Load16(s[at..], i) == Load16(s, at + i)
  {
  }

  // One field of the delta into the buffer. A field that cannot replace its entry cannot be
  // appended either, so none is ever duplicated.
  method MergeField(merged: array<byte>, mergedLen: nat, f: Entry, ghost rec: seq<Entry>)
    returns (len: nat)
    requires merged.Length == KV_MAX_VALUE && mergedLen <= KV_MAX_VALUE
    requires merged[..mergedLen] == Encode(rec)
    modifies merged
    ensures len <= KV_MAX_VALUE && merged[..len] == Encode(Put(rec, f))
  {
    hide Encode, IndexOf, Load16, Store16;
    len := mergedLen;
    var replaced := false;
    var mpos, found := Locate(merged, mergedLen, f.id, rec);
    if found {
      var oldSize := 4 + Load16(merged[..mergedLen], mpos + 2);
      if mergedLen + 4 + |f.data| - oldSize <= KV_MAX_VALUE {
        len := Replace(merged, mergedLen, mpos, f, rec);
        replaced := true;
      }
    }
    if !replaced {
      if mergedLen + 4 + |f.data| <= KV_MAX_VALUE {
        AppendSize(rec, f);
        StoreField(merged, mergedLen, f);
        len := mergedLen + 4 + |f.data|;
        assert merged[..len] == Encode(rec) + EncodeOne(f);
      }
    }
  }

  // The whole merge. The buffer ends up holding exactly the record with every field put in turn;
  // seen as maps, the stored one overridden by the delta, a field that does not fit left out whole.
  method Merge(merged: array<byte>, existingLen: nat, delta: Bytes) returns (mergedLen: nat)
    requires merged.Length == KV_MAX_VALUE && existingLen <= KV_MAX_VALUE
    requires WellFormed(merged[..existingLen])
    modifies merged
    ensures mergedLen <= KV_MAX_VALUE && WellFormed(merged[..mergedLen])
    ensures Parse(merged[..mergedLen]) == PutAll(old(Parse(merged[..existingLen])), Parse(delta))
    ensures old(Distinct(Parse(merged[..existingLen]))) ==>
      Distinct(Parse(merged[..mergedLen])) && AsMap(Parse(merged[..mergedLen]))
        == Override(old(AsMap(Parse(merged[..existingLen]))), existingLen, Parse(delta))
  {
    hide *;
    mergedLen := existingLen;
    var dpos := 0;
    ghost var first := Parse(merged[..existingLen]);
    ghost var rec := first;
    assert Encode(first) == merged[..existingLen] by { WellFormedMeans(merged[..existingLen]); }
    assert delta[0..] == delta;
    while dpos + 4 <= |delta|
      invariant dpos <= |delta| && mergedLen <= KV_MAX_VALUE
      invariant merged[..mergedLen] == Encode(rec)
      invariant PutAll(rec, Parse(delta[dpos..])) == PutAll(first, Parse(delta))
    {
      var id, dataLen := Load16(delta, dpos), Load16(delta, dpos + 2);
      NextField(delta, dpos, rec);
      if dpos + 4 + dataLen > |delta| {
        break;
      }
      var f := Field(id, delta[dpos + 4..dpos + 4 + dataLen]);
      mergedLen := MergeField(merged, mergedLen, f, rec);
      rec := Put(rec, f);
      dpos := dpos + 4 + dataLen;
    }
    LastFields(delta, dpos, rec);
    ParseEncode(rec);
    WellFormedMeans(merged[..mergedLen]);
    if Distinct(first) {
      PutAllMap(first, Parse(delta));
    }
  }

  lemma WellFormedMeans(b: Bytes)
    ensures WellFormed(b) <==> Encode(Parse(b)) == b
  {
  }

  // The step from one field of the delta to the next.
  lemma NextField(delta: Bytes, dpos: nat, rec: seq<Entry>)
    requires dpos + 4 <= |delta|
    ensures var n := Load16(delta, dpos + 2);
      dpos + 4 + n <= |delta| ==>
        PutAll(rec, Parse(delta[dpos..]))
        == PutAll(Put(rec, Field(Load16(delta, dpos), delta[dpos + 4..dpos + 4 + n])), Parse(delta[dpos + 4 + n..]))
  {
    hide Put, Parse, Load16;
    var n := Load16(delta, dpos + 2);
    if dpos + 4 + n <= |delta| {
      ParseStep(delta, dpos);
      var f, rest := Field(Load16(delta, dpos), delta[dpos + 4..dpos + 4 + n]), Parse(delta[dpos + 4 + n..]);
      assert ([f] + rest)[1..] == rest;
    }
  }

  lemma ParseStep(delta: Bytes, dpos: nat)
    requires dpos + 4 <= |delta| && dpos + 4 + Load16(delta, dpos + 2) <= |delta|
    ensures var n := Load16(delta, dpos + 2);
      Parse(delta[dpos..])
      == [Field(Load16(delta, dpos), delta[dpos + 4..dpos + 4 + n])] + Parse(delta[dpos + 4 + n..])
  {
    hide Load16;
    var n, rest := Load16(delta, dpos + 2), delta[dpos..];
    HalfShift(delta, dpos, 0);
    HalfShift(delta, dpos, 2);
    assert rest[4 + n..] == delta[dpos + 4 + n..] && rest[4..4 + n] == delta[dpos + 4..dpos + 4 + n];
  }

  lemma LastFields(delta: Bytes, dpos: nat, rec: seq<Entry>)
    requires dpos <= |delta| < dpos + 4
      || (dpos + 4 <= |delta| && dpos + 4 + Load16(delta, dpos + 2) > |delta|)
    ensures PutAll(rec, Parse(delta[dpos..])) == rec
  {
    assert dpos + 4 <= |delta| ==> Load16(delta[dpos..], 2) == Load16(delta, dpos + 2);
  }
}
