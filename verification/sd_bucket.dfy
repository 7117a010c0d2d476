/** Hash-table buckets on the SD card: 512 bytes holding a checksum, a count and up to 63 entries,
    edited in place.
 */
module SdBucket {
  import opened Bits

  const BLOCK := 512
  const ENTRIES := 63
  const HDR := 8

  datatype Entry = Entry(key: word, slot: word)

  function Count(b: Bytes): nat
    requires |b| == BLOCK
  {
    Load16(b, 2)
  }

  function EntryAt(b: Bytes, i: nat): Entry
    requires |b| == BLOCK && i < ENTRIES
  {
    Entry(Load32(b, HDR + 8 * i), Load32(b, HDR + 8 * i + 4))
  }

  // The entries of a bucket.
  function View(b: Bytes): (v: seq<Entry>)
    requires |b| == BLOCK && Count(b) <= ENTRIES
    ensures |v| == Count(b)
  {
    seq(Count(b), i requires 0 <= i < Count(b) => EntryAt(b, i))
  }

  // CRC-16-CCITT from the table's own seed.
  function CrcBit(c: nat, n: nat): nat
    decreases n
  {
    if n == 0 then c
    else CrcBit(if c >= 0x8000 then Xor(c * 2 % 0x1_0000, 0x1021) else c * 2, n - 1)
  }

  function CrcFold(c: nat, data: Bytes): nat
    decreases |data|
  {
    if data == [] then c else CrcFold(CrcBit(Xor(c, 0x100 * (data[0] as int)), 8), data[1..])
  }

  function Crc16(data: Bytes): (c: nat)
    ensures c < 0x1_0000
  {
    CrcFold(0xA5B6, data) % 0x1_0000
  }

  predicate Good(b: Bytes) {
    |b| == BLOCK && Load16(b, 0) == Crc16(b[2..]) && Count(b) <= ENTRIES
  }

  // Two buckets that differ only in the checksum hold the same.
  lemma SameView(b: Bytes, c: Bytes)
    requires |b| == |c| == BLOCK && b[2..] == c[2..] && Count(b) <= ENTRIES
    ensures Count(b) == Count(c) && View(b) == View(c)
  {
    assert forall i :: 2 <= i < BLOCK ==> b[i] == b[2..][i - 2] && c[i] == c[2..][i - 2];
    assert Count(c) == Count(b);
    forall i | 0 <= i < Count(b) ensures EntryAt(b, i) == EntryAt(c, i) {
    }
  }

  method Store(buf: array<byte>, off: nat, w: word)
    requires buf.Length == BLOCK && off + 4 <= BLOCK
    modifies buf
    ensures Load32(buf[..], off) == w
    ensures forall k :: 0 <= k < BLOCK && !(off <= k < off + 4) ==> buf[k] == old(buf[k])
  {
    var b := Store32(w);
    buf[off], buf[off + 1], buf[off + 2], buf[off + 3] := b[0], b[1], b[2], b[3];
    assert buf[..][..off] + b + buf[..][off + 4..] == buf[..];
    Load32Store(buf[..][..off], w, buf[..][off + 4..]);
  }

  method SetCount(buf: array<byte>, n: nat)
    requires buf.Length == BLOCK && n <= ENTRIES
    modifies buf
    ensures Count(buf[..]) == n
    ensures forall k :: 0 <= k < BLOCK && k != 2 && k != 3 ==> buf[k] == old(buf[k])
  {
    buf[2], buf[3] := n, 0;
  }

  // Entries untouched by an edit read the same.
  lemma EntryUnchanged(b: Bytes, c: Bytes, i: nat)
    requires |b| == |c| == BLOCK && i < ENTRIES
    requires forall k :: HDR + 8 * i <= k < HDR + 8 * i + 8 ==> b[k] == c[k]
    ensures EntryAt(b, i) == EntryAt(c, i)
  {
  }

  // The index of a key in a bucket, or -1.
  method Find(buf: array<byte>, key: word) returns (r: int)
    requires buf.Length == BLOCK && Count(buf[..]) <= ENTRIES
    ensures r == FirstOf(View(buf[..]), key)
  {
    hide Load32;
    ghost var v := View(buf[..]);
    for i := 0 to Count(buf[..])
      invariant FirstOf(v, key) == FirstFrom(v, key, i)
    {
      if Load32(buf[..], HDR + 8 * i) == key {
        return i;
      }
    }
    r := -1;
  }

  function FirstFrom(v: seq<Entry>, key: word, i: nat): (r: int)
    requires i <= |v|
    ensures r == -1 || i <= r < |v|
    ensures r >= 0 ==> v[r].key == key && forall j :: i <= j < r ==> v[j].key != key
    ensures r == -1 ==> forall j :: i <= j < |v| ==> v[j].key != key
    decreases |v| - i
  {
    if i == |v| then -1 else if v[i].key == key then i else FirstFrom(v, key, i + 1)
  }

  function FirstOf(v: seq<Entry>, key: word): (r: int)
    ensures r == -1 || 0 <= r < |v|
    ensures r >= 0 ==> v[r].key == key && forall j :: 0 <= j < r ==> v[j].key != key
    ensures r == -1 ==> forall j :: 0 <= j < |v| ==> v[j].key != key
  {
    FirstFrom(v, key, 0)
  }

  // Append an entry.
  method AddEntry(buf: array<byte>, key: word, slot: word)
    requires buf.Length == BLOCK && Count(buf[..]) < ENTRIES
    modifies buf
    ensures Count(buf[..]) == old(Count(buf[..])) + 1
    ensures View(buf[..]) == old(View(buf[..])) + [Entry(key, slot)]
  {
    hide Load32;
    ghost var before := buf[..];
    var n := Count(buf[..]);
    Store(buf, HDR + 8 * n, key);
    ghost var mid := buf[..];
    Store(buf, HDR + 8 * n + 4, slot);
    Load32Same(mid, buf[..], HDR + 8 * n);
    ghost var full := buf[..];
    SetCount(buf, n + 1);
    Load32Same(full, buf[..], HDR + 8 * n);
    Load32Same(full, buf[..], HDR + 8 * n + 4);
    forall i | 0 <= i < n ensures EntryAt(buf[..], i) == EntryAt(before, i) {
      EntryUnchanged(before, buf[..], i);
    }
  }

  lemma Load32Same(b: Bytes, c: Bytes, i: nat)
    requires |b| == |c| && i + 4 <= |b| && forall k :: i <= k < i + 4 ==> b[k] == c[k]
    ensures Load32(b, i) == Load32(c, i)
  {
  }

  // Replace the slot of an entry.
  method SetSlot(buf: array<byte>, i: nat, slot: word)
    requires buf.Length == BLOCK && Count(buf[..]) <= ENTRIES && i < Count(buf[..])
    modifies buf
    ensures Count(buf[..]) == old(Count(buf[..]))
    ensures View(buf[..]) == old(View(buf[..]))[i := Entry(old(View(buf[..]))[i].key, slot)]
  {
    hide Load32;
    ghost var before := buf[..];
    Store(buf, HDR + 8 * i + 4, slot);
    Load32Same(before, buf[..], HDR + 8 * i);
    forall j | 0 <= j < Count(before) && j != i ensures EntryAt(buf[..], j) == EntryAt(before, j) {
      EntryUnchanged(before, buf[..], j);
    }
  }

  // The last entry takes the place of the removed one.
  function SwapRemoved(v: seq<Entry>, i: nat): (r: seq<Entry>)
    requires i < |v|
    ensures |r| == |v| - 1
  {
    v[i := v[|v| - 1]][..|v| - 1]
  }

  method RemoveEntry(buf: array<byte>, i: nat)
    requires buf.Length == BLOCK && Count(buf[..]) <= ENTRIES && i < Count(buf[..])
    modifies buf
    ensures Count(buf[..]) == old(Count(buf[..])) - 1
    ensures View(buf[..]) == SwapRemoved(old(View(buf[..])), i)
  {
    hide Load32;
    ghost var before := buf[..];
    var n := Count(buf[..]);
    if i < n - 1 {
      forall k | 0 <= k < 8 {
        buf[HDR + 8 * i + k] := buf[HDR + 8 * (n - 1) + k];
      }
      assert buf[..][HDR + 8 * i..HDR + 8 * i + 8] == before[HDR + 8 * (n - 1)..HDR + 8 * (n - 1) + 8];
      EntryMoved(before, buf[..], n - 1, i);
    }
    ghost var moved := buf[..];
    forall k | 0 <= k < 8 {
      buf[HDR + 8 * (n - 1) + k] := 0;
    }
    SetCount(buf, n - 1);
    forall j | 0 <= j < n - 1 ensures EntryAt(buf[..], j) == if j == i then EntryAt(before, n - 1) else EntryAt(before, j) {
      EntryUnchanged(moved, buf[..], j);
      if j != i {
        EntryUnchanged(before, moved, j);
      }
    }
  }

  lemma EntryMoved(b: Bytes, c: Bytes, i: nat, j: nat)
    requires |b| == |c| == BLOCK && i < ENTRIES && j < ENTRIES
    requires b[HDR + 8 * i..HDR + 8 * i + 8] == c[HDR + 8 * j..HDR + 8 * j + 8]
    ensures EntryAt(b, i) == EntryAt(c, j)
  {
    var x, y := HDR + 8 * i, HDR + 8 * j;
    var s, t := b[x..x + 8], c[y..y + 8];
    assert s[0] == t[0] && s[1] == t[1] && s[2] == t[2] && s[3] == t[3];
    assert s[4] == t[4] && s[5] == t[5] && s[6] == t[6] && s[7] == t[7];
  }
}
