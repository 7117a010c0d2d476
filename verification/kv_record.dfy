/** Flash log records: a prefix, the stored value, padding, and a commit marker. */
module KvRecord {
  import opened Bits

  const SECTOR := 4096
  const PROGRAM_PAGE := 256
  const PROGRAM_MAX := 768
  const MAX_VALUE := 508
  const PREFIX := 26
  const COMMIT := 16
  const COMMIT_RAW := 14
  const KV_MAGIC := 0x4B56_5331
  const COMMIT_MAGIC := 0x4B56_4D43
  const FLAG_COMP := 1
  const FLAG_TOMB := 2

  function CrcStep(c: nat, n: nat): nat
    decreases n
  {
    if n == 0 then c
    else CrcStep(if c % 2 == 1 then Xor(c / 2, 0xEDB8_8320) else c / 2, n - 1)
  }

  function CrcFold(c: nat, data: Bytes): nat
    decreases |data|
  {
    if data == [] then c else CrcFold(Xor(CrcStep(Xor(c, data[0]) % 0x100, 8), c / 0x100), data[1..])
  }

  function Crc32(data: Bytes): word {
    U32(Xor(CrcFold(0xffff_ffff, data), 0xffff_ffff))
  }

  // The part of s at off is b.
  predicate Holds(s: Bytes, off: nat, b: Bytes) {
    off + |b| <= |s| && s[off..off + |b|] == b
  }

  lemma HoldsPart(s: Bytes, off: nat, b: Bytes, i: nat, j: nat)
    requires Holds(s, off, b) && i <= j <= |b|
    ensures Holds(s, off + i, b[i..j])
  {
    var t := s[off + i..off + i + |b[i..j]|];
    forall k | 0 <= k < j - i ensures t[k] == b[i..j][k] {
      assert b[i + k] == s[off..off + |b|][i + k] == s[off + (i + k)];
    }
    assert t == b[i..j];
  }

  lemma LoadHeld(s: Bytes, off: nat, b: Bytes, i: nat)
    requires Holds(s, off, b)
    ensures i + 2 <= |b| ==> Load16(s, off + i) == Load16(b, i)
    ensures i + 4 <= |b| ==> Load32(s, off + i) == Load32(b, i)
    ensures i < |b| ==> s[off + i] == b[i]
  {
    forall k | 0 <= k < |b| ensures s[off + k] == b[k] {
      assert s[off..off + |b|][k] == s[off + k];
    }
  }

  // One logged operation.
  datatype Item = Item(key: word, rawLen: half, stored: Bytes, version: half, flags: byte, group: word)

  predicate Storable(it: Item) {
    |it.stored| <= MAX_VALUE && it.rawLen <= MAX_VALUE
  }

  function Align4(n: nat): nat {
    (n + 3) / 4 * 4
  }

  // Size of a record without its commit marker, as written and as aligned.
  function RecLen(it: Item): nat {
    PREFIX + |it.stored|
  }

  // The 26 bytes before the stored value, in three parts.
  function Link(len: half, group: word, magic: word): (r: Bytes)
    ensures |r| == 10
  {
    Store16(len) + Store32(group) + Store32(magic)
  }

  function Identity(key: word, rawLen: half, storeLen: half): (r: Bytes)
    ensures |r| == 8
  {
    Store32(key) + Store16(rawLen) + Store16(storeLen)
  }

  function Check(version: half, flags: byte, crc: word): (r: Bytes)
    ensures |r| == 8
  {
    Store16(version) + [flags, 0] + Store32(crc)
  }

  function Prefix(it: Item, crc: word): (r: Bytes)
    requires Storable(it)
    ensures |r| == PREFIX
  {
    Link(RecLen(it), it.group, KV_MAGIC) + Identity(it.key, it.rawLen, |it.stored|)
    + Check(it.version, it.flags, crc)
  }

  function Blank(n: nat): (r: Bytes)
    ensures |r| == n && forall i :: 0 <= i < n ==> r[i] == 0xFF
  {
    seq(n, _ => 0xFF)
  }

  // A record with some checksum, and with its own.
  function FramedBytes(it: Item, crc: word): (r: Bytes)
    requires Storable(it)
    ensures |r| == Align4(RecLen(it))
  {
    Prefix(it, crc) + it.stored + Blank(Align4(RecLen(it)) - RecLen(it))
  }

  function RecordBytes(it: Item): (r: Bytes)
    requires Storable(it)
    ensures |r| == Align4(RecLen(it))
  {
    FramedBytes(it, Crc32(it.stored))
  }

  function CommitBody(group: word): (r: Bytes)
    ensures |r| == 8
  {
    Store32(group) + Store32(COMMIT_MAGIC)
  }

  function CommitBytes(group: word): (r: Bytes)
    ensures |r| == COMMIT
  {
    Link(COMMIT, group, COMMIT_MAGIC) + Store32(Crc32(CommitBody(group))) + Blank(2)
  }

  // A record and its commit marker, written in one go.
  function PairBytes(it: Item): (r: Bytes)
    requires Storable(it)
    ensures |r| == PairSize(it)
  {
    RecordBytes(it) + CommitBytes(it.group)
  }

  function PairSize(it: Item): (n: nat)
    ensures Storable(it) ==> 44 <= n <= 552 && n % 4 == 0
  {
    Align4(RecLen(it)) + COMMIT
  }

  lemma LinkFields(len: half, group: word, magic: word)
    ensures var r := Link(len, group, magic);
            Load16(r, 0) == len && Load32(r, 2) == group && Load32(r, 6) == magic
  {
    hide Load32, Store32, Load16, Store16;
    var a, b, c := Store16(len), Store32(group), Store32(magic);
    assert [] + a + (b + c) == a + b + c;
    Load16Store([], len, b + c);
    Load32Store(a, group, c);
    assert a + b + c + [] == a + b + c;
    Load32Store(a + b, magic, []);
  }

  lemma IdentityFields(key: word, rawLen: half, storeLen: half)
    ensures var r := Identity(key, rawLen, storeLen);
            Load32(r, 0) == key && Load16(r, 4) == rawLen && Load16(r, 6) == storeLen
  {
    hide Load32, Store32, Load16, Store16;
    var a, b, c := Store32(key), Store16(rawLen), Store16(storeLen);
    assert [] + a + (b + c) == a + b + c;
    Load32Store([], key, b + c);
    Load16Store(a, rawLen, c);
    assert a + b + c + [] == a + b + c;
    Load16Store(a + b, storeLen, []);
  }

  lemma CheckFields(version: half, flags: byte, crc: word)
    ensures var r := Check(version, flags, crc);
            Load16(r, 0) == version && r[2] == flags && Load32(r, 4) == crc
  {
    hide Load32, Store32, Load16, Store16;
    var a, b, c := Store16(version), [flags, 0], Store32(crc);
    assert [] + a + (b + c) == a + b + c;
    Load16Store([], version, b + c);
    assert a + b + c + [] == a + b + c;
    Load32Store(a + b, crc, []);
  }

  lemma FramedParts(s: Bytes, off: nat, it: Item, crc: word)
    requires Storable(it) && Holds(s, off, FramedBytes(it, crc))
    ensures Holds(s, off, Link(RecLen(it), it.group, KV_MAGIC))
    ensures Holds(s, off + 10, Identity(it.key, it.rawLen, |it.stored|))
    ensures Holds(s, off + 18, Check(it.version, it.flags, crc))
    ensures off + RecLen(it) <= |s| && s[off + PREFIX..off + RecLen(it)] == it.stored
  {
    hide Link, Identity, Check;
    var r := FramedBytes(it, crc);
    assert r[0..10] == Link(RecLen(it), it.group, KV_MAGIC);
    assert r[10..18] == Identity(it.key, it.rawLen, |it.stored|);
    assert r[18..26] == Check(it.version, it.flags, crc);
    assert r[26..RecLen(it)] == it.stored;
    HoldsPart(s, off, r, 0, 10);
    HoldsPart(s, off, r, 10, 18);
    HoldsPart(s, off, r, 18, 26);
    HoldsPart(s, off, r, 26, RecLen(it));
  }

  lemma FramedFields(s: Bytes, off: nat, it: Item, crc: word)
    requires Storable(it) && Holds(s, off, FramedBytes(it, crc))
    ensures Load16(s, off) == RecLen(it) && Load32(s, off + 2) == it.group && Load32(s, off + 6) == KV_MAGIC
    ensures Load32(s, off + 10) == it.key && Load16(s, off + 14) == it.rawLen && Load16(s, off + 16) == |it.stored|
    ensures Load16(s, off + 18) == it.version && s[off + 20] == it.flags && Load32(s, off + 22) == crc
    ensures s[off + PREFIX..off + RecLen(it)] == it.stored
  {
    hide Load32, Load16, Link, Identity, Check, Prefix, FramedBytes;
    FramedParts(s, off, it, crc);
    var a, b := Link(RecLen(it), it.group, KV_MAGIC), Identity(it.key, it.rawLen, |it.stored|);
    var c := Check(it.version, it.flags, crc);
    LinkFields(RecLen(it), it.group, KV_MAGIC);
    IdentityFields(it.key, it.rawLen, |it.stored|);
    CheckFields(it.version, it.flags, crc);
    LoadHeld(s, off, a, 0);
    LoadHeld(s, off, a, 2);
    LoadHeld(s, off, a, 6);
    LoadHeld(s, off + 10, b, 0);
    LoadHeld(s, off + 10, b, 4);
    LoadHeld(s, off + 10, b, 6);
    LoadHeld(s, off + 18, c, 0);
    LoadHeld(s, off + 18, c, 2);
    LoadHeld(s, off + 18, c, 4);
  }

  // Every field of a record, read where the record is.
  lemma RecordFields(s: Bytes, off: nat, it: Item)
    requires Storable(it) && Holds(s, off, RecordBytes(it))
    ensures Load16(s, off) == RecLen(it) && Load32(s, off + 2) == it.group && Load32(s, off + 6) == KV_MAGIC
    ensures Load32(s, off + 10) == it.key && Load16(s, off + 14) == it.rawLen && Load16(s, off + 16) == |it.stored|
    ensures Load16(s, off + 18) == it.version && s[off + 20] == it.flags && Load32(s, off + 22) == Crc32(it.stored)
    ensures s[off + PREFIX..off + RecLen(it)] == it.stored
  {
    FramedFields(s, off, it, Crc32(it.stored));
  }

  lemma CommitFields(s: Bytes, off: nat, group: word)
    requires Holds(s, off, CommitBytes(group))
    ensures Load16(s, off) == COMMIT && Load32(s, off + 2) == group && Load32(s, off + 6) == COMMIT_MAGIC
    ensures Load32(s, off + 10) == Crc32(CommitBody(group)) && s[off + 2..off + 10] == CommitBody(group)
  {
    hide Load32, Load16, Crc32, Store32;
    var r := CommitBytes(group);
    var a, b := Link(COMMIT, group, COMMIT_MAGIC), Store32(Crc32(CommitBody(group)));
    assert r[0..10] == a && r[10..14] == b && r[2..10] == CommitBody(group);
    HoldsPart(s, off, r, 0, 10);
    HoldsPart(s, off, r, 10, 14);
    HoldsPart(s, off, r, 2, 10);
    LinkFields(COMMIT, group, COMMIT_MAGIC);
    LoadHeld(s, off, a, 0);
    LoadHeld(s, off, a, 2);
    LoadHeld(s, off, a, 6);
    assert [] + b + [] == b;
    Load32Store([], Crc32(CommitBody(group)), []);
    LoadHeld(s, off + 10, b, 0);
  }
}
