/** A put that is reported as done and lost: three puts from an erased region, the last of a value that
    no compressed form shortens. Such values exist for every dictionary, by counting.
 */
module KvLoss {
  import opened Bits
  import opened Collections
  import opened KvRecord
  import opened KvIndex
  import opened KvLog
  import opened KvPages
  import opened KvLayout
  import opened KvCrash
  import opened KvStore
  import PicoPacking
  import PicoRepeats
  import PicoStream

  // No encoding of x is shorter than x.
  ghost predicate Incompressible(dict: Dictionary, x: Bytes) {
    forall w :: PicoStream.IsEncoding(dict, x, w) ==> |w| >= |x|
  }

  // The third put lands at offset 232 of its 256-byte part with a span of 552 bytes.
  method LosePut(dict: Dictionary, value: Bytes) returns (store: Store, ok: bool)
    requires |value| == MAX_VALUE && Incompressible(dict, value)
    ensures store.Valid() && ok && 3 in store.model && store.model[3] == None
  {
    hide *;
    store := new Store(dict);
    Offsets();
    PutShort(store, 1, {1});
    PutShort(store, 2, {1, 2});
    RoomOnPage(store, MAX_VALUE);
    OneKey(store.index.contents, {1, 2});
    ghost var n;
    ok, n := store.Put(3, value);
    PlainOnly(dict, value, n);
  }

  // A value of 63 bytes, stored as it is.
  method PutShort(store: Store, key: word, ghost keys: set<word>)
    requires store.Valid() && store.writeOff + 108 <= SECTOR
    requires key in keys && store.index.contents.Keys <= keys && |keys| < 1000
    modifies store, store.index
    ensures store.Valid() && store.index.contents.Keys <= keys
    ensures store.writeOff == old(store.writeOff) + 108
  {
    hide *;
    Offsets();
    var small: Bytes := seq(63, _ => 0);
    RoomOnPage(store, 63);
    OneKey(store.index.contents, keys);
    var ok;
    ghost var n;
    ok, n := store.Put(key, small);
    ShortPlain(store.dict, small, n);
    PlaceHere(old(store.writeOff), 63);
  }

  lemma PlaceHere(writeOff: nat, n: nat)
    ensures writeOff + PairSpan(n) <= SECTOR ==> PlaceOf(writeOff, n) == writeOff
  {
  }

  lemma Offsets()
    ensures PairSpan(63) == 108 && PairSpan(MAX_VALUE) == 552
    ensures HEADER + 108 + 108 + 552 <= SECTOR && Lost(HEADER + 108 + 108, MAX_VALUE)
    ensures INDEX_CAPACITY > 1000 && COMPRESS_MIN == 64 && MAX_VALUE == 508 && SECTOR == 4096
  {
  }

  lemma RoomOnPage(store: Store, n: nat)
    ensures store.writeOff + PairSpan(n) <= SECTOR ==> Room(store.slots, store.writeOff, n)
  {
  }

  lemma ShortPlain(dict: Dictionary, x: Bytes, n: nat)
    requires StoresIn(dict, x, n) && |x| < COMPRESS_MIN
    ensures n == |x|
  {
  }

  lemma PlainOnly(dict: Dictionary, x: Bytes, n: nat)
    requires StoresIn(dict, x, n) && Incompressible(dict, x)
    ensures n == |x|
  {
    hide PicoPacking.IsPacking, PicoStream.IsEncoding;
    if |x| >= COMPRESS_MIN {
      var w :| PicoPacking.IsPacking(dict, x, w) && n == if |w| < |x| then |w| else |x|;
      PicoPacking.PackingEncodes(dict, x, w);
    }
  }

  lemma OneKey(m: Index, ks: set<word>)
    requires m.Keys <= ks
    ensures |m| <= |ks|
  {
    SubsetSize(m.Keys, ks);
  }

  // A long run of one byte value is stored in less than half its length.
  lemma RunStored(dict: Dictionary, x: Bytes, n: nat)
    requires PicoRepeats.AllSame(x) && COMPRESS_MIN <= |x| <= MAX_VALUE && StoresIn(dict, x, n)
    ensures n < |x| && 8 * n <= 3 * |x| + 99
  {
    hide PicoPacking.IsPacking, PicoRepeats.AllSame;
    var w :| PicoPacking.IsPacking(dict, x, w) && n == if |w| < |x| then |w| else |x|;
    PicoPacking.RunPacks(dict, x, w);
  }

  // After the same two puts such a value of full size is not lost, and reads back.
  method KeepPut(dict: Dictionary, value: Bytes) returns (store: Store, ok: bool, read: bool, back: Bytes)
    requires |value| == MAX_VALUE && PicoRepeats.AllSame(value)
    ensures store.Valid() && ok && read && back == value
  {
    hide *;
    store := new Store(dict);
    Offsets();
    PutShort(store, 1, {1});
    PutShort(store, 2, {1, 2});
    OneKey(store.index.contents, {1, 2});
    ghost var n;
    RoomForAny(store);
    ok, n := store.Put(3, value);
    RunStored(dict, value, n);
    SmallSpan(HEADER + 108 + 108, n);
    var version;
    read, back, version := store.GetCopy(3, MAX_VALUE);
  }

  lemma RoomForAny(store: Store)
    requires store.writeOff + PairSpan(MAX_VALUE) <= SECTOR
    ensures forall n: nat :: n <= MAX_VALUE ==> Room(store.slots, store.writeOff, n)
  {
  }

  lemma SmallSpan(writeOff: nat, n: nat)
    requires n <= 202 && writeOff == HEADER + 108 + 108
    ensures !Lost(writeOff, n) && writeOff + PairSpan(n) <= SECTOR
  {
  }

  // All byte strings of length n.
  ghost function Strings(n: nat): (s: set<Bytes>)
    ensures forall x :: x in s <==> |x| == n
  {
    if n == 0 then
      assert forall x: Bytes :: |x| == 0 ==> x == [];
      {[]}
    else
      var r := Strings(n - 1);
      var s := set b: byte, x | x in r :: [b] + x;
      assert forall x: Bytes :: |x| == n ==> x == [x[0]] + x[1..] && x[1..] in r;
      s
  }

  // All shorter ones.
  ghost function Shorter(n: nat): (s: set<Bytes>)
    ensures forall x :: x in s <==> |x| < n
  {
    if n == 0 then {} else Shorter(n - 1) + Strings(n - 1)
  }

  lemma {:induction false} PrefixedSize(a: set<Bytes>, b: byte)
    ensures |set x | x in a :: [b] + x| == |a|
  {
    if a != {} {
      var x :| x in a;
      PrefixedSize(a - {x}, b);
      var rest := set y | y in a - {x} :: [b] + y;
      assert (set y | y in a :: [b] + y) == rest + {[b] + x};
      assert forall y :: y in a - {x} ==> ([b] + y)[1..] == y;
      assert ([b] + x)[1..] == x;
    }
  }

  lemma MoreStrings(n: nat)
    ensures |Strings(n + 1)| >= 2 * |Strings(n)|
  {
    var all, more := Strings(n), Strings(n + 1);
    hide Strings;
    Doubled(all, more);
  }

  // Every string of a set, with a zero and with a one before it.
  lemma Doubled(all: set<Bytes>, more: set<Bytes>)
    requires forall b: byte, x :: b < 2 && x in all ==> [b] + x in more
    ensures |more| >= 2 * |all|
  {
    var a, b := set x | x in all :: [0] + x, set x | x in all :: [1] + x;
    PrefixedSize(all, 0);
    PrefixedSize(all, 1);
    assert a !! b by {
      forall x | x in a ensures x !in b {
        assert x[0] == 0;
      }
    }
    assert |a + b| == |a| + |b|;
    SubsetSize(a + b, more);
  }

  lemma {:induction false} FewerShorter(n: nat)
    ensures |Shorter(n)| < |Strings(n)|
  {
    if n == 0 {
      assert [] in Strings(0);
    } else {
      FewerShorter(n - 1);
      MoreStrings(n - 1);
    }
  }

  // What the strings of a set decode to, given room for cap bytes.
  ghost function Decodes(dict: Dictionary, ws: set<Bytes>, cap: nat): set<Bytes> {
    set w | w in ws && PicoStream.Decoded(dict, w, cap).Some? :: PicoStream.Decoded(dict, w, cap).value
  }

  lemma {:induction false} DecodesSize(dict: Dictionary, ws: set<Bytes>, cap: nat)
    ensures |Decodes(dict, ws, cap)| <= |ws|
  {
    hide PicoStream.Decoded;
    if ws != {} {
      var w :| w in ws;
      DecodesSize(dict, ws - {w}, cap);
      var rest := Decodes(dict, ws - {w}, cap);
      var d := PicoStream.Decoded(dict, w, cap);
      assert Decodes(dict, ws, cap) == rest + (if d.Some? then {d.value} else {});
    }
  }

  // Decoding undoes encoding, and there are too few shorter strings to encode all of one length.
  lemma SomeIncompressible(dict: Dictionary, n: nat)
    ensures exists x :: |x| == n && Incompressible(dict, x)
  {
    hide PicoStream.Decoded, PicoStream.IsEncoding;
    var short := Shorter(n);
    FewerShorter(n);
    DecodesSize(dict, short, n);
    if Strings(n) <= Decodes(dict, short, n) {
      SubsetSize(Strings(n), Decodes(dict, short, n));
      assert false;
    }
    var x :| x in Strings(n) && x !in Decodes(dict, short, n);
    forall w | PicoStream.IsEncoding(dict, x, w)
      ensures |w| >= |x|
    {
      PicoStream.EncodingDecodes(dict, x, w, n);
      assert w !in short;
    }
  }
}
