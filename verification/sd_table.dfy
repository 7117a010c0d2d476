/** The hash table's operations over the device and the bucket cache. */
module SdTable {
  import opened Bits
  import opened Collections
  import opened SdBucket
  import opened SdHash

  const ZEROS: Bytes := seq(BLOCK, _ => 0)

  // Cached buckets are intact and equal to the device; no bucket is cached twice.
  ghost predicate Coherent(cache: seq<CacheSlot>, sd: Blocks) {
    && |cache| == CACHE
    && (forall i :: 0 <= i < CACHE && cache[i].valid ==>
          cache[i].bucket < |sd| && Good(cache[i].data) && cache[i].data == sd[cache[i].bucket])
    && (forall i, j :: 0 <= i < j < CACHE && cache[i].valid && cache[j].valid ==> cache[i].bucket != cache[j].bucket)
  }

  // Ages start at zero, and only ages below some other age are ever raised.
  ghost predicate Ageless(cache: seq<CacheSlot>) {
    forall i :: 0 <= i < |cache| ==> cache[i].age == 0
  }

  ghost predicate Full(cache: seq<CacheSlot>) {
    forall i :: 0 <= i < |cache| ==> cache[i].valid
  }

  // The device's states so far: one block written at a time, the present state last.
  ghost predicate Logged(writes: seq<Blocks>, sd: Blocks) {
    && writes != [] && writes[|writes| - 1] == sd
    && forall k :: 0 < k < |writes| ==> OneWrite(writes[k - 1], writes[k])
  }

  ghost predicate OneWrite(before: Blocks, after: Blocks) {
    |before| == |after| && exists b :: 0 <= b < |before| && after == before[b := after[b]]
  }

  // The slot that caches a bucket, and the first free slot; or the number of slots.
  function Position(cache: seq<CacheSlot>, b: nat): (i: nat)
    ensures i <= |cache| && (i < |cache| ==> cache[i].valid && cache[i].bucket == b)
    ensures forall j :: 0 <= j < i && cache[j].valid ==> cache[j].bucket != b
  {
    if cache == [] || (cache[0].valid && cache[0].bucket == b) then 0 else 1 + Position(cache[1..], b)
  }

  function FirstFree(cache: seq<CacheSlot>): (i: nat)
    ensures i <= |cache| && (i < |cache| ==> !cache[i].valid)
    ensures forall j :: 0 <= j < i ==> cache[j].valid
  {
    if cache == [] || !cache[0].valid then 0 else 1 + FirstFree(cache[1..])
  }

  // The cache after reading a bucket: a new one takes the first free slot, or slot 0 when all are full.
  function NextCache(cache: seq<CacheSlot>, b: nat, sd: Blocks): seq<CacheSlot>
    requires |cache| == CACHE && b < |sd|
  {
    if Position(cache, b) < CACHE || !Good(sd[b]) then cache
    else
      var v := if FirstFree(cache) < CACHE then FirstFree(cache) else 0;
      cache[v := CacheSlot(b, sd[b], 0, true)]
  }

  // Only ages differ.
  ghost predicate SameButAges(a: seq<CacheSlot>, b: seq<CacheSlot>) {
    |a| == |b| && forall i :: 0 <= i < |a| ==> a[i].(age := 0) == b[i].(age := 0)
  }

  class Table {
    const choice: Choice
    var sd: Blocks
    const cache: array<CacheSlot>
    ghost var writes: seq<Blocks>

    ghost predicate Valid() reads this, cache {
      && cache.Length == CACHE && |sd| == choice.n && Coherent(cache[..], sd) && Ageless(cache[..])
      && Logged(writes, sd)
    }

    ghost function Contents(): seq<seq<Entry>> reads this {
      Views(sd)
    }

    constructor (choice: Choice, sd: Blocks)
      requires |sd| == choice.n
      ensures Valid() && fresh(cache) && this.choice == choice && this.sd == sd && writes == [sd]
      ensures forall i :: 0 <= i < CACHE ==> !cache[i].valid
    {
      this.choice, this.sd, writes := choice, sd, [sd];
      cache := new CacheSlot[CACHE](_ => CacheSlot(0, [], 0, false));
    }

    // Make a slot the youngest; those that were younger age by one.
    method Touch(slot: nat)
      requires cache.Length == CACHE && slot < CACHE
      modifies cache
      ensures SameButAges(cache[..], old(cache[..]))
      ensures cache[slot].age == 0
      ensures forall i :: 0 <= i < CACHE && i != slot ==> var a := old(cache[i]);
        cache[i].age == if a.valid && a.age < old(cache[slot].age) then (a.age as int) + 1 else a.age as int
    {
      var oldAge := cache[slot].age;
      for i := 0 to CACHE
        invariant forall j :: i <= j < CACHE ==> cache[j] == old(cache[j])
        invariant forall j :: 0 <= j < i ==> cache[j] == var a := old(cache[j]);
          a.(age := if a.valid && a.age < oldAge then (a.age as int) + 1 else a.age as int)
      {
        if cache[i].valid && cache[i].age < oldAge {
          cache[i] := cache[i].(age := (cache[i].age as int) + 1);
        }
      }
      cache[slot] := cache[slot].(age := 0);
    }

    // The slot that caches a bucket, or CACHE.
    method CachedAt(b: nat) returns (i: nat)
      requires cache.Length == CACHE
      ensures i == Position(cache[..], b)
    {
      hide Position;
      for k := 0 to CACHE
        invariant forall j :: 0 <= j < k && cache[j].valid ==> cache[j].bucket != b
      {
        if cache[k].valid && cache[k].bucket == b {
          PositionIs(cache[..], b, k);
          return k;
        }
      }
      PositionIs(cache[..], b, CACHE);
      i := CACHE;
    }

    // The slot to reuse: the first free one, else the first of the oldest.
    method Victim() returns (v: nat)
      requires cache.Length == CACHE
      ensures v < CACHE
      ensures Full(cache[..]) ==> forall i :: 0 <= i < CACHE ==> cache[i].age <= cache[v].age
      ensures Ageless(cache[..]) ==> v == if FirstFree(cache[..]) < CACHE then FirstFree(cache[..]) else 0
      ensures !Full(cache[..]) ==> v == FirstFree(cache[..])
    {
      v := 0;
      var maxAge: byte := 0;
      for i := 0 to CACHE
        invariant forall j :: 0 <= j < i ==> cache[j].valid && cache[j].age <= maxAge
        invariant if i == 0 then v == 0 && maxAge == 0 else v < i && cache[v].age == maxAge
        invariant Ageless(cache[..]) ==> maxAge == 0 && v == 0
      {
        if !cache[i].valid {
          assert !cache[..][i].valid;
          FreeIs(cache[..], i);
          return i;
        }
        if cache[i].age > maxAge {
          assert cache[..][i].age > 0;
          maxAge, v := cache[i].age, i;
        }
      }
      FreeIs(cache[..], CACHE);
    }

    // Read a bucket through the cache. What is read is what the device holds, cached or not.
    method ReadBucket(b: nat, buf: array<byte>)
      requires Valid() && b < choice.n && buf.Length == BLOCK
      modifies cache, buf
      ensures Valid()
      ensures buf[..] == if Good(sd[b]) then sd[b] else ZEROS
      ensures cache[..] == NextCache(old(cache[..]), b, sd)
    {
      hide Good, Logged, Position, FirstFree;
      var i := CachedAt(b);
      if i < CACHE {
        CopyBlock(buf, cache[i].data);
        Touch(i);
        TouchedSame(old(cache[..]), cache[..]);
        return;
      }
      CopyBlock(buf, sd[b]);
      if !Good(sd[b]) {
        CopyBlock(buf, ZEROS);
        return;
      }
      var v := Victim();
      ghost var before := cache[..];
      assert before[v].age == 0;
      cache[v] := CacheSlot(b, buf[..], cache[v].age, true);
      CachedCoherent(before, sd, v, b, cache[v]);
      assert cache[..] == before[v := cache[v]];
      ghost var mid := cache[..];
      Touch(v);
      TouchedSame(mid, cache[..]);
    }

    // Write a bucket with a fresh checksum, through the cache.
    method WriteBucket(b: nat, buf: array<byte>)
      requires Valid() && b < choice.n && buf.Length == BLOCK && Count(buf[..]) <= ENTRIES
      modifies this`sd, this`writes, cache, buf
      ensures Valid() && writes == old(writes) + [sd] && Good(sd[b])
      ensures forall d :: 0 <= d < |sd| && d != b ==> sd[d] == old(sd)[d]
      ensures forall i :: 0 <= i < CACHE ==> cache[i].valid == old(cache[i].valid)
      ensures Contents() == old(Contents())[b := old(View(buf[..]))]
    {
      hide View, Crc16, Position;
      ghost var before := buf[..];
      var crc := Crc16(buf[2..]);
      buf[0], buf[1] := crc % 0x100, crc / 0x100;
      assert buf[..][2..] == before[2..] == buf[2..];
      SameView(before, buf[..]);
      sd := sd[b := buf[..]];
      assert Good(sd[b]) && OneWrite(old(sd), sd);
      writes := writes + [sd];
      var i := CachedAt(b);
      if i < CACHE {
        cache[i] := cache[i].(data := buf[..]);
        ghost var mid := cache[..];
        Touch(i);
        TouchedSame(mid, cache[..]);
      }
    }

    // What a read gives, as entries.
    lemma ReadView(b: nat)
      requires b < |sd|
      ensures var r := if Good(sd[b]) then sd[b] else ZEROS;
        |r| == BLOCK && Count(r) <= ENTRIES && View(r) == Contents()[b]
    {
    }

    // The slot of a key, or -1, for any contents: also for a key that a crash left in both buckets.
    method Lookup(key: word) returns (r: int)
      requires Valid()
      modifies cache
      ensures Valid()
      ensures r == choice.Answer(Contents(), key)
    {
      hide View, Good, Coherent, Ageless, Logged, NextCache, Get, FirstOf, Choice.First, Choice.Second;
      if choice.n == 0 {
        return -1;
      }
      var buf := new byte[BLOCK];
      var b1 := choice.First(key);
      ReadView(b1);
      ReadBucket(b1, buf);
      r := SlotIn(buf, key);
      if r >= 0 {
        return;
      }
      var b2 := choice.Second(key);
      if b2 == b1 {
        return -1;
      }
      ReadView(b2);
      ReadBucket(b2, buf);
      r := SlotIn(buf, key);
      if r < 0 {
        r := -1;
      }
    }

    // Add an entry to a bucket that was just read, and write it.
    method AddTo(b: nat, buf: array<byte>, key: word, slot: word)
      requires Valid() && b < choice.n && buf.Length == BLOCK
      requires Count(buf[..]) < ENTRIES && View(buf[..]) == Contents()[b]
      modifies this`sd, this`writes, cache, buf
      ensures Valid() && writes == old(writes) + [sd]
      ensures Contents() == old(Contents())[b := old(Contents())[b] + [Entry(key, slot)]]
    {
      hide View, Good, Coherent, Ageless, Logged;
      AddEntry(buf, key, slot);
      WriteBucket(b, buf);
    }

    method SetIn(b: nat, buf: array<byte>, i: nat, slot: word)
      requires Valid() && b < choice.n && buf.Length == BLOCK
      requires Count(buf[..]) <= ENTRIES && View(buf[..]) == Contents()[b] && i < |Contents()[b]|
      modifies this`sd, this`writes, cache, buf
      ensures Valid() && writes == old(writes) + [sd]
      ensures var v := old(Contents())[b]; Contents() == old(Contents())[b := v[i := Entry(v[i].key, slot)]]
    {
      hide View, Good, Coherent, Ageless, Logged;
      SetSlot(buf, i, slot);
      WriteBucket(b, buf);
    }

    // Read a bucket again and remove a key's entry from it.
    method RemoveFrom(b: nat, buf: array<byte>, key: word) returns (found: bool)
      requires Valid() && b < choice.n && buf.Length == BLOCK
      modifies this`sd, this`writes, cache, buf
      ensures Valid() && writes == old(writes) + if found then [sd] else []
      ensures var v := old(Contents())[b]; var i := FirstOf(v, key);
        found == (i >= 0) && Contents() == if i >= 0 then old(Contents())[b := SwapRemoved(v, i)] else old(Contents())
    {
      hide View, Good, Coherent, Ageless, Logged, NextCache;
      ReadView(b);
      ReadBucket(b, buf);
      var i := Find(buf, key);
      found := i >= 0;
      if found {
        RemoveEntry(buf, i);
        WriteBucket(b, buf);
      }
    }

    // Write-ahead: the new entry goes to the other bucket before the old one is removed.
    method Move(b: nat, d: nat, bufb: array<byte>, bufd: array<byte>, key: word, slot: word)
      requires Valid() && b != d && b < choice.n && d < choice.n
      requires bufb.Length == bufd.Length == BLOCK && FirstOf(Contents()[b], key) >= 0
      requires Count(bufd[..]) < ENTRIES && View(bufd[..]) == Contents()[d]
      modifies this`sd, this`writes, cache, bufb, bufd
      ensures Valid() && Stepped(old(writes), writes, choice.MoveSteps(old(Contents()), b, d, key, slot))
    {
      hide View, Good, Coherent, Ageless, NextCache, Logged, SwapRemoved, FirstOf;
      AddTo(d, bufd, key, slot);
      ghost var mid := sd;
      var found := RemoveFrom(b, bufb, key);
      assert writes == old(writes) + [mid, sd];
    }

    // An entry more in a bucket.
    method Add(b: nat, buf: array<byte>, key: word, slot: word)
      requires Valid() && b < choice.n
      requires buf.Length == BLOCK && Count(buf[..]) < ENTRIES && View(buf[..]) == Contents()[b]
      modifies this`sd, this`writes, cache, buf
      ensures Valid()
      ensures Stepped(old(writes), writes, [old(Contents())[b := old(Contents())[b] + [Entry(key, slot)]]])
    {
      hide View, Good, Coherent, Ageless, NextCache, Logged;
      AddTo(b, buf, key, slot);
      assert writes == old(writes) + [sd];
    }

    // An entry gets its new slot in place.
    method Replace(b: nat, buf: array<byte>, i: nat, key: word, slot: word)
      requires Valid() && b < choice.n && i < |Contents()[b]| && Contents()[b][i].key == key
      requires buf.Length == BLOCK && Count(buf[..]) <= ENTRIES && View(buf[..]) == Contents()[b]
      modifies this`sd, this`writes, cache, buf
      ensures Valid()
      ensures Stepped(old(writes), writes, [old(Contents())[b := old(Contents())[b][i := Entry(key, slot)]]])
    {
      hide View, Good, Coherent, Ageless, NextCache, Logged;
      SetIn(b, buf, i, slot);
      assert writes == old(writes) + [sd];
    }

    // Read both buckets of a key, and look for it in them.
    method ReadPair(b1: nat, b2: nat, buf1: array<byte>, buf2: array<byte>, key: word) returns (i1: int, i2: int)
      requires Valid() && b1 < choice.n && b2 < choice.n && buf1 != buf2 && buf1.Length == buf2.Length == BLOCK
      modifies cache, buf1, buf2
      ensures Valid()
      ensures Count(buf1[..]) <= ENTRIES && View(buf1[..]) == Contents()[b1] && i1 == FirstOf(Contents()[b1], key)
      ensures b2 != b1 ==>
        Count(buf2[..]) <= ENTRIES && View(buf2[..]) == Contents()[b2] && i2 == FirstOf(Contents()[b2], key)
      ensures b2 == b1 ==> i2 == -1
    {
      hide View, Good, Coherent, Ageless, NextCache, Logged, FirstOf;
      ReadView(b1);
      ReadBucket(b1, buf1);
      i1 := Find(buf1, key);
      i2 := -1;
      if b2 != b1 {
        ReadView(b2);
        ReadBucket(b2, buf2);
        i2 := Find(buf2, key);
      }
    }

    // Insert a key or update its slot, whatever the buckets hold. An update goes to the other bucket when
    // there is room, new entry first. Whenever power fails, the device is in one of the states logged.
    // Where no key has more than one entry, that is still so afterwards, and the map has the key set.
    method Insert(key: word, slot: word) returns (ok: bool)
      requires Valid()
      modifies this`sd, this`writes, cache
      ensures Valid() && Stepped(old(writes), writes, choice.InsertSteps(old(Contents()), key, slot))
      ensures ok <==> HasRoom(choice, old(Contents()), key)
      ensures !ok ==> sd == old(sd) && writes == old(writes)
      ensures choice.n > 0 && choice.AllSingle(old(Contents())) ==>
        && choice.AllSingle(Contents()) && (ok ==> Updated(choice, old(Contents()), Contents(), key, slot))
        && Interim(choice, old(Contents()), writes[|old(writes)|..], key, slot)
    {
      hide View, Good, Coherent, Ageless, NextCache, Stepped, SwapRemoved;
      hide HasRoom, Updated, Interim, Choice.AllSingle, Choice.Lookup, FirstOf, Choice.First, Choice.Second, Choice.MoveSteps;
      ghost var vs := Contents();
      NotStepped(writes);
      RoomIs(choice, vs, key, slot);
      if choice.n == 0 {
        return false;
      }
      var buf1, buf2 := new byte[BLOCK], new byte[BLOCK];
      var b1, b2 := choice.First(key), choice.Second(key);
      var i1, i2 := ReadPair(b1, b2, buf1, buf2, key);
      ok := true;
      if i1 >= 0 && b2 != b1 && Count(buf2[..]) < ENTRIES {
        Move(b1, b2, buf1, buf2, key, slot);
      } else if i2 >= 0 && Count(buf1[..]) < ENTRIES {
        Move(b2, b1, buf2, buf1, key, slot);
      } else if i1 >= 0 {
        Replace(b1, buf1, i1, key, slot);
      } else if Count(buf1[..]) < ENTRIES {
        Add(b1, buf1, key, slot);
      } else if b2 != b1 && i2 >= 0 {
        Replace(b2, buf2, i2, key, slot);
      } else if b2 != b1 && Count(buf2[..]) < ENTRIES {
        Add(b2, buf2, key, slot);
      } else {
        ok := false;
      }
      if choice.AllSingle(vs) {
        StepsMean(choice, vs, old(writes), writes, key, slot);
      }
    }

    // Remove a key, whatever the buckets hold: the first entry found goes. False means there was none.
    method Remove(key: word) returns (found: bool)
      requires Valid()
      modifies this`sd, this`writes, cache
      ensures Valid() && Contents() == choice.RemoveStep(old(Contents()), key)
      ensures found <==> choice.Lookup(old(Contents()), key) != None
      ensures writes == old(writes) + if found then [sd] else []
      ensures choice.n > 0 && choice.AllSingle(old(Contents())) ==>
        && choice.AllSingle(Contents())
        && forall k :: choice.Lookup(Contents(), k) == if k == key then None else choice.Lookup(old(Contents()), k)
    {
      hide View, Good, Coherent, Ageless, Logged, Choice.Single, Choice.Lookup, SwapRemoved, FirstOf;
      ghost var vs := Contents();
      RemovedMeans(choice, vs, key);
      if choice.n == 0 {
        return false;
      }
      var buf := new byte[BLOCK];
      found := RemoveFrom(choice.First(key), buf, key);
      if !found && choice.Second(key) != choice.First(key) {
        found := RemoveFrom(choice.Second(key), buf, key);
      }
    }
  }

  // The contents after each of the writes since.
  ghost predicate Stepped(was: seq<Blocks>, writes: seq<Blocks>, steps: seq<seq<seq<Entry>>>) {
    && was <= writes && |writes| == |was| + |steps|
    && forall k :: 0 <= k < |steps| ==> Views(writes[|was| + k]) == steps[k]
  }

  // The slot of a key within one bucket, as a signed 32-bit number.
  method SlotIn(buf: array<byte>, key: word) returns (r: int)
    requires buf.Length == BLOCK && Count(buf[..]) <= ENTRIES
    ensures r == match Get(View(buf[..]), key)
      case Some(s) => if s < 0x8000_0000 then s else s - 0x1_0000_0000
      case None => -1
  {
    hide Load32;
    var i := Find(buf, key);
    if i < 0 {
      return -1;
    }
    var s: int := Load32(buf[..], HDR + 8 * i + 4);
    assert EntryAt(buf[..], i).slot == s;
    r := if s < 0x8000_0000 then s else s - 0x1_0000_0000;
  }

  lemma RemovedMeans(c: Choice, vs: seq<seq<Entry>>, key: word)
    requires |vs| == c.n
    ensures c.n == 0 ==> c.Lookup(vs, key) == None
    ensures c.n > 0 ==>
      (c.Lookup(vs, key) != None <==> FirstOf(vs[c.First(key)], key) >= 0 || FirstOf(vs[c.Second(key)], key) >= 0)
    ensures c.n > 0 && c.AllSingle(vs) ==>
      && c.AllSingle(c.RemoveStep(vs, key))
      && forall k :: c.Lookup(c.RemoveStep(vs, key), k) == if k == key then None else c.Lookup(vs, k)
  {
    hide Choice.Single, SwapRemoved;
    if c.n > 0 && c.AllSingle(vs) {
      var b := if FirstOf(vs[c.First(key)], key) >= 0 then c.First(key) else c.Second(key);
      if FirstOf(vs[b], key) >= 0 {
        Removed(c, vs, b, key);
      }
    }
  }

  lemma Removed(c: Choice, vs: seq<seq<Entry>>, b: nat, key: word)
    requires |vs| == c.n > 0 && c.AllSingle(vs) && b in {c.First(key), c.Second(key)} && FirstOf(vs[b], key) >= 0
    ensures var ws := vs[b := SwapRemoved(vs[b], FirstOf(vs[b], key))];
      && c.AllSingle(ws) && c.Lookup(vs, key) != None
      && forall k :: c.Lookup(ws, k) == if k == key then None else c.Lookup(vs, k)
  {
    hide Choice.Single, SwapRemoved;
    var i := FirstOf(vs[b], key);
    var ws := vs[b := SwapRemoved(vs[b], i)];
    c.Present(vs, b, key);
    forall k
      ensures c.Single(ws, k)
      ensures c.Lookup(ws, k) == if k == key then None else c.Lookup(vs, k)
    {
      assert c.Single(vs, k);
      c.RemoveLookup(vs, b, i, k);
    }
  }

  lemma Absent(c: Choice, vs: seq<seq<Entry>>, key: word)
    requires |vs| == c.n > 0 && FirstOf(vs[c.First(key)], key) < 0 && FirstOf(vs[c.Second(key)], key) < 0
    ensures c.Lookup(vs, key) == None
  {
  }

  method CopyBlock(buf: array<byte>, data: Bytes)
    requires buf.Length == |data| == BLOCK
    modifies buf
    ensures buf[..] == data
  {
    forall k | 0 <= k < BLOCK {
      buf[k] := data[k];
    }
  }

  lemma {:induction false} PositionIs(cache: seq<CacheSlot>, b: nat, i: nat)
    requires i <= |cache| && (i < |cache| ==> cache[i].valid && cache[i].bucket == b)
    requires forall j :: 0 <= j < i && cache[j].valid ==> cache[j].bucket != b
    ensures Position(cache, b) == i
  {
    if i > 0 {
      PositionIs(cache[1..], b, i - 1);
    }
  }

  lemma {:induction false} FreeIs(cache: seq<CacheSlot>, i: nat)
    requires i <= |cache| && (i < |cache| ==> !cache[i].valid)
    requires forall j :: 0 <= j < i ==> cache[j].valid
    ensures FirstFree(cache) == i
  {
    if i > 0 {
      FreeIs(cache[1..], i - 1);
    }
  }

  // With every age zero, touching a slot changes nothing.
  lemma TouchedSame(a: seq<CacheSlot>, b: seq<CacheSlot>)
    requires SameButAges(b, a) && Ageless(a) && |b| == CACHE
    requires forall i :: 0 <= i < CACHE ==> b[i].age == 0
    ensures a == b
  {
    forall i | 0 <= i < CACHE
      ensures a[i] == b[i]
    {
      assert b[i].(age := 0) == a[i].(age := 0);
    }
  }

  lemma CachedCoherent(a: seq<CacheSlot>, sd: Blocks, v: nat, b: nat, c: CacheSlot)
    requires Coherent(a, sd) && v < CACHE && b < |sd| && Good(sd[b])
    requires forall j :: 0 <= j < CACHE && a[j].valid ==> a[j].bucket != b
    requires c.valid && c.bucket == b && c.data == sd[b]
    ensures Coherent(a[v := c], sd)
  {
  }

  ghost predicate HasRoom(c: Choice, vs: seq<seq<Entry>>, key: word)
    requires |vs| == c.n
  {
    c.n > 0 && (c.Lookup(vs, key) != None || |vs[c.First(key)]| < ENTRIES || |vs[c.Second(key)]| < ENTRIES)
  }

  // The map after an insertion or update.
  ghost predicate Updated(c: Choice, vs: seq<seq<Entry>>, ws: seq<seq<Entry>>, key: word, slot: word)
    requires |vs| == |ws| == c.n
  {
    forall k :: c.Lookup(ws, k) == if k == key then Some(slot) else c.Lookup(vs, k)
  }

  // The map as a crash may leave it: the key is old or new, every other key is unchanged.
  ghost predicate Between(c: Choice, vs: seq<seq<Entry>>, ws: seq<seq<Entry>>, key: word, slot: word)
    requires |vs| == c.n
  {
    && |ws| == c.n && c.Lookup(ws, key) in {c.Lookup(vs, key), Some(slot)}
    && c.Answer(ws, key) in {c.Answer(vs, key), AsSlot(Some(slot))}
    && forall k :: k != key ==> c.Lookup(ws, k) == c.Lookup(vs, k) && c.Answer(ws, k) == c.Answer(vs, k)
  }

  // Every one of these device states is such a map.
  ghost predicate Interim(c: Choice, vs: seq<seq<Entry>>, states: seq<Blocks>, key: word, slot: word)
    requires |vs| == c.n
  {
    forall k :: 0 <= k < |states| ==> Between(c, vs, Views(states[k]), key, slot)
  }

  lemma NotStepped(writes: seq<Blocks>)
    ensures Stepped(writes, writes, [])
  {
  }

  // An insertion is refused exactly when there is no room, for any contents.
  lemma RoomIs(c: Choice, vs: seq<seq<Entry>>, key: word, slot: word)
    requires |vs| == c.n
    ensures c.InsertSteps(vs, key, slot) != [] <==> HasRoom(c, vs, key)
  {
    hide SwapRemoved;
  }

  // Where no key has more than one entry: each step reads as before or as asked for, and the last one as
  // asked for, again with at most one entry a key.
  lemma StepsSingle(c: Choice, vs: seq<seq<Entry>>, key: word, slot: word)
    requires |vs| == c.n > 0 && c.AllSingle(vs)
    ensures var steps := c.InsertSteps(vs, key, slot);
      && (forall ws :: ws in steps ==> Between(c, vs, ws, key, slot))
      && (steps != [] ==> c.AllSingle(steps[|steps| - 1]) && Updated(c, vs, steps[|steps| - 1], key, slot))
  {
    hide HasRoom, Updated, Between, Choice.AllSingle, Choice.Lookup, FirstOf, SwapRemoved, Choice.First, Choice.Second;
    var b1, b2 := c.First(key), c.Second(key);
    var i1, i2 := FirstOf(vs[b1], key), if b2 == b1 then -1 else FirstOf(vs[b2], key);
    if i1 >= 0 && b2 != b1 && |vs[b2]| < ENTRIES {
      Moved(c, vs, b1, b2, key, slot);
    } else if i2 >= 0 && |vs[b1]| < ENTRIES {
      Moved(c, vs, b2, b1, key, slot);
    } else if i1 >= 0 {
      Replaced(c, vs, b1, key, slot);
    } else if |vs[b1]| < ENTRIES {
      Absent(c, vs, key);
      Added(c, vs, b1, key, slot);
    } else if i2 >= 0 {
      Replaced(c, vs, b2, key, slot);
    } else if b2 != b1 && |vs[b2]| < ENTRIES {
      Absent(c, vs, key);
      Added(c, vs, b2, key, slot);
    }
  }

  lemma StepsMean(c: Choice, vs: seq<seq<Entry>>, was: seq<Blocks>, writes: seq<Blocks>, key: word, slot: word)
    requires |vs| == c.n > 0 && c.AllSingle(vs) && writes != [] && was != [] && Views(was[|was| - 1]) == vs
    requires Stepped(was, writes, c.InsertSteps(vs, key, slot))
    ensures |Views(writes[|writes| - 1])| == c.n
    ensures var ws := Views(writes[|writes| - 1]);
      c.AllSingle(ws) && (c.InsertSteps(vs, key, slot) != [] ==> Updated(c, vs, ws, key, slot))
    ensures Interim(c, vs, writes[|was|..], key, slot)
  {
    hide Between, Updated, Choice.AllSingle, Choice.InsertSteps, Views;
    StepsSingle(c, vs, key, slot);
    var steps := c.InsertSteps(vs, key, slot);
    forall k | 0 <= k < |writes| - |was|
      ensures Between(c, vs, Views(writes[|was|..][k]), key, slot)
    {
      assert steps[k] in steps;
    }
    if steps != [] {
      assert Views(writes[|was| + (|steps| - 1)]) == steps[|steps| - 1];
    }
  }

  // The cache after a run of reads.
  function AfterReads(cache: seq<CacheSlot>, bs: seq<nat>, sd: Blocks): (c: seq<CacheSlot>)
    requires |cache| == CACHE && forall k :: 0 <= k < |bs| ==> bs[k] < |sd|
    ensures |c| == CACHE
  {
    if bs == [] then cache else NextCache(AfterReads(cache, bs[..|bs| - 1], sd), bs[|bs| - 1], sd)
  }

  method ReadAll(t: Table, bs: seq<nat>)
    requires t.Valid() && forall k :: 0 <= k < |bs| ==> bs[k] < t.choice.n
    modifies t.cache
    ensures t.Valid() && t.cache[..] == AfterReads(old(t.cache[..]), bs, t.sd)
  {
    hide NextCache, Coherent, Ageless, Logged, Good;
    var buf := new byte[BLOCK];
    assert bs[..0] == [];
    for k := 0 to |bs|
      invariant t.Valid() && t.cache[..] == AfterReads(old(t.cache[..]), bs[..k], t.sd)
    {
      t.ReadBucket(bs[k], buf);
      assert bs[..k + 1][..k] == bs[..k];
    }
    assert bs[..|bs|] == bs;
  }

  function UpTo(n: nat): (bs: seq<nat>)
    ensures |bs| == n && forall k :: 0 <= k < n ==> bs[k] == k
  {
    seq(n, k => k)
  }

  // The first n slots hold the first n buckets, the others none.
  ghost predicate Holding(cache: seq<CacheSlot>, sd: Blocks, n: nat) {
    && |cache| == CACHE && n <= |sd|
    && (forall i :: 0 <= i < CACHE && i < n ==> cache[i] == CacheSlot(i, sd[i], 0, true))
    && (forall i :: n <= i < CACHE ==> !cache[i].valid)
  }

  // Reading the first n buckets into an empty cache fills the first n slots.
  lemma {:induction false} Fills(empty: seq<CacheSlot>, sd: Blocks, n: nat)
    requires |empty| == CACHE && n <= CACHE && n <= |sd|
    requires forall i :: 0 <= i < CACHE ==> !empty[i].valid
    requires forall b :: 0 <= b < n ==> Good(sd[b])
    ensures Holding(AfterReads(empty, UpTo(n), sd), sd, n)
  {
    hide NextCache, AfterReads, UpTo, Good, Position, FirstFree;
    NoReads(empty, sd);
    if n > 0 {
      Fills(empty, sd, n - 1);
      UpToSnoc(n);
      var c := AfterReads(empty, UpTo(n - 1), sd);
      ReadStep(empty, UpTo(n - 1), n - 1, sd);
      ReadMiss(c, n - 1, sd, n - 1);
    } else {
      assert UpTo(0) == [];
    }
  }

  lemma NoReads(cache: seq<CacheSlot>, sd: Blocks)
    requires |cache| == CACHE
    ensures AfterReads(cache, [], sd) == cache
  {
  }

  lemma UpToSnoc(n: nat)
    requires n > 0
    ensures UpTo(n) == UpTo(n - 1) + [n - 1]
  {
  }

  lemma ReadStep(cache: seq<CacheSlot>, bs: seq<nat>, b: nat, sd: Blocks)
    requires |cache| == CACHE && forall k :: 0 <= k < |bs| ==> bs[k] < |sd|
    ensures b < |sd| ==> AfterReads(cache, bs + [b], sd) == NextCache(AfterReads(cache, bs, sd), b, sd)
  {
    assert (bs + [b])[..|bs|] == bs;
  }

  lemma ReadHit(cache: seq<CacheSlot>, b: nat, sd: Blocks)
    requires |cache| == CACHE && b < |sd| && cache[0].valid && cache[0].bucket == b
    ensures NextCache(cache, b, sd) == cache
  {
    PositionIs(cache, b, 0);
  }

  // A bucket not cached takes the first free slot, or slot 0 when there is none.
  lemma ReadMiss(cache: seq<CacheSlot>, b: nat, sd: Blocks, free: nat)
    requires |cache| == CACHE && b < |sd| && Good(sd[b])
    requires forall i :: 0 <= i < CACHE && cache[i].valid ==> cache[i].bucket != b
    requires free <= CACHE && (free < CACHE ==> !cache[free].valid)
    requires forall i :: 0 <= i < free ==> cache[i].valid
    ensures NextCache(cache, b, sd) == cache[if free < CACHE then free else 0 := CacheSlot(b, sd[b], 0, true)]
  {
    hide Good;
    PositionIs(cache, b, CACHE);
    FreeIs(cache, free);
  }

  // Seventeen buckets read in turn, the first once more before the last: the last takes the place of
  // the one read most recently, while those read longest ago stay.
  lemma MostRecentEvicted(empty: seq<CacheSlot>, sd: Blocks)
    requires |empty| == CACHE && |sd| > CACHE && forall i :: 0 <= i < CACHE ==> !empty[i].valid
    requires forall b :: 0 <= b <= CACHE ==> Good(sd[b])
    ensures var c := AfterReads(empty, UpTo(CACHE) + [0, CACHE], sd);
      c[0].bucket == CACHE && forall i :: 0 < i < CACHE ==> c[i].valid && c[i].bucket == i
  {
    hide NextCache, AfterReads, UpTo, Good, Position, FirstFree;
    Fills(empty, sd, CACHE);
    var full := AfterReads(empty, UpTo(CACHE), sd);
    ReadStep(empty, UpTo(CACHE), 0, sd);
    ReadHit(full, 0, sd);
    ReadStep(empty, UpTo(CACHE) + [0], CACHE, sd);
    assert UpTo(CACHE) + [0] + [CACHE] == UpTo(CACHE) + [0, CACHE];
    ReadMiss(full, CACHE, sd, CACHE);
  }

  // The same as a run of the table, from any device and an empty cache.
  method EvictionRun(c: Choice, sd: Blocks) returns (t: Table)
    requires |sd| == c.n > CACHE
    ensures t.Valid() && t.cache[0].bucket == CACHE
    ensures forall i :: 0 < i < CACHE ==> t.cache[i].valid && t.cache[i].bucket == i
  {
    hide NextCache, AfterReads, UpTo, Good, Coherent, Ageless, Logged, View;
    t := new Table(c, sd);
    for b := 0 to CACHE + 1
      invariant t.Valid() && fresh(t) && fresh(t.cache) && t.choice == c
      invariant forall i :: 0 <= i < CACHE ==> !t.cache[i].valid
      invariant forall d :: 0 <= d < b ==> Good(t.sd[d])
    {
      var buf := new byte[BLOCK](_ => 0);
      EmptyBucket(buf[..]);
      t.WriteBucket(b, buf);
    }
    MostRecentEvicted(t.cache[..], t.sd);
    ReadAll(t, UpTo(CACHE) + [0, CACHE]);
  }

  lemma EmptyBucket(b: Bytes)
    requires |b| == BLOCK && forall i :: 0 <= i < BLOCK ==> b[i] == 0
    ensures Count(b) == 0
  {
  }

  lemma Added(c: Choice, vs: seq<seq<Entry>>, b: nat, key: word, slot: word)
    requires |vs| == c.n > 0 && c.AllSingle(vs) && b in {c.First(key), c.Second(key)} && c.Lookup(vs, key) == None
    requires |vs[b]| < ENTRIES
    ensures var ws := vs[b := vs[b] + [Entry(key, slot)]];
      c.AllSingle(ws) && HasRoom(c, vs, key) && Updated(c, vs, ws, key, slot) && Between(c, vs, ws, key, slot)
  {
    hide Choice.Single, Choice.Lookup;
    var ws := vs[b := vs[b] + [Entry(key, slot)]];
    hide Choice.Answer;
    forall k
      ensures c.Single(ws, k)
      ensures c.Lookup(ws, k) == if k == key then Some(slot) else c.Lookup(vs, k)
      ensures c.Answer(vs, k) == AsSlot(c.Lookup(vs, k)) && c.Answer(ws, k) == AsSlot(c.Lookup(ws, k))
    {
      assert c.Single(vs, k);
      c.AddLookup(vs, b, Entry(key, slot), k);
      c.AnswerIsLookup(vs, k);
      c.AnswerIsLookup(ws, k);
    }
  }

  lemma Replaced(c: Choice, vs: seq<seq<Entry>>, b: nat, key: word, slot: word)
    requires |vs| == c.n > 0 && c.AllSingle(vs) && b in {c.First(key), c.Second(key)} && FirstOf(vs[b], key) >= 0
    ensures var i := FirstOf(vs[b], key);
      var ws := vs[b := vs[b][i := Entry(vs[b][i].key, slot)]];
      c.AllSingle(ws) && HasRoom(c, vs, key) && Updated(c, vs, ws, key, slot) && Between(c, vs, ws, key, slot)
  {
    hide Choice.Single, Choice.Lookup;
    var i := FirstOf(vs[b], key);
    var ws := vs[b := vs[b][i := Entry(vs[b][i].key, slot)]];
    c.Present(vs, b, key);
    hide Choice.Answer;
    forall k
      ensures c.Single(ws, k)
      ensures c.Lookup(ws, k) == if k == key then Some(slot) else c.Lookup(vs, k)
      ensures c.Answer(vs, k) == AsSlot(c.Lookup(vs, k)) && c.Answer(ws, k) == AsSlot(c.Lookup(ws, k))
    {
      assert c.Single(vs, k);
      c.ReplaceLookup(vs, b, i, slot, k);
      c.AnswerIsLookup(vs, k);
      c.AnswerIsLookup(ws, k);
    }
  }

  lemma Moved(c: Choice, vs: seq<seq<Entry>>, b: nat, d: nat, key: word, slot: word)
    requires |vs| == c.n > 0 && c.AllSingle(vs) && b != d && {b, d} == {c.First(key), c.Second(key)} && b < c.n && d < c.n
    requires FirstOf(vs[b], key) >= 0
    ensures var mid := vs[d := vs[d] + [Entry(key, slot)]];
      var ws := mid[b := SwapRemoved(mid[b], FirstOf(mid[b], key))];
      c.AllSingle(ws) && HasRoom(c, vs, key) && Updated(c, vs, ws, key, slot)
      && Between(c, vs, mid, key, slot) && Between(c, vs, ws, key, slot)
  {
    hide Choice.Single, Choice.Lookup, Choice.Answer, SwapRemoved;
    var i := FirstOf(vs[b], key);
    var mid := vs[d := vs[d] + [Entry(key, slot)]];
    var ws := mid[b := SwapRemoved(mid[b], i)];
    c.Present(vs, b, key);
    forall k
      ensures c.Single(ws, k)
      ensures c.Lookup(ws, k) == if k == key then Some(slot) else c.Lookup(vs, k)
      ensures if k == key then c.Lookup(mid, k) in {c.Lookup(vs, k), Some(slot)} else c.Lookup(mid, k) == c.Lookup(vs, k)
      ensures if k == key then c.Answer(mid, k) in {c.Answer(vs, k), AsSlot(Some(slot))}
              else c.Answer(mid, k) == c.Answer(vs, k)
      ensures c.Answer(vs, k) == AsSlot(c.Lookup(vs, k)) && c.Answer(ws, k) == AsSlot(c.Lookup(ws, k))
    {
      assert c.Single(vs, k);
      c.MoveLookup(vs, b, i, d, slot, k);
      c.AnswerIsLookup(vs, k);
      c.AnswerIsLookup(ws, k);
    }
  }
}
