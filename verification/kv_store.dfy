/** The live flash store: puts, gets, deletes and page reclaiming over an append-only log.

    The ghost fields say what is on each page and what each key maps to. A key maps to no value
    when its last record did not fit the 768-byte programming buffer and was silently dropped.
 */
module KvStore {
  import opened Bits
  import opened Collections
  import opened KvRecord
  import opened KvLog
  import opened KvIndex
  import opened KvPages
  import opened KvLayout
  import opened KvCrash
  import PicoFormat
  import PicoPacking
  import PicoStream
  import PicoCodec

  type Dictionary = PicoFormat.Dictionary
  type Value = Option<Bytes>

  const COMPRESS_MIN := 64
  const VERSION_ANY := 0xFFFF

  predicate IsComp(flags: byte) {
    flags % 2 == 1
  }

  // A record that reads back as x.
  // The lowest bit of the flags says compressed, the next one deleted.
  lemma FlagBits(flags: byte)
    ensures (IsComp(flags) <==> Bit(flags, 0)) && (IsTomb(flags) <==> Bit(flags, 1))
  {
  }

  ghost predicate Carries(dict: Dictionary, it: Item, x: Bytes) {
    && it.rawLen == |x| && !IsTomb(it.flags)
    && (if IsComp(it.flags) then PicoStream.IsEncoding(dict, x, it.stored) else it.stored == x)
  }

  // What is stored for x takes n bytes: a long value is compressed, if that makes it shorter.
  ghost predicate StoresIn(dict: Dictionary, x: Bytes, n: nat) {
    if |x| < COMPRESS_MIN then n == |x|
    else exists w :: PicoPacking.IsPacking(dict, x, w) && n == if |w| < |x| then |w| else |x|
  }

  // Slot number i of a page is where key's entry points, and gives its value.
  ghost predicate EntryAt(dict: Dictionary, slots: Slots, i: nat, key: word, e: Entry, v: Value) {
    && i < |slots| && LocOff(e.loc) == Offset(slots, i) && slots[i].Key() == key
    && match slots[i] {
      case Rec(it) => it.version == e.version && v.Some? && Carries(dict, it, v.value)
      case Gap(_, _) => v.None?
    }
  }

  ghost predicate EntryOk(dict: Dictionary, slots: AllSlots, key: word, e: Entry, v: Value) {
    LocPage(e.loc) < SECTORS && exists i: nat :: EntryAt(dict, slots[LocPage(e.loc)], i, key, e, v)
  }

  ghost predicate EntriesOk(dict: Dictionary, slots: AllSlots, m: Index, model: map<word, Value>) {
    m.Keys == model.Keys && forall k :: k in m ==> EntryOk(dict, slots, k, m[k], model[k])
  }

  // Appending to a page disturbs no entry.
  lemma EntryStays(dict: Dictionary, slots: AllSlots, p: nat, s: Slot, key: word, e: Entry, v: Value)
    requires p < SECTORS && s.Ok() && EntryOk(dict, slots, key, e, v)
    ensures EntryOk(dict, slots[p := slots[p] + [s]], key, e, v)
  {
    hide Offset, Carries, Slot.Ok;
    var q := LocPage(e.loc);
    var i: nat :| EntryAt(dict, slots[q], i, key, e, v);
    var t: Slots := slots[p] + [s];
    if p == q {
      assert t[..i] == slots[p][..i];
      OffsetPrefix(t, slots[p], i);
    }
    assert EntryAt(dict, slots[p := t][q], i, key, e, v);
  }

  lemma EntriesStay(dict: Dictionary, slots: AllSlots, p: nat, s: Slot, m: Index, model: map<word, Value>)
    requires p < SECTORS && s.Ok() && EntriesOk(dict, slots, m, model)
    ensures EntriesOk(dict, slots[p := slots[p] + [s]], m, model)
  {
    hide EntryOk;
    forall k | k in m ensures EntryOk(dict, slots[p := slots[p] + [s]], k, m[k], model[k]) {
      EntryStays(dict, slots, p, s, k, m[k], model[k]);
    }
  }

  // The slot just appended can carry an entry.
  lemma NewEntry(dict: Dictionary, slots: AllSlots, p: nat, s: Slot, key: word, e: Entry, v: Value)
    requires p < SECTORS && s.Ok() && LocPage(e.loc) == p && LocOff(e.loc) == Offset(slots[p], |slots[p]|)
    requires s.Key() == key
    requires match s case Rec(it) => it.version == e.version && v.Some? && Carries(dict, it, v.value) case Gap(_, _) => v.None?
    ensures EntryOk(dict, slots[p := slots[p] + [s]], key, e, v)
  {
    hide Offset, Carries, Slot.Ok;
    var n := |slots[p]|;
    var t: Slots := slots[p] + [s];
    assert t[..n] == slots[p][..n];
    OffsetPrefix(t, slots[p], n);
    assert EntryAt(dict, slots[p := t][p], n, key, e, v);
  }

  // Erasing a page that no entry points to disturbs no entry.
  lemma EntriesOutlive(dict: Dictionary, slots: AllSlots, p: nat, m: Index, model: map<word, Value>)
    requires p < SECTORS && EntriesOk(dict, slots, m, model) && KeysOn(m, p) == {}
    ensures EntriesOk(dict, slots[p := []], m, model)
  {
    hide EntryAt;
    forall k | k in m ensures EntryOk(dict, slots[p := []], k, m[k], model[k]) {
      assert EntryOk(dict, slots, k, m[k], model[k]);
      assert k !in KeysOn(m, p);
      var i: nat :| EntryAt(dict, slots[LocPage(m[k].loc)], i, k, m[k], model[k]);
      assert EntryAt(dict, slots[p := []][LocPage(m[k].loc)], i, k, m[k], model[k]);
    }
  }

  // At most 92 records fit a page, so the counts of live records never saturate.
  lemma FewOnPage(dict: Dictionary, slots: AllSlots, m: Index, model: map<word, Value>, p: nat)
    requires p < SECTORS && EntriesOk(dict, slots, m, model) && Offset(slots[p], |slots[p]|) <= SECTOR
    ensures |KeysOn(m, p)| <= |slots[p]| <= 92
  {
    var owners := set i | 0 <= i < |slots[p]| :: slots[p][i].Key();
    assert KeysOn(m, p) <= owners by {
      forall k | k in KeysOn(m, p) ensures k in owners {
        assert EntryOk(dict, slots, k, m[k], model[k]);
        var i: nat :| EntryAt(dict, slots[p], i, k, m[k], model[k]);
      }
    }
    SubsetSize(KeysOn(m, p), owners);
    OwnersBound(slots[p], |slots[p]|);
  }

  lemma {:induction false} SubsetSize<T>(a: set<T>, b: set<T>)
    requires a <= b
    ensures |a| <= |b|
  {
    if a != {} {
      var x :| x in a;
      SubsetSize(a - {x}, b - {x});
    }
  }

  lemma {:induction false} OwnersBound(slots: Slots, n: nat)
    requires n <= |slots|
    ensures |set i | 0 <= i < n :: slots[i].Key()| <= n
  {
    var s := set i | 0 <= i < n :: slots[i].Key();
    if n > 0 {
      OwnersBound(slots, n - 1);
      var t := set i | 0 <= i < n - 1 :: slots[i].Key();
      assert s == t + {slots[n - 1].Key()};
    }
  }

  lemma FewAnywhere(dict: Dictionary, pages: seq<Bytes>, slots: AllSlots, m: Index, model: map<word, Value>)
    requires EntriesOk(dict, slots, m, model) && AllPagesOk(pages, slots)
    ensures forall p: nat :: |KeysOn(m, p)| < SATURATED
  {
    forall p: nat ensures |KeysOn(m, p)| < SATURATED {
      if p < SECTORS {
        assert PageOk(pages[p], slots[p]);
        FewOnPage(dict, slots, m, model, p);
      } else {
        assert forall k :: k in m ==> EntryOk(dict, slots, k, m[k], model[k]);
        assert KeysOn(m, p) == {};
      }
    }
  }

  // There is room for a record with n stored bytes, on the write page or on an empty one.
  ghost predicate Room(slots: AllSlots, writeOff: nat, n: nat) {
    writeOff + PairSpan(n) <= SECTOR || exists p :: 0 <= p < SECTORS && slots[p] == []
  }

  class Store {
    const dict: Dictionary
    const index: KeyIndex
    var pages: seq<Bytes>
    var writePage: nat
    var writeOff: nat
    var sequence: word
    var group: word
    ghost var slots: AllSlots
    ghost var model: map<word, Value>
    ghost var burns: seq<Burn>  // all that was programmed
    ghost var pristine: bool  // nothing erased, dropped or wrapped around since the region was erased

    ghost predicate Laid() reads this {
      AllPagesOk(pages, slots) && writePage < SECTORS && writeOff == Offset(slots[writePage], |slots[writePage]|)
    }

    ghost predicate Valid() reads this, index {
      && Laid() && index.Valid() && CountsExactly(index.contents, index.refs)
      && EntriesOk(dict, slots, index.contents, model)
      && (forall k :: k in index.contents ==> index.contents[k].version < 0xFFFF)
      && (pristine ==> InOrder(slots, writePage) && ApplyOps(map[], AllOps(slots, SECTORS)) == index.contents)
    }

    constructor (dict: Dictionary)
      ensures Valid() && fresh(index) && model == map[] && pristine && this.dict == dict
      ensures index.contents == map[] && writePage == 0 && writeOff == HEADER
    {
      this.dict := dict;
      index := new KeyIndex();
      pages := seq(SECTORS, _ => Blank(SECTOR));
      slots := seq(SECTORS, _ => NO_SLOTS);
      writePage, writeOff, sequence, group := 0, HEADER, 0, 0;
      model, burns, pristine := map[], [], true;
      new;
      ErasedIsOk();
      NoOps(slots, SECTORS);
    }

    // The next page with nothing appended to it, going round from the write page.
    method FindNext() returns (found: bool, cand: nat)
      requires Laid()
      ensures found ==> NextEmpty(slots, writePage, cand)
      ensures !found ==> forall p :: 0 <= p < SECTORS ==> slots[p] != []
      ensures InOrder(slots, writePage) && slots[writePage] != [] ==>
        (found <==> writePage + 1 < SECTORS) && (found ==> cand == writePage + 1)
    {
      hide PageOk, LooksEmpty, InOrder;
      for i := 1 to SECTORS + 1
        invariant NoneBefore(slots, writePage, i)
      {
        cand := (writePage + i) % SECTORS;
        assert cand == Around(writePage, i);
        assert PageOk(pages[cand], slots[cand]);
        LooksEmptyIs(pages[cand], slots[cand]);
        if LooksEmpty(pages[cand]) {
          NextInOrder(slots, writePage, i);
          return true, cand;
        }
      }
      AllAround(slots, writePage);
      return false, 0;
    }

    // Find room on the write page, or move on to an empty page.
    method SelectPage(need: nat) returns (ok: bool)
      requires Laid() && need <= 552
      modifies this`writePage, this`writeOff
      ensures Laid() && (ok ==> writeOff + need <= SECTOR)
      ensures old(InOrder(slots, writePage)) ==> InOrder(slots, writePage)
      ensures ok <==> old(writeOff) + need <= SECTOR || exists p :: 0 <= p < SECTORS && slots[p] == []
      ensures !ok || old(writeOff) + need <= SECTOR ==> writePage == old(writePage)
      ensures ok && old(writeOff) + need > SECTOR ==> NextEmpty(slots, old(writePage), writePage)
      ensures writeOff == if !ok || old(writeOff) + need <= SECTOR then old(writeOff) else HEADER
    {
      hide PageOk;
      if writeOff + need <= SECTOR {
        assert PageOk(pages[writePage], slots[writePage]);
        LooksEmptyIs(pages[writePage], slots[writePage]);
        if Load32(pages[writePage], 0) == PAGE_MAGIC || Load32(pages[writePage], 0) == 0xFFFF_FFFF {
          return true;
        }
      }
      var cand;
      ok, cand := FindNext();
      if ok {
        writePage, writeOff := cand, HEADER;
      }
    }

    // Give a page its header if it does not have one yet.
    method EnsureReady(p: nat)
      requires Laid() && p < SECTORS
      modifies this`pages, this`sequence, this`burns
      ensures Laid() && HeaderOk(pages[p])
      ensures HeaderAtMost(old(pages), slots, old(burns), burns, pages)
    {
      hide HeaderOk, HeaderBytes, PageOk, HeaderAtMost, Chained;
      LooksEmptyIs(pages[p], slots[p]);
      if HeaderOk(pages[p]) {
        Unchanged(pages, slots, burns);
        return;
      }
      sequence := U32(sequence as int + 1);
      ghost var blank := pages[p];
      if Load32(pages[p], 0) != 0xFFFF_FFFF {
        // Only a page that is neither headed nor blank would be erased here, and there is none.
        assert false;
      }
      var page := Program(pages[p], 0, HeaderBytes(sequence) + Blank(PROGRAM_PAGE - HEADER));
      HeaderDone(pages, slots, p, sequence, page, burns);
      HeaderProgrammed(blank, sequence, page);
      FreshPage(blank, sequence, page);
      ghost var b := Burn(pages, p, 0, HeaderBytes(sequence) + Blank(PROGRAM_PAGE - HEADER));
      pages, burns := pages[p := page], burns + [b];
    }

    method Prewarm()
      requires Laid()
      modifies this`pages, this`sequence, this`burns
      ensures Laid() && HeaderAtMost(old(pages), slots, old(burns), burns, pages)
    {
      hide PageOk, HeaderOk, HeaderAtMost;
      Unchanged(pages, slots, burns);
      var found, next := FindNext();
      if found && next != writePage {
        LooksEmptyIs(pages[next], slots[next]);
        if Load32(pages[next], 0) == 0xFFFF_FFFF {
          EnsureReady(next);
        }
      }
    }

    // The page being written gets its new contents, with one slot more.
    method Advance(page: Bytes, ghost s: Slot, n: nat)
      requires Laid() && s.Ok() && s.Size() == n && PageOk(page, slots[writePage] + [s])
      modifies this`pages, this`writeOff, this`slots
      ensures Laid() && writeOff == old(writeOff) + n && pages == old(pages)[writePage := page]
      ensures slots == old(slots)[writePage := old(slots)[writePage] + [s]]
    {
      hide PageOk, Offset, AllPagesOk, Slot.Ok, Slot.Size;
      BodyAppend(slots[writePage], s);
      WithSlot(pages, slots, writePage, page, s);
      pages, writeOff := pages[writePage := page], writeOff + n;
      slots := slots[writePage := slots[writePage] + [s]];
    }

    // Write the record and its marker, or drop them when they do not fit the programming buffer.
    method WritePair(it: Item) returns (ghost s: Slot)
      requires Laid() && Storable(it) && writeOff + PairSize(it) <= SECTOR && HeaderOk(pages[writePage])
      modifies this`pages, this`writeOff, this`slots, this`burns
      ensures Laid() && writeOff == old(writeOff) + PairSize(it)
      ensures if s.Gap? then pages == old(pages) && burns == old(burns)
        else Programmed(Burn(old(pages), writePage, old(writeOff), PairBytes(it)), old(burns), burns, pages)
      ensures s == (if Fits(old(writeOff), PairSize(it)) then Rec(it) else Gap(PairSize(it), it.key)) && s.Ok()
      ensures slots == old(slots)[writePage := old(slots)[writePage] + [s]]
    {
      hide PageOk, HeaderOk, PairBytes, PairSize, Slot.Bytes, Offset, BlankFrom, AllPagesOk, Programmed;
      PageAt(pages, slots, writePage);
      var page, n := pages[writePage], PairSize(it);
      PageFacts(page, slots[writePage]);
      var page' := Program(page, writeOff, PairBytes(it));
      FirstFits(slots[writePage], n);
      if Fits(writeOff, n) {
        s := Rec(it);
        BytesOfRec(it);
        AppendRec(page, slots[writePage], s, page');
      } else {
        s := Gap(n, it.key);
        AppendGap(page, slots[writePage], s);
      }
      ghost var b := Burn(pages, writePage, writeOff, PairBytes(it));
      if s.Rec? {
        BurnDone(pages, slots, b, page', burns);
      }
      Advance(page', s, n);
      if s.Rec? {
        burns := burns + [b];
      }
    }

    // All the programming of one append: a header first if the page has none, the pair, and the next
    // page's header.
    method Log(it: Item) returns (ghost s: Slot)
      requires Laid() && Storable(it) && writeOff + PairSize(it) <= SECTOR
      modifies this`pages, this`writeOff, this`slots, this`sequence, this`burns
      ensures Laid() && writeOff == old(writeOff) + PairSize(it)
      ensures s == (if Fits(old(writeOff), PairSize(it)) then Rec(it) else Gap(PairSize(it), it.key)) && s.Ok()
      ensures slots == old(slots)[writePage := old(slots)[writePage] + [s]]
      ensures old(burns) <= burns && Chained(old(pages), burns[|old(burns)|..], pages)
      ensures InOrder(old(slots), writePage) ==>
        var m := ApplyOps(map[], AllOps(old(slots), SECTORS));
        CrashSafe(burns[|old(burns)|..], m, if s.Rec? then ApplyOp(m, OpOf(it, writePage, old(writeOff))) else m)
    {
      hide PageOk, HeaderOk, PairSize, PairBytes, Offset, InOrder, AllOps, ApplyOps, ApplyOp, OpOf, Fits, AllPagesOk;
      hide Chained, CrashSafe, Programmed, HeaderAtMost, Slot.Ok;
      PageAt(pages, slots, writePage);
      EnsureReady(writePage);
      ghost var p1, b1 := pages, burns;
      s := WritePair(it);
      ghost var p2, b2 := pages, burns;
      Prewarm();
      AppendSafe(old(pages), p1, p2, pages, old(slots), writePage, s, it, old(burns), b1, b2, burns);
    }

    // Append one operation, of n stored bytes, to the log. The index is left to the caller.
    method Append(key: word, raw: Bytes, version: half, flags: byte)
      returns (ok: bool, loc: nat, ghost s: Slot, ghost n: nat)
      requires Valid() && |raw| <= MAX_VALUE && (flags == 0 || (flags == FLAG_TOMB && raw == []))
      modifies this`pages, this`sequence, this`writePage, this`writeOff, this`slots, this`burns
      ensures Laid() && EntriesOk(dict, slots, index.contents, model)
      ensures n <= |raw| && StoresIn(dict, raw, n) && (ok <==> Room(old(slots), old(writeOff), n))
      ensures !ok ==> slots == old(slots) && writePage == old(writePage) && writeOff == old(writeOff)
      ensures ok ==> Appended(old(slots), slots, key, loc, s) && (s.Rec? <==> !Lost(old(writeOff), n))
      ensures ok ==> writeOff == PlaceOf(old(writeOff), n) + PairSpan(n)
      ensures ok && s.Rec? ==> s.item.version == version && (IsTomb(s.item.flags) <==> flags == FLAG_TOMB)
      ensures ok && s.Rec? && flags == 0 ==> Carries(dict, s.item, raw)
      ensures pristine && (ok ==> s.Rec?) ==> InOrder(slots, writePage)
      ensures pristine && ok && s.Rec? ==>
        AllOps(slots, SECTORS) == AllOps(old(slots), SECTORS) + [Op(key, loc, version, s.item.flags)]
      ensures old(burns) <= burns && Chained(old(pages), burns[|old(burns)|..], pages)
      ensures pristine ==> CrashSafe(burns[|old(burns)|..], index.contents,
        if ok && s.Rec? then ApplyOp(index.contents, Op(key, loc, version, s.item.flags)) else index.contents)
    {
      hide PageOk, HeaderOk, PairSize, Offset, EntriesOk, Carries, Fits, LocPage, LocOff, LocLen, PackLoc, InOrder;
      hide Chained, CrashSafe, ApplyOps, ApplyOp;
      hide AllOps, AllRecs, Represents, CountsExactly, Align4, RecLen, PairSpan, Lost, PlaceOf, StoresIn;
      var stored, comp := EncodeValue(dict, raw);
      n := |stored|;
      var it := Item(key, |raw|, stored, version, if comp then flags + FLAG_COMP else flags, group);
      s := Rec(it);
      AlignedPair(it);
      SpanOf(it, writeOff);
      ok := SelectPage(PairSize(it));
      if !ok {
        NoBurns(pages, index.contents, index.contents);
        assert burns[|old(burns)|..] == [];
        return false, 0, s, n;
      }
      var w, off := writePage, writeOff;
      LocRoundTrip(w, off, Align4(RecLen(it)));
      loc := PackLoc(w, off, Align4(RecLen(it)));
      s := Log(it);
      EntriesStay(dict, old(slots), w, s, index.contents, model);
      ItemCarries(dict, it, raw, flags, comp);
      if pristine && s.Rec? {
        OrderKept(old(slots), w, s);
        AllOpsAppend(old(slots), w, s, SECTORS);
      }
    }

    // What a put comes to that is not refused for its length or version.
    ghost predicate Reaches(key: word, value: Bytes, expected: half, n: nat)
      requires Valid()
      reads this, index
    {
      && |value| <= MAX_VALUE
      && (expected == VERSION_ANY || expected == CurrentVersion(index.contents, key))
      && Room(slots, writeOff, n)
    }

    // Store a value, if its key's version is the expected one. With n the stored length, the value is
    // silently lost exactly when Lost says so of the write offset before the call, and the log stays
    // pristine exactly when nothing is lost and no version wraps, index-full refusals included.
    method PutIfVersion(key: word, value: Bytes, expected: half)
      returns (ok: bool, version: half, ghost n: nat)
      requires Valid()
      modifies this, index
      ensures Valid() && n <= |value|
      ensures |value| <= MAX_VALUE ==>
        if expected == VERSION_ANY || expected == CurrentVersion(old(index.contents), key) then StoresIn(dict, value, n)
        else n == |value|
      ensures ok <==>
        old(Reaches(key, value, expected, n)) && (key in old(index.contents) || |old(index.contents)| < INDEX_CAPACITY)
      ensures !ok ==> model == old(model) && index.contents == old(index.contents)
      ensures ok ==> version == NextVersion(CurrentVersion(old(index.contents), key))
      ensures ok ==> model == old(model)[key := if Lost(old(writeOff), n) then None else Some(value)]
      ensures ok ==> key in index.contents
      ensures ok ==> index.contents == old(index.contents)[key := Entry(index.contents[key].loc, version)]
      ensures ok && |value| <= 474 ==> model[key] == Some(value)
      ensures pristine == (old(pristine) && (old(Reaches(key, value, expected, n)) ==>
        !Lost(old(writeOff), n) && CurrentVersion(old(index.contents), key) < 0xFFFE))
      ensures writeOff == if old(Reaches(key, value, expected, n))
        then PlaceOf(old(writeOff), n) + PairSpan(n) else old(writeOff)
      ensures old(burns) <= burns && Chained(old(pages), burns[|old(burns)|..], pages)
      ensures old(pristine) ==> CrashSafe(burns[|old(burns)|..], old(index.contents), index.contents)
    {
      hide AllPagesOk, Carries, InOrder, AllOps, EntriesOk, CountsExactly, Represents, OnPages, Counts, ApplyOps;
      hide Chained, CrashSafe, ApplyOp;
      hide Room, Lost, PlaceOf, PairSpan, StoresIn;
      n := |value|;
      NoBurns(pages, index.contents, index.contents);
      assert burns[|burns|..] == [];
      if |value| > MAX_VALUE {
        return false, 0, n;
      }
      var exists', loc0, cur := index.Get(key);
      if expected != VERSION_ANY && expected != cur {
        return false, 0, n;
      }
      group := U32(group as int + 1);
      version := NextVersion(cur);
      ghost var before := slots;
      var loc;
      ghost var s;
      OffsetAligned();
      ok, loc, s, n := Append(key, value, version, 0);
      LostWhen(old(writeOff), n);
      if ok {
        ok := Publish(key, value, loc, version, before, s);
        if old(pristine) {
          PutSafe(burns[|old(burns)|..], old(index.contents), key, loc, version, s);
        }
      }
    }

    lemma OffsetAligned()
      requires Valid()
      ensures writeOff % 4 == 0
    {
    }

    // Point the index at a record just appended.
    method Publish(key: word, ghost value: Bytes, loc: nat, version: half, ghost before: AllSlots, ghost s: Slot)
      returns (ok: bool)
      requires Laid() && index.Valid() && CountsExactly(index.contents, index.refs)
      requires EntriesOk(dict, slots, index.contents, model) && Appended(before, slots, key, loc, s)
      requires s.Rec? ==> s.item.version == version && !IsTomb(s.item.flags) && Carries(dict, s.item, value)
      requires version == NextVersion(CurrentVersion(index.contents, key))
      requires forall k :: k in index.contents ==> index.contents[k].version < 0xFFFF
      requires pristine ==> ApplyOps(map[], AllOps(before, SECTORS)) == index.contents
      requires pristine && s.Rec? ==> InOrder(slots, writePage)
      requires pristine && s.Rec? ==> AllOps(slots, SECTORS) == AllOps(before, SECTORS) + [Op(key, loc, version, s.item.flags)]
      modifies index, this`model, this`pristine
      ensures Valid()
      ensures ok <==> key in old(index.contents) || |old(index.contents)| < INDEX_CAPACITY
      ensures index.contents == if ok then old(index.contents)[key := Entry(loc, version)] else old(index.contents)
      ensures model == if ok then old(model)[key := if s.Rec? then Some(value) else None] else old(model)
      ensures pristine == (old(pristine) && s.Rec? && CurrentVersion(old(index.contents), key) < 0xFFFE)
    {
      hide PageOk, Offset, Carries, InOrder, AllOps, EntryOk, KeysOn, Fits;
      hide LocPage, LocOff, LocLen, Represents, Slot.Ok, ApplyOps;
      ghost var m := index.contents;
      FewAnywhere(dict, pages, slots, m, model);
      ok := index.Set(key, loc, version);
      ghost var v: Value := if s.Rec? then Some(value) else None;
      NewEntry(dict, before, LocPage(loc), s, key, Entry(loc, version), v);
      if pristine && s.Rec? && CurrentVersion(m, key) < 0xFFFE {
        ApplyPut(m, AllOps(before, SECTORS), Op(key, loc, version, s.item.flags));
      } else {
        pristine := false;
      }
      if ok {
        model := model[key := v];
      }
    }

    method Put(key: word, value: Bytes) returns (ok: bool, ghost n: nat)
      requires Valid()
      modifies this, index
      ensures Valid() && n <= |value| && (|value| <= MAX_VALUE ==> StoresIn(dict, value, n))
      ensures ok <==>
        && |value| <= MAX_VALUE && Room(old(slots), old(writeOff), n)
        && (key in old(index.contents) || |old(index.contents)| < INDEX_CAPACITY)
      ensures model == if ok then old(model)[key := if Lost(old(writeOff), n) then None else Some(value)] else old(model)
      ensures ok && |value| <= 474 ==> model[key] == Some(value)
      ensures index.contents.Keys == old(index.contents).Keys + if ok then {key} else {}
      ensures forall k :: k in index.contents ==>
        index.contents[k].version == if ok && k == key then NextVersion(CurrentVersion(old(index.contents), k))
                                     else old(index.contents)[k].version
      ensures pristine == (old(pristine) && (|value| <= MAX_VALUE && Room(old(slots), old(writeOff), n) ==>
        !Lost(old(writeOff), n) && CurrentVersion(old(index.contents), key) < 0xFFFE))
      ensures |value| <= MAX_VALUE && Room(old(slots), old(writeOff), n) ==>
        writeOff == PlaceOf(old(writeOff), n) + PairSpan(n)
      ensures old(burns) <= burns && Chained(old(pages), burns[|old(burns)|..], pages)
      ensures old(pristine) ==> CrashSafe(burns[|old(burns)|..], old(index.contents), index.contents)
    {
      hide Chained, CrashSafe;
      hide AllPagesOk, InOrder, AllOps, EntriesOk, CountsExactly, ApplyOps, Room, Lost, PlaceOf, PairSpan, StoresIn;
      var version;
      ok, version, n := PutIfVersion(key, value, VERSION_ANY);
    }

    // Log a tombstone and forget the key. Fails for a key that is not there, or without an empty page.
    method Remove(key: word) returns (ok: bool)
      requires Valid()
      modifies this, index
      ensures Valid()
      ensures ok <==> key in old(model) && Room(old(slots), old(writeOff), 0)
      ensures model == if ok then old(model) - {key} else old(model)
      ensures index.contents == if ok then old(index.contents) - {key} else old(index.contents)
      ensures pristine == old(pristine)
      ensures writeOff == if ok then PlaceOf(old(writeOff), 0) + PairSpan(0) else old(writeOff)
      ensures old(burns) <= burns && Chained(old(pages), burns[|old(burns)|..], pages)
      ensures old(pristine) ==> CrashSafe(burns[|old(burns)|..], old(index.contents), index.contents)
    {
      hide AllPagesOk, Carries, InOrder, AllOps, EntryOk, CountsExactly, Represents, OnPages, Counts, ApplyOps, KeysOn;
      hide Chained, CrashSafe, ApplyOp;
      hide Room, Lost, PlaceOf, PairSpan, StoresIn;
      NoBurns(pages, index.contents, index.contents);
      assert burns[|burns|..] == [];
      var found, loc0, cur := index.Get(key);
      if !found {
        return false;
      }
      group := U32(group as int + 1);
      ghost var before := slots;
      var loc;
      ghost var s;
      ghost var n;
      OffsetAligned();
      ok, loc, s, n := Append(key, [], (cur + 1) % 0x1_0000, FLAG_TOMB);
      LostWhen(old(writeOff), n);
      if !ok {
        return;
      }
      ghost var m := index.contents;
      FewAnywhere(dict, pages, slots, m, model);
      index.Remove(key);
      if pristine {
        ghost var op := Op(key, loc, (cur + 1) % 0x1_0000, s.item.flags);
        ApplyRemove(m, AllOps(before, SECTORS), op);
        CrashSafeOr(burns[|old(burns)|..], m, ApplyOp(m, op), index.contents);
      }
      model := model - {key};
    }

    // Check and decode the record at a location.
    method ReadRecord(loc: nat, key: word, cap: nat, ghost i: nat, ghost e: Entry, ghost v: Value)
      returns (ok: bool, value: Bytes, version: half)
      requires Laid() && LocPage(loc) < SECTORS && e.loc == loc && EntryAt(dict, slots[LocPage(loc)], i, key, e, v)
      ensures ok <==> v.Some? && |v.value| <= cap
      ensures ok ==> value == v.value && version == e.version
    {
      hide PageOk, Offset, Body, Crc32, Load32, Load16, LocPage, LocOff, PairBytes, RecordBytes, Slot.Bytes;
      ghost var s := slots[LocPage(loc)];
      var page, off := pages[LocPage(loc)], LocOff(loc);
      ok, value, version := false, [], 0;
      SlotOnPage(page, s, i);
      if s[i].Rec? {
        RecordFields(page, off, s[i].item);
      }
      if Load32(page, off + 6) != KV_MAGIC || Load32(page, off + 10) != key {
        return;
      }
      var flags, len, rawLen, storeLen := page[off + 20], Load16(page, off), Load16(page, off + 14), Load16(page, off + 16);
      if IsTomb(flags) || rawLen > MAX_VALUE || storeLen > MAX_VALUE {
        return;
      }
      if len < PREFIX || PREFIX + storeLen > len || off + len > SECTOR {
        return;
      }
      var stored := page[off + PREFIX..off + PREFIX + storeLen];
      if Crc32(stored) != Load32(page, off + 22) || cap < rawLen {
        return;
      }
      if IsComp(flags) {
        var out := new byte[rawLen];
        PicoStream.EncodingDecodes(dict, v.value, stored, rawLen);
        var done, n := PicoCodec.DecompressBuffer(dict, stored, out);
        if !done || n != rawLen {
          return;
        }
        value := out[..n];
      } else {
        value := page[off + PREFIX..off + PREFIX + rawLen];
      }
      ok, version := true, Load16(page, off + 18);
    }

    // Read a value into a buffer of the given capacity.
    method GetCopy(key: word, cap: nat) returns (ok: bool, value: Bytes, version: half)
      requires Valid()
      ensures ok <==> key in model && model[key].Some? && |model[key].value| <= cap
      ensures ok ==> value == model[key].value && version == index.contents[key].version
    {
      hide AllPagesOk, PageOk, InOrder, AllOps, CountsExactly, Represents, OnPages, Counts, ApplyOps, KeysOn, EntryAt;
      var found, loc, _ := index.Get(key);
      if !found {
        return false, [], 0;
      }
      assert EntryOk(dict, slots, key, index.contents[key], model[key]);
      ghost var i: nat :| EntryAt(dict, slots[LocPage(loc)], i, key, index.contents[key], model[key]);
      ok, value, version := ReadRecord(loc, key, cap, i, index.contents[key], model[key]);
    }

    // Erase a page named by the dead-page log, if it is not being written and nothing on it is live.
    // Every key reads the same afterwards.
    method CompactStep(dead: nat) returns (erased: bool)
      requires Valid()
      modifies this`pages, this`slots, this`pristine
      ensures Valid() && model == old(model) && pristine == (old(pristine) && !erased)
      ensures erased ==> dead < SECTORS && dead != writePage && KeysOn(index.contents, dead) == {} && BlankFrom(pages[dead], 0)
      ensures erased <==>
        dead < SECTORS && dead != writePage && KeysOn(index.contents, dead) == {} && Load32(old(pages)[dead], 0) != 0xFFFF_FFFF
    {
      hide PageOk, InOrder, AllOps, EntriesOk, ApplyOps, KeysOn, Represents;
      if dead >= SECTORS || dead == writePage {
        return false;
      }
      if index.refs[dead] > 0 {
        return false;
      }
      PageFacts(pages[dead], slots[dead]);
      if Load32(pages[dead], 0) == 0xFFFF_FFFF {
        return false;
      }
      EntriesOutlive(dict, slots, dead, index.contents, model);
      ErasedIsOk();
      pages, slots := pages[dead := Blank(SECTOR)], slots[dead := NO_SLOTS];
      pristine, erased := false, true;
    }
  }

  lemma ApplyRemove(m: Index, ops: seq<Op>, op: Op)
    requires ApplyOps(map[], ops) == m && IsTomb(op.flags) && op.version >= CurrentVersion(m, op.key)
    ensures ApplyOps(map[], ops + [op]) == ApplyOp(m, op) == m - {op.key}
  {
    ApplyOpsAppend(map[], ops, [op]);
    ApplyOne(m, op);
  }

  // Replaying one more put, of the next version, does what the live index did.
  lemma ApplyPut(m: Index, ops: seq<Op>, op: Op)
    requires ApplyOps(map[], ops) == m && !IsTomb(op.flags) && op.version >= CurrentVersion(m, op.key)
    ensures ApplyOps(map[], ops + [op])
         == if op.key in m || |m| < INDEX_CAPACITY then m[op.key := Entry(op.loc, op.version)] else m
  {
    ApplyOpsAppend(map[], ops, [op]);
    ApplyOne(m, op);
  }

  // A put that wraps its version is ignored in favour of the entry it was to replace.
  lemma ApplyNext(m: Index, op: Op)
    requires !IsTomb(op.flags) && op.version == NextVersion(CurrentVersion(m, op.key))
    ensures ApplyOp(m, op)
      in {m, if op.key in m || |m| < INDEX_CAPACITY then m[op.key := Entry(op.loc, op.version)] else m}
  {
  }

  lemma PutSafe(burns: seq<Burn>, m: Index, key: word, loc: nat, version: half, s: Slot)
    requires s.Rec? ==> !IsTomb(s.item.flags)
    requires version == NextVersion(CurrentVersion(m, key))
    requires CrashSafe(burns, m, if s.Rec? then ApplyOp(m, Op(key, loc, version, s.item.flags)) else m)
    ensures CrashSafe(burns, m, if key in m || |m| < INDEX_CAPACITY then m[key := Entry(loc, version)] else m)
  {
    hide CrashSafe, ApplyOp;
    var after := if key in m || |m| < INDEX_CAPACITY then m[key := Entry(loc, version)] else m;
    if s.Rec? {
      var op := Op(key, loc, version, s.item.flags);
      ApplyNext(m, op);
      CrashSafeOr(burns, m, ApplyOp(m, op), after);
    } else {
      CrashSafeOr(burns, m, m, after);
    }
  }

  function CurrentVersion(m: Index, key: word): half {
    if key in m then m[key].version else 0
  }

  function NextVersion(cur: half): half {
    if cur >= 0xFFFE then 1 else cur + 1
  }

  // One slot was appended for key, at loc; it holds a record exactly when the span fits.
  ghost predicate Appended(before: AllSlots, after: AllSlots, key: word, loc: nat, s: Slot) {
    && s.Ok() && s.Key() == key && LocPage(loc) < SECTORS
    && LocOff(loc) == Offset(before[LocPage(loc)], |before[LocPage(loc)]|)
    && after == before[LocPage(loc) := before[LocPage(loc)] + [s]]
    && (s.Rec? <==> Fits(LocOff(loc), LocLen(loc) + COMMIT))
  }

  lemma ItemCarries(dict: Dictionary, it: Item, raw: Bytes, flags: byte, comp: bool)
    requires flags == 0 || flags == FLAG_TOMB
    requires it.rawLen == |raw| && it.flags == (if comp then flags + FLAG_COMP else flags)
    requires if comp then PicoStream.IsEncoding(dict, raw, it.stored) else it.stored == raw
    ensures IsTomb(it.flags) <==> flags == FLAG_TOMB
    ensures flags == 0 ==> Carries(dict, it, raw)
  {
  }

  lemma AlignedPair(it: Item)
    requires Storable(it)
    ensures PairSize(it) == Align4(RecLen(it)) + COMMIT && Align4(RecLen(it)) % 4 == 0 && Align4(RecLen(it)) < 0x1000
  {
  }

  lemma SpanOf(it: Item, writeOff: nat)
    requires Storable(it) && writeOff % 4 == 0
    ensures PairSize(it) == PairSpan(|it.stored|)
    ensures writeOff + PairSpan(|it.stored|) <= SECTOR ==> PlaceOf(writeOff, |it.stored|) == writeOff
    ensures writeOff + PairSpan(|it.stored|) > SECTOR ==> PlaceOf(writeOff, |it.stored|) == HEADER
    ensures Lost(writeOff, |it.stored|) <==> !Fits(PlaceOf(writeOff, |it.stored|), PairSize(it))
  {
    LostWhen(writeOff, |it.stored|);
  }

  lemma GapMagic(s: Slot)
    requires s.Ok() && s.Gap?
    ensures |s.Bytes()| >= 44 && Load32(s.Bytes(), 6) == 0xFFFF_FFFF
  {
    var b := s.Bytes();
    assert b[6] == 0xFF && b[7] == 0xFF && b[8] == 0xFF && b[9] == 0xFF;
  }

  lemma SlotRoom(page: Bytes, slots: Slots, i: nat)
    requires PageOk(page, slots) && i < |slots|
    ensures Offset(slots, i) + 44 <= Offset(slots, i) + slots[i].Size() <= SECTOR
  {
    hide Offset, Body, Holds, PairSize;
    OffsetMonotone(slots, i, |slots|);
    assert slots[i].Ok();
  }

  // What reading at a slot's offset finds.
  lemma SlotOnPage(page: Bytes, slots: Slots, i: nat)
    requires PageOk(page, slots) && i < |slots|
    ensures |page| == SECTOR && Offset(slots, i) + 44 <= SECTOR
    ensures slots[i].Rec? ==> Storable(slots[i].item) && Holds(page, Offset(slots, i), RecordBytes(slots[i].item))
    ensures slots[i].Gap? ==> Load32(page, Offset(slots, i) + 6) == 0xFFFF_FFFF
  {
    hide *;
    PageHolds(page, slots);
    SlotRoom(page, slots, i);
    SlotHeld(page, slots, i);
    HeldSlot(page, Offset(slots, i), slots[i]);
  }

  lemma PageHolds(page: Bytes, slots: Slots)
    requires PageOk(page, slots)
    ensures |page| == SECTOR && Holds(page, HEADER, Body(slots))
  {
    hide Holds, Body, Offset;
  }

  lemma HeldSlot(page: Bytes, off: nat, s: Slot)
    requires s.Ok() && Holds(page, off, s.Bytes())
    ensures s.Rec? ==> Storable(s.item) && Holds(page, off, RecordBytes(s.item))
    ensures s.Gap? ==> off + 10 <= |page| && Load32(page, off + 6) == 0xFFFF_FFFF
  {
    if s.Rec? {
      hide RecordBytes, CommitBytes, PairBytes, Holds, Load32;
      HoldsPart(page, off, PairBytes(s.item), 0, |RecordBytes(s.item)|);
      PairStarts(s.item);
    } else {
      hide Load32;
      GapMagic(s);
      LoadHeld(page, off, s.Bytes(), 6);
    }
  }

  // The value as stored: compressed when that is shorter.
  method EncodeValue(dict: Dictionary, raw: Bytes) returns (stored: Bytes, comp: bool)
    requires |raw| <= MAX_VALUE
    ensures |stored| <= |raw|
    ensures if comp then PicoPacking.IsPacking(dict, raw, stored) else stored == raw
    ensures comp ==> PicoStream.IsEncoding(dict, raw, stored) && |stored| < |raw|
    ensures StoresIn(dict, raw, |stored|)
  {
    hide PicoPacking.IsPacking, PicoStream.IsEncoding;
    stored, comp := raw, false;
    if |raw| >= COMPRESS_MIN {
      var enc := new byte[MAX_VALUE + 64];
      var ok, n := PicoCodec.CompressBuffer(dict, raw, enc);
      if ok && n < |raw| {
        stored, comp := enc[..n], true;
      }
    }
  }
}
