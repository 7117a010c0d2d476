/** Flash pages as a device: erased to 0xFF, programmed by clearing bits, in pages of 256 bytes.
    A page of the store is either erased or has a header, its slots, and blank flash after them.
 */
module KvPages {
  import opened Bits
  import opened KvRecord
  import opened KvLog

  function HeaderBody(sequence: word): (r: Bytes)
    ensures |r| == 12
  {
    Store32(PAGE_MAGIC) + [1, 1, 0, 0] + Store32(sequence)
  }

  function HeaderBytes(sequence: word): (r: Bytes)
    ensures |r| == HEADER
  {
    HeaderBody(sequence) + Store32(Crc32(HeaderBody(sequence)))
  }

  predicate HeaderOk(page: Bytes)
    requires |page| == SECTOR
  {
    Load32(page, 0) == PAGE_MAGIC && page[4] == 1 && Load32(page, 12) == Crc32(page[..12])
  }

  lemma HeaderFields(page: Bytes, sequence: word)
    requires |page| == SECTOR && Holds(page, 0, HeaderBytes(sequence))
    ensures HeaderOk(page)
  {
    hide Load32, Crc32, Store32;
    var b, c := HeaderBody(sequence), Store32(Crc32(HeaderBody(sequence)));
    var m := Store32(PAGE_MAGIC);
    var h := HeaderBytes(sequence);
    HoldsPart(page, 0, h, 0, 12);
    assert h[0..12] == b && h[12..16] == c && b[0..4] == m;
    assert page[..12] == page[0..12];
    HoldsPart(page, 0, b, 0, 4);
    HoldsPart(page, 0, h, 12, 16);
    assert [] + m + [] == m && [] + c + [] == c;
    Load32Store([], PAGE_MAGIC, []);
    Load32Store([], Crc32(b), []);
    LoadHeld(page, 0, m, 0);
    LoadHeld(page, 12, c, 0);
    LoadHeld(page, 0, b, 4);
  }

  ghost predicate BlankFrom(page: Bytes, off: nat) {
    forall k :: off <= k < |page| ==> page[k] == 0xFF
  }

  // A page as the store keeps it.
  ghost predicate PageOk(page: Bytes, slots: Slots) {
    && |page| == SECTOR && Offset(slots, |slots|) <= SECTOR
    && Holds(page, HEADER, Body(slots)) && BlankFrom(page, Offset(slots, |slots|))
    && (HeaderOk(page) || (slots == [] && BlankFrom(page, 0)))
    && (slots != [] ==> slots[0].Rec?)
  }

  // Blank flash is no header, and the word after a header tells whether anything was appended.
  predicate LooksEmpty(page: Bytes)
    requires |page| == SECTOR
  {
    Load32(page, 0) != PAGE_MAGIC || Load32(page, HEADER) == 0xFFFF_FFFF
  }

  lemma LooksEmptyIs(page: Bytes, slots: Slots)
    requires PageOk(page, slots)
    ensures |page| == SECTOR
    ensures LooksEmpty(page) <==> slots == []
    ensures Load32(page, 0) == PAGE_MAGIC || Load32(page, 0) == 0xFFFF_FFFF
    ensures Load32(page, 0) == PAGE_MAGIC ==> HeaderOk(page)
    ensures Load32(page, 0) == 0xFFFF_FFFF ==> slots == [] && BlankFrom(page, 0)
  {
    hide Body, Crc32, PairBytes, RecordBytes;
    if slots != [] {
      SlotHeld(page, slots, 0);
      var it := slots[0].item;
      HoldsPart(page, HEADER, PairBytes(it), 0, |RecordBytes(it)|);
      PairStarts(it);
      RecordFields(page, HEADER, it);
    }
  }

  lemma PairStarts(it: Item)
    requires Storable(it)
    ensures PairBytes(it)[0..|RecordBytes(it)|] == RecordBytes(it)
  {
  }

  // Programming clears bits; a span past the programming buffer is silently dropped.
  function Fits(off: nat, len: nat): bool {
    (off % PROGRAM_PAGE + len + PROGRAM_PAGE - 1) / PROGRAM_PAGE * PROGRAM_PAGE <= PROGRAM_MAX
  }

  // The flash taken by a record of n stored bytes and its commit marker.
  function PairSpan(n: nat): nat {
    Align4(PREFIX + n) + COMMIT
  }

  // A record of n stored bytes goes to the write offset if there is room, else to the start of a page.
  function PlaceOf(writeOff: nat, n: nat): nat {
    if writeOff + PairSpan(n) <= SECTOR then writeOff else HEADER
  }

  // Which records are lost: those that stay on their page but start too late in its 256-byte part.
  predicate Lost(writeOff: nat, n: nat) {
    writeOff + PairSpan(n) <= SECTOR && writeOff % PROGRAM_PAGE + PairSpan(n) > PROGRAM_MAX
  }

  // Those are the records whose span the programming helper drops. None are with n up to 474; a full
  // 508 bytes are from offset 220 of a part on.
  lemma LostWhen(writeOff: nat, n: nat)
    requires writeOff % 4 == 0 && n <= MAX_VALUE
    ensures Lost(writeOff, n) <==> !Fits(PlaceOf(writeOff, n), PairSpan(n))
    ensures n <= 474 ==> !Lost(writeOff, n)
    ensures writeOff + PairSpan(MAX_VALUE) <= SECTOR ==>
      (Lost(writeOff, MAX_VALUE) <==> writeOff % PROGRAM_PAGE >= 220)
  {
    var intra := writeOff % PROGRAM_PAGE;
    assert intra % 4 == 0;
  }

  method Program(page: Bytes, off: nat, data: Bytes) returns (r: Bytes)
    requires |page| == SECTOR && off + |data| <= SECTOR && BlankFrom(page, off)
    ensures r == if Fits(off, |data|) then page[..off] + data + page[off + |data|..] else page
  {
    var start := off - off % PROGRAM_PAGE;
    var intra := off - start;
    var len := (intra + |data| + PROGRAM_PAGE - 1) / PROGRAM_PAGE * PROGRAM_PAGE;
    if len > PROGRAM_MAX {
      return page;
    }
    var buf := Blank(intra) + data + Blank(len - intra - |data|);
    r := BurnInto(page, start, buf);
    AndAllBits();
    hide And;
    var goal := page[..off] + data + page[off + |data|..];
    forall k | 0 <= k < SECTOR
      ensures r[k] == goal[k]
    {
      if start <= k < start + len {
        assert buf[k - start] == if off <= k < off + |data| then data[k - off] else 0xFF;
      }
    }
  }

  // Flash programming only clears bits.
  method BurnInto(page: Bytes, start: nat, buf: Bytes) returns (r: Bytes)
    requires start + |buf| <= |page|
    ensures |r| == |page|
    ensures forall k :: 0 <= k < |page| ==>
      r[k] as int == if start <= k < start + |buf| then And(page[k], buf[k - start]) else page[k]
  {
    hide And;
    r := page;
    for i := 0 to |buf|
      invariant |r| == |page|
      invariant forall k :: 0 <= k < |page| ==>
        r[k] as int == if start <= k < start + i then And(page[k], buf[k - start]) else page[k]
    {
      AndByte(r[start + i], buf[i]);
      r := r[start + i := And(r[start + i], buf[i])];
    }
  }

  lemma AndAllBits()
    ensures forall b: byte :: And(b, 0xFF) == b && And(0xFF, b) == b
  {
    forall b: byte ensures And(b, 0xFF) == b && And(0xFF, b) == b {
      AndOnes(b, 8);
      OnesAnd(b, 8);
    }
  }

  lemma {:induction false} OnesAnd(x: nat, k: nat)
    requires x < Pow2(k)
    ensures And(Pow2(k) - 1, x) == x
  {
    if k > 0 {
      OnesAnd(x / 2, k - 1);
      assert (Pow2(k) - 1) % 2 == 1 && (Pow2(k) - 1) / 2 == Pow2(k - 1) - 1;
    }
  }

  lemma AndByte(x: byte, y: byte)
    ensures And(x, y) < 0x100
  {
    AndBound(x, y);
  }

  lemma BodyAppend(slots: Slots, s: Slot)
    requires s.Ok()
    ensures Body(slots + [s]) == Body(slots) + s.Bytes()
    ensures Offset(slots + [s], |slots| + 1) == Offset(slots, |slots|) + s.Size()
  {
    var t: Slots := slots + [s];
    assert t[..|slots|] == slots;
    OffsetPrefix(t, slots, |slots|);
  }

  // Slots followed by one more slot's bytes.
  lemma HoldsAppended(page: Bytes, slots: Slots, s: Slot)
    requires s.Ok() && Holds(page, HEADER, Body(slots)) && Holds(page, Offset(slots, |slots|), s.Bytes())
    ensures Holds(page, HEADER, Body(slots + [s]))
  {
    hide Body, Offset, Slot.Bytes, Slot.Size, Slot.Ok, Holds;
    BodyAppend(slots, s);
    BodyLength(slots);
    JoinHeld(page, HEADER, Body(slots), s.Bytes());
  }

  lemma SplicedHolds(page: Bytes, off: nat, b: Bytes, body: Bytes, page': Bytes)
    requires off + |b| <= |page| && page' == page[..off] + b + page[off + |b|..]
    requires HEADER + |body| == off && Holds(page, HEADER, body)
    ensures Holds(page', HEADER, body) && Holds(page', off, b) && page'[..HEADER] == page[..HEADER]
    ensures BlankFrom(page, off) ==> BlankFrom(page', off + |b|)
  {
    assert page'[HEADER..off] == page[HEADER..off];
    assert page'[off..off + |b|] == b;
    forall k | off + |b| <= k < |page'| ensures page'[k] == page[k] {
    }
  }

  // Programming a slot's bytes right after the others appends the slot.
  lemma AppendRec(page: Bytes, slots: Slots, s: Slot, page': Bytes)
    requires PageOk(page, slots) && HeaderOk(page) && s.Ok() && s.Rec?
    requires Offset(slots, |slots|) + s.Size() <= SECTOR
    requires page' == page[..Offset(slots, |slots|)] + s.Bytes() + page[Offset(slots, |slots|) + s.Size()..]
    ensures PageOk(page', slots + [s]) && HeaderOk(page')
  {
    hide Body, Offset, Slot.Bytes, Slot.Size, Slot.Ok, Holds, HeaderOk, BlankFrom;
    BodyAppend(slots, s);
    BodyLength(slots);
    SplicedHolds(page, Offset(slots, |slots|), s.Bytes(), Body(slots), page');
    HoldsAppended(page', slots, s);
    HeaderKept(page, page');
  }

  lemma HeaderKept(page: Bytes, page': Bytes)
    requires |page| == |page'| == SECTOR && page[..HEADER] == page'[..HEADER]
    ensures HeaderOk(page) <==> HeaderOk(page')
  {
    hide Crc32;
    assert forall k :: 0 <= k < HEADER ==> page[k] == page[..HEADER][k] && page'[k] == page'[..HEADER][k];
    assert page[..12] == page[..HEADER][..12] && page'[..12] == page'[..HEADER][..12];
  }

  // A span that was not programmed is a gap of blank flash.
  lemma AppendGap(page: Bytes, slots: Slots, s: Slot)
    requires PageOk(page, slots) && HeaderOk(page) && s.Ok() && s.Gap? && slots != []
    requires Offset(slots, |slots|) + s.Size() <= SECTOR
    ensures PageOk(page, slots + [s])
  {
    hide Body, Offset, Slot.Size, Holds, HeaderOk, BlankFrom;
    BodyAppend(slots, s);
    BlankHolds(page, Offset(slots, |slots|), s.size);
    HoldsAppended(page, slots, s);
  }

  lemma BlankHolds(page: Bytes, off: nat, n: nat)
    requires BlankFrom(page, off) && off + n <= |page|
    ensures Holds(page, off, Blank(n)) && BlankFrom(page, off + n)
  {
    forall k | 0 <= k < n ensures page[off..off + n][k] == Blank(n)[k] {
      assert page[off + k] == 0xFF;
    }
  }

  lemma FreshPage(page: Bytes, sequence: word, page': Bytes)
    requires PageOk(page, []) && BlankFrom(page, 0) && page' == HeaderBytes(sequence) + page[HEADER..]
    ensures PageOk(page', []) && HeaderOk(page')
  {
    hide HeaderOk, HeaderBytes;
    assert page'[0..HEADER] == HeaderBytes(sequence);
    HeaderFields(page', sequence);
    forall k | HEADER <= k < SECTOR ensures page'[k] == 0xFF {
      assert page'[k] == page[k];
    }
    assert page'[HEADER..HEADER] == [];
  }
}
