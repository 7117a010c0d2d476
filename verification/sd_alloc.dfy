/** The bitmap of data blocks on the SD card and its block-skipping allocator. */
module SdAlloc {
  import opened Bits
  import opened Collections

  const BLOCK := 512
  const SPAN := 4096

  lemma AllOnes(k: nat)
    requires k < 8
    ensures Bit(0xFF, k)
  {
    assert Pow2(8) == 0x100;
    ZeroBit(k);
    ComplementBit(8, 0, k);
  }

  lemma {:induction false} Pow2Mono(k: nat, n: nat)
    requires k < n
    ensures 2 * Pow2(k) <= Pow2(n)
  {
    if k + 1 < n {
      Pow2Mono(k, n - 1);
    }
  }

  predicate BitAt(buf: Bytes, i: nat)
    requires i < 8 * |buf|
  {
    Bit(buf[i / 8], i % 8)
  }

  // Whether the bitmap marks a slot as taken.
  predicate Taken(blocks: seq<Bytes>, s: nat)
    requires s / SPAN < |blocks| && |blocks[s / SPAN]| == BLOCK
  {
    BitAt(blocks[s / SPAN], s % SPAN)
  }

  // Block c comes up, going round from block a without reaching block b.
  predicate Passed(a: nat, c: nat, b: nat) {
    if a <= b then a <= c < b else c < b || a <= c
  }

  // The slot `tries` places after the hint, going round.
  function Around(hint: nat, tries: nat, n: nat): (s: nat)
    requires n > 0
    ensures s < n
  {
    (hint + tries) % n
  }

  lemma AroundSlot(hint: nat, tries: nat, n: nat)
    requires n > 0 && tries < n
    ensures Around(hint, tries, n) == SlotAt(n, Around(hint, 0, n), tries)
  {
    var p, q := hint % n + tries, hint / n;
    if p < n {
      DivModUnique(hint + tries, n, q, p);
    } else {
      assert n * (q + 1) == n * q + n;
      DivModUnique(hint + tries, n, q + 1, p - n);
    }
  }

  // One step over a bitmap block: r is its first clear bit below limit.
  method ScanBlock(buf: Bytes, base: nat, limit: nat) returns (r: int)
    requires |buf| == BLOCK
    ensures r == -1 || base <= r < base + SPAN
    ensures r == -1 ==> forall i :: 0 <= i < SPAN && base + i < limit ==> BitAt(buf, i)
    ensures r >= 0 ==> r < limit && !BitAt(buf, r - base)
    ensures r >= 0 ==> forall i :: 0 <= i < r - base ==> BitAt(buf, i)
  {
    for b := 0 to BLOCK
      invariant forall i :: 0 <= i < 8 * b && base + i < limit ==> BitAt(buf, i)
    {
      if buf[b] != 0xFF {
        for bi := 0 to 8
          invariant forall i :: 0 <= i < 8 * b + bi && base + i < limit ==> BitAt(buf, i)
        {
          MaskTest(buf[b], bi);
          DivModUnique(8 * b + bi, 8, b, bi);
          if And(buf[b], Pow2(bi)) == 0 {
            var free := base + b * 8 + bi;
            if free < limit {
              return free;
            }
          }
        }
      } else {
        forall k | 0 <= k < 8
          ensures Bit(buf[b], k)
        {
          AllOnes(k);
        }
      }
    }
    r := -1;
  }

  // A bitmap of n slots.
  predicate Shape(bits: seq<Bytes>, n: nat) {
    && |bits| == (n + SPAN - 1) / SPAN
    && forall c :: 0 <= c < |bits| ==> |bits[c]| == BLOCK
  }

  // The slots below limit that belong to block c are all taken.
  ghost predicate FullTo(bits: seq<Bytes>, n: nat, c: nat, limit: nat)
    requires Shape(bits, n)
  {
    forall s: nat :: c * SPAN <= s < c * SPAN + SPAN && s < limit && s < n ==> Taken(bits, s)
  }

  ghost predicate Full(bits: seq<Bytes>, n: nat, c: nat)
    requires Shape(bits, n)
  {
    FullTo(bits, n, c, n)
  }

  // Every block passed on the way round from block a to block b is full.
  ghost predicate PassedFull(bits: seq<Bytes>, n: nat, a: nat, b: nat)
    requires Shape(bits, n)
  {
    forall c :: 0 <= c < |bits| && Passed(a, c, b) ==> Full(bits, n, c)
  }

  ghost predicate AllTaken(bits: seq<Bytes>, n: nat)
    requires Shape(bits, n)
  {
    forall s :: 0 <= s < n ==> Taken(bits, s)
  }

  // What is known after `tries` positions, starting at slot `start`, with block `cached` in hand.
  ghost predicate Searched(bits: seq<Bytes>, n: nat, start: nat, tries: nat, cached: int)
    requires Shape(bits, n)
  {
    var p, first := start + tries, start / SPAN;
    || (tries == 0 && cached == -1)
    || (n <= SPAN && cached == 0 && Full(bits, n, 0))
    || (n > SPAN && p % SPAN == 0 && p <= |bits| * SPAN && cached == p / SPAN - 1 && first <= cached
        && forall c :: first <= c <= cached ==> Full(bits, n, c))
    || (n > SPAN && p >= n + SPAN && (p - n) % SPAN == 0 && cached == (p - n) / SPAN - 1
        && forall c :: (first <= c < |bits| || 0 <= c <= cached) ==> Full(bits, n, c))
  }

  // The slot looked at after `tries` positions.
  function SlotAt(n: nat, start: nat, tries: nat): nat
    requires start < n && tries < n
  {
    if start + tries < n then start + tries else start + tries - n
  }

  lemma SearchedAll(bits: seq<Bytes>, n: nat, start: nat, tries: nat, cached: int)
    requires Shape(bits, n) && n <= tries && (n == 0 || start < n) && Searched(bits, n, start, tries, cached)
    ensures AllTaken(bits, n)
  {
    forall s: nat | s < n
      ensures Taken(bits, s)
    {
      assert Full(bits, n, s / SPAN);
    }
  }

  lemma SearchStarts(bits: seq<Bytes>, n: nat, start: nat)
    requires Shape(bits, n)
    ensures Searched(bits, n, start, 0, -1)
  {
  }

  lemma ScanFound(bits: seq<Bytes>, n: nat, blk: nat, r: nat)
    requires Shape(bits, n) && blk < |bits| && blk * SPAN <= r < blk * SPAN + SPAN && r < n
    requires !BitAt(bits[blk], r - blk * SPAN)
    requires forall i :: 0 <= i < r - blk * SPAN ==> BitAt(bits[blk], i)
    ensures r / SPAN == blk && !Taken(bits, r) && FullTo(bits, n, blk, r)
  {
    DivModUnique(r, SPAN, blk, r - blk * SPAN);
    forall s: nat | blk * SPAN <= s < blk * SPAN + SPAN && s < r
      ensures Taken(bits, s)
    {
      DivModUnique(s, SPAN, blk, s - blk * SPAN);
    }
  }

  lemma ScanFull(bits: seq<Bytes>, n: nat, blk: nat)
    requires Shape(bits, n) && blk < |bits|
    requires forall i :: 0 <= i < SPAN && blk * SPAN + i < n ==> BitAt(bits[blk], i)
    ensures Full(bits, n, blk)
  {
    forall s: nat | blk * SPAN <= s < blk * SPAN + SPAN && s < n
      ensures Taken(bits, s)
    {
      DivModUnique(s, SPAN, blk, s - blk * SPAN);
      assert BitAt(bits[blk], s - blk * SPAN);
    }
  }

  lemma Found(bits: seq<Bytes>, n: nat, start: nat, tries: nat, cached: int, r: nat)
    requires Shape(bits, n) && start < n && tries < n && Searched(bits, n, start, tries, cached)
    requires r / SPAN == SlotAt(n, start, tries) / SPAN && r < n && !Taken(bits, r)
    ensures PassedFull(bits, n, start / SPAN, r / SPAN) && !AllTaken(bits, n)
  {
    hide Taken;
  }

  lemma Skipped(bits: seq<Bytes>, n: nat, start: nat, tries: nat, cached: int, slot: nat)
    requires Shape(bits, n) && start < n && tries < n && Searched(bits, n, start, tries, cached)
    requires slot == SlotAt(n, start, tries) && slot / SPAN != cached && Full(bits, n, slot / SPAN)
    ensures Searched(bits, n, start, tries + (4095 - slot % SPAN) + 1, slot / SPAN)
  {
    hide Taken, FullTo;
  }

  // A block in hand is met again only when it is the only one, and then it is full.
  lemma CachedFull(bits: seq<Bytes>, n: nat, start: nat, tries: nat, cached: int, slot: nat)
    requires Shape(bits, n) && start < n && tries < n && Searched(bits, n, start, tries, cached)
    requires slot == SlotAt(n, start, tries) && slot / SPAN == cached
    ensures Taken(bits, slot) && Searched(bits, n, start, tries + 1, cached)
  {
    assert n <= SPAN && cached == 0 by { hide Taken, FullTo; }
  }

  // A byte with bit k set or cleared: the other seven bits stay.
  function Marked(x: byte, k: nat, used: bool): (y: byte)
    requires k < 8
    ensures forall j :: 0 <= j < 8 ==> Bit(y, j) == (if j == k then used else Bit(x, j))
  {
    MarkedBits(x, k);
    if used then Or(x, Pow2(k)) else And(x, 255 - Pow2(k))
  }

  lemma MarkedBits(x: byte, k: nat)
    requires k < 8
    ensures Pow2(k) < 0x100 && Or(x, Pow2(k)) < 0x100 && And(x, 255 - Pow2(k)) < 0x100
    ensures forall j :: 0 <= j < 8 ==> Bit(Or(x, Pow2(k)), j) == (j == k || Bit(x, j))
    ensures forall j :: 0 <= j < 8 ==> Bit(And(x, 255 - Pow2(k)), j) == (j != k && Bit(x, j))
  {
    assert Pow2(8) == 0x100;
    Pow2Mono(k, 8);
    OrBound(x, Pow2(k), 8);
    AndBound(x, 255 - Pow2(k));
    var set1, clear := Or(x, Pow2(k)), And(x, 255 - Pow2(k));
    forall j | 0 <= j < 8
      ensures Bit(set1, j) == (j == k || Bit(x, j))
      ensures Bit(clear, j) == (j != k && Bit(x, j))
    {
      hide Bit, And, Or;
      Pow2Bit(k, j);
      OrBit(x, Pow2(k), j);
      ComplementBit(8, Pow2(k), j);
      AndBit(x, 255 - Pow2(k), j);
    }
    hide Bit, And, Or;
    assert clear == And(x, 255 - Pow2(k));
  }

  lemma {:induction false} OrBound(x: nat, y: nat, k: nat)
    requires x < Pow2(k) && y < Pow2(k)
    ensures Or(x, y) < Pow2(k)
    decreases k
  {
    if k > 0 {
      OrBound(x / 2, y / 2, k - 1);
    }
  }

  // A bitmap with byte `at` of block c rewritten.
  function Rewritten(bits: seq<Bytes>, c: nat, at: nat, y: byte): seq<Bytes>
    requires c < |bits| && at < |bits[c]|
  {
    var b: Bytes := bits[c];
    bits[c := b[..at] + [y] + b[at + 1..]]
  }

  // A bitmap after one byte of one block changed in one bit.
  lemma OneSlot(bits: seq<Bytes>, n: nat, slot: nat, y: byte, used: bool)
    requires Shape(bits, n) && slot < n
    requires var x := bits[slot / SPAN][slot % SPAN / 8];
      forall j :: 0 <= j < 8 ==> Bit(y, j) == (if j == slot % 8 then used else Bit(x, j))
    ensures var after := Rewritten(bits, slot / SPAN, slot % SPAN / 8, y);
      Shape(after, n) && forall s :: 0 <= s < n ==>
        (Taken(after, s) <==> if s == slot then used else Taken(bits, s))
  {
    hide Bit;
    var after := Rewritten(bits, slot / SPAN, slot % SPAN / 8, y);
    forall s: nat | s < n
      ensures Taken(after, s) <==> if s == slot then used else Taken(bits, s)
    {
      Apart(s, slot);
      ByteOf(bits, slot / SPAN, slot % SPAN / 8, y, s / SPAN, s % SPAN / 8);
    }
  }

  // Two slots are in the same bit of the same byte only when they are the same.
  lemma Apart(s: nat, t: nat)
    ensures s % SPAN % 8 == s % 8
    ensures s / SPAN == t / SPAN && s % SPAN / 8 == t % SPAN / 8 && s % 8 == t % 8 <==> s == t
  {
    Digits(s);
    Digits(t);
  }

  lemma Digits(s: nat)
    ensures s == SPAN * (s / SPAN) + 8 * (s % SPAN / 8) + s % 8 && s % SPAN % 8 == s % 8
  {
    var a, b, c := s / SPAN, s % SPAN / 8, s % SPAN % 8;
    DivModUnique(s, 8, 512 * a + b, c);
  }

  lemma ByteOf(bits: seq<Bytes>, c: nat, at: nat, y: byte, d: nat, i: nat)
    requires c < |bits| && at < |bits[c]| && d < |bits| && i < |bits[d]|
    ensures |Rewritten(bits, c, at, y)[d]| == |bits[d]|
    ensures Rewritten(bits, c, at, y)[d][i] == if d == c && i == at then y else bits[d][i]
  {
  }

  class BlockMap {
    const maxCards: nat
    var blocks: seq<Bytes>
    var nextFreeHint: nat

    // Slots fit the signed result, and the search position fits its 32-bit counter.
    ghost predicate Valid()
      reads this
    {
      && maxCards + SPAN <= 0x8000_0000
      && nextFreeHint + maxCards + SPAN < 0x1_0000_0000
      && Shape(blocks, maxCards)
    }

    // The bitmap as the device has it, and a hint from the superblock.
    constructor (maxCards: nat, blocks: seq<Bytes>, hint: nat)
      requires maxCards + SPAN <= 0x8000_0000 && hint < 0x8000_0000 && Shape(blocks, maxCards)
      ensures Valid() && this.maxCards == maxCards && this.blocks == blocks && nextFreeHint == hint
    {
      this.maxCards, this.blocks, nextFreeHint := maxCards, blocks, hint;
    }

    // The slots in use.
    ghost function Used(): (u: set<nat>)
      requires Valid()
      reads this
    {
      set s: nat | s < maxCards && Taken(blocks, s)
    }

    // The allocator only moves its hint. It fails exactly when every slot is taken, and otherwise
    // finds the first free slot of the first block, going round from the hint, that has one.
    method Alloc() returns (r: int)
      requires Valid()
      modifies this`nextFreeHint
      ensures Valid()
      ensures r == -1 <==> AllTaken(blocks, maxCards)
      ensures r != -1 ==> 0 <= r < maxCards && !Taken(blocks, r) && FullTo(blocks, maxCards, r / SPAN, r)
      ensures r != -1 ==>
        PassedFull(blocks, maxCards, Around(old(nextFreeHint), 0, maxCards) / SPAN, r / SPAN)
      ensures nextFreeHint == if r == -1 then old(nextFreeHint) else Around(r, 1, maxCards)
    {
      hide Searched, PassedFull, FullTo, Full, AllTaken, Bit, Around, SlotAt;
      var hint := nextFreeHint;
      var cached, tries := -1, 0;
      ghost var start := if maxCards == 0 then 0 else Around(hint, 0, maxCards);
      SearchStarts(blocks, maxCards, start);
      while tries < maxCards
        invariant nextFreeHint == hint && Searched(blocks, maxCards, start, tries, cached)
      {
        AroundSlot(hint, tries, maxCards);
        var slot := Around(hint, tries, maxCards);
        var blk := slot / SPAN;
        if blk != cached {
          r := ScanBlock(blocks[blk], blk * SPAN, maxCards);
          if r >= 0 {
            ScanFound(blocks, maxCards, blk, r);
            Found(blocks, maxCards, start, tries, cached, r);
            nextFreeHint := Around(r, 1, maxCards);
            return;
          }
          ScanFull(blocks, maxCards, blk);
          Skipped(blocks, maxCards, start, tries, cached, slot);
          cached := blk;
          tries := tries + (4095 - slot % SPAN) + 1;
        } else {
          // With every read succeeding this is reached only in a one-block map already found full,
          // so the single-slot return never happens.
          CachedFull(blocks, maxCards, start, tries, cached, slot);
          MaskTest(blocks[blk][slot % SPAN / 8], slot % 8);
          if And(blocks[blk][slot % SPAN / 8], Pow2(slot % 8)) == 0 {
            assert false;
          }
          tries := tries + 1;
        }
      }
      SearchedAll(blocks, maxCards, start, tries, cached);
      r := -1;
    }

    // Marking a slot changes that slot alone.
    method SetBit(slot: nat, used: bool)
      requires Valid() && slot < maxCards
      modifies this`blocks
      ensures Valid()
      ensures Used() == if used then old(Used()) + {slot} else old(Used()) - {slot}
    {
      hide Bit, Marked;
      var blk, at := slot / SPAN, slot % SPAN / 8;
      var y := Marked(blocks[blk][at], slot % 8, used);
      OneSlot(blocks, maxCards, slot, y, used);
      hide Taken;
      blocks := Rewritten(blocks, blk, at, y);
    }

    // Taking a block fails exactly when all are in use; otherwise it hands out one that was free
    // and marks it, so that no block is ever handed out twice before it is released.
    method Take() returns (r: int)
      requires Valid()
      modifies this
      ensures Valid()
      ensures r == -1 <==> |old(Used())| == maxCards
      ensures r == -1 ==> Used() == old(Used())
      ensures r != -1 ==> 0 <= r < maxCards && r !in old(Used()) && Used() == old(Used()) + {r}
    {
      hide Taken, Bit, FullTo, Full, PassedFull;
      UsedCount();
      r := Alloc();
      if r != -1 {
        SetBit(r, true);
      }
    }

    lemma UsedCount()
      requires Valid()
      ensures |Used()| == maxCards <==> AllTaken(blocks, maxCards)
    {
      hide Taken;
      var all := Below(maxCards);
      assert Used() <= all;
      if AllTaken(blocks, maxCards) {
        assert Used() == all;
      }
      if |Used()| == maxCards {
        SameSize(Used(), all);
        forall s: nat | s < maxCards
          ensures Taken(blocks, s)
        {
          assert s in all;
        }
      }
    }
  }

  // From a blank bitmap and any hint, every block is handed out once before the allocator fails.
  method TakeEach(maxCards: nat, hint: nat) returns (got: seq<nat>, last: int)
    requires maxCards + SPAN <= 0x8000_0000 && hint < 0x8000_0000
    ensures |got| == maxCards && last == -1
    ensures forall i, j :: 0 <= i < j < |got| ==> got[i] != got[j]
    ensures forall s: nat :: s in got <==> s < maxCards
  {
    hide Taken;
    var blank: Bytes := seq(BLOCK, _ => 0);
    var bits := new BlockMap(maxCards, seq((maxCards + SPAN - 1) / SPAN, _ => blank), hint);
    BlankUnused(bits, blank);
    got := [];
    while |got| < maxCards
      invariant bits.Valid() && fresh(bits) && bits.maxCards == maxCards && |got| <= maxCards
      invariant |bits.Used()| == |got| && forall s: nat :: s in got <==> s in bits.Used()
      invariant forall i, j :: 0 <= i < j < |got| ==> got[i] != got[j]
    {
      var r := bits.Take();
      got := got + [r];
    }
    bits.UsedCount();
    last := bits.Take();
    SameSize(bits.Used(), Below(maxCards));
  }

  lemma BlankUnused(bits: BlockMap, blank: Bytes)
    requires bits.Valid() && |blank| == BLOCK && (forall i :: 0 <= i < BLOCK ==> blank[i] == 0)
    requires forall b :: b in bits.blocks ==> b == blank
    ensures bits.Used() == {}
  {
    forall s: nat | s < bits.maxCards
      ensures !Taken(bits.blocks, s)
    {
      assert s / SPAN < |bits.blocks| && bits.blocks[s / SPAN] in bits.blocks;
      ZeroBit(s % SPAN % 8);
    }
  }
}
