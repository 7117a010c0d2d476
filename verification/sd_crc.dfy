/** The checksum of a bucket on the SD card: its polynomial, and that a bucket of which one byte was
    changed does not pass and reads as empty.
 */
module SdCrc {
  import opened BitBytes
  import opened Bits
  import opened SdBucket
  import SdHash

  const WORDS := 0x1_0000

  // One bit of the shift register.
  function Shift(c: nat): nat {
    if c >= 0x8000 then Xor(c * 2 % WORDS, 0x1021) else c * 2
  }

  // The bit shifted out shows in the low bit, so no two words shift to the same one.
  lemma ShiftLow(c: nat)
    requires c < WORDS
    ensures Shift(c) < WORDS && (Shift(c) % 2 == 1 <==> c >= 0x8000)
  {
    hide Xor, Pow2;
    Power16();
    if c >= 0x8000 {
      XorHalves(c * 2 % WORDS, 0x1021);
      XorBound(c * 2 % WORDS, 0x1021, 16);
    }
  }

  lemma Power16()
    ensures Pow2(16) == WORDS
  {
    assert Pow2(8) == 0x100;
    Pow2Sum(8, 8);
  }

  lemma ShiftInjective(c: nat, d: nat)
    requires c < WORDS && d < WORDS && Shift(c) == Shift(d)
    ensures c == d
  {
    hide Xor;
    ShiftLow(c);
    ShiftLow(d);
    if c >= 0x8000 {
      XorCancels(c * 2 % WORDS, 0x1021);
      XorCancels(d * 2 % WORDS, 0x1021);
    }
  }

  lemma {:induction false} StepInjective(c: nat, d: nat, n: nat)
    requires c < WORDS && d < WORDS
    ensures CrcBit(c, n) < WORDS && CrcBit(d, n) < WORDS
    ensures CrcBit(c, n) == CrcBit(d, n) ==> c == d
    decreases n
  {
    hide Xor;
    if n > 0 {
      ShiftLow(c);
      ShiftLow(d);
      StepInjective(Shift(c), Shift(d), n - 1);
      if Shift(c) == Shift(d) {
        ShiftInjective(c, d);
      }
    }
  }

  function Taken(c: nat, d: byte): nat {
    Xor(c, 0x100 * (d as int))
  }

  lemma TakenBound(c: nat, d: byte)
    requires c < WORDS
    ensures Taken(c, d) < WORDS
  {
    hide Xor, Pow2;
    Power16();
    XorBound(c, 0x100 * (d as int), 16);
  }

  lemma FoldStep(c: nat, d: byte, rest: Bytes)
    ensures CrcFold(c, [d] + rest) == CrcFold(CrcBit(Taken(c, d), 8), rest)
  {
    hide Xor, CrcBit;
    assert ([d] + rest)[1..] == rest;
  }

  // Different registers stay different over the same bytes.
  lemma {:induction false} FoldInjective(c: nat, d: nat, data: Bytes)
    requires c < WORDS && d < WORDS
    ensures CrcFold(c, data) < WORDS && CrcFold(d, data) < WORDS
    ensures CrcFold(c, data) == CrcFold(d, data) ==> c == d
    decreases |data|
  {
    hide Xor, CrcBit;
    if data != [] {
      var b, rest := data[0], data[1..];
      assert [b] + rest == data;
      FoldStep(c, b, rest);
      FoldStep(d, b, rest);
      TakenBound(c, b);
      TakenBound(d, b);
      StepInjective(Taken(c, b), Taken(d, b), 8);
      FoldInjective(CrcBit(Taken(c, b), 8), CrcBit(Taken(d, b), 8), rest);
      XorCancels(c, 0x100 * (b as int));
      XorCancels(d, 0x100 * (b as int));
    }
  }

  lemma TakenDiffers(c: nat, a: byte, b: byte)
    requires a != b
    ensures Taken(c, a) != Taken(c, b)
  {
    hide Xor;
    XorCommutes(c, 0x100 * (a as int));
    XorCommutes(c, 0x100 * (b as int));
    XorCancels(0x100 * (a as int), c);
    XorCancels(0x100 * (b as int), c);
  }

  // Two strings that differ in one byte have different checksums.
  lemma {:induction false} OneByteShows(c: nat, s: Bytes, t: Bytes, i: nat)
    requires c < WORDS && |s| == |t| && i < |s| && s[i] != t[i]
    requires forall k :: 0 <= k < |s| && k != i ==> s[k] == t[k]
    ensures CrcFold(c, s) < WORDS && CrcFold(c, t) < WORDS && CrcFold(c, s) != CrcFold(c, t)
    decreases |s|
  {
    hide Xor, CrcBit, CrcFold, Taken;
    assert [s[0]] + s[1..] == s && [t[0]] + t[1..] == t;
    FoldStep(c, s[0], s[1..]);
    FoldStep(c, t[0], t[1..]);
    TakenBound(c, s[0]);
    TakenBound(c, t[0]);
    StepInjective(Taken(c, s[0]), Taken(c, t[0]), 8);
    if i == 0 {
      assert s[1..] == t[1..];
      TakenDiffers(c, s[0], t[0]);
      FoldInjective(CrcBit(Taken(c, s[0]), 8), CrcBit(Taken(c, t[0]), 8), s[1..]);
    } else {
      OneByteShows(CrcBit(Taken(c, s[0]), 8), s[1..], t[1..], i - 1);
    }
  }

  // A bucket of which one byte was changed, the checksum included, does not pass: it reads as empty.
  lemma ChangedReadsEmpty(b: Bytes, t: Bytes, i: nat)
    requires Good(b) && |t| == BLOCK && i < BLOCK && b[i] != t[i]
    requires forall k :: 0 <= k < BLOCK && k != i ==> b[k] == t[k]
    ensures !Good(t) && SdHash.ViewOf(t) == []
  {
    hide CrcFold;
    assert forall k :: 0 <= k < BLOCK - 2 ==> b[2..][k] == b[k + 2] && t[2..][k] == t[k + 2];
    if i < 2 {
      assert b[2..] == t[2..];
    } else {
      OneByteShows(0xA5B6, b[2..], t[2..], i - 2);
    }
  }

  // A word as two bytes, on which literal values can be computed.
  datatype Pair = Pair(hi: bv8, lo: bv8) {
    function Value(): nat {
      Number(lo) + 0x100 * Number(hi)
    }

    function Plus(q: Pair): Pair {
      Pair(hi ^ q.hi, lo ^ q.lo)
    }

    function Double(): Pair {
      Pair((hi << 1) | (lo >> 7), lo << 1)
    }

    function Shifted(): Pair {
      if hi & 0x80 == 0x80 then Double().Plus(Pair(0x10, 0x21)) else Double()
    }

    function Byte(x: bv8): Pair {
      Pair(hi ^ x, lo).Shifted().Shifted().Shifted().Shifted().Shifted().Shifted().Shifted().Shifted()
    }
  }

  lemma TopBit(x: bv8)
    ensures x & 0x80 == 0x80 <==> Number(x) >= 0x80
    ensures x >> 7 == if x & 0x80 == 0x80 then 1 else 0
  {
  }

  lemma DoubleByte(x: bv8)
    ensures Number(x << 1) as int == Number(x) * 2 % 0x100
  {
  }

  lemma LowSet(x: bv8)
    ensures Number((x << 1) | 1) as int == Number(x << 1) + 1 && (x << 1) | 0 == x << 1
  {
  }

  lemma DoubleParts(hi: byte, lo: byte, v: nat)
    requires v == lo + 0x100 * hi
    ensures v * 2 % WORDS == lo * 2 % 0x100 + 0x100 * (hi * 2 % 0x100 + if lo >= 0x80 then 1 else 0)
    ensures v >= 0x8000 <==> hi >= 0x80
    ensures v < 0x8000 ==> v * 2 % WORDS == v * 2
  {
    var carry := if lo >= 0x80 then 1 else 0;
    var top := if hi >= 0x80 then 1 else 0;
    DivModUnique(lo * 2, 0x100, carry, lo * 2 - 0x100 * carry);
    DivModUnique(hi * 2, 0x100, top, hi * 2 - 0x100 * top);
    DivModUnique(v * 2, WORDS, top, v * 2 - WORDS * top);
  }

  lemma PairValue(p: Pair)
    ensures p.Value() == Number(p.lo) + 0x100 * Number(p.hi)
    ensures p.Double() == Pair((p.hi << 1) | (p.lo >> 7), p.lo << 1)
  {
  }

  lemma PairDouble(p: Pair)
    ensures p.Double().Value() == p.Value() * 2 % WORDS && (p.hi & 0x80 == 0x80 <==> p.Value() >= 0x8000)
    ensures p.Value() < 0x8000 ==> p.Value() * 2 % WORDS == p.Value() * 2
  {
    hide *;
    PairValue(p);
    PairValue(p.Double());
    TopBit(p.lo);
    TopBit(p.hi);
    DoubleByte(p.lo);
    DoubleByte(p.hi);
    LowSet(p.hi);
    DoubleParts(Number(p.hi), Number(p.lo), p.Value());
  }

  lemma PairPlus(p: Pair, q: Pair)
    ensures p.Plus(q).Value() == Xor(p.Value(), q.Value())
  {
    hide Xor, Number;
    BytePlus(p.hi, q.hi);
    BytePlus(p.lo, q.lo);
    XorBytes(Number(p.lo), Number(p.hi), Number(q.lo), Number(q.hi));
  }

  lemma PairShift(p: Pair)
    ensures p.Shifted().Value() == Shift(p.Value())
  {
    hide Xor, Number, Pair.Value, Pair.Plus, Pair.Double;
    PairDouble(p);
    PairPlus(p.Double(), Pair(0x10, 0x21));
    PolyPair();
  }

  lemma PolyPair()
    ensures Pair(0x10, 0x21).Value() == 0x1021
  {
  }

  function Times(p: Pair, n: nat): Pair
    decreases n
  {
    if n == 0 then p else Times(p.Shifted(), n - 1)
  }

  lemma {:induction false} PairSteps(p: Pair, n: nat)
    ensures CrcBit(p.Value(), n) == Times(p, n).Value()
    decreases n
  {
    hide Xor, Pair.Value, Pair.Shifted;
    if n > 0 {
      PairShift(p);
      PairSteps(p.Shifted(), n - 1);
    }
  }

  lemma EightTimes(p: Pair)
    ensures Times(p, 8) == p.Shifted().Shifted().Shifted().Shifted().Shifted().Shifted().Shifted().Shifted()
  {
    hide Pair.Shifted;
    var q := p.Shifted().Shifted().Shifted().Shifted();
    assert Times(p, 8) == Times(p.Shifted().Shifted(), 6) == Times(q, 4);
    assert Times(q, 4) == Times(q.Shifted().Shifted(), 2);
  }

  lemma TakenPair(p: Pair, x: bv8)
    ensures Pair(p.hi ^ x, p.lo).Value() == Taken(p.Value(), Number(x))
  {
    hide Xor;
    assert p.lo ^ 0 == p.lo;
    PairPlus(p, Pair(x, 0));
    assert Pair(x, 0).Value() == 0x100 * (Number(x) as int);
  }

  lemma PairByte(p: Pair, x: bv8)
    ensures p.Byte(x).Value() == CrcBit(Taken(p.Value(), Number(x)), 8)
  {
    hide Xor, CrcBit, Number, Taken, Pair.Value, Pair.Shifted;
    TakenPair(p, x);
    PairSteps(Pair(p.hi ^ x, p.lo), 8);
    EightTimes(Pair(p.hi ^ x, p.lo));
  }

  // Register and rest of the string, a byte on.
  lemma CheckFrom(p: Pair, q: Pair, x: bv8, s: Bytes, i: nat)
    requires q == p.Byte(x) && i < |s| && s[i] == Number(x)
    ensures CrcFold(p.Value(), s[i..]) == CrcFold(q.Value(), s[i + 1..])
  {
    hide Xor, CrcBit, CrcFold, Number, Taken, Pair.Value, Pair.Byte;
    PairByte(p, x);
    assert s[i..] == [s[i]] + s[i + 1..];
    FoldStep(p.Value(), s[i], s[i + 1..]);
  }

  // The published check value of the polynomial: the text "123456789" from a register of all ones.
  lemma CheckValue()
    ensures CrcFold(0xFFFF, [0x31, 0x32, 0x33, 0x34, 0x35, 0x36, 0x37, 0x38, 0x39]) == 0x29B1
  {
    hide Xor, CrcFold, CrcBit, Pair.Byte, Pair.Value, Number;
    var s: Bytes := [0x31, 0x32, 0x33, 0x34, 0x35, 0x36, 0x37, 0x38, 0x39];
    CheckDigits(s);
    CheckRegisters();
    CheckFrom(Pair(0xff, 0xff), Pair(0xc7, 0x82), 0x31, s, 0);
    CheckFrom(Pair(0xc7, 0x82), Pair(0x3d, 0xba), 0x32, s, 1);
    CheckFrom(Pair(0x3d, 0xba), Pair(0x5b, 0xce), 0x33, s, 2);
    CheckFrom(Pair(0x5b, 0xce), Pair(0x53, 0x49), 0x34, s, 3);
    CheckFrom(Pair(0x53, 0x49), Pair(0x45, 0x60), 0x35, s, 4);
    CheckFrom(Pair(0x45, 0x60), Pair(0x2e, 0xf4), 0x36, s, 5);
    CheckFrom(Pair(0x2e, 0xf4), Pair(0x77, 0x18), 0x37, s, 6);
    CheckFrom(Pair(0x77, 0x18), Pair(0xa1, 0x2b), 0x38, s, 7);
    CheckFrom(Pair(0xa1, 0x2b), Pair(0x29, 0xb1), 0x39, s, 8);
    assert s[0..] == s && s[9..] == [];
    CheckEnd();
  }

  // The register after each of the nine bytes.
  lemma CheckRegisters()
    ensures Pair(0xff, 0xff).Byte(0x31) == Pair(0xc7, 0x82) && Pair(0xc7, 0x82).Byte(0x32) == Pair(0x3d, 0xba)
    ensures Pair(0x3d, 0xba).Byte(0x33) == Pair(0x5b, 0xce) && Pair(0x5b, 0xce).Byte(0x34) == Pair(0x53, 0x49)
    ensures Pair(0x53, 0x49).Byte(0x35) == Pair(0x45, 0x60) && Pair(0x45, 0x60).Byte(0x36) == Pair(0x2e, 0xf4)
    ensures Pair(0x2e, 0xf4).Byte(0x37) == Pair(0x77, 0x18) && Pair(0x77, 0x18).Byte(0x38) == Pair(0xa1, 0x2b)
    ensures Pair(0xa1, 0x2b).Byte(0x39) == Pair(0x29, 0xb1)
  {
  }

  lemma CheckEnd()
    ensures Pair(0xff, 0xff).Value() == 0xFFFF && CrcFold(Pair(0x29, 0xb1).Value(), []) == 0x29B1
  {
  }
}
