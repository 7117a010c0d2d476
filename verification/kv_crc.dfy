/** The checksum of the flash log: its value on the standard check string, and that it tells apart any two
    strings of one length that differ in one byte.
 */
module KvCrc {
  import opened BitBytes
  import opened Bits
  import opened KvRecord

  const POLY := 0xEDB8_8320
  const WORDS := 0x1_0000_0000

  // One bit of the shift register.
  function Shift(c: nat): nat {
    if c % 2 == 1 then Xor(c / 2, POLY) else c / 2
  }

  lemma StepIsShift(c: nat, n: nat)
    requires n > 0
    ensures CrcStep(c, n) == CrcStep(Shift(c), n - 1)
  {
  }

  // The bits above those that are shifted out only move down.
  lemma {:induction false} StepSplits(lo: nat, hi: nat, n: nat)
    requires lo < Pow2(n)
    ensures CrcStep(lo + Pow2(n) * hi, n) == Xor(CrcStep(lo, n), hi)
    decreases n
  {
    if n == 0 {
      hide Xor;
      XorNothing(hi);
      XorCommutes(0, hi);
    } else {
      hide Xor, CrcStep, Shift, Pow2;
      var c := lo + Pow2(n) * hi;
      StepIsShift(c, n);
      StepIsShift(lo, n);
      if lo % 2 == 0 {
        EvenStep(lo, hi, n, c);
        StepSplits(lo / 2, hi, n - 1);
      } else {
        var pl, ph := POLY % Pow2(n - 1), POLY / Pow2(n - 1);
        OddStep(lo, hi, n, c);
        StepSplits(Xor(lo / 2, pl), Xor(hi, ph), n - 1);
        StepSplits(Xor(lo / 2, pl), ph, n - 1);
        XorCommutes(hi, ph);
        XorAssociates(CrcStep(Xor(lo / 2, pl), n - 1), ph, hi);
      }
    }
  }

  lemma EvenStep(lo: nat, hi: nat, n: nat, c: nat)
    requires n > 0 && lo < Pow2(n) && lo % 2 == 0 && c == lo + Pow2(n) * hi
    ensures lo / 2 < Pow2(n - 1)
    ensures Shift(lo) == lo / 2 && Shift(c) == lo / 2 + Pow2(n - 1) * hi
  {
    Halves(lo, hi, n);
  }

  lemma OddStep(lo: nat, hi: nat, n: nat, c: nat)
    requires n > 0 && lo < Pow2(n) && lo % 2 == 1 && c == lo + Pow2(n) * hi
    ensures var p := Pow2(n - 1);
      var low := Xor(lo / 2, POLY % p);
      && low < p && Shift(lo) == low + p * (POLY / p)
      && Shift(c) == low + p * Xor(hi, POLY / p)
  {
    hide Xor, Pow2, Shift;
    var p, half := Pow2(n - 1), lo / 2;
    var pl, ph := POLY % p, POLY / p;
    HalfBelow(lo, n);
    Halves(lo, hi, n);
    ShiftOdd(lo);
    ShiftOdd(c);
    SplitAt(POLY, p);
    OddShift(half, hi, pl, ph, n - 1);
    OddShift(half, 0, pl, ph, n - 1);
    XorNothing(ph);
    XorBound(half, pl, n - 1);
  }

  lemma HalfBelow(lo: nat, n: nat)
    requires n > 0 && lo < Pow2(n)
    ensures lo / 2 < Pow2(n - 1)
  {
  }

  lemma ShiftOdd(c: nat)
    requires c % 2 == 1
    ensures Shift(c) == Xor(c / 2, POLY)
  {
  }

  lemma OddShift(half: nat, hi: nat, pl: nat, ph: nat, n: nat)
    requires half < Pow2(n) && pl < Pow2(n) && POLY == pl + Pow2(n) * ph
    ensures Xor(half + Pow2(n) * hi, POLY) == Xor(half, pl) + Pow2(n) * Xor(hi, ph)
    ensures hi == 0 ==> half + Pow2(n) * hi == half
  {
    hide Xor, Pow2;
    XorParts(half, hi, pl, ph, n);
  }

  lemma Powers()
    ensures Pow2(8) == 0x100 && Pow2(31) == 0x8000_0000 && Pow2(32) == WORDS
  {
    assert Pow2(8) == 0x100;
    Pow2Sum(8, 8);
    Pow2Sum(16, 15);
    Pow2Sum(8, 7);
    assert Pow2(7) == 0x80 && Pow2(15) == 0x8000;
    assert Pow2(32) == 2 * Pow2(31);
  }

  // Whether the register was odd shows in its top bit, so no two words shift to the same one.
  lemma ShiftTop(c: nat)
    requires c < WORDS
    ensures Shift(c) < WORDS && (Shift(c) >= 0x8000_0000 <==> c % 2 == 1)
  {
    hide Xor, Pow2;
    Powers();
    if c % 2 == 1 {
      XorParts(c / 2, 0, POLY - 0x8000_0000, 1, 31);
      XorBound(c / 2, POLY - 0x8000_0000, 31);
      XorNothing(1);
      assert c / 2 + Pow2(31) * 0 == c / 2;
    }
  }

  lemma ShiftInjective(c: nat, d: nat)
    requires c < WORDS && d < WORDS && Shift(c) == Shift(d)
    ensures c == d
  {
    hide Xor;
    ShiftTop(c);
    ShiftTop(d);
    if c % 2 == 1 {
      XorCancels(c / 2, POLY);
      XorCancels(d / 2, POLY);
    }
  }

  lemma {:induction false} StepInjective(c: nat, d: nat, n: nat)
    requires c < WORDS && d < WORDS
    ensures CrcStep(c, n) < WORDS && CrcStep(d, n) < WORDS
    ensures CrcStep(c, n) == CrcStep(d, n) ==> c == d
    decreases n
  {
    hide Xor;
    if n > 0 {
      ShiftTop(c);
      ShiftTop(d);
      StepInjective(Shift(c), Shift(d), n - 1);
      if Shift(c) == Shift(d) {
        ShiftInjective(c, d);
      }
    }
  }

  // One byte into the register: looking up the low byte is shifting eight times.
  lemma ByteIsStep(c: nat, b: byte)
    requires c < WORDS
    ensures Xor(c, b) < WORDS
    ensures Xor(CrcStep(Xor(c, b) % 0x100, 8), c / 0x100) == CrcStep(Xor(c, b), 8)
  {
    hide Xor, Pow2, CrcStep;
    Powers();
    var lo, hi := c % 0x100, c / 0x100;
    XorParts(lo, hi, b, 0, 8);
    XorNothing(hi);
    XorBound(lo, b, 8);
    XorBound(c, b, 32);
    assert b + Pow2(8) * 0 == b;
    StepSplits(Xor(lo, b), hi, 8);
  }

  lemma FoldStep(c: nat, b: byte, rest: Bytes)
    requires c < WORDS
    ensures CrcFold(c, [b] + rest) == CrcFold(CrcStep(Xor(c, b), 8), rest)
  {
    hide Xor, CrcStep;
    ByteIsStep(c, b);
    assert ([b] + rest)[1..] == rest;
  }

  // Different registers stay different over the same bytes.
  lemma {:induction false} FoldInjective(c: nat, d: nat, data: Bytes)
    requires c < WORDS && d < WORDS
    ensures CrcFold(c, data) < WORDS && CrcFold(d, data) < WORDS
    ensures CrcFold(c, data) == CrcFold(d, data) ==> c == d
    decreases |data|
  {
    hide Xor, CrcStep;
    if data != [] {
      var b, rest := data[0], data[1..];
      assert [b] + rest == data;
      FoldStep(c, b, rest);
      FoldStep(d, b, rest);
      ByteIsStep(c, b);
      ByteIsStep(d, b);
      StepInjective(Xor(c, b), Xor(d, b), 8);
      FoldInjective(CrcStep(Xor(c, b), 8), CrcStep(Xor(d, b), 8), rest);
      XorCancels(c, b);
      XorCancels(d, b);
    }
  }

  // Two strings that differ in one byte have different checksums.
  lemma {:induction false} OneByteShows(c: nat, s: Bytes, t: Bytes, i: nat)
    requires c < WORDS && |s| == |t| && i < |s| && s[i] != t[i]
    requires forall k :: 0 <= k < |s| && k != i ==> s[k] == t[k]
    ensures CrcFold(c, s) != CrcFold(c, t)
    decreases |s|
  {
    hide Xor, CrcStep, CrcFold;
    assert [s[0]] + s[1..] == s && [t[0]] + t[1..] == t;
    FoldStep(c, s[0], s[1..]);
    FoldStep(c, t[0], t[1..]);
    ByteIsStep(c, s[0]);
    ByteIsStep(c, t[0]);
    StepInjective(Xor(c, s[0]), Xor(c, t[0]), 8);
    if i == 0 {
      assert s[1..] == t[1..];
      XorCommutes(c, s[0]);
      XorCommutes(c, t[0]);
      XorCancels(s[0], c);
      XorCancels(t[0], c);
      FoldInjective(CrcStep(Xor(c, s[0]), 8), CrcStep(Xor(c, t[0]), 8), s[1..]);
    } else {
      OneByteShows(CrcStep(Xor(c, s[0]), 8), s[1..], t[1..], i - 1);
    }
  }

  lemma ChecksumDiffers(s: Bytes, t: Bytes, i: nat)
    requires |s| == |t| && i < |s| && s[i] != t[i]
    requires forall k :: 0 <= k < |s| && k != i ==> s[k] == t[k]
    ensures Crc32(s) != Crc32(t)
  {
    hide Xor, CrcFold, Pow2;
    Powers();
    OneByteShows(0xffff_ffff, s, t, i);
    var x, y := CrcFold(0xffff_ffff, s), CrcFold(0xffff_ffff, t);
    FoldInjective(0xffff_ffff, 0xffff_ffff, s);
    FoldInjective(0xffff_ffff, 0xffff_ffff, t);
    XorBound(x, 0xffff_ffff, 32);
    XorBound(y, 0xffff_ffff, 32);
    XorCancels(x, 0xffff_ffff);
    XorCancels(y, 0xffff_ffff);
  }

  // A byte shifted down, with the low bit of the next one coming in.
  function Carried(x: bv8, next: bv8): bv8 {
    (x >> 1) | (next << 7)
  }

  function Half(q: Quad): Quad {
    Quad(Carried(q.a, q.b), Carried(q.b, q.c), Carried(q.c, q.d), q.d >> 1)
  }

  function Shifted(q: Quad): Quad {
    if q.a & 1 == 1 then Half(q).Plus(Quad(0x20, 0x83, 0xB8, 0xED)) else Half(q)
  }

  function Byte(q: Quad, x: bv8): Quad {
    Shifted(Shifted(Shifted(Shifted(Shifted(Shifted(Shifted(Shifted(Quad(q.a ^ x, q.b, q.c, q.d)))))))))
  }

  lemma HalfIs(q: Quad)
    ensures Half(q) == Quad(Carried(q.a, q.b), Carried(q.b, q.c), Carried(q.c, q.d), q.d >> 1)
  {
  }

  lemma ByteCarry(x: bv8, y: bv8)
    ensures Number(Carried(x, y)) as int == Number(x) / 2 + 0x80 * (Number(y) % 2)
  {
    ByteHalf(x);
    ByteHalf(y);
    hide Number;
    if y & 1 == 1 {
      assert y << 7 == 0x80;
      TopSet(x >> 1);
    } else {
      assert y << 7 == 0 && (x >> 1) | 0 == x >> 1;
    }
  }

  lemma TopSet(z: bv8)
    requires z < 0x80
    ensures Number(z | 0x80) as int == Number(z) + 0x80
  {
  }

  lemma HalfWord(a: byte, b: byte, c: byte, d: byte, v: nat, h: nat)
    requires v == a + 0x100 * (b + 0x100 * (c + 0x100 * d))
    requires h == (a / 2 + 0x80 * (b % 2))
      + 0x100 * ((b / 2 + 0x80 * (c % 2)) + 0x100 * ((c / 2 + 0x80 * (d % 2)) + 0x100 * (d / 2)))
    ensures v / 2 == h && v % 2 == a % 2
  {
    DivModUnique(v, 2, h, a % 2);
  }

  lemma QuadHalf(q: Quad)
    ensures Half(q).Value() == q.Value() / 2 && q.Value() % 2 == Number(q.a) % 2
  {
    ByteCarry(q.a, q.b);
    ByteCarry(q.b, q.c);
    ByteCarry(q.c, q.d);
    ByteHalf(q.d);
    hide *;
    QuadValue(q);
    HalfIs(q);
    QuadValue(Half(q));
    HalfWord(Number(q.a), Number(q.b), Number(q.c), Number(q.d), q.Value(), Half(q).Value());
  }

  lemma QuadShift(q: Quad)
    ensures Shifted(q).Value() == Shift(q.Value())
  {
    hide Xor, Number;
    ByteHalf(q.a);
    QuadHalf(q);
    QuadPlus(Half(q), Quad(0x20, 0x83, 0xB8, 0xED));
    PolyQuad();
  }

  lemma PolyQuad()
    ensures Quad(0x20, 0x83, 0xB8, 0xED).Value() == POLY
  {
  }

  lemma {:induction false} QuadSteps(q: Quad, n: nat)
    ensures CrcStep(q.Value(), n) == Times(q, n).Value()
    decreases n
  {
    hide Xor, Quad.Value, Shifted;
    if n > 0 {
      QuadShift(q);
      QuadSteps(Shifted(q), n - 1);
    }
  }

  function Times(q: Quad, n: nat): Quad
    decreases n
  {
    if n == 0 then q else Times(Shifted(q), n - 1)
  }

  lemma QuadByte(q: Quad, x: bv8)
    ensures Byte(q, x).Value() == CrcStep(Xor(q.Value(), Number(x)), 8)
  {
    hide Xor, CrcStep, Quad.Value, Shifted;
    QuadPlusByte(q, x);
    QuadSteps(Quad(q.a ^ x, q.b, q.c, q.d), 8);
    EightTimes(Quad(q.a ^ x, q.b, q.c, q.d));
  }

  lemma EightTimes(q: Quad)
    ensures Times(q, 8)
      == Shifted(Shifted(Shifted(Shifted(Shifted(Shifted(Shifted(Shifted(q))))))))
  {
    hide Shifted;
    var r := Shifted(Shifted(Shifted(Shifted(q))));
    assert Times(q, 8) == Times(Shifted(Shifted(q)), 6) == Times(r, 4);
    assert Times(r, 4) == Times(Shifted(Shifted(r)), 2);
  }

  lemma QuadPlusByte(q: Quad, x: bv8)
    ensures Quad(q.a ^ x, q.b, q.c, q.d).Value() == Xor(q.Value(), Number(x))
  {
    hide Xor;
    assert q.b ^ 0 == q.b && q.c ^ 0 == q.c && q.d ^ 0 == q.d;
    QuadPlus(q, Quad(x, 0, 0, 0));
    assert Quad(x, 0, 0, 0).Value() == Number(x) as int;
  }

  // Register and rest of the string, a byte on.
  lemma CheckStep(q: Quad, r: Quad, x: bv8, rest: Bytes)
    requires r == Byte(q, x)
    ensures CrcFold(q.Value(), [Number(x)] + rest) == CrcFold(r.Value(), rest)
  {
    hide Xor, CrcStep, CrcFold, Number, Byte;
    QuadByte(q, x);
    FoldStep(q.Value(), Number(x), rest);
  }

  // The standard check value: the checksum of the text "123456789".
  lemma CheckValue()
    ensures Crc32([0x31, 0x32, 0x33, 0x34, 0x35, 0x36, 0x37, 0x38, 0x39]) == 0xCBF4_3926
  {
    hide Xor, CrcFold, CrcStep, Byte, Quad.Value, Number;
    var s: Bytes := [0x31, 0x32, 0x33, 0x34, 0x35, 0x36, 0x37, 0x38, 0x39];
    CheckDigits(s);
    CheckRegisters();
    CheckFrom(Quad(0xff, 0xff, 0xff, 0xff), Quad(0x48, 0x10, 0x23, 0x7c), 0x31, s, 0);
    CheckFrom(Quad(0x48, 0x10, 0x23, 0x7c), Quad(0x32, 0xbb, 0xac, 0xb0), 0x32, s, 1);
    CheckFrom(Quad(0x32, 0xbb, 0xac, 0xb0), Quad(0x2d, 0x9c, 0xb7, 0x77), 0x33, s, 2);
    CheckFrom(Quad(0x2d, 0x9c, 0xb7, 0x77), Quad(0x5c, 0x1f, 0x1c, 0x64), 0x34, s, 3);
    CheckFrom(Quad(0x5c, 0x1f, 0x1c, 0x64), Quad(0xe3, 0xc5, 0x0a, 0x34), 0x35, s, 4);
    CheckFrom(Quad(0xe3, 0xc5, 0x0a, 0x34), Quad(0x9e, 0x2c, 0x8d, 0xf6), 0x36, s, 5);
    CheckFrom(Quad(0x9e, 0x2c, 0x8d, 0xf6), Quad(0x60, 0x96, 0xfc, 0xaf), 0x37, s, 6);
    CheckFrom(Quad(0x60, 0x96, 0xfc, 0xaf), Quad(0x50, 0x25, 0x1f, 0x65), 0x38, s, 7);
    CheckFrom(Quad(0x50, 0x25, 0x1f, 0x65), Quad(0xd9, 0xc6, 0x0b, 0x34), 0x39, s, 8);
    assert s[0..] == s && s[9..] == [];
    CheckEnd();
  }

  // The register after each of the nine bytes.
  lemma CheckRegisters()
    ensures Byte(Quad(0xff, 0xff, 0xff, 0xff), 0x31) == Quad(0x48, 0x10, 0x23, 0x7c)
    ensures Byte(Quad(0x48, 0x10, 0x23, 0x7c), 0x32) == Quad(0x32, 0xbb, 0xac, 0xb0)
    ensures Byte(Quad(0x32, 0xbb, 0xac, 0xb0), 0x33) == Quad(0x2d, 0x9c, 0xb7, 0x77)
    ensures Byte(Quad(0x2d, 0x9c, 0xb7, 0x77), 0x34) == Quad(0x5c, 0x1f, 0x1c, 0x64)
    ensures Byte(Quad(0x5c, 0x1f, 0x1c, 0x64), 0x35) == Quad(0xe3, 0xc5, 0x0a, 0x34)
    ensures Byte(Quad(0xe3, 0xc5, 0x0a, 0x34), 0x36) == Quad(0x9e, 0x2c, 0x8d, 0xf6)
    ensures Byte(Quad(0x9e, 0x2c, 0x8d, 0xf6), 0x37) == Quad(0x60, 0x96, 0xfc, 0xaf)
    ensures Byte(Quad(0x60, 0x96, 0xfc, 0xaf), 0x38) == Quad(0x50, 0x25, 0x1f, 0x65)
    ensures Byte(Quad(0x50, 0x25, 0x1f, 0x65), 0x39) == Quad(0xd9, 0xc6, 0x0b, 0x34)
  {
  }

  lemma CheckFrom(q: Quad, r: Quad, x: bv8, s: Bytes, i: nat)
    requires i < |s| && s[i] == Number(x) && r == Byte(q, x)
    ensures CrcFold(q.Value(), s[i..]) == CrcFold(r.Value(), s[i + 1..])
  {
    hide *;
    assert s[i..] == [Number(x)] + s[i + 1..];
    CheckStep(q, r, x, s[i + 1..]);
  }

  lemma CheckEnd()
    ensures Quad(0xff, 0xff, 0xff, 0xff).Value() == 0xffff_ffff
    ensures CrcFold(Quad(0xd9, 0xc6, 0x0b, 0x34).Value(), []) == Quad(0xd9, 0xc6, 0x0b, 0x34).Value()
    ensures Xor(Quad(0xd9, 0xc6, 0x0b, 0x34).Value(), 0xffff_ffff) == 0xCBF4_3926
  {
    QuadPlus(Quad(0xd9, 0xc6, 0x0b, 0x34), Quad(0xff, 0xff, 0xff, 0xff));
    assert Quad(0xd9, 0xc6, 0x0b, 0x34).Plus(Quad(0xff, 0xff, 0xff, 0xff)) == Quad(0x26, 0x39, 0xf4, 0xcb);
  }
}
