/** Poly1305 over five 26-bit limbs: the limb arithmetic computes the polynomial modulo 2^130 - 5
    without overflowing a 32- or 64-bit register.
 */
module Poly1305 {
  import opened Bits

  type dword = d: int | 0 <= d < 0x1_0000_0000_0000_0000

  const P := 0x3_ffff_ffff_ffff_ffff_ffff_ffff_ffff_fffb
  const B := 0x400_0000
  const MASK26 := 0x3ff_ffff
  const CLAMP := 0x0fff_fffc_0fff_fffc_0fff_fffc_0fff_ffff

  // A number in radix 2^26.
  datatype Limbs = Limbs(l0: word, l1: word, l2: word, l3: word, l4: word) {
    function Value(): nat {
      l0 + B * l1 + B * B * l2 + B * B * B * l3 + B * B * B * B * l4
    }
  }

  lemma LeNatOf16(m: Bytes)
    requires |m| == 16
    ensures LeNat(m) == Load32(m, 0) + 0x1_0000_0000 * Load32(m, 4)
                      + 0x1_0000_0000_0000_0000 * Load32(m, 8)
                      + 0x1_0000_0000_0000_0000_0000_0000 * Load32(m, 12)
  {
    assert m[0..] == m && m[16..] == [];
    LeNatOf4(m, 0);
    LeNatOf4(m, 4);
    LeNatOf4(m, 8);
    LeNatOf4(m, 12);
  }

  // Bits that straddle two words: the upper part of t, then the lower part of u shifted past it, masked.
  function Straddle(t: nat, u: nat, shift: nat, mask: nat): nat {
    And(Or(t, U32(u * shift)), mask)
  }

  // The five limbs of 16 bytes, before any masking for r.
  function LoadLimbs(m: Bytes): Limbs
    requires |m| == 16
  {
    var t0, t1, t2, t3 := Load32(m, 0), Load32(m, 4), Load32(m, 8), Load32(m, 12);
    Limbs(U32(And(t0, MASK26)), U32(Straddle(t0 / 0x400_0000, t1, 0x40, MASK26)),
          U32(Straddle(t1 / 0x10_0000, t2, 0x1000, MASK26)), U32(Straddle(t2 / 0x4000, t3, 0x4_0000, MASK26)), t3 / 0x100)
  }

  // What is left of u after the shift is shift * w; with t below it, lo is the part below bit 26.
  lemma StraddleParts(t: nat, u: nat, w: nat, lo: nat, mid: nat, k: nat, shift: nat, mask: nat)
    requires shift == Pow2(k) && t < shift && U32(u * shift) == shift * w
    requires t + shift * w == lo + B * mid && lo < B && mask < B
    ensures Straddle(t, u, shift, mask) == And(lo, mask)
  {
    OrSum(t, w, k, shift);
    LowAnd(lo, mid, mask);
  }

  // A mask below bit 26 sees only the low 26 bits.
  lemma LowAnd(lo: nat, hi: nat, mask: nat)
    requires lo < B && mask < B
    ensures And(lo + B * hi, mask) == And(lo, mask)
  {
    hide And;
    Powers();
    AndSplit(lo, hi, mask, 0, 26, B);
    AndOfZero(hi);
  }

  lemma LoadLimbsParts(m: Bytes)
    requires |m| == 16
    ensures var t0, t1, t2, t3 := Load32(m, 0), Load32(m, 4), Load32(m, 8), Load32(m, 12);
            LoadLimbs(m) == Limbs(t0 % B, t0 / B + 0x40 * (t1 % 0x10_0000), t1 / 0x10_0000 + 0x1000 * (t2 % 0x4000),
                                  t2 / 0x4000 + 0x4_0000 * (t3 % 0x100), t3 / 0x100)
  {
    hide Straddle, And, Pow2, Load32;
    var t0, t1, t2, t3 := Load32(m, 0), Load32(m, 4), Load32(m, 8), Load32(m, 12);
    Mask26(t0, t0 % B, t0 / B);
    Straddle26(t0, t1, MASK26);
    Straddle20(t1, t2, MASK26);
    Straddle14(t2, t3, MASK26);
    Mask26(t0 / B + 0x40 * (t1 % 0x10_0000), t0 / B + 0x40 * (t1 % 0x10_0000), 0);
    Mask26(t1 / 0x10_0000 + 0x1000 * (t2 % 0x4000), t1 / 0x10_0000 + 0x1000 * (t2 % 0x4000), 0);
    Mask26(t2 / 0x4000 + 0x4_0000 * (t3 % 0x100), t2 / 0x4000 + 0x4_0000 * (t3 % 0x100), 0);
  }

  lemma Straddle26(t: word, u: word, mask: nat)
    requires mask < B
    ensures Straddle(t / B, u, 0x40, mask) == And(t / B + 0x40 * (u % 0x10_0000), mask)
  {
    hide Straddle, Pow2;
    var w, lo, mid := u % 0x400_0000, u % 0x10_0000, u / 0x10_0000 % 0x40;
    assert w == lo + 0x10_0000 * mid;
    Powers();
    StraddleParts(t / B, u, w, t / B + 0x40 * lo, mid, 6, 0x40, mask);
  }

  lemma Straddle20(t: word, u: word, mask: nat)
    requires mask < B
    ensures Straddle(t / 0x10_0000, u, 0x1000, mask) == And(t / 0x10_0000 + 0x1000 * (u % 0x4000), mask)
  {
    hide Straddle, Pow2;
    var w, lo, mid := u % 0x10_0000, u % 0x4000, u / 0x4000 % 0x40;
    assert w == lo + 0x4000 * mid;
    Powers();
    StraddleParts(t / 0x10_0000, u, w, t / 0x10_0000 + 0x1000 * lo, mid, 12, 0x1000, mask);
  }

  lemma Straddle14(t: word, u: word, mask: nat)
    requires mask < B
    ensures Straddle(t / 0x4000, u, 0x4_0000, mask) == And(t / 0x4000 + 0x4_0000 * (u % 0x100), mask)
  {
    hide Straddle, Pow2;
    var w, lo, mid := u % 0x4000, u % 0x100, u / 0x100 % 0x40;
    assert w == lo + 0x100 * mid;
    Powers();
    StraddleParts(t / 0x4000, u, w, t / 0x4000 + 0x4_0000 * lo, mid, 18, 0x4_0000, mask);
  }

  lemma Powers()
    ensures Pow2(6) == 0x40 && Pow2(8) == 0x100 && Pow2(12) == 0x1000 && Pow2(14) == 0x4000 && Pow2(18) == 0x4_0000
    ensures Pow2(20) == 0x10_0000 && Pow2(26) == B && Pow2(32) == 0x1_0000_0000
  {
    assert Pow2(8) == 0x100;
    assert Pow2(16) == 0x1_0000;
    assert Pow2(24) == 0x100_0000;
  }

  lemma Mask26(x: nat, l: nat, h: nat)
    requires l < B && x == l + B * h
    ensures And(x, MASK26) == l
  {
    Powers();
    AndMask(x, l, h, 26, B);
  }

  lemma LoadLimbsValue(m: Bytes)
    requires |m| == 16
    ensures var l := LoadLimbs(m);
            && l.Value() == LeNat(m)
            && l.l0 < B && l.l1 < B && l.l2 < B && l.l3 < B && l.l4 < 0x100_0000
  {
    hide LoadLimbs, LeNat;
    LeNatOf16(m);
    LoadLimbsParts(m);
  }

  function Radix(a: int, b: int, c: int, d: int, e: int): int {
    a + B * b + B * B * c + B * B * B * d + B * B * B * B * e
  }

  // Between blocks only the second limb may exceed 26 bits, and by little.
  predicate Settled(h: Limbs) {
    h.l0 < B && h.l1 < B + 0x40 && h.l2 < B && h.l3 < B && h.l4 < B
  }

  // Bounds of the clamped multiplier.
  predicate Clamped(r: Limbs) {
    r.l0 < B && r.l1 < B && r.l2 < B && r.l3 < 0x3f0_4000 && r.l4 < 0x10_0000
  }

  // Schoolbook product with everything from 2^130 up folded back in five times over.
  lemma ProductFolds(h0: nat, h1: nat, h2: nat, h3: nat, h4: nat, r0: nat, r1: nat, r2: nat, r3: nat, r4: nat)
    ensures Radix(h0, h1, h2, h3, h4) * Radix(r0, r1, r2, r3, r4)
         == Radix(h0 * r0 + h1 * (r4 * 5) + h2 * (r3 * 5) + h3 * (r2 * 5) + h4 * (r1 * 5),
                  h0 * r1 + h1 * r0 + h2 * (r4 * 5) + h3 * (r3 * 5) + h4 * (r2 * 5),
                  h0 * r2 + h1 * r1 + h2 * r0 + h3 * (r4 * 5) + h4 * (r3 * 5),
                  h0 * r3 + h1 * r2 + h2 * r1 + h3 * r0 + h4 * (r4 * 5),
                  h0 * r4 + h1 * r3 + h2 * r2 + h3 * r1 + h4 * r0)
          + P * Radix(h1 * r4 + h2 * r3 + h3 * r2 + h4 * r1, h2 * r4 + h3 * r3 + h4 * r2, h3 * r4 + h4 * r3, h4 * r4, 0)
  {
  }

  lemma MulBound(a: nat, b: nat, x: nat, y: nat)
    requires a <= x && b <= y
    ensures 0 <= a * b <= x * y
  {
    MulMono(a, b, y);
    MulMono(y, a, x);
  }

  // A column of the product stays below 2^58, so that its carry fits 32 bits.
  lemma ColumnBound(h0: nat, h1: nat, h2: nat, h3: nat, h4: nat, a: nat, b: nat, c: nat, d: nat, e: nat, m: nat)
    requires h0 < 2 * B && h1 < 2 * B + 0x40 && h2 < 2 * B && h3 < 2 * B && h4 < 2 * B
    requires a + b + c + d + e <= m
    ensures 0 <= h0 * a + h1 * b + h2 * c + h3 * d + h4 * e <= (2 * B + 0x40) * m
  {
    var k := 2 * B + 0x40;
    MulBound(h0, a, k, a);
    MulBound(h1, b, k, b);
    MulBound(h2, c, k, c);
    MulBound(h3, d, k, d);
    MulBound(h4, e, k, e);
    MulMono(k, a + b + c + d + e, m);
  }

  lemma AddMultiple(a: int, b: int, q: int)
    requires a == b + P * q
    ensures a % P == b % P
  {
  }

  // The carry chain after the multiplication.
  method Carry(d0: dword, d1: dword, d2: dword, d3: dword, d4: dword) returns (h: Limbs)
    requires d0 < 0x3f0_0000_0000_0000 && d1 < 0x3f0_0000_0000_0000
    requires d2 < 0x3f0_0000_0000_0000 && d3 < 0x3f0_0000_0000_0000
    requires d4 < 0xc0_0000_0000_0000
    ensures Settled(h)
    ensures h.Value() % P == Radix(d0, d1, d2, d3, d4) % P
  {
    var e1: dword, e2: dword, e3: dword, e4: dword;
    var c: word := d0 / B;
    var h0: word := d0 % B;
    e1 := d1 + c;
    c := e1 / B;
    var h1: word := e1 % B;
    e2 := d2 + c;
    c := e2 / B;
    var h2: word := e2 % B;
    e3 := d3 + c;
    c := e3 / B;
    var h3: word := e3 % B;
    e4 := d4 + c;
    c := e4 / B;
    var h4: word := e4 % B;
    ghost var top := c;
    h0 := h0 + c * 5;
    c := h0 / B;
    h0 := h0 % B;
    h1 := h1 + c;
    h := Limbs(h0, h1, h2, h3, h4);
    assert Radix(d0, d1, d2, d3, d4) == h.Value() + P * top;
    AddMultiple(Radix(d0, d1, d2, d3, d4), h.Value(), top);
  }

  // The five columns of h * r, folded.
  method Multiply(h0: word, h1: word, h2: word, h3: word, h4: word, r: Limbs)
    returns (d0: dword, d1: dword, d2: dword, d3: dword, d4: dword)
    requires h0 < 2 * B && h1 < 2 * B + 0x40 && h2 < 2 * B && h3 < 2 * B && h4 < 2 * B && Clamped(r)
    ensures d0 < 0x3f0_0000_0000_0000 && d1 < 0x3f0_0000_0000_0000 && d2 < 0x3f0_0000_0000_0000
    ensures d3 < 0x3f0_0000_0000_0000 && d4 < 0xc0_0000_0000_0000
    ensures Radix(d0, d1, d2, d3, d4) % P == Radix(h0, h1, h2, h3, h4) * r.Value() % P
  {
    var r0, r1, r2, r3, r4 := r.l0, r.l1, r.l2, r.l3, r.l4;
    var s1: word, s2: word, s3: word, s4: word := r1 * 5, r2 * 5, r3 * 5, r4 * 5;
    ColumnBound(h0, h1, h2, h3, h4, r0, s4, s3, s2, s1, 0x4002_0000);
    d0 := h0 * r0 + h1 * s4 + h2 * s3 + h3 * s2 + h4 * s1;
    ColumnBound(h0, h1, h2, h3, h4, r1, r0, s4, s3, s2, 0x4002_0000);
    d1 := h0 * r1 + h1 * r0 + h2 * s4 + h3 * s3 + h4 * s2;
    ColumnBound(h0, h1, h2, h3, h4, r2, r1, r0, s4, s3, 0x4002_0000);
    d2 := h0 * r2 + h1 * r1 + h2 * r0 + h3 * s4 + h4 * s3;
    ColumnBound(h0, h1, h2, h3, h4, r3, r2, r1, r0, s4, 0x4002_0000);
    d3 := h0 * r3 + h1 * r2 + h2 * r1 + h3 * r0 + h4 * s4;
    ColumnBound(h0, h1, h2, h3, h4, r4, r3, r2, r1, r0, 0x1001_0000);
    d4 := h0 * r4 + h1 * r3 + h2 * r2 + h3 * r1 + h4 * r0;
    ProductFolds(h0, h1, h2, h3, h4, r0, r1, r2, r3, r4);
    ghost var q := Radix(h1 * r4 + h2 * r3 + h3 * r2 + h4 * r1, h2 * r4 + h3 * r3 + h4 * r2, h3 * r4 + h4 * r3, h4 * r4, 0);
    AddMultiple(Radix(h0, h1, h2, h3, h4) * Radix(r0, r1, r2, r3, r4), Radix(d0, d1, d2, d3, d4), q);
  }

  // One 16-byte block: add it and multiply by r.
  method Block(h: Limbs, r: Limbs, m: Bytes, hibit: nat) returns (h': Limbs)
    requires |m| == 16 && hibit <= 1 && Settled(h) && Clamped(r)
    ensures Settled(h')
    ensures h'.Value() % P == (h.Value() + BlockNumber(m, hibit)) * r.Value() % P
  {
    hide LoadLimbs, LeNat;
    var t := LoadLimbs(m);
    LoadLimbsValue(m);
    var h0, h1, h2, h3 := h.l0 + t.l0, h.l1 + t.l1, h.l2 + t.l2, h.l3 + t.l3;
    var h4 := h.l4 + (t.l4 + 0x100_0000 * hibit);
    assert Radix(h0, h1, h2, h3, h4) == h.Value() + BlockNumber(m, hibit);
    var d0, d1, d2, d3, d4 := Multiply(h0, h1, h2, h3, h4, r);
    h' := Carry(d0, d1, d2, d3, d4);
  }

  // A block of bytes as a number, with the bit that marks its end.
  function BlockNumber(m: Bytes, hibit: nat): nat {
    LeNat(m) + 0x1_0000_0000_0000_0000_0000_0000_0000_0000 * hibit
  }

  // The multiplier: 16 bytes, clamped limb by limb.
  function ClampLimbs(key: Bytes): Limbs
    requires |key| == 16
  {
    var t0, t1, t2, t3 := Load32(key, 0), Load32(key, 4), Load32(key, 8), Load32(key, 12);
    Limbs(U32(And(t0, 0x3ff_ffff)), U32(Straddle(t0 / 0x400_0000, t1, 0x40, 0x3ff_ff03)),
          U32(Straddle(t1 / 0x10_0000, t2, 0x1000, 0x3ff_c0ff)), U32(Straddle(t2 / 0x4000, t3, 0x4_0000, 0x3f0_3fff)),
          U32(And(t3 / 0x100, 0x00f_ffff)))
  }

  // Masking limb by limb is masking the whole number.
  lemma AndOfRadix(a: nat, b: nat, c: nat, d: nat, e: nat, v: nat, w: nat, x: nat, y: nat, z: nat)
    requires a < B && b < B && c < B && d < B && v < B && w < B && x < B && y < B
    ensures And(Radix(a, b, c, d, e), Radix(v, w, x, y, z)) == Radix(And(a, v), And(b, w), And(c, x), And(d, y), And(e, z))
  {
    hide And;
    Powers();
    var s, t := d + B * e, y + B * z;
    AndSplit(d, e, y, z, 26, B);
    var s', t' := c + B * s, x + B * t;
    AndSplit(c, s, x, t, 26, B);
    var s'', t'' := b + B * s', w + B * t';
    AndSplit(b, s', w, t', 26, B);
    AndSplit(a, s'', v, t'', 26, B);
    assert Radix(a, b, c, d, e) == a + B * s'' && Radix(v, w, x, y, z) == v + B * t'';
  }

  lemma ClampLimbsParts(key: Bytes)
    requires |key| == 16
    ensures var l := LoadLimbs(key);
            ClampLimbs(key) == Limbs(U32(And(l.l0, 0x3ff_ffff)), U32(And(l.l1, 0x3ff_ff03)), U32(And(l.l2, 0x3ff_c0ff)),
                                     U32(And(l.l3, 0x3f0_3fff)), U32(And(l.l4, 0x00f_ffff)))
  {
    hide And, Straddle, Pow2, Load32;
    var t0, t1, t2, t3 := Load32(key, 0), Load32(key, 4), Load32(key, 8), Load32(key, 12);
    LoadLimbsParts(key);
    LowAnd(t0 % B, t0 / B, 0x3ff_ffff);
    Straddle26(t0, t1, 0x3ff_ff03);
    Straddle20(t1, t2, 0x3ff_c0ff);
    Straddle14(t2, t3, 0x3f0_3fff);
  }

  lemma ClampLimbsValue(key: Bytes)
    requires |key| == 16
    ensures Clamped(ClampLimbs(key)) && ClampLimbs(key).Value() == And(LeNat(key), CLAMP)
  {
    hide And, ClampLimbs, LoadLimbs, LeNat;
    var l := LoadLimbs(key);
    ClampLimbsParts(key);
    LoadLimbsValue(key);
    AndBound(l.l0, 0x3ff_ffff);
    AndBound(l.l1, 0x3ff_ff03);
    AndBound(l.l2, 0x3ff_c0ff);
    AndBound(l.l3, 0x3f0_3fff);
    AndBound(l.l4, 0x00f_ffff);
    assert CLAMP == Radix(0x3ff_ffff, 0x3ff_ff03, 0x3ff_c0ff, 0x3f0_3fff, 0x00f_ffff);
    AndOfRadix(l.l0, l.l1, l.l2, l.l3, l.l4, 0x3ff_ffff, 0x3ff_ff03, 0x3ff_c0ff, 0x3f0_3fff, 0x00f_ffff);
  }

  predicate Reduced(h: Limbs) {
    h.l0 < B && h.l1 < B && h.l2 < B && h.l3 < B && h.l4 < B
  }

  // The last carry cannot push the second limb past 26 bits: it is small whenever the chain wraps.
  method CarryAll(h: Limbs) returns (n: Limbs)
    requires Settled(h)
    ensures Reduced(n) && n.Value() % P == h.Value() % P
  {
    var h0: word, h1: word, h2: word, h3: word, h4: word := h.l0, h.l1, h.l2, h.l3, h.l4;
    var c: word := h1 / B;
    h1 := h1 % B;
    h2 := h2 + c;
    c := h2 / B;
    h2 := h2 % B;
    h3 := h3 + c;
    c := h3 / B;
    h3 := h3 % B;
    h4 := h4 + c;
    c := h4 / B;
    h4 := h4 % B;
    ghost var top := c;
    h0 := h0 + c * 5;
    c := h0 / B;
    h0 := h0 % B;
    h1 := h1 + c;
    n := Limbs(h0, h1, h2, h3, h4);
    AddMultiple(h.Value(), n.Value(), top);
  }

  lemma AndAllOnes(x: word)
    ensures And(x, 0xffff_ffff) == x && And(x, 0) == 0
  {
    Powers();
    AndMask(x, x, 0, 32, 0x1_0000_0000);
    AndOfZero(x);
  }

  // Keep h when the mask is zero and g when it is all ones.
  function Select(h: word, g: word, mask: word): nat {
    Or(And(h, 0xffff_ffff - mask), And(g, mask))
  }

  lemma SelectEither(h: word, g: word)
    ensures Select(h, g, 0) == h && Select(h, g, 0xffff_ffff) == g
  {
    AndAllOnes(h);
    AndAllOnes(g);
    OrOfZero(h);
    OrOfZero(g);
  }

  // Add five, leaving the carry out of the fourth limb in c.
  method AddFive(h: Limbs) returns (g0: word, g1: word, g2: word, g3: word, c: word)
    requires Reduced(h)
    ensures g0 < B && g1 < B && g2 < B && g3 < B && c <= 1
    ensures Radix(g0, g1, g2, g3, h.l4 + c) == h.Value() + 5
  {
    g0 := h.l0 + 5;
    c := g0 / B;
    g0 := g0 % B;
    g1 := h.l1 + c;
    c := g1 / B;
    g1 := g1 % B;
    g2 := h.l2 + c;
    c := g2 / B;
    g2 := g2 % B;
    g3 := h.l3 + c;
    c := g3 / B;
    g3 := g3 % B;
  }

  function SelectLimbs(h: Limbs, g: Limbs, mask: word): Limbs {
    Limbs(U32(Select(h.l0, g.l0, mask)), U32(Select(h.l1, g.l1, mask)), U32(Select(h.l2, g.l2, mask)),
          U32(Select(h.l3, g.l3, mask)), U32(Select(h.l4, g.l4, mask)))
  }

  lemma SelectLimbsEither(h: Limbs, g: Limbs)
    ensures SelectLimbs(h, g, 0) == h && SelectLimbs(h, g, 0xffff_ffff) == g
  {
    hide Select;
    SelectEither(h.l0, g.l0);
    SelectEither(h.l1, g.l1);
    SelectEither(h.l2, g.l2);
    SelectEither(h.l3, g.l3);
    SelectEither(h.l4, g.l4);
  }

  // The top limb minus 2^26, and the mask made of its sign bit: all ones when there is no borrow.
  function TopLimb(h4: word, c: word): word
    requires h4 < B && c <= 1
  {
    U32(h4 + c + 0x1_0000_0000 - B)
  }

  function BorrowMask(g4: word): word {
    U32(g4 / 0x8000_0000 + 0xffff_ffff)
  }

  lemma BorrowMaskValue(h4: word, c: word)
    requires h4 < B && c <= 1
    ensures BorrowMask(TopLimb(h4, c)) == if h4 + c == B then 0xffff_ffff else 0
    ensures h4 + c == B ==> TopLimb(h4, c) == 0
  {
  }

  // Subtract the modulus once if that does not go below zero, without branching.
  method SubtractOnce(h: Limbs) returns (n: Limbs)
    requires Reduced(h)
    ensures Reduced(n) && n.Value() == h.Value() % P
  {
    hide SelectLimbs, TopLimb, BorrowMask;
    var g0, g1, g2, g3, c := AddFive(h);
    var g4 := TopLimb(h.l4, c);
    BorrowMaskValue(h.l4, c);
    var g := Limbs(g0, g1, g2, g3, g4);
    SelectLimbsEither(h, g);
    OneSubtraction(h, g0, g1, g2, g3, c);
    n := SelectLimbs(h, g, BorrowMask(g4));
  }

  // Reaching 2^130 after adding five is exactly being at least the modulus.
  lemma OneSubtraction(h: Limbs, g0: word, g1: word, g2: word, g3: word, c: word)
    requires Reduced(h) && g0 < B && g1 < B && g2 < B && g3 < B && c <= 1
    requires Radix(g0, g1, g2, g3, h.l4 + c) == h.Value() + 5
    ensures h.l4 + c <= B
    ensures h.Value() % P == (if h.l4 + c == B then Limbs(g0, g1, g2, g3, 0) else h).Value()
  {
    var v := h.Value();
    if h.l4 + c == B {
      var w := Limbs(g0, g1, g2, g3, 0).Value();
      assert v == P * 1 + w && 0 <= w < P;
      DivModUnique(v, P, 1, w);
    } else {
      assert 0 <= v < P;
      DivModUnique(v, P, 0, v);
    }
  }

  function Store128(a: word, b: word, c: word, d: word): (r: Bytes)
    ensures |r| == 16
  {
    Store32(a) + Store32(b) + Store32(c) + Store32(d)
  }

  lemma StoreLoad(a: word, b: word, c: word, d: word)
    ensures LeNat(Store128(a, b, c, d)) == Quad(a, b, c, d)
  {
    hide LeNat, Load32, Store32;
    var s := Store128(a, b, c, d);
    LeNatOf16(s);
    assert s == [] + Store32(a) + (Store32(b) + Store32(c) + Store32(d));
    Load32Store([], a, Store32(b) + Store32(c) + Store32(d));
    assert s == Store32(a) + Store32(b) + (Store32(c) + Store32(d));
    Load32Store(Store32(a), b, Store32(c) + Store32(d));
    Load32Store(Store32(a) + Store32(b), c, Store32(d));
    assert s == Store32(a) + Store32(b) + Store32(c) + Store32(d) + [];
    Load32Store(Store32(a) + Store32(b) + Store32(c), d, []);
  }

  function Quad(a: nat, b: nat, c: nat, d: nat): nat {
    a + 0x1_0000_0000 * b + 0x1_0000_0000_0000_0000 * c + 0x1_0000_0000_0000_0000_0000_0000 * d
  }

  // Low bits of a limb moved up to meet the high bits of the one before.
  lemma Meet(lo: nat, hi: nat, k: nat, shift: nat, room: nat)
    requires shift == Pow2(k) && lo < shift && U32(hi * shift) == shift * room
    ensures Or(lo, U32(hi * shift)) == lo + shift * room
  {
    OrSum(lo, room, k, shift);
  }

  // 26-bit limbs regrouped into four 32-bit words; what is above 2^128 is dropped.
  method Regroup(h: Limbs) returns (w0: word, w1: word, w2: word, w3: word)
    requires Reduced(h)
    ensures Quad(w0, w1, w2, w3) == h.Value() % 0x1_0000_0000_0000_0000_0000_0000_0000_0000
  {
    hide Or, Pow2;
    Powers();
    Meet(h.l0, h.l1, 26, B, h.l1 % 0x40);
    w0 := Or(h.l0, U32(h.l1 * B));
    Meet(h.l1 / 0x40, h.l2, 20, 0x10_0000, h.l2 % 0x1000);
    w1 := Or(h.l1 / 0x40, U32(h.l2 * 0x10_0000));
    Meet(h.l2 / 0x1000, h.l3, 14, 0x4000, h.l3 % 0x4_0000);
    w2 := Or(h.l2 / 0x1000, U32(h.l3 * 0x4000));
    Meet(h.l3 / 0x4_0000, h.l4, 8, 0x100, h.l4 % 0x100_0000);
    w3 := Or(h.l3 / 0x4_0000, U32(h.l4 * 0x100));
    RegroupLimbs(h);
  }

  lemma RegroupLimbs(h: Limbs)
    requires Reduced(h)
    ensures Quad(h.l0 + B * (h.l1 % 0x40), h.l1 / 0x40 + 0x10_0000 * (h.l2 % 0x1000),
                 h.l2 / 0x1000 + 0x4000 * (h.l3 % 0x4_0000), h.l3 / 0x4_0000 + 0x100 * (h.l4 % 0x100_0000))
         == h.Value() % 0x1_0000_0000_0000_0000_0000_0000_0000_0000
  {
    var b, b', c, c' := h.l1 % 0x40, h.l1 / 0x40, h.l2 % 0x1000, h.l2 / 0x1000;
    var d, d', e, e' := h.l3 % 0x4_0000, h.l3 / 0x4_0000, h.l4 % 0x100_0000, h.l4 / 0x100_0000;
    assert h.l1 == b + 0x40 * b';
    assert h.l2 == c + 0x1000 * c';
    assert h.l3 == d + 0x4_0000 * d';
    assert h.l4 == e + 0x100_0000 * e';
    RegroupSum(h.l0, b, b', c, c', d, d', e, e');
  }

  lemma RegroupSum(a: nat, b: nat, b': nat, c: nat, c': nat, d: nat, d': nat, e: nat, e': nat)
    requires a < B && b < 0x40 && b' < 0x10_0000 && c < 0x1000 && c' < 0x4000 && d < 0x4_0000 && d' < 0x100 && e < 0x100_0000
    ensures Quad(a + B * b, b' + 0x10_0000 * c, c' + 0x4000 * d, d' + 0x100 * e)
         == Radix(a, b + 0x40 * b', c + 0x1000 * c', d + 0x4_0000 * d', e + 0x100_0000 * e') % 0x1_0000_0000_0000_0000_0000_0000_0000_0000
  {
    DivModUnique(Radix(a, b + 0x40 * b', c + 0x1000 * c', d + 0x4_0000 * d', e + 0x100_0000 * e'),
                 0x1_0000_0000_0000_0000_0000_0000_0000_0000, e',
                 Quad(a + B * b, b' + 0x10_0000 * c, c' + 0x4000 * d, d' + 0x100 * e));
  }
}
