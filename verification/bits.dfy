/** Machine bytes and words as bounded integers, with C's bitwise operators on naturals.

    The operators are defined bit by bit. The lemmas say what they mean when the masks and
    shifts are those of the firmware: a low mask is a remainder, an OR of disjoint ranges is a
    sum, and every operator works on high and low parts separately.
 */
module Bits {

  type byte = b: int | 0 <= b < 0x100
  type half = h: int | 0 <= h < 0x1_0000
  type word = w: int | 0 <= w < 0x1_0000_0000
  type Bytes = seq<byte>

  function And(x: nat, y: nat): nat {
    if x == 0 then 0 else (x % 2) * (y % 2) + 2 * And(x / 2, y / 2)
  }

  function Or(x: nat, y: nat): nat
    decreases x + y
  {
    if x == 0 && y == 0 then 0
    else (if x % 2 == 0 && y % 2 == 0 then 0 else 1) + 2 * Or(x / 2, y / 2)
  }

  function Xor(x: nat, y: nat): nat
    decreases x + y
  {
    if x == 0 && y == 0 then 0
    else (if x % 2 == y % 2 then 0 else 1) + 2 * Xor(x / 2, y / 2)
  }

  function Pow2(k: nat): (p: nat)
    ensures p >= 1
  {
    if k == 0 then 1 else 2 * Pow2(k - 1)
  }

  lemma DivModUnique(x: int, d: int, q: int, r: int)
    requires d > 0 && 0 <= r < d && x == d * q + r
    ensures x / d == q && x % d == r
  {
    var q', r' := x / d, x % d;
    assert d * (q - q') == r' - r;
    if q > q' {
      assert d * (q - q') >= d by { MulMono(d, 1, q - q'); }
    } else if q < q' {
      assert d * (q' - q) >= d by { MulMono(d, 1, q' - q); }
    }
  }

  lemma MulMono(a: int, b: int, c: int)
    requires 0 <= a && b <= c
    ensures a * b <= a * c
  {
  }

  // The low bit and the rest of a number whose low k bits are l and whose high part is h.
  lemma Halves(l: nat, h: nat, k: nat)
    requires k > 0
    ensures (l + Pow2(k) * h) % 2 == l % 2
    ensures (l + Pow2(k) * h) / 2 == l / 2 + Pow2(k - 1) * h
  {
    var t := Pow2(k - 1) * h;
    assert Pow2(k) * h == 2 * t by { assert (2 * Pow2(k - 1)) * h == 2 * (Pow2(k - 1) * h); }
  }

  lemma {:induction false} AndParts(xl: nat, xh: nat, yl: nat, yh: nat, k: nat)
    requires xl < Pow2(k) && yl < Pow2(k)
    ensures And(xl + Pow2(k) * xh, yl + Pow2(k) * yh) == And(xl, yl) + Pow2(k) * And(xh, yh)
  {
    if k > 0 {
      Halves(xl, xh, k);
      Halves(yl, yh, k);
      AndParts(xl / 2, xh, yl / 2, yh, k - 1);
      Halves(And(xl, yl), And(xh, yh), k);
    }
  }

  lemma {:induction false} AndOfZero(x: nat)
    ensures And(x, 0) == 0
  {
    if x != 0 {
      AndOfZero(x / 2);
    }
  }

  // A mask of k ones keeps the low k bits.
  lemma AndLowMask(l: nat, h: nat, k: nat)
    requires l < Pow2(k)
    ensures And(l + Pow2(k) * h, Pow2(k) - 1) == l
  {
    AndOnes(l, k);
    AndOfZero(h);
    AndParts(l, h, Pow2(k) - 1, 0, k);
    assert Pow2(k) * 0 == 0;
  }

  lemma {:induction false} AndOnes(x: nat, k: nat)
    requires x < Pow2(k)
    ensures And(x, Pow2(k) - 1) == x
  {
    if k > 0 {
      assert (Pow2(k) - 1) % 2 == 1 && (Pow2(k) - 1) / 2 == Pow2(k - 1) - 1;
      AndOnes(x / 2, k - 1);
    }
  }

  lemma {:induction false} AndBound(x: nat, y: nat)
    ensures And(x, y) <= x && And(x, y) <= y
  {
    if x != 0 {
      AndBound(x / 2, y / 2);
      assert (x % 2) * (y % 2) <= x % 2 && (x % 2) * (y % 2) <= y % 2;
    }
  }

  lemma {:induction false} OrOfZero(x: nat)
    ensures Or(x, 0) == x && Or(0, x) == x
  {
    if x != 0 {
      OrOfZero(x / 2);
    }
  }

  // OR-ing in a number shifted past the other one adds it.
  lemma {:induction false} OrDisjoint(l: nat, h: nat, k: nat)
    requires l < Pow2(k)
    ensures Or(l, Pow2(k) * h) == l + Pow2(k) * h
  {
    if k == 0 {
      OrOfZero(h);
    } else {
      Halves(0, h, k);
      Halves(l, h, k);
      OrDisjoint(l / 2, h, k - 1);
    }
  }

  lemma {:induction false} XorParts(xl: nat, xh: nat, yl: nat, yh: nat, k: nat)
    requires xl < Pow2(k) && yl < Pow2(k)
    ensures Xor(xl + Pow2(k) * xh, yl + Pow2(k) * yh) == Xor(xl, yl) + Pow2(k) * Xor(xh, yh)
  {
    if k > 0 {
      Halves(xl, xh, k);
      Halves(yl, yh, k);
      XorParts(xl / 2, xh, yl / 2, yh, k - 1);
      Halves(Xor(xl, yl), Xor(xh, yh), k);
    }
  }

  // XOR cancels itself, and is zero only between equal numbers.
  lemma XorHalves(x: nat, y: nat)
    ensures Xor(x, y) == (if x % 2 == y % 2 then 0 else 1) + 2 * Xor(x / 2, y / 2)
    ensures Xor(x, y) % 2 == (if x % 2 == y % 2 then 0 else 1)
    ensures Xor(x, y) / 2 == Xor(x / 2, y / 2)
  {
  }

  lemma {:induction false} XorCancels(x: nat, y: nat)
    ensures Xor(Xor(x, y), y) == x
    decreases x + y
  {
    if x != 0 || y != 0 {
      XorCancels(x / 2, y / 2);
      var z := Xor(x, y);
      XorHalves(x, y);
      XorHalves(z, y);
      hide Xor;
      assert Xor(z, y) == x % 2 + 2 * (x / 2);
    }
  }

  lemma {:induction false} XorCommutes(x: nat, y: nat)
    ensures Xor(x, y) == Xor(y, x)
    decreases x + y
  {
    if x != 0 || y != 0 {
      XorCommutes(x / 2, y / 2);
    }
  }

  lemma {:induction false} XorAssociates(x: nat, y: nat, z: nat)
    ensures Xor(Xor(x, y), z) == Xor(x, Xor(y, z))
    decreases x + y + z
  {
    if x != 0 || y != 0 || z != 0 {
      XorAssociates(x / 2, y / 2, z / 2);
      XorHalves(x, y);
      XorHalves(y, z);
      XorHalves(Xor(x, y), z);
      XorHalves(x, Xor(y, z));
    }
  }

  lemma {:induction false} XorNothing(x: nat)
    ensures Xor(x, 0) == x == Xor(0, x)
  {
    if x != 0 {
      XorNothing(x / 2);
    }
  }

  lemma {:induction false} XorZero(x: nat, y: nat)
    ensures Xor(x, y) == 0 <==> x == y
    decreases x + y
  {
    if x != 0 || y != 0 {
      XorZero(x / 2, y / 2);
    }
  }

  lemma XorSplit(xl: nat, xh: nat, yl: nat, yh: nat, k: nat, p: nat)
    requires p == Pow2(k) && xl < p && yl < p
    ensures Xor(xl + p * xh, yl + p * yh) == Xor(xl, yl) + p * Xor(xh, yh)
  {
    XorParts(xl, xh, yl, yh, k);
  }

  lemma {:induction false} XorBound(x: nat, y: nat, k: nat)
    requires x < Pow2(k) && y < Pow2(k)
    ensures Xor(x, y) < Pow2(k)
  {
    if k > 0 {
      XorBound(x / 2, y / 2, k - 1);
    }
  }

  // Little-endian value of a byte string.
  function LeNat(s: Bytes): nat {
    if s == [] then 0 else s[0] + 0x100 * LeNat(s[1..])
  }

  // Index of the lowest set bit.
  function Ctz(x: nat): (n: nat)
    requires x > 0
  {
    if x % 2 == 1 then 0 else 1 + Ctz(x / 2)
  }

  lemma {:induction false} CtzParts(l: nat, h: nat, k: nat)
    requires l < Pow2(k) && l + Pow2(k) * h > 0
    ensures l > 0 ==> Ctz(l + Pow2(k) * h) == Ctz(l) < k
    ensures l == 0 ==> h > 0 && Ctz(Pow2(k) * h) == k + Ctz(h)
  {
    if k > 0 {
      Halves(l, h, k);
      if l % 2 == 0 {
        CtzParts(l / 2, h, k - 1);
      }
    }
  }

  // XOR with the first byte split off.
  lemma XorBytes(x: byte, xs: nat, y: byte, ys: nat)
    ensures Xor(x + 0x100 * xs, y + 0x100 * ys) == Xor(x, y) + 0x100 * Xor(xs, ys)
  {
    XorSplit(x, xs, y, ys, 8, 0x100);
  }

  // The byte that holds the lowest set bit, for a word whose first byte is l.
  lemma CtzBytes(l: nat, h: nat)
    requires l < 0x100
    ensures l > 0 ==> Ctz(l + 0x100 * h) < 8
    ensures l == 0 && h > 0 ==> Ctz(0x100 * h) == 8 + Ctz(h)
  {
    if l + 0x100 * h > 0 {
      var p := Pow2(8);
      assert p == 0x100;
      assert p * h == 0x100 * h;
      CtzParts(l, h, 8);
    }
  }

  lemma XorStep(x: byte, xs: nat, y: byte, ys: nat)
    ensures var z := Xor(x + 0x100 * xs, y + 0x100 * ys);
            && (z == 0 <==> x == y && Xor(xs, ys) == 0)
            && (x != y ==> Ctz(z) / 8 == 0)
            && (x == y && Xor(xs, ys) > 0 ==> Ctz(z) / 8 == 1 + Ctz(Xor(xs, ys)) / 8)
  {
    XorBytes(x, xs, y, ys);
    XorZero(x, y);
    XorBound(x, y, 8);
    CtzBytes(Xor(x, y), Xor(xs, ys));
  }

  // d is the first index at which two strings of the same length differ.
  ghost predicate FirstDiffers(a: Bytes, b: Bytes, d: nat) {
    d < |a| == |b| && a[..d] == b[..d] && a[d] != b[d]
  }

  lemma FirstDiffersTail(a: Bytes, b: Bytes, d: nat)
    requires a != [] && b != [] && a[0] == b[0] && FirstDiffers(a[1..], b[1..], d)
    ensures FirstDiffers(a, b, d + 1)
  {
    assert a[..1 + d] == [a[0]] + a[1..][..d] && b[..1 + d] == [b[0]] + b[1..][..d];
  }

  // XOR of two words is zero exactly when their bytes agree; otherwise its lowest set bit lies in
  // the first byte where they differ.
  lemma {:induction false} FirstDifference(a: Bytes, b: Bytes)
    requires |a| == |b|
    ensures Xor(LeNat(a), LeNat(b)) == 0 <==> a == b
    ensures a != b ==> FirstDiffers(a, b, Ctz(Xor(LeNat(a), LeNat(b))) / 8)
  {
    if a != [] {
      var a', b' := a[1..], b[1..];
      XorStep(a[0], LeNat(a'), b[0], LeNat(b'));
      FirstDifference(a', b');
      assert a == [a[0]] + a' && b == [b[0]] + b';
      if a[0] == b[0] && a' != b' {
        FirstDiffersTail(a, b, Ctz(Xor(LeNat(a'), LeNat(b'))) / 8);
      }
    }
  }

  // The cast to uint32_t.
  function U32(x: nat): word {
    x % 0x1_0000_0000
  }

  // Splitting at a power of two given by its value.
  lemma OrSum(l: nat, h: nat, k: nat, p: nat)
    requires p == Pow2(k) && l < p
    ensures Or(l, p * h) == l + p * h
  {
    OrDisjoint(l, h, k);
  }

  lemma AndSplit(xl: nat, xh: nat, yl: nat, yh: nat, k: nat, p: nat)
    requires p == Pow2(k) && xl < p && yl < p
    ensures And(xl + p * xh, yl + p * yh) == And(xl, yl) + p * And(xh, yh)
  {
    AndParts(xl, xh, yl, yh, k);
  }

  // A mask of k ones keeps the low part.
  lemma AndMask(x: nat, l: nat, h: nat, k: nat, p: nat)
    requires p == Pow2(k) && l < p && x == l + p * h
    ensures And(x, p - 1) == l
  {
    AndLowMask(l, h, k);
  }

  lemma Twice(x: nat, y: nat)
    ensures (2 * x) * y == 2 * (x * y)
  {
  }

  lemma {:induction false} Pow2Sum(a: nat, b: nat)
    ensures Pow2(a + b) == Pow2(a) * Pow2(b)
  {
    if a > 0 {
      Pow2Sum(a - 1, b);
      Twice(Pow2(a - 1), Pow2(b));
    }
  }

  // Little-endian 16-bit halves in a byte string.
  function Load16(s: Bytes, i: nat): (h: half)
    requires i + 2 <= |s|
  {
    var lo: int, hi: int := s[i], s[i + 1];
    lo + 0x100 * hi
  }

  function Store16(h: half): (r: Bytes)
    ensures |r| == 2
  {
    [h % 0x100, h / 0x100]
  }

  lemma Load16Store(pre: Bytes, h: half, post: Bytes)
    ensures Load16(pre + Store16(h) + post, |pre|) == h
  {
    var m := pre + Store16(h) + post;
    assert m[|pre|] == Store16(h)[0] && m[|pre| + 1] == Store16(h)[1];
  }

  // Little-endian 32-bit words in a byte string.
  function Load32(m: Bytes, i: nat): (w: word)
    requires i + 4 <= |m|
  {
    var a: int, b: int, c: int, d: int := m[i], m[i + 1], m[i + 2], m[i + 3];
    a + 0x100 * b + 0x1_0000 * c + 0x100_0000 * d
  }

  lemma LeNatStep(m: Bytes, i: nat)
    requires i < |m|
    ensures LeNat(m[i..]) == m[i] + 0x100 * LeNat(m[i + 1..])
  {
    assert m[i..][1..] == m[i + 1..];
  }

  lemma LeNatOf4(m: Bytes, i: nat)
    requires i + 4 <= |m|
    ensures LeNat(m[i..]) == Load32(m, i) + 0x1_0000_0000 * LeNat(m[i + 4..])
  {
    hide LeNat;
    LeNatStep(m, i);
    LeNatStep(m, i + 1);
    LeNatStep(m, i + 2);
    LeNatStep(m, i + 3);
  }

  // Both are little-endian.
  lemma LoadsNumber(s: Bytes, i: nat)
    ensures i + 2 <= |s| ==> Load16(s, i) as int == LeNat(s[i..i + 2])
    ensures i + 4 <= |s| ==> Load32(s, i) as int == LeNat(s[i..i + 4])
  {
    if i + 2 <= |s| {
      TwoBytes(s[i..i + 2]);
    }
    if i + 4 <= |s| {
      var t := s[i..i + 4];
      TwoBytes(t[2..]);
      assert t[1..][1..] == t[2..];
      assert LeNat(t) == t[0] + 0x100 * (t[1] + 0x100 * LeNat(t[2..]));
    }
  }

  lemma TwoBytes(t: Bytes)
    requires |t| == 2
    ensures LeNat(t) == t[0] + 0x100 * (t[1] as int)
  {
    assert t[1..][1..] == [];
    assert LeNat(t[1..]) == t[1] + 0x100 * LeNat([]);
  }

  function Store32(w: word): (r: Bytes)
    ensures |r| == 4
  {
    [w % 0x100, w / 0x100 % 0x100, w / 0x1_0000 % 0x100, w / 0x100_0000]
  }

  lemma Load32Store(pre: Bytes, w: word, post: Bytes)
    ensures Load32(pre + Store32(w) + post, |pre|) == w
  {
    var m := pre + Store32(w) + post;
    assert m[|pre|] == Store32(w)[0] && m[|pre| + 1] == Store32(w)[1];
    assert m[|pre| + 2] == Store32(w)[2] && m[|pre| + 3] == Store32(w)[3];
    assert w / 0x100 == w / 0x100 % 0x100 + 0x100 * (w / 0x1_0000);
    assert w / 0x1_0000 == w / 0x1_0000 % 0x100 + 0x100 * (w / 0x100_0000);
  }

  // Bit k of x.
  predicate Bit(x: nat, k: nat) {
    if k == 0 then x % 2 == 1 else Bit(x / 2, k - 1)
  }

  lemma {:induction false} ZeroBit(k: nat)
    ensures !Bit(0, k)
  {
    if k > 0 {
      ZeroBit(k - 1);
    }
  }

  lemma {:induction false} AndBit(x: nat, y: nat, k: nat)
    ensures Bit(And(x, y), k) == (Bit(x, k) && Bit(y, k))
  {
    if x == 0 {
      ZeroBit(k);
    } else {
      var t := And(x / 2, y / 2);
      assert And(x, y) / 2 == t && And(x, y) % 2 == (x % 2) * (y % 2);
      if k > 0 {
        AndBit(x / 2, y / 2, k - 1);
      }
    }
  }

  lemma {:induction false} OrBit(x: nat, y: nat, k: nat)
    ensures Bit(Or(x, y), k) == (Bit(x, k) || Bit(y, k))
    decreases x + y
  {
    if x == 0 && y == 0 {
      ZeroBit(k);
    } else if k > 0 {
      assert Or(x, y) / 2 == Or(x / 2, y / 2);
      OrBit(x / 2, y / 2, k - 1);
    }
  }

  lemma {:induction false} Pow2Bit(k: nat, j: nat)
    ensures Bit(Pow2(k), j) == (j == k)
  {
    if k == 0 {
      if j > 0 {
        ZeroBit(j - 1);
      }
    } else {
      assert Pow2(k) / 2 == Pow2(k - 1) && Pow2(k) % 2 == 0;
      if j > 0 {
        Pow2Bit(k - 1, j - 1);
      }
    }
  }

  // The complement of m within n bits has the other bits.
  lemma {:induction false} ComplementBit(n: nat, m: nat, j: nat)
    requires m < Pow2(n) && j < n
    ensures Bit(Pow2(n) - 1 - m, j) == !Bit(m, j)
  {
    assert (Pow2(n) - 1 - m) / 2 == Pow2(n - 1) - 1 - m / 2;
    if j > 0 {
      ComplementBit(n - 1, m / 2, j - 1);
    }
  }

  // Testing a mask of one bit against zero reads that bit.
  lemma {:induction false} MaskTest(x: nat, k: nat)
    ensures And(x, Pow2(k)) == 0 <==> !Bit(x, k)
  {
    if And(x, Pow2(k)) == 0 {
      ZeroBit(k);
      AndBit(x, Pow2(k), k);
      Pow2Bit(k, k);
    } else {
      SomeBit(And(x, Pow2(k)), x, k);
    }
  }

  lemma {:induction false} SomeBit(a: nat, x: nat, k: nat)
    requires a == And(x, Pow2(k)) && a != 0
    ensures Bit(x, k)
    decreases k
  {
    if k == 0 {
      AndOfZero(x / 2);
      assert a == (x % 2) * 1 + 2 * And(x / 2, 0);
    } else {
      assert Pow2(k) % 2 == 0 && Pow2(k) / 2 == Pow2(k - 1);
      assert a == 2 * And(x / 2, Pow2(k - 1));
      SomeBit(And(x / 2, Pow2(k - 1)), x / 2, k - 1);
    }
  }
}
