/** Bytes as bit vectors, on which the verifier computes with literal values.
 */
module BitBytes {
  import opened Bits

  function Number(x: bv8): (n: byte) {
    x as int
  }

  lemma SplitAt(x: nat, p: nat)
    requires p > 0
    ensures x == x % p + p * (x / p) && x % p < p
  {
  }

  lemma ByteHalf(x: bv8)
    ensures Number(x >> 1) as int == Number(x) / 2 && (x & 1 == 1 <==> Number(x) % 2 == 1)
    ensures Number(x) as int == 0 ==> x == 0
  {
  }

  lemma {:induction false} BytePlus(x: bv8, y: bv8)
    ensures Number(x ^ y) as int == Xor(Number(x), Number(y))
    decreases Number(x) + Number(y)
  {
    hide *;
    ByteHalf(x);
    ByteHalf(y);
    ByteHalf(x ^ y);
    LowBits(x, y);
    if Number(x) != 0 || Number(y) != 0 {
      BytePlus(x >> 1, y >> 1);
      XorHalves(Number(x), Number(y));
      SplitAt(Number(x ^ y), 2);
    } else {
      BothZero(x, y);
    }
  }

  lemma BothZero(x: bv8, y: bv8)
    requires x == 0 && y == 0
    ensures Number(x ^ y) as int == Xor(Number(x), Number(y)) == 0
  {
  }

  lemma LowBits(x: bv8, y: bv8)
    ensures (x ^ y) & 1 == 1 <==> (x & 1 == 1) != (y & 1 == 1)
    ensures (x ^ y) >> 1 == (x >> 1) ^ (y >> 1)
  {
  }

  // The bytes of the text "123456789".
  lemma CheckDigits(s: Bytes)
    requires s == [0x31, 0x32, 0x33, 0x34, 0x35, 0x36, 0x37, 0x38, 0x39]
    ensures |s| == 9 && s[0] == Number(0x31) && s[1] == Number(0x32) && s[2] == Number(0x33)
    ensures s[3] == Number(0x34) && s[4] == Number(0x35) && s[5] == Number(0x36)
    ensures s[6] == Number(0x37) && s[7] == Number(0x38) && s[8] == Number(0x39)
  {
  }

  // A word as four bytes, lowest first.
  datatype Quad = Quad(a: bv8, b: bv8, c: bv8, d: bv8) {
    function Value(): nat {
      Number(a) + 0x100 * (Number(b) + 0x100 * (Number(c) + 0x100 * Number(d)))
    }

    function Plus(q: Quad): Quad {
      Quad(a ^ q.a, b ^ q.b, c ^ q.c, d ^ q.d)
    }
  }

  lemma QuadValue(q: Quad)
    ensures q.Value() == Number(q.a) + 0x100 * (Number(q.b) + 0x100 * (Number(q.c) + 0x100 * Number(q.d)))
  {
  }

  lemma QuadSum(p: Quad, q: Quad)
    ensures p.Plus(q) == Quad(p.a ^ q.a, p.b ^ q.b, p.c ^ q.c, p.d ^ q.d)
  {
  }

  lemma XorWord(a: byte, b: byte, c: byte, d: byte, a': byte, b': byte, c': byte, d': byte)
    ensures Xor(a + 0x100 * (b + 0x100 * (c + 0x100 * d)), a' + 0x100 * (b' + 0x100 * (c' + 0x100 * d')))
      == Xor(a, a') + 0x100 * (Xor(b, b') + 0x100 * (Xor(c, c') + 0x100 * Xor(d, d')))
  {
    hide Xor, Pow2;
    assert 0x100 == Pow2(8) by { ByteRange(); }
    XorSplit(c, d, c', d', 8, 0x100);
    XorSplit(b, c + 0x100 * d, b', c' + 0x100 * d', 8, 0x100);
    XorSplit(a, b + 0x100 * (c + 0x100 * d), a', b' + 0x100 * (c' + 0x100 * d'), 8, 0x100);
  }

  lemma QuadPlus(p: Quad, q: Quad)
    ensures p.Plus(q).Value() == Xor(p.Value(), q.Value())
  {
    hide *;
    QuadValue(p);
    QuadValue(q);
    QuadValue(Quad(p.a ^ q.a, p.b ^ q.b, p.c ^ q.c, p.d ^ q.d));
    QuadSum(p, q);
    BytePlus(p.a, q.a);
    BytePlus(p.b, q.b);
    BytePlus(p.c, q.c);
    BytePlus(p.d, q.d);
    XorWord(Number(p.a), Number(p.b), Number(p.c), Number(p.d), Number(q.a), Number(q.b), Number(q.c), Number(q.d));
  }

  lemma ByteRange()
    ensures Pow2(8) == 0x100
  {
  }
}
