/** The quarter round on the test vector of RFC 8439 section 2.1.1.
 */
module ChaChaVector {
  import opened BitBytes
  import opened Bits
  import opened ChaCha20

  // The exclusive or of two words, a byte at a time.
  lemma XorOf(p: Quad, q: Quad, r: Quad, x: word, y: word, z: word)
    requires r == p.Plus(q) && x as int == p.Value() && y as int == q.Value() && z as int == r.Value()
    ensures Xor32(x, y) == z
  {
    hide Xor, Quad.Value, Quad.Plus;
    QuadPlus(p, q);
  }

  // A rotation by k bits: what leaves at the top comes in at the bottom.
  lemma RotlOf(x: word, k: nat, p: nat, q: nat, z: word)
    requires p == Pow2(k) && q > 0 && p * q == 0x1_0000_0000 && z as int == x / q + p * (x % q)
    ensures Rotl(x, p, q) == z
  {
    hide Rotl, Pow2;
    assert x == x % q + q * (x / q);
    TopBelow(x, p, q);
    RotlParts(x % q, x / q, k, p, q);
  }

  lemma TopBelow(x: word, p: nat, q: nat)
    requires q > 0 && p * q == 0x1_0000_0000
    ensures x / q < p
  {
    assert q * p == p * q && x == x % q + q * (x / q);
    if x / q >= p {
      MulMono(q, p, x / q);
    }
  }

  lemma Powers()
    ensures Pow2(16) == 0x1_0000 && Pow2(12) == 0x1000 && Pow2(8) == 0x100 && Pow2(7) == 0x80
  {
    assert Pow2(8) == 0x100;
    Pow2Sum(8, 8);
  }

  // First half.
  lemma FirstHalf()
    ensures Quarter(0x11111111, 0x01020304, 0x9b8d6f43, 0x01234567).First()
      == Quarter(0x12131415, 0xd8177edf, 0xecff8273, 0x51721330)
  {
    hide Xor32, Rotl, Xor, Pow2, Quad.Value;
    Powers();
    Word0();
    RotlOf(0x13305172, 16, 0x10000, 0x10000, 0x51721330);
    Word1();
    RotlOf(0xedfd8177, 12, 0x1000, 0x100000, 0xd8177edf);
  }

  // Second half.
  lemma SecondHalf()
    ensures Quarter(0x12131415, 0xd8177edf, 0xecff8273, 0x51721330).Second()
      == Quarter(0xea2a92f4, 0xcb1cf8ce, 0x4581472e, 0x5881c4bb)
  {
    hide Xor32, Rotl, Xor, Pow2, Quad.Value;
    Powers();
    Word2();
    RotlOf(0xbb5881c4, 8, 0x100, 0x1000000, 0x5881c4bb);
    Word3();
    RotlOf(0x9d9639f1, 7, 0x80, 0x2000000, 0xcb1cf8ce);
  }

  lemma Word0()
    ensures Xor32(0x01234567, 0x12131415) == 0x13305172
  {
    hide Xor32, Xor;
    XorOf(Quad(0x67, 0x45, 0x23, 0x01), Quad(0x15, 0x14, 0x13, 0x12), Quad(0x72, 0x51, 0x30, 0x13),
          0x01234567, 0x12131415, 0x13305172);
  }

  lemma Word1()
    ensures Xor32(0x01020304, 0xecff8273) == 0xedfd8177
  {
    hide Xor32, Xor;
    XorOf(Quad(0x04, 0x03, 0x02, 0x01), Quad(0x73, 0x82, 0xff, 0xec), Quad(0x77, 0x81, 0xfd, 0xed),
          0x01020304, 0xecff8273, 0xedfd8177);
  }

  lemma Word2()
    ensures Xor32(0x51721330, 0xea2a92f4) == 0xbb5881c4
  {
    hide Xor32, Xor;
    XorOf(Quad(0x30, 0x13, 0x72, 0x51), Quad(0xf4, 0x92, 0x2a, 0xea), Quad(0xc4, 0x81, 0x58, 0xbb),
          0x51721330, 0xea2a92f4, 0xbb5881c4);
  }

  lemma Word3()
    ensures Xor32(0xd8177edf, 0x4581472e) == 0x9d9639f1
  {
    hide Xor32, Xor;
    XorOf(Quad(0xdf, 0x7e, 0x17, 0xd8), Quad(0x2e, 0x47, 0x81, 0x45), Quad(0xf1, 0x39, 0x96, 0x9d),
          0xd8177edf, 0x4581472e, 0x9d9639f1);
  }

  // The test vector.
  lemma QuarterVector()
    ensures Quarter(0x11111111, 0x01020304, 0x9b8d6f43, 0x01234567).Round()
      == Quarter(0xea2a92f4, 0xcb1cf8ce, 0x4581472e, 0x5881c4bb)
  {
    hide Quarter.First, Quarter.Second;
    FirstHalf();
    SecondHalf();
  }
}
