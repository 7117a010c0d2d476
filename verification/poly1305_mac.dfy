/** The Poly1305 authenticator of RFC 8439 section 2.5, and the incremental state that computes it. */
module Poly1305Mac {
  import opened Bits
  import opened Poly1305

  const TWO128 := 0x1_0000_0000_0000_0000_0000_0000_0000_0000

  // The message as a polynomial in r: every chunk of up to 16 bytes, with a one byte after it.
  function Polynomial(acc: nat, r: nat, msg: Bytes): nat
    decreases |msg|
  {
    if msg == [] then acc
    else
      var n := if |msg| < 16 then |msg| else 16;
      Polynomial((acc + LeNat(msg[..n] + [1])) * r % P, r, msg[n..])
  }

  function TagNumber(key: Bytes, msg: Bytes): nat
    requires |key| == 32
  {
    (Polynomial(0, And(LeNat(key[..16]), CLAMP), msg) + LeNat(key[16..])) % TWO128
  }

  lemma {:induction false} PolynomialConcat(acc: nat, r: nat, a: Bytes, b: Bytes)
    requires |a| % 16 == 0
    ensures Polynomial(acc, r, a + b) == Polynomial(Polynomial(acc, r, a), r, b)
    decreases |a|
  {
    if a == [] {
      assert a + b == b;
    } else {
      assert (a + b)[..16] == a[..16] && (a + b)[16..] == a[16..] + b;
      PolynomialConcat((acc + LeNat(a[..16] + [1])) * r % P, r, a[16..], b);
    }
  }

  lemma {:induction false} LeNatZeros(a: Bytes, z: Bytes)
    requires forall i :: 0 <= i < |z| ==> z[i] == 0
    ensures LeNat(a + z) == LeNat(a)
    decreases |a|, |z|
  {
    if a != [] {
      assert (a + z)[1..] == a[1..] + z;
      LeNatZeros(a[1..], z);
    } else if z != [] {
      assert a + z == z;
      LeNatZeros([], z[1..]);
      assert [] + z[1..] == z[1..];
    }
  }

  // A full block with the marker byte after it is the block with bit 128 set.
  lemma MarkedBlock(m: Bytes)
    requires |m| == 16
    ensures LeNat(m + [1]) == BlockNumber(m, 1)
  {
    hide LeNat;
    LeNatMarked(m, 0);
    assert m[0..] == m;
    Powers();
    Pow2Sum(32, 32);
    Pow2Sum(64, 64);
  }

  lemma {:induction false} LeNatMarked(m: Bytes, i: nat)
    requires i <= |m| == 16
    ensures LeNat(m[i..] + [1]) == LeNat(m[i..]) + Pow2(8 * (16 - i))
    decreases 16 - i
  {
    if i == 16 {
      assert [1][1..] == [];
      assert m[i..] + [1] == [1] && m[i..] == [];
    } else {
      LeNatMarked(m, i + 1);
      LeNatStep(m, i);
      var t := m[i..] + [1];
      assert t[1..] == m[i + 1..] + [1] && t[0] == m[i];
      Pow2Byte(8 * (15 - i));
    }
  }

  lemma Pow2Byte(k: nat)
    ensures Pow2(k + 8) == 0x100 * Pow2(k)
  {
    assert Pow2(k + 4) == 0x10 * Pow2(k) by {
      assert Pow2(k + 2) == 4 * Pow2(k);
    }
    assert Pow2(k + 6) == 4 * Pow2(k + 4);
  }

  // Whole blocks of a string, absorbed with the same end bit.
  function Absorb(acc: nat, r: nat, m: Bytes, hibit: nat): nat
    decreases |m|
  {
    if |m| < 16 then acc else Absorb((acc + BlockNumber(m[..16], hibit)) * r % P, r, m[16..], hibit)
  }

  lemma {:induction false} AbsorbIsPolynomial(acc: nat, r: nat, m: Bytes)
    requires |m| % 16 == 0
    ensures Absorb(acc, r, m, 1) == Polynomial(acc, r, m)
    decreases |m|
  {
    if m != [] {
      MarkedBlock(m[..16]);
      AbsorbIsPolynomial((acc + BlockNumber(m[..16], 1)) * r % P, r, m[16..]);
    }
  }

  lemma AbsorbOne(acc: nat, r: nat, m: Bytes, hibit: nat)
    requires |m| == 16
    ensures Absorb(acc, r, m, hibit) == (acc + BlockNumber(m, hibit)) * r % P
  {
    assert m[..16] == m && m[16..] == [];
  }

  // Reducing before multiplying makes no difference.
  lemma ModTimes(x: nat, y: nat, r: nat)
    ensures (x % P + y) * r % P == (x + y) * r % P
  {
    var q := x / P;
    assert (x + y) * r == (x % P + y) * r + P * (q * r) by {
      assert x == P * q + x % P;
      assert (P * q) * r == P * (q * r);
      assert (x + y) * r == (x % P + y) * r + (P * q) * r;
    }
    AddMultiple((x + y) * r, (x % P + y) * r, q * r);
  }

  class Context {
    var h: Limbs
    var r: Limbs
    var pad: seq<word>

    ghost predicate Valid() reads this {
      Settled(h) && Clamped(r) && |pad| == 4
    }

    // The polynomial so far.
    ghost function Acc(): nat reads this {
      h.Value() % P
    }

    // The tag if the message ended here.
    ghost function Sum(): nat
      reads this
      requires Valid()
    {
      (Acc() + Quad(pad[0], pad[1], pad[2], pad[3])) % TWO128
    }

    constructor (key: Bytes)
      requires |key| == 32
      ensures Valid() && Acc() == 0
      ensures r.Value() == And(LeNat(key[..16]), CLAMP)
      ensures Quad(pad[0], pad[1], pad[2], pad[3]) == LeNat(key[16..])
    {
      hide ClampLimbs, LeNat;
      h := Limbs(0, 0, 0, 0, 0);
      r := ClampLimbs(key[..16]);
      var p := key[16..];
      pad := [Load32(p, 0), Load32(p, 4), Load32(p, 8), Load32(p, 12)];
      ClampLimbsValue(key[..16]);
      LeNatOf16(p);
    }

    method Blocks(m: Bytes, hibit: nat)
      requires Valid() && hibit <= 1
      modifies this`h
      ensures Valid() && Acc() == Absorb(old(Acc()), r.Value(), m, hibit)
    {
      hide BlockNumber, Settled, Clamped;
      var i := 0;
      ghost var goal := Absorb(Acc(), r.Value(), m, hibit);
      assert m[0..] == m;
      while |m| - i >= 16
        invariant i <= |m| && Valid()
        invariant Absorb(Acc(), r.Value(), m[i..], hibit) == goal
      {
        ghost var x := h.Value();
        assert m[i..][..16] == m[i..i + 16] && m[i..][16..] == m[i + 16..];
        h := Block(h, r, m[i..i + 16], hibit);
        ModTimes(x, BlockNumber(m[i..i + 16], hibit), r.Value());
        i := i + 16;
      }
    }

    method Finish() returns (tag: Bytes)
      requires Valid()
      ensures |tag| == 16 && LeNat(tag) == Sum()
    {
      hide LeNat, Store128, Quad, Settled, Clamped, Reduced;
      var n := CarryAll(h);
      n := SubtractOnce(n);
      var w0, w1, w2, w3 := Regroup(n);
      var r0, r1, r2, r3 := AddPad(w0, w1, w2, w3, pad[0], pad[1], pad[2], pad[3]);
      tag := Store128(r0, r1, r2, r3);
      StoreLoad(r0, r1, r2, r3);
      SumMod(n.Value(), Quad(pad[0], pad[1], pad[2], pad[3]));
    }
  }

  lemma SumMod(x: nat, y: nat)
    ensures (x % TWO128 + y) % TWO128 == (x + y) % TWO128
  {
  }

  // Four words added with carry.
  method AddPad(a0: word, a1: word, a2: word, a3: word, b0: word, b1: word, b2: word, b3: word)
    returns (r0: word, r1: word, r2: word, r3: word)
    ensures Quad(r0, r1, r2, r3) == (Quad(a0, a1, a2, a3) + Quad(b0, b1, b2, b3)) % TWO128
  {
    var f: dword := a0 as int + b0;
    r0 := U32(f);
    ghost var c0 := f / 0x1_0000_0000;
    assert a0 as int + b0 == r0 + 0x1_0000_0000 * c0;
    f := a1 as int + b1 + f / 0x1_0000_0000;
    r1 := U32(f);
    ghost var c1 := f / 0x1_0000_0000;
    assert a1 as int + b1 + c0 == r1 + 0x1_0000_0000 * c1;
    f := a2 as int + b2 + f / 0x1_0000_0000;
    r2 := U32(f);
    ghost var c2 := f / 0x1_0000_0000;
    assert a2 as int + b2 + c1 == r2 + 0x1_0000_0000 * c2;
    f := a3 as int + b3 + f / 0x1_0000_0000;
    r3 := U32(f);
    ghost var c3 := f / 0x1_0000_0000;
    assert a3 as int + b3 + c2 == r3 + 0x1_0000_0000 * c3;
    CarryOut(Quad(a0, a1, a2, a3) + Quad(b0, b1, b2, b3), c3, r0, r1, r2, r3);
  }

  lemma CarryOut(sum: nat, c: nat, r0: word, r1: word, r2: word, r3: word)
    requires sum == Quad(r0, r1, r2, r3) + TWO128 * c
    ensures Quad(r0, r1, r2, r3) == sum % TWO128
  {
    DivModUnique(sum, TWO128, c, Quad(r0, r1, r2, r3));
  }

  lemma NoTail(acc: nat, r: nat, m: Bytes)
    requires m == []
    ensures Polynomial(acc, r, m) == acc
  {
  }

  // The last, incomplete chunk.
  lemma PolynomialTail(acc: nat, r: nat, m: Bytes)
    requires 0 < |m| < 16
    ensures Polynomial(acc, r, m) == (acc + LeNat(m + [1])) * r % P
  {
    assert m[..|m|] == m && m[|m|..] == [];
  }

  // An incomplete chunk is marked and filled up with zeros instead of carrying the end bit.
  method LastChunk(ctx: Context, m: Bytes)
    requires ctx.Valid() && 0 < |m| < 16
    modifies ctx`h
    ensures ctx.Valid() && ctx.Acc() == Polynomial(old(ctx.Acc()), ctx.r.Value(), m)
  {
    hide LeNat, Absorb, Polynomial, Settled, Clamped;
    ghost var acc := ctx.Acc();
    var zeros := seq(15 - |m|, _ => 0);
    ctx.Blocks(m + [1] + zeros, 0);
    AbsorbOne(acc, ctx.r.Value(), m + [1] + zeros, 0);
    LeNatZeros(m + [1], zeros);
    PolynomialTail(acc, ctx.r.Value(), m);
  }

  // The whole message at once.
  method Mac(msg: Bytes, key: Bytes) returns (tag: Bytes)
    requires |key| == 32
    ensures |tag| == 16 && LeNat(tag) == TagNumber(key, msg)
  {
    hide LeNat, And, Absorb, Polynomial, Quad, Settled, Clamped, Limbs.Value, Context.Acc;
    var ctx := new Context(key);
    var n := |msg| - |msg| % 16;
    ctx.Blocks(msg[..n], 1);
    AbsorbIsPolynomial(0, ctx.r.Value(), msg[..n]);
    PolynomialConcat(0, ctx.r.Value(), msg[..n], msg[n..]);
    assert msg[..n] + msg[n..] == msg;
    if n < |msg| {
      LastChunk(ctx, msg[n..]);
    } else {
      NoTail(ctx.Acc(), ctx.r.Value(), msg[n..]);
    }
    tag := ctx.Finish();
  }
}
