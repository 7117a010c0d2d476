/** ChaCha20 encryption and the ChaCha20-Poly1305 construction of RFC 8439 section 2.8. */
module Aead {
  import opened Bits
  import opened ChaCha20
  import Poly1305
  import opened Poly1305Mac

  // Byte i of the key stream that starts at some block counter.
  function KeyByte(key: Bytes, counter: word, nonce: Bytes, i: nat): byte
    requires |key| == 32 && |nonce| == 12
  {
    var w := KeyBlock(key, Add32(counter, i / 64), nonce)[i % 64 / 4];
    Store32(w)[i % 4]
  }

  function Stream(key: Bytes, counter: word, nonce: Bytes, input: Bytes): (r: Bytes)
    requires |key| == 32 && |nonce| == 12
    ensures |r| == |input|
  {
    seq(|input|, i requires 0 <= i < |input| => XorByte(input[i], KeyByte(key, counter, nonce, i)))
  }

  // The same operation decrypts.
  lemma StreamTwice(key: Bytes, counter: word, nonce: Bytes, input: Bytes)
    requires |key| == 32 && |nonce| == 12
    ensures Stream(key, counter, nonce, Stream(key, counter, nonce, input)) == input
  {
    hide KeyByte, XorByte;
    var once := Stream(key, counter, nonce, input);
    var twice := Stream(key, counter, nonce, once);
    forall i | 0 <= i < |input| ensures twice[i] == input[i] {
      XorByteCancels(input[i], KeyByte(key, counter, nonce, i));
    }
  }

  lemma StreamAt(key: Bytes, counter: word, nonce: Bytes, input: Bytes, n: nat, i: nat)
    requires |key| == 32 && |nonce| == 12 && i < 64 && 64 * n + i < |input|
    ensures Stream(key, counter, nonce, input)[64 * n + i]
      == XorByte(input[64 * n + i], Store32(KeyBlock(key, Add32(counter, n), nonce)[i / 4])[i % 4])
  {
    hide XorByte, Store32, KeyBlock, Add32;
    DivModUnique(64 * n + i, 64, n, i);
    DivModUnique(64 * n + i, 4, 16 * n + i / 4, i % 4);
  }

  // The loop below steps a 32-bit offset by 64 until it reaches the length: that happens if and only if
  // the length is not within the last 63 below 4 GB.
  lemma OffsetArrives(n: word)
    ensures (exists k: nat :: Offset(k) >= n) <==> n <= 0xffff_ffc0
  {
    assert Offset(0x3ff_ffff) == 0xffff_ffc0;
    forall k: nat
      ensures Offset(k) <= 0xffff_ffc0
    {
      DivModUnique(64 * k, 64, k, 0);
    }
  }

  function Offset(k: nat): (off: word) {
    64 * k % 0x1_0000_0000
  }

  method Encrypt(out: array<byte>, input: Bytes, key: Bytes, counter: word, nonce: Bytes)
    requires |key| == 32 && |nonce| == 12 && |input| <= out.Length && |input| <= 0xffff_ffc0
    modifies out
    ensures out[..|input|] == Stream(key, counter, nonce, input) && out[|input|..] == old(out[|input|..])
  {
    hide KeyBlock, XorByte, Stream, Add32, Store32;
    var block := new word[16];
    ghost var goal := Stream(key, counter, nonce, input);
    var off, n := 0, 0;
    while off < |input|
      invariant off == 64 * n && n <= 0x400_0000
      invariant off < |input| + 64
      invariant forall j :: 0 <= j < off && j < |input| ==> out[j] == goal[j]
      invariant out[|input|..] == old(out[|input|..])
      decreases |input| - off
    {
      BlockInPlace(block, key, Add32(counter, n), nonce);
      var chunk := |input| - off;
      if chunk > 64 {
        chunk := 64;
      }
      for i := 0 to chunk
        invariant block[..] == KeyBlock(key, Add32(counter, n), nonce)
        invariant forall j :: 0 <= j < off + i ==> out[j] == goal[j]
        invariant out[|input|..] == old(out[|input|..])
      {
        assert block[..][i / 4] == block[i / 4];
        StreamAt(key, counter, nonce, input, n, i);
        out[off + i] := XorByte(input[off + i], Store32(block[i / 4])[i % 4]);
      }
      off, n := off + 64, n + 1;
    }
  }

  // Zeros that fill a string up to a multiple of 16.
  function Pad16(n: nat): (z: Bytes)
    ensures (n + |z|) % 16 == 0 && |z| < 16 && forall i :: 0 <= i < |z| ==> z[i] == 0
  {
    if n % 16 == 0 then [] else seq(16 - n % 16, _ => 0)
  }

  // What the tag authenticates.
  function MacData(aad: Bytes, ct: Bytes): Bytes
    requires |aad| < 0x1_0000_0000 && |ct| < 0x1_0000_0000
  {
    aad + Pad16(|aad|) + ct + Pad16(|ct|) + Lengths(|aad|, |ct|)
  }

  // Both lengths as 64-bit little-endian numbers.
  function Lengths(a: word, b: word): (r: Bytes)
    ensures |r| == 16
  {
    Store32(a) + [0, 0, 0, 0] + Store32(b) + [0, 0, 0, 0]
  }

  // Section 2.8 of RFC 8439 byte by byte: the aad at the start, the ciphertext at the next multiple of 16,
  // zeros between them, and at the end both lengths as 64-bit little-endian numbers, the aad's first.
  lemma MacLayout(aad: Bytes, ct: Bytes)
    requires |aad| < 0x1_0000_0000 && |ct| < 0x1_0000_0000
    ensures var m := MacData(aad, ct);
      var at, n := (|aad| + 15) / 16 * 16, |m|;
      && n == at + (|ct| + 15) / 16 * 16 + 16
      && m[..|aad|] == aad && m[at..at + |ct|] == ct
      && (forall k :: |aad| <= k < at ==> m[k] == 0) && (forall k :: at + |ct| <= k < n - 16 ==> m[k] == 0)
      && LeNat(m[n - 16..n - 8]) == |aad| && LeNat(m[n - 8..]) == |ct|
  {
    hide LeNat, Store32;
    var m, at := MacData(aad, ct), (|aad| + 15) / 16 * 16;
    var n := |m|;
    assert |aad + Pad16(|aad|)| == at && |ct + Pad16(|ct|)| == (|ct| + 15) / 16 * 16;
    assert m[at..at + |ct|] == ct;
    assert m[n - 16..n - 8] == Store32(|aad|) + [0, 0, 0, 0] && m[n - 8..] == Store32(|ct|) + [0, 0, 0, 0];
    LengthNumber(|aad|);
    LengthNumber(|ct|);
  }

  lemma LengthNumber(a: word)
    ensures LeNat(Store32(a) + [0, 0, 0, 0]) == a
  {
    var b := Store32(a) + [0, 0, 0, 0];
    assert [] + Store32(a) + [0, 0, 0, 0] == b;
    Load32Store([], a, [0, 0, 0, 0]);
    LeNatOf4(b, 0);
    assert b[0..] == b && b[4..] == [0, 0, 0, 0];
    ZerosNumber([0, 0, 0, 0]);
  }

  lemma {:induction false} ZerosNumber(z: Bytes)
    requires forall k :: 0 <= k < |z| ==> z[k] == 0
    ensures LeNat(z) == 0
  {
    if z != [] {
      ZerosNumber(z[1..]);
    }
  }

  function OneTimeKey(key: Bytes, nonce: Bytes): (k: Bytes)
    requires |key| == 32 && |nonce| == 12
    ensures |k| == 32
  {
    Stream(key, 0, nonce, seq(32, _ => 0))
  }

  function TagOf(key: Bytes, nonce: Bytes, aad: Bytes, ct: Bytes): (t: Bytes)
    requires |key| == 32 && |nonce| == 12 && |aad| < 0x1_0000_0000 && |ct| < 0x1_0000_0000
    ensures |t| == 16
  {
    LeBytes(TagNumber(OneTimeKey(key, nonce), MacData(aad, ct)), 16)
  }

  // The n low bytes of a number, and back.
  function LeBytes(x: nat, n: nat): (r: Bytes)
    ensures |r| == n
  {
    if n == 0 then [] else [x % 0x100] + LeBytes(x / 0x100, n - 1)
  }

  lemma {:induction false} LeBytesOfNat(s: Bytes)
    ensures LeBytes(LeNat(s), |s|) == s
  {
    if s != [] {
      var low: int, rest := s[0], LeNat(s[1..]);
      LeBytesOfNat(s[1..]);
      assert LeNat(s) == low + 0x100 * rest;
      DivModUnique(LeNat(s), 0x100, rest, low);
    }
  }

  // The ciphertext with its tag, and its inverse, as section 2.8 defines them.
  function Seal(key: Bytes, nonce: Bytes, aad: Bytes, pt: Bytes): Bytes
    requires |key| == 32 && |nonce| == 12 && |aad| < 0x1_0000_0000 && |pt| < 0x1_0000_0000
  {
    var ct := Stream(key, 1, nonce, pt);
    ct + TagOf(key, nonce, aad, ct)
  }

  ghost predicate Authentic(key: Bytes, nonce: Bytes, aad: Bytes, sealed: Bytes)
    requires |key| == 32 && |nonce| == 12 && |aad| < 0x1_0000_0000 && |sealed| < 0x1_0000_0000
  {
    |sealed| >= 16 && sealed[|sealed| - 16..] == TagOf(key, nonce, aad, sealed[..|sealed| - 16])
  }

  // A string absorbed in whole blocks, then its rest with zeros after it, both with the end bit.
  method MacPadded(ctx: Context, m: Bytes)
    requires ctx.Valid()
    modifies ctx`h
    ensures ctx.Valid() && ctx.Acc() == Polynomial(old(ctx.Acc()), ctx.r.Value(), m + Pad16(|m|))
  {
    hide Polynomial, Absorb;
    ghost var acc, r := ctx.Acc(), ctx.r.Value();
    var n := |m| - |m| % 16;
    ctx.Blocks(m[..n], 1);
    AbsorbIsPolynomial(acc, r, m[..n]);
    var tail := m[n..] + Pad16(|m|);
    PolynomialConcat(acc, r, m[..n], tail);
    assert m[..n] + tail == m + Pad16(|m|);
    if |m| % 16 != 0 {
      ctx.Blocks(tail, 1);
      AbsorbIsPolynomial(Polynomial(acc, r, m[..n]), r, tail);
    } else {
      assert tail == [];
      PolynomialNothing(Polynomial(acc, r, m[..n]), r);
    }
  }

  lemma PolynomialNothing(acc: nat, r: nat)
    ensures Polynomial(acc, r, []) == acc
  {
  }

  // The polynomial of the whole padded message is that of its pieces.
  lemma PiecesJoin(acc: nat, r: nat, aad: Bytes, ct: Bytes)
    requires |aad| < 0x1_0000_0000 && |ct| < 0x1_0000_0000
    ensures var a := Polynomial(acc, r, aad + Pad16(|aad|));
            var c := Polynomial(a, r, ct + Pad16(|ct|));
            Absorb(c, r, Lengths(|aad|, |ct|), 1) == Polynomial(acc, r, MacData(aad, ct))
  {
    hide Polynomial, Absorb, Lengths, Pad16;
    var a, c, l := aad + Pad16(|aad|), ct + Pad16(|ct|), Lengths(|aad|, |ct|);
    AbsorbIsPolynomial(Polynomial(Polynomial(acc, r, a), r, c), r, l);
    PolynomialConcat(acc, r, a, c);
    PolynomialConcat(acc, r, a + c, l);
    assert a + c + l == MacData(aad, ct);
  }

  // Piece by piece, the state absorbs the whole padded message.
  method MacPieces(ctx: Context, aad: Bytes, ct: Bytes)
    requires ctx.Valid() && |aad| < 0x1_0000_0000 && |ct| < 0x1_0000_0000
    modifies ctx`h
    ensures ctx.Valid() && ctx.Acc() == Polynomial(old(ctx.Acc()), ctx.r.Value(), MacData(aad, ct))
  {
    hide Polynomial, Absorb, Lengths, MacData, Poly1305.Settled, Poly1305.Clamped;
    ghost var acc, r := ctx.Acc(), ctx.r.Value();
    PiecesJoin(acc, r, aad, ct);
    if |aad| > 0 {
      MacPadded(ctx, aad);
    } else {
      PolynomialNothing(acc, r);
      assert aad + Pad16(|aad|) == [];
    }
    MacPadded(ctx, ct);
    ctx.Blocks(Lengths(|aad|, |ct|), 1);
  }

  method ComputeTag(key: Bytes, nonce: Bytes, aad: Bytes, ct: Bytes) returns (tag: Bytes)
    requires |key| == 32 && |nonce| == 12 && |aad| < 0x1_0000_0000 && |ct| < 0x1_0000_0000
    ensures tag == TagOf(key, nonce, aad, ct)
  {
    hide Polynomial, And, LeNat, LeBytes, Stream, MacData, Poly1305.Settled, Poly1305.Clamped, Poly1305.Quad;
    var polyKey := new byte[32];
    Encrypt(polyKey, seq(32, _ => 0), key, 0, nonce);
    var ctx := new Context(polyKey[..32]);
    MacPieces(ctx, aad, ct);
    tag := ctx.Finish();
    LeBytesOfNat(tag);
  }

  method SealInPlace(out: array<byte>, pt: Bytes, aad: Bytes, key: Bytes, nonce: Bytes) returns (n: nat)
    requires |key| == 32 && |nonce| == 12 && |aad| < 0x1_0000_0000 && |pt| <= 0xffff_ffc0
    requires out.Length >= |pt| + 16
    modifies out
    ensures n == |pt| + 16 && out[..n] == Seal(key, nonce, aad, pt)
  {
    hide Stream, TagOf;
    Encrypt(out, pt, key, 1, nonce);
    var ct := out[..|pt|];
    var tag := ComputeTag(key, nonce, aad, ct);
    forall i | 0 <= i < 16 {
      out[|pt| + i] := tag[i];
    }
    n := |pt| + 16;
    assert out[..n] == ct + tag;
  }

  // Or of differences is zero only when there is none.
  lemma OrIsZero(x: nat, y: nat)
    ensures Or(x, y) == 0 <==> x == 0 && y == 0
    decreases x + y
  {
    if x != 0 || y != 0 {
      OrIsZero(x / 2, y / 2);
    }
  }

  // Compare two tags without stopping at the first difference.
  method SameTag(a: Bytes, b: Bytes) returns (same: bool)
    requires |a| == |b| == 16
    ensures same <==> a == b
  {
    var diff: nat := 0;
    for i := 0 to 16
      invariant diff == 0 <==> a[..i] == b[..i]
    {
      XorZero(a[i], b[i]);
      OrIsZero(diff, Xor(a[i], b[i]));
      diff := Or(diff, Xor(a[i], b[i]));
      assert a[..i + 1] == a[..i] + [a[i]] && b[..i + 1] == b[..i] + [b[i]];
    }
    assert a[..16] == a && b[..16] == b;
    same := diff == 0;
  }

  // Returns the plaintext length, or 0 when the tag does not match.
  method OpenInPlace(out: array<byte>, sealed: Bytes, aad: Bytes, key: Bytes, nonce: Bytes) returns (n: nat)
    requires |key| == 32 && |nonce| == 12 && |aad| < 0x1_0000_0000 && |sealed| <= 0xffff_ffc0
    requires |sealed| >= 16 ==> out.Length >= |sealed| - 16
    modifies out
    ensures n == if Authentic(key, nonce, aad, sealed) then |sealed| - 16 else 0
    ensures Authentic(key, nonce, aad, sealed) ==> out[..n] == Stream(key, 1, nonce, sealed[..n])
    ensures !Authentic(key, nonce, aad, sealed) ==> out[..] == old(out[..])
  {
    hide Stream, TagOf;
    if |sealed| < 16 {
      return 0;
    }
    var ct, tag := sealed[..|sealed| - 16], sealed[|sealed| - 16..];
    var computed := ComputeTag(key, nonce, aad, ct);
    var same := SameTag(computed, tag);
    if !same {
      return 0;
    }
    Encrypt(out, ct, key, 1, nonce);
    n := |ct|;
  }

  // What Seal makes is authentic and decrypts to the plaintext. The length OpenInPlace returns
  // then tells success from failure for every plaintext but the empty one.
  lemma SealOpens(key: Bytes, nonce: Bytes, aad: Bytes, pt: Bytes)
    requires |key| == 32 && |nonce| == 12 && |aad| < 0x1_0000_0000 && |pt| < 0xffff_fff0
    ensures var sealed := Seal(key, nonce, aad, pt);
            Authentic(key, nonce, aad, sealed) && Stream(key, 1, nonce, sealed[..|sealed| - 16]) == pt
  {
    hide TagOf;
    var ct := Stream(key, 1, nonce, pt);
    var sealed := Seal(key, nonce, aad, pt);
    assert sealed[..|sealed| - 16] == ct && sealed[|sealed| - 16..] == TagOf(key, nonce, aad, ct);
    StreamTwice(key, 1, nonce, pt);
  }

  // The result 0 means failure exactly when the message is not an authentic empty one.
  method OpenSealed(pt: Bytes, aad: Bytes, key: Bytes, nonce: Bytes) returns (n: nat, back: Bytes)
    requires |key| == 32 && |nonce| == 12 && |aad| < 0x1_0000_0000 && |pt| <= 0xffff_ffa0
    ensures n == |pt| && back == pt
    ensures n > 0 <==> pt != []
  {
    hide Stream, TagOf, Seal, Authentic;
    var buf, out := new byte[|pt| + 16], new byte[|pt|];
    var m := SealInPlace(buf, pt, aad, key, nonce);
    var sealed := buf[..m];
    SealOpens(key, nonce, aad, pt);
    n := OpenInPlace(out, sealed, aad, key, nonce);
    back := out[..n];
  }
}
