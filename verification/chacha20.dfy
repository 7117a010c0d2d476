/** The ChaCha20 block function and stream cipher of RFC 8439 sections 2.1 to 2.4. */
module ChaCha20 {
  import opened Bits

  // Rotation left by k bits, as (x << k) | (x >> (32 - k)); p is 2^k and q is 2^(32 - k).
  function Rotl(x: word, p: nat, q: nat): word
    requires q > 0
  {
    U32(Or(x / q, U32(x * p)))
  }

  function Xor32(x: word, y: word): word {
    U32(Xor(x, y))
  }

  function Add32(x: int, y: int): word
    requires x >= 0 && y >= 0
  {
    U32(x + y)
  }

  // One add-xor-rotate pass over both pairs of a quarter round.
  datatype Quarter = Quarter(a: word, b: word, c: word, d: word) {
    function First(): Quarter {
      var a' := Add32(a, b);
      var d' := Rotl(Xor32(d, a'), 0x1_0000, 0x1_0000);
      var c' := Add32(c, d');
      var b' := Rotl(Xor32(b, c'), 0x1000, 0x10_0000);
      Quarter(a', b', c', d')
    }

    function Second(): Quarter {
      var a' := Add32(a, b);
      var d' := Rotl(Xor32(d, a'), 0x100, 0x100_0000);
      var c' := Add32(c, d');
      var b' := Rotl(Xor32(b, c'), 0x80, 0x200_0000);
      Quarter(a', b', c', d')
    }

    function Round(): Quarter {
      First().Second()
    }

    function UndoFirst(): Quarter {
      var b' := Xor32(Rotl(b, 0x10_0000, 0x1000), c);
      var c' := Add32(c, 0x1_0000_0000 - d);
      var d' := Xor32(Rotl(d, 0x1_0000, 0x1_0000), a);
      Quarter(Add32(a, 0x1_0000_0000 - b'), b', c', d')
    }

    function UndoSecond(): Quarter {
      var b' := Xor32(Rotl(b, 0x200_0000, 0x80), c);
      var c' := Add32(c, 0x1_0000_0000 - d);
      var d' := Xor32(Rotl(d, 0x100_0000, 0x100), a);
      Quarter(Add32(a, 0x1_0000_0000 - b'), b', c', d')
    }

    function UndoRound(): Quarter {
      UndoSecond().UndoFirst()
    }
  }

  type Block = s: seq<word> | |s| == 16 witness seq(16, _ => 0)

  function QuarterAt(s: Block, a: nat, b: nat, c: nat, d: nat): Quarter
    requires a < 16 && b < 16 && c < 16 && d < 16
  {
    Quarter(s[a], s[b], s[c], s[d])
  }

  function WithQuarter(s: Block, a: nat, b: nat, c: nat, d: nat, q: Quarter): Block
    requires a < 16 && b < 16 && c < 16 && d < 16
  {
    s[a := q.a][b := q.b][c := q.c][d := q.d]
  }

  function QuarterRound(s: Block, a: nat, b: nat, c: nat, d: nat): Block
    requires a < 16 && b < 16 && c < 16 && d < 16
  {
    WithQuarter(s, a, b, c, d, QuarterAt(s, a, b, c, d).Round())
  }

  function ColumnRound(s: Block): Block {
    QuarterRound(QuarterRound(QuarterRound(QuarterRound(s, 0, 4, 8, 12), 1, 5, 9, 13), 2, 6, 10, 14), 3, 7, 11, 15)
  }

  function DiagonalRound(s: Block): Block {
    QuarterRound(QuarterRound(QuarterRound(QuarterRound(s, 0, 5, 10, 15), 1, 6, 11, 12), 2, 7, 8, 13), 3, 4, 9, 14)
  }

  function Rounds(s: Block, n: nat): Block {
    if n == 0 then s else DiagonalRound(ColumnRound(Rounds(s, n - 1)))
  }

  function InitialState(key: Bytes, counter: word, nonce: Bytes): Block
    requires |key| == 32 && |nonce| == 12
  {
    [0x61707865, 0x3320646e, 0x79622d32, 0x6b206574]
    + [Load32(key, 0), Load32(key, 4), Load32(key, 8), Load32(key, 12)]
    + [Load32(key, 16), Load32(key, 20), Load32(key, 24), Load32(key, 28)]
    + [counter, Load32(nonce, 0), Load32(nonce, 4), Load32(nonce, 8)]
  }

  const SIGMA: Bytes := [0x65, 0x78, 0x70, 0x61, 0x6e, 0x64, 0x20, 0x33, 0x32, 0x2d, 0x62, 0x79, 0x74, 0x65, 0x20, 0x6b]

  // The 64 bytes of a block.
  function Serialized(s: Block): (b: Bytes)
    ensures |b| == 64
  {
    Stored4(s, 0) + Stored4(s, 4) + Stored4(s, 8) + Stored4(s, 12)
  }

  function Stored4(s: Block, i: nat): (b: Bytes)
    requires i + 4 <= 16
    ensures |b| == 16
  {
    Store32(s[i]) + Store32(s[i + 1]) + Store32(s[i + 2]) + Store32(s[i + 3])
  }

  // Section 2.3 of RFC 8439: as bytes, the first block is "expand 32-byte k", the key, the counter and the
  // nonce.
  lemma InitialBytes(key: Bytes, counter: word, nonce: Bytes)
    requires |key| == 32 && |nonce| == 12
    ensures Serialized(InitialState(key, counter, nonce)) == SIGMA + key + Store32(counter) + nonce
  {
    hide Load32, Store32;
    var s := InitialState(key, counter, nonce);
    SigmaWords();
    Stored(key, 0);
    Stored(key, 4);
    Stored(key, 8);
    Stored(key, 12);
    Stored(key, 16);
    Stored(key, 20);
    Stored(key, 24);
    Stored(key, 28);
    Stored(nonce, 0);
    Stored(nonce, 4);
    Stored(nonce, 8);
    assert Stored4(s, 4) == key[..16];
    assert Stored4(s, 8) == key[16..];
    assert Stored4(s, 12) == Store32(counter) + nonce;
  }

  lemma SigmaWords()
    ensures Store32(0x61707865) + Store32(0x3320646e) + Store32(0x79622d32) + Store32(0x6b206574) == SIGMA
  {
  }

  lemma Stored(m: Bytes, i: nat)
    requires i + 4 <= |m|
    ensures Store32(Load32(m, i)) == m[i..i + 4]
  {
    var a: int, b: int, c: int, d: int := m[i], m[i + 1], m[i + 2], m[i + 3];
    var w := a + 0x100 * b + 0x1_0000 * c + 0x100_0000 * d;
    DivModUnique(w, 0x100, b + 0x100 * c + 0x1_0000 * d, a);
    DivModUnique(w, 0x1_0000, c + 0x100 * d, a + 0x100 * b);
    DivModUnique(w, 0x100_0000, d, a + 0x100 * b + 0x1_0000 * c);
    DivModUnique(w / 0x100, 0x100, c + 0x100 * d, b);
    DivModUnique(w / 0x1_0000, 0x100, d, c);
  }

  function AddBlocks(s: Block, t: Block): Block {
    seq(16, i requires 0 <= i < 16 => Add32(s[i], t[i]))
  }

  function KeyBlock(key: Bytes, counter: word, nonce: Bytes): Block
    requires |key| == 32 && |nonce| == 12
  {
    var s := InitialState(key, counter, nonce);
    AddBlocks(Rounds(s, 10), s)
  }

  lemma MulSigns(x: nat, y: nat)
    ensures x * y >= 0
  {
  }

  // A rotation moves the low part l up and the high part h down.
  lemma RotlParts(l: nat, h: nat, k: nat, p: nat, q: nat)
    requires p == Pow2(k) && p * q == 0x1_0000_0000 && h < p && l < q
    ensures 0 <= l + q * h < 0x1_0000_0000 && 0 <= h + p * l < 0x1_0000_0000
    ensures Rotl(l + q * h, p, q) == h + p * l
  {
    hide Or, Pow2;
    assert q * h + q <= 0x1_0000_0000 by {
      MulMono(q, h + 1, p);
      assert q * (h + 1) == q * h + q && q * p == p * q;
    }
    assert p * l + p <= 0x1_0000_0000 by {
      MulMono(p, l + 1, q);
      assert p * (l + 1) == p * l + p;
    }
    MulSigns(q, h);
    MulSigns(p, l);
    var x := l + q * h;
    DivModUnique(x, q, h, l);
    assert x * p == 0x1_0000_0000 * h + p * l by {
      assert (q * h) * p == (p * q) * h;
    }
    DivModUnique(x * p, 0x1_0000_0000, h, p * l);
    OrSum(h, l, k, p);
  }

  lemma Rotate16(x: word)
    ensures Rotl(Rotl(x, 0x1_0000, 0x1_0000), 0x1_0000, 0x1_0000) == x
  {
    hide Rotl, Pow2;
    RotationPowers();
    var l, h := x % 0x1_0000, x / 0x1_0000;
    RotlParts(l, h, 16, 0x1_0000, 0x1_0000);
    RotlParts(h, l, 16, 0x1_0000, 0x1_0000);
  }

  lemma Rotate12(x: word)
    ensures Rotl(Rotl(x, 0x1000, 0x10_0000), 0x10_0000, 0x1000) == x
  {
    hide Rotl, Pow2;
    RotationPowers();
    var l, h := x % 0x10_0000, x / 0x10_0000;
    RotlParts(l, h, 12, 0x1000, 0x10_0000);
    RotlParts(h, l, 20, 0x10_0000, 0x1000);
  }

  lemma Rotate8(x: word)
    ensures Rotl(Rotl(x, 0x100, 0x100_0000), 0x100_0000, 0x100) == x
  {
    hide Rotl, Pow2;
    RotationPowers();
    var l, h := x % 0x100_0000, x / 0x100_0000;
    RotlParts(l, h, 8, 0x100, 0x100_0000);
    RotlParts(h, l, 24, 0x100_0000, 0x100);
  }

  lemma Rotate7(x: word)
    ensures Rotl(Rotl(x, 0x80, 0x200_0000), 0x200_0000, 0x80) == x
  {
    hide Rotl, Pow2;
    RotationPowers();
    var l, h := x % 0x200_0000, x / 0x200_0000;
    RotlParts(l, h, 7, 0x80, 0x200_0000);
    RotlParts(h, l, 25, 0x200_0000, 0x80);
  }

  lemma RotationPowers()
    ensures Pow2(7) == 0x80 && Pow2(8) == 0x100 && Pow2(12) == 0x1000 && Pow2(16) == 0x1_0000
    ensures Pow2(20) == 0x10_0000 && Pow2(24) == 0x100_0000 && Pow2(25) == 0x200_0000
    ensures Pow2(32) == 0x1_0000_0000
  {
    assert Pow2(8) == 0x100;
    assert Pow2(16) == 0x1_0000;
    assert Pow2(24) == 0x100_0000;
  }

  lemma Xor32Cancels(x: word, y: word)
    ensures Xor32(Xor32(x, y), y) == x
  {
    hide Xor, Pow2;
    RotationPowers();
    XorBound(x, y, 32);
    XorCancels(x, y);
  }

  // Every quarter round can be undone.
  lemma RoundUndone(q: Quarter)
    ensures q.Round().UndoRound() == q
  {
    FirstUndone(q);
    SecondUndone(q.First());
  }

  lemma FirstUndone(q: Quarter)
    ensures q.First().UndoFirst() == q
  {
    hide Rotl, Xor32;
    var a := Add32(q.a, q.b);
    var d := Rotl(Xor32(q.d, a), 0x1_0000, 0x1_0000);
    var c := Add32(q.c, d);
    Rotate16(Xor32(q.d, a));
    Xor32Cancels(q.d, a);
    Rotate12(Xor32(q.b, c));
    Xor32Cancels(q.b, c);
  }

  lemma SecondUndone(q: Quarter)
    ensures q.Second().UndoSecond() == q
  {
    hide Rotl, Xor32;
    var a := Add32(q.a, q.b);
    var d := Rotl(Xor32(q.d, a), 0x100, 0x100_0000);
    var c := Add32(q.c, d);
    Rotate8(Xor32(q.d, a));
    Xor32Cancels(q.d, a);
    Rotate7(Xor32(q.b, c));
    Xor32Cancels(q.b, c);
  }

  predicate Distinct(a: nat, b: nat, c: nat, d: nat) {
    a < 16 && b < 16 && c < 16 && d < 16 && a != b && a != c && a != d && b != c && b != d && c != d
  }

  lemma QuarterRoundInjective(s: Block, t: Block, a: nat, b: nat, c: nat, d: nat)
    requires Distinct(a, b, c, d) && QuarterRound(s, a, b, c, d) == QuarterRound(t, a, b, c, d)
    ensures s == t
  {
    var s', t' := QuarterRound(s, a, b, c, d), QuarterRound(t, a, b, c, d);
    RoundUndone(QuarterAt(s, a, b, c, d));
    RoundUndone(QuarterAt(t, a, b, c, d));
    assert QuarterAt(s', a, b, c, d) == QuarterAt(s, a, b, c, d).Round();
    assert QuarterAt(t', a, b, c, d) == QuarterAt(t, a, b, c, d).Round();
    forall i | 0 <= i < 16 ensures s[i] == t[i] {
      assert i !in {a, b, c, d} ==> s'[i] == s[i] && t'[i] == t[i];
    }
  }

  lemma ColumnRoundInjective(s: Block, t: Block)
    requires ColumnRound(s) == ColumnRound(t)
    ensures s == t
  {
    hide QuarterRound;
    var s1, t1 := QuarterRound(s, 0, 4, 8, 12), QuarterRound(t, 0, 4, 8, 12);
    var s2, t2 := QuarterRound(s1, 1, 5, 9, 13), QuarterRound(t1, 1, 5, 9, 13);
    var s3, t3 := QuarterRound(s2, 2, 6, 10, 14), QuarterRound(t2, 2, 6, 10, 14);
    QuarterRoundInjective(s3, t3, 3, 7, 11, 15);
    QuarterRoundInjective(s2, t2, 2, 6, 10, 14);
    QuarterRoundInjective(s1, t1, 1, 5, 9, 13);
    QuarterRoundInjective(s, t, 0, 4, 8, 12);
  }

  lemma DiagonalRoundInjective(s: Block, t: Block)
    requires DiagonalRound(s) == DiagonalRound(t)
    ensures s == t
  {
    hide QuarterRound;
    var s1, t1 := QuarterRound(s, 0, 5, 10, 15), QuarterRound(t, 0, 5, 10, 15);
    var s2, t2 := QuarterRound(s1, 1, 6, 11, 12), QuarterRound(t1, 1, 6, 11, 12);
    var s3, t3 := QuarterRound(s2, 2, 7, 8, 13), QuarterRound(t2, 2, 7, 8, 13);
    QuarterRoundInjective(s3, t3, 3, 4, 9, 14);
    QuarterRoundInjective(s2, t2, 2, 7, 8, 13);
    QuarterRoundInjective(s1, t1, 1, 6, 11, 12);
    QuarterRoundInjective(s, t, 0, 5, 10, 15);
  }

  // The rounds lose nothing: they are a permutation of the blocks.
  lemma {:induction false} RoundsInjective(s: Block, t: Block, n: nat)
    requires Rounds(s, n) == Rounds(t, n)
    ensures s == t
  {
    hide ColumnRound, DiagonalRound;
    if n > 0 {
      DiagonalRoundInjective(ColumnRound(Rounds(s, n - 1)), ColumnRound(Rounds(t, n - 1)));
      ColumnRoundInjective(Rounds(s, n - 1), Rounds(t, n - 1));
      RoundsInjective(s, t, n - 1);
    }
  }

  // The quarter round on an array, one assignment after another.
  method QuarterRoundInPlace(s: array<word>, a: nat, b: nat, c: nat, d: nat)
    requires s.Length == 16 && Distinct(a, b, c, d)
    modifies s
    ensures s[..] == QuarterRound(old(s[..]), a, b, c, d)
  {
    hide Rotl, Xor32, Add32;
    s[a] := Add32(s[a], s[b]);
    s[d] := Xor32(s[d], s[a]);
    s[d] := Rotl(s[d], 0x1_0000, 0x1_0000);
    s[c] := Add32(s[c], s[d]);
    s[b] := Xor32(s[b], s[c]);
    s[b] := Rotl(s[b], 0x1000, 0x10_0000);
    s[a] := Add32(s[a], s[b]);
    s[d] := Xor32(s[d], s[a]);
    s[d] := Rotl(s[d], 0x100, 0x100_0000);
    s[c] := Add32(s[c], s[d]);
    s[b] := Xor32(s[b], s[c]);
    s[b] := Rotl(s[b], 0x80, 0x200_0000);
  }

  method BlockInPlace(out: array<word>, key: Bytes, counter: word, nonce: Bytes)
    requires out.Length == 16 && |key| == 32 && |nonce| == 12
    modifies out
    ensures out[..] == KeyBlock(key, counter, nonce)
  {
    hide QuarterRound, InitialState;
    var s := InitialState(key, counter, nonce);
    for i := 0 to 16
      invariant out[..i] == s[..i]
    {
      out[i] := s[i];
    }
    assert out[..] == s;
    for i := 0 to 10
      invariant out[..] == Rounds(s, i)
    {
      QuarterRoundInPlace(out, 0, 4, 8, 12);
      QuarterRoundInPlace(out, 1, 5, 9, 13);
      QuarterRoundInPlace(out, 2, 6, 10, 14);
      QuarterRoundInPlace(out, 3, 7, 11, 15);
      QuarterRoundInPlace(out, 0, 5, 10, 15);
      QuarterRoundInPlace(out, 1, 6, 11, 12);
      QuarterRoundInPlace(out, 2, 7, 8, 13);
      QuarterRoundInPlace(out, 3, 4, 9, 14);
    }
    ghost var r := out[..];
    for i := 0 to 16
      invariant out[i..] == r[i..]
      invariant forall j :: 0 <= j < i ==> out[j] == Add32(r[j], s[j])
    {
      assert out[i] == r[i..][0];
      out[i] := Add32(out[i], s[i]);
      assert r[i + 1..] == r[i..][1..];
    }
    assert out[..] == AddBlocks(r, s);
  }

  function XorByte(x: byte, y: byte): byte {
    XorBound(x, y, 8);
    Xor(x, y)
  }

  lemma XorByteCancels(x: byte, y: byte)
    ensures XorByte(XorByte(x, y), y) == x
  {
    XorCancels(x, y);
  }
}
