/** The table of earlier positions: for each hash the latest position with it, and the one before.
 */
module PicoTable {
  import opened Bits
  import opened PicoFormat

  const HASH_SIZE := 512
  const HASH_CHAIN_DEPTH := 2

  function Hash3(v: Bytes, p: nat): (h: nat)
    requires p + 3 <= |v|
    ensures h < HASH_SIZE
  {
    var a: int, b: int, c: int := v[p], v[p + 1], v[p + 2];
    (251 * a + 11 * b + 3 * c) % HASH_SIZE
  }

  // Bytes that differ in one place have different hashes.
  lemma OneByteTells(v: Bytes, p: nat, w: Bytes, q: nat, i: nat)
    requires p + 3 <= |v| && q + 3 <= |w| && i < 3 && v[p + i] != w[q + i]
    requires (i == 0 || v[p] == w[q]) && (i == 1 || v[p + 1] == w[q + 1]) && (i == 2 || v[p + 2] == w[q + 2])
    ensures Hash3(v, p) != Hash3(w, q)
  {
    var a: int, b: int, c: int := v[p], v[p + 1], v[p + 2];
    var a': int, b': int, c': int := w[q], w[q + 1], w[q + 2];
    var x, y := 251 * a + 11 * b + 3 * c, 251 * a' + 11 * b' + 3 * c';
    if Hash3(v, p) == Hash3(w, q) {
      var m := x / HASH_SIZE - y / HASH_SIZE;
      assert x == HASH_SIZE * (x / HASH_SIZE) + x % HASH_SIZE && y == HASH_SIZE * (y / HASH_SIZE) + y % HASH_SIZE;
      assert x - y == HASH_SIZE * m;
      Unscaled(if i == 0 then a - a' else if i == 1 then b - b' else c - c', m, i);
    }
  }

  // The three weights are odd, so a multiple of one is a multiple of the table size only if it is of a
  // multiple of it.
  lemma Unscaled(d: int, m: int, i: nat)
    requires i < 3 && -0x100 < d < 0x100 && (if i == 0 then 251 else if i == 1 then 11 else 3) * d == HASH_SIZE * m
    ensures d == 0
  {
    if i == 0 {
      assert d == HASH_SIZE * (51 * m - 25 * d);
    } else if i == 1 {
      assert d == HASH_SIZE * (419 * m - 9 * d);
    } else {
      assert d == HASH_SIZE * (171 * m - d);
    }
  }

  predicate TableShape(head: array2<int>) {
    head.Length0 == HASH_CHAIN_DEPTH && head.Length1 == HASH_SIZE
  }

  // The positions that are entered: those with three bytes on one side of the block boundary.
  predicate Entered(v: Bytes, histLen: nat, p: nat) {
    p + 3 <= |v| && !(p < histLen < p + 3)
  }

  // The last of the first n positions that was entered under a hash.
  function Latest(v: Bytes, histLen: nat, n: nat, h: nat): (p: int)
    ensures -1 <= p < n && (p >= 0 ==> Entered(v, histLen, p) && Hash3(v, p) == h)
    ensures forall q: nat :: p < q < n && Entered(v, histLen, q) ==> Hash3(v, q) != h
  {
    if n == 0 then -1
    else if Entered(v, histLen, n - 1) && Hash3(v, n - 1) == h then n - 1
    else Latest(v, histLen, n - 1, h)
  }

  // The one before it, or the same again where a position was entered twice.
  function Second(v: Bytes, histLen: nat, twice: set<nat>, n: nat, h: nat): int {
    var p := Latest(v, histLen, n, h);
    if p < 0 || p in twice then p else Latest(v, histLen, p, h)
  }

  // What the two rows hold under a hash after the first n positions.
  ghost predicate Column(first: int, second: int, v: Bytes, histLen: nat, twice: set<nat>, n: nat, h: nat) {
    first == Latest(v, histLen, n, h) && second == Second(v, histLen, twice, n, h)
  }

  ghost predicate TableIs(head: array2<int>, v: Bytes, histLen: nat, twice: set<nat>, n: nat)
    reads head
  {
    && TableShape(head) && (forall t :: t in twice ==> t < n)
    && forall h :: 0 <= h < HASH_SIZE ==> Column(head[0, h], head[1, h], v, histLen, twice, n, h)
  }

  method HeadInsert(head: array2<int>, hash: nat, pos: int)
    requires TableShape(head) && hash < HASH_SIZE
    modifies head
    ensures head[0, hash] == pos && head[1, hash] == old(head[0, hash])
    ensures forall d, h :: 0 <= d < HASH_CHAIN_DEPTH && 0 <= h < HASH_SIZE && h != hash ==> head[d, h] == old(head[d, h])
  {
    var d := HASH_CHAIN_DEPTH - 1;
    while d > 0
      invariant 0 <= d < HASH_CHAIN_DEPTH
      invariant forall e, h :: 0 <= e < HASH_CHAIN_DEPTH && 0 <= h < HASH_SIZE && (h != hash || e <= d) ==>
        head[e, h] == old(head[e, h])
      invariant d == 0 ==> head[1, hash] == old(head[0, hash])
    {
      head[d, hash] := head[d - 1, hash];
      d := d - 1;
    }
    head[0, hash] := pos;
  }

  // Enter a position: the next one, or the last one again.
  method InsertAt(v: Bytes, pos: nat, head: array2<int>, ghost histLen: nat, ghost twice: set<nat>, ghost again: bool)
    requires TableIs(head, v, histLen, twice, if again then pos + 1 else pos)
    requires pos >= histLen || (pos + 3 <= histLen && !again)
    modifies head
    ensures TableIs(head, v, histLen, if again then twice + {pos} else twice, pos + 1)
  {
    if |v| - pos >= 3 {
      HeadInsert(head, Hash3(v, pos), pos);
    }
    forall h | 0 <= h < HASH_SIZE
      ensures Column(head[0, h], head[1, h], v, histLen, if again then twice + {pos} else twice, pos + 1, h)
    {
      assert Column(old(head[0, h]), old(head[1, h]), v, histLen, twice, if again then pos + 1 else pos, h);
    }
  }

  // Positions that are not entered change nothing.
  lemma {:induction false} Unentered(v: Bytes, histLen: nat, m: nat, n: nat, h: nat)
    requires m <= n && forall q :: m <= q < n ==> !Entered(v, histLen, q)
    ensures Latest(v, histLen, n, h) == Latest(v, histLen, m, h)
  {
    if n > m {
      Unentered(v, histLen, m, n - 1, h);
    }
  }

  lemma TableSkips(head: array2<int>, v: Bytes, histLen: nat, twice: set<nat>, m: nat, n: nat)
    requires TableIs(head, v, histLen, twice, m)
    requires m <= n && forall q :: m <= q < n ==> !Entered(v, histLen, q)
    ensures TableIs(head, v, histLen, twice, n)
  {
    hide Latest, Entered;
    forall h | 0 <= h < HASH_SIZE
      ensures Column(head[0, h], head[1, h], v, histLen, twice, n, h)
    {
      assert Column(head[0, h], head[1, h], v, histLen, twice, m, h);
      Unentered(v, histLen, m, n, h);
    }
  }

  // Enter the positions that a token covers, except its first.
  method InsertCovered(v: Bytes, pos: nat, len: nat, head: array2<int>, ghost histLen: nat, ghost twice: set<nat>)
    requires TableIs(head, v, histLen, twice, pos + 1) && histLen <= pos && 1 <= len
    modifies head
    ensures TableIs(head, v, histLen, twice, pos + len)
  {
    hide Latest, Second;
    var k := 1;
    while k < len && pos + k + 2 < |v|
      invariant 1 <= k <= len && TableIs(head, v, histLen, twice, pos + k)
    {
      InsertAt(v, pos + k, head, histLen, twice, false);
      k := k + 1;
    }
    TableSkips(head, v, histLen, twice, pos + k, pos + len);
  }

  // During the second pass over the end of the history, the first row holds what the pass has entered,
  // and otherwise what it held before.
  function Reseeded(v: Bytes, histLen: nat, start: nat, p: nat, h: nat): int {
    var q := Latest(v, histLen, p, h);
    if q >= start then q else Latest(v, histLen, histLen, h)
  }

  ghost predicate SecondPass(head: array2<int>, v: Bytes, histLen: nat, start: nat, p: nat)
    requires TableShape(head)
    reads head
  {
    forall h :: 0 <= h < HASH_SIZE ==> SecondPassAt(head[0, h], head[1, h], v, histLen, start, p, h)
  }

  ghost predicate SecondPassAt(first: int, second: int, v: Bytes, histLen: nat, start: nat, p: nat, h: nat) {
    first == Reseeded(v, histLen, start, p, h) && second == Second(v, histLen, {}, histLen, h)
  }

  // Enter the positions of the history. The second pass over those near the block boundary leaves the
  // table as the first one made it.
  method SeedFromHistory(v: Bytes, histLen: nat, head: array2<int>)
    requires TableIs(head, v, histLen, {}, 0) && histLen <= |v|
    modifies head
    ensures TableIs(head, v, histLen, {}, histLen)
  {
    hide Latest, Second;
    var end := if histLen < 3 then 0 else histLen - 2;
    for p := 0 to end
      invariant TableIs(head, v, histLen, {}, p)
    {
      InsertAt(v, p, head, histLen, {}, false);
    }
    TableSkips(head, v, histLen, {}, end, histLen);
    var start := if histLen > 64 then histLen - 64 else 0;
    PassBegins(head, v, histLen, start);
    for p := start to if histLen < 3 then start else histLen - 2
      invariant TableShape(head) && SecondPass(head, v, histLen, start, p)
    {
      SeedAgain(v, histLen, head, start, p);
    }
    PassEnds(head, v, histLen, start, if histLen < 3 then start else histLen - 2);
  }

  method SeedAgain(v: Bytes, histLen: nat, head: array2<int>, ghost start: nat, p: nat)
    requires TableShape(head) && start <= p && p + 3 <= histLen <= |v| && SecondPass(head, v, histLen, start, p)
    modifies head
    ensures SecondPass(head, v, histLen, start, p + 1)
  {
    var h := Hash3(v, p);
    if head[0, h] != p {
      var save := head[HASH_CHAIN_DEPTH - 1, h];
      HeadInsert(head, h, p);
      head[HASH_CHAIN_DEPTH - 1, h] := save;
    }
    forall k | 0 <= k < HASH_SIZE
      ensures SecondPassAt(head[0, k], head[1, k], v, histLen, start, p + 1, k)
    {
      assert SecondPassAt(old(head[0, k]), old(head[1, k]), v, histLen, start, p, k);
    }
  }

  lemma PassBegins(head: array2<int>, v: Bytes, histLen: nat, start: nat)
    requires TableIs(head, v, histLen, {}, histLen)
    ensures SecondPass(head, v, histLen, start, start)
  {
    hide Latest, Second;
    forall h | 0 <= h < HASH_SIZE
      ensures SecondPassAt(head[0, h], head[1, h], v, histLen, start, start, h)
    {
      assert Column(head[0, h], head[1, h], v, histLen, {}, histLen, h);
    }
  }

  lemma PassEnds(head: array2<int>, v: Bytes, histLen: nat, start: nat, end: nat)
    requires TableShape(head) && SecondPass(head, v, histLen, start, end)
    requires if histLen < 3 then end == start else end == histLen - 2
    ensures TableIs(head, v, histLen, {}, histLen)
  {
    hide Latest, Second;
    forall h | 0 <= h < HASH_SIZE
      ensures Column(head[0, h], head[1, h], v, histLen, {}, histLen, h)
    {
      assert SecondPassAt(head[0, h], head[1, h], v, histLen, start, end, h);
      if end <= histLen {
        Unentered(v, histLen, end, histLen, h);
      }
    }
  }

  // The positions the table holds for the bytes at pos.
  function Chain(v: Bytes, pos: nat, head: array2<int>): (prevs: seq<int>)
    requires TableShape(head) && pos <= |v|
    reads head
    ensures |prevs| <= HASH_CHAIN_DEPTH
  {
    if |v| - pos < 3 then [] else [head[0, Hash3(v, pos)], head[1, Hash3(v, pos)]]
  }

  // Those that it holds when all positions before pos are entered.
  function Known(v: Bytes, histLen: nat, twice: set<nat>, pos: nat): seq<int> {
    if pos + 3 > |v| then []
    else [Latest(v, histLen, pos, Hash3(v, pos)), Second(v, histLen, twice, pos, Hash3(v, pos))]
  }

  lemma ChainIsKnown(head: array2<int>, v: Bytes, histLen: nat, twice: set<nat>, pos: nat)
    requires TableIs(head, v, histLen, twice, pos) && pos <= |v|
    ensures Chain(v, pos, head) == Known(v, histLen, twice, pos)
  {
    hide Latest, Second;
    if |v| - pos >= 3 {
      var h := Hash3(v, pos);
      assert Column(head[0, h], head[1, h], v, histLen, twice, pos, h);
    }
  }
}
