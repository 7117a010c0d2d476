/** Match length: the longest repeat at a given distance, found a byte or a word at a time. */
module PicoMatch {
  import opened Bits
  import opened PicoFormat

  // r is the length of the longest common prefix, up to limit, of the strings at pos and off before it.
  ghost predicate IsMatchLen(v: Bytes, pos: nat, off: nat, limit: nat, r: nat) {
    r <= limit && pos + limit <= |v| && Repeats(v, pos, off, r) && (r < limit ==> v[pos + r] != v[pos + r - off])
  }

  method MatchLenBytes(v: Bytes, pos: nat, off: nat, limit: nat) returns (m: nat)
    requires 0 < off <= pos && pos + limit <= |v|
    ensures IsMatchLen(v, pos, off, limit, m)
  {
    m := 0;
    while m < limit && v[pos - off + m] == v[pos + m]
      invariant m <= limit && Repeats(v, pos, off, m)
    {
      m := m + 1;
    }
  }

  function Word32(v: Bytes, i: nat): nat
    requires i + 4 <= |v|
  {
    LeNat(v[i..i + 4])
  }

  method MatchLenWords(v: Bytes, pos: nat, off: nat, limit: nat) returns (m: nat)
    requires 0 < off <= pos && pos + limit <= |v|
    ensures IsMatchLen(v, pos, off, limit, m)
  {
    hide Xor, Ctz, LeNat;
    m := 0;
    while limit - m >= 4
      invariant m <= limit && Repeats(v, pos, off, m)
    {
      var i, j := pos - off + m, pos + m;
      var x := Xor(Word32(v, i), Word32(v, j));
      FirstDifference(v[i..i + 4], v[j..j + 4]);
      if x != 0 {
        SamePrefix(v, i, j, Ctz(x) / 8);
        return m + Ctz(x) / 8;
      }
      SamePrefix(v, i, j, 4);
      m := m + 4;
    }
    while m < limit && v[pos - off + m] == v[pos + m]
      invariant m <= limit && Repeats(v, pos, off, m)
    {
      m := m + 1;
    }
  }

  // Equal slices, read element by element.
  lemma SamePrefix(v: Bytes, i: nat, j: nat, n: nat)
    requires i <= j && j + n <= |v| && n <= 4 && j + 4 <= |v|
    requires v[i..i + 4][..n] == v[j..j + 4][..n]
    ensures forall k :: j <= k < j + n ==> v[k] == v[k - (j - i)]
  {
    forall k | j <= k < j + n ensures v[k] == v[k - (j - i)] {
      assert v[i..i + 4][..n][k - j] == v[j..j + 4][..n][k - j];
    }
  }

  // There is only one such length, so the two methods agree.
  lemma MatchLenUnique(v: Bytes, pos: nat, off: nat, limit: nat, r: nat, r': nat)
    requires IsMatchLen(v, pos, off, limit, r) && IsMatchLen(v, pos, off, limit, r')
    ensures r == r'
  {
  }
}
