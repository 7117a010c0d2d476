/** What the block encoder writes: tokens for choices, and literal runs.
 */
module PicoTokens {
  import opened Bits
  import opened Collections
  import opened PicoFormat
  import opened PicoSearch

  // The bytes that stand for a choice, and how far they advance.
  function TokenBytes(c: Choice): Bytes
    requires c.len >= 2 && c.off < 0x10000
    requires c.entry < DICT_COUNT || c.entry == NO_ENTRY
  {
    if c.entry != NO_ENTRY then
      if c.entry < 64 then [0x40 + c.entry]
      else if c.entry < 80 then [0xE0 + (c.entry - 64)]
      else [0xD0 + (c.entry - 80)]
    else if c.rep then [0xC0 + (c.len - MATCH_MIN) % 16]
    else if c.off <= OFFSET_SHORT_MAX && c.len <= MATCH_MAX then
      [0x80 + (c.len - MATCH_MIN) % 32 * 2 + c.off / 0x100 % 2, c.off % 0x100]
    else
      [0xF0 + (EmittedLen(c) - MATCH_MIN) % 16, c.off / 0x100, c.off % 0x100]
  }

  function EmittedLen(c: Choice): nat {
    if c.entry == NO_ENTRY && !c.rep && !(c.off <= OFFSET_SHORT_MAX && c.len <= MATCH_MAX) && c.len > LONG_MATCH_MAX
    then LONG_MATCH_MAX else c.len
  }

  function LastAfter(c: Choice, last: nat): nat {
    if !c.rep && c.off != 0 && c.entry == NO_ENTRY then c.off else last
  }

  lemma RunOne(dict: Dictionary, t: Bytes, st: State, limit: nat)
    requires t != [] && TokenSize(t) == |t|
    ensures Run(dict, t, st, limit) == Token(dict, t, st, limit)
  {
    assert t[|t|..] == [];
  }

  lemma EntryDecodes(dict: Dictionary, c: Choice, st: State, limit: nat)
    requires c.len >= 2 && c.off < 0x10000 && c.entry < DICT_COUNT && |st.win| + |dict[c.entry]| <= limit
    ensures Run(dict, TokenBytes(c), st, limit) == Some(State(st.win + dict[c.entry], st.last))
  {
    RunOne(dict, TokenBytes(c), st, limit);
  }

  lemma RepeatToken(dict: Dictionary, c: Choice, st: State, limit: nat)
    requires MATCH_MIN <= c.len <= LONG_MATCH_MAX && c.off < 0x10000 && c.entry == NO_ENTRY && c.rep
    ensures TokenSize(TokenBytes(c)) == 1
    ensures Token(dict, TokenBytes(c), st, limit) == Copied(st, st.last, c.len, limit)
  {
    hide Copied, Appended, Matched, Be16;
    var t: int := 0xC0 + (c.len - MATCH_MIN);
    assert TokenBytes(c)[0] == t && 0xC0 <= t < 0xD0 && t % 16 + MATCH_MIN == c.len;
  }

  lemma ShortFields(len: nat, off: nat)
    requires MATCH_MIN <= len <= MATCH_MAX && off <= OFFSET_SHORT_MAX
    ensures var t := 0x80 + (len - MATCH_MIN) % 32 * 2 + off / 0x100 % 2;
            0x80 <= t < 0xC0 && t / 2 % 32 + MATCH_MIN == len && Be16(t % 2, off % 0x100) == off
  {
  }

  lemma ShortToken(dict: Dictionary, c: Choice, st: State, limit: nat)
    requires MATCH_MIN <= c.len <= MATCH_MAX && c.off <= OFFSET_SHORT_MAX && c.entry == NO_ENTRY && !c.rep
    ensures TokenSize(TokenBytes(c)) == 2
    ensures Token(dict, TokenBytes(c), st, limit) == Matched(st, c.off, c.len, limit)
  {
    ShortFields(c.len, c.off);
  }

  lemma LongToken(dict: Dictionary, c: Choice, st: State, limit: nat)
    requires MATCH_MIN <= c.len && OFFSET_SHORT_MAX < c.off < 0x10000 && c.entry == NO_ENTRY && !c.rep
    ensures TokenSize(TokenBytes(c)) == 3
    ensures Token(dict, TokenBytes(c), st, limit) == Matched(st, c.off, EmittedLen(c), limit)
  {
    var t := TokenBytes(c);
    assert t[0] % 16 + MATCH_MIN == EmittedLen(c);
    assert Be16(t[1], t[2]) == c.off;
  }

  lemma MatchDecodes(dict: Dictionary, c: Choice, st: State, limit: nat)
    requires c.len >= MATCH_MIN && 0 < c.off < 0x10000 && c.entry == NO_ENTRY
    requires c.rep ==> c.off == st.last && c.len <= LONG_MATCH_MAX
    requires !c.rep ==> c.len <= MATCH_MAX
    ensures Run(dict, TokenBytes(c), st, limit) == Copied(State(st.win, LastAfter(c, st.last)), c.off, EmittedLen(c), limit)
  {
    if c.rep {
      RepeatToken(dict, c, st, limit);
    } else if c.off <= OFFSET_SHORT_MAX {
      ShortToken(dict, c, st, limit);
    } else {
      LongToken(dict, c, st, limit);
    }
    RunOne(dict, TokenBytes(c), st, limit);
  }

  lemma UsableEntryDecodes(dict: Dictionary, v: Bytes, pos: nat, last: nat, c: Choice)
    requires c.entry != NO_ENTRY && Usable(dict, v, pos, last, c)
    ensures pos + EmittedLen(c) <= |v|
    ensures Run(dict, TokenBytes(c), State(v[..pos], last), |v|)
         == Some(State(v[..pos + EmittedLen(c)], LastAfter(c, last)))
  {
    assert v[..pos] + v[pos..pos + c.len] == v[..pos + c.len];
    EntryDecodes(dict, c, State(v[..pos], last), |v|);
  }

  lemma UsableMatchDecodes(dict: Dictionary, v: Bytes, pos: nat, last: nat, c: Choice)
    requires |v| < 0x10000 && c.entry == NO_ENTRY && Usable(dict, v, pos, last, c)
    ensures pos + EmittedLen(c) <= |v|
    ensures Run(dict, TokenBytes(c), State(v[..pos], last), |v|)
         == Some(State(v[..pos + EmittedLen(c)], LastAfter(c, last)))
  {
    CopyBackRebuilds(v, pos, c.off, EmittedLen(c));
    MatchDecodes(dict, c, State(v[..pos], last), |v|);
  }

  // The decoder undoes a token, and its idea of the last distance follows the encoder's.
  lemma TokenDecodes(dict: Dictionary, v: Bytes, pos: nat, last: nat, c: Choice)
    requires |v| < 0x10000 && Usable(dict, v, pos, last, c)
    ensures pos + EmittedLen(c) <= |v|
    ensures Run(dict, TokenBytes(c), State(v[..pos], last), |v|)
         == Some(State(v[..pos + EmittedLen(c)], LastAfter(c, last)))
  {
    if c.entry != NO_ENTRY {
      UsableEntryDecodes(dict, v, pos, last, c);
    } else {
      UsableMatchDecodes(dict, v, pos, last, c);
    }
  }

  // A token the encoder chooses is shorter than what it stands for.
  lemma TokenSaves(dict: Dictionary, v: Bytes, pos: nat, last: nat, c: Choice)
    requires |v| < 0x10000 && c.savings > 0 && Usable(dict, v, pos, last, c)
    ensures |TokenBytes(c)| < EmittedLen(c)
  {
  }

  // Literal runs: chunks of at most 64 bytes, each behind its length.
  function LitBytes(src: Bytes): (r: Bytes)
    ensures |r| == |src| + (|src| + 63) / 64
    decreases |src|
  {
    if src == [] then []
    else
      var n := if |src| > LITERAL_MAX then LITERAL_MAX else |src|;
      [n - 1] + src[..n] + LitBytes(src[n..])
  }

  lemma {:induction false} LiteralsDecode(dict: Dictionary, src: Bytes, st: State, limit: nat)
    requires |st.win| + |src| <= limit
    ensures Run(dict, LitBytes(src), st, limit) == Some(State(st.win + src, st.last))
    decreases |src|
  {
    if src == [] {
      assert st.win + src == st.win;
    } else {
      var n := if |src| > LITERAL_MAX then LITERAL_MAX else |src|;
      var t := LitBytes(src);
      assert TokenSize(t) == 1 + n && t[1..1 + n] == src[..n] && t[1 + n..] == LitBytes(src[n..]);
      LiteralsDecode(dict, src[n..], State(st.win + src[..n], st.last), limit);
      assert st.win + src[..n] + src[n..] == st.win + src;
    }
  }

  // What is left to write after n bytes of a literal run.
  lemma LitBytesStep(sofar: Bytes, src: Bytes, pos: nat, n: nat)
    requires 0 < n <= LITERAL_MAX && pos + n <= |src| && (n < LITERAL_MAX ==> pos + n == |src|)
    ensures sofar + [n - 1] + src[pos..pos + n] + LitBytes(src[pos + n..]) == sofar + LitBytes(src[pos..])
  {
    var rest := src[pos..];
    assert rest[..n] == src[pos..pos + n] && rest[n..] == src[pos + n..];
    assert LitBytes(rest) == [n - 1] + rest[..n] + LitBytes(rest[n..]);
  }
}
