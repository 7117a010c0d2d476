/** The picocompress token format: what a block of tokens expands to.

    The window is the history followed by the output so far. A match token copies from a
    distance back in the window, byte by byte, so a copy may read bytes it has just produced.
 */
module PicoFormat {
  import opened Bits
  import opened Collections

  const BLOCK_SIZE := 508
  const HISTORY_SIZE := 504
  const LITERAL_MAX := 64
  const MATCH_MIN := 2
  const MATCH_MAX := 33
  const LONG_MATCH_MAX := 17
  const OFFSET_SHORT_MAX := 511
  const DICT_COUNT := 96
  const BLOCK_MAX_COMPRESSED := BLOCK_SIZE + BLOCK_SIZE / LITERAL_MAX + 16

  // Any table with as many entries as the static one, each between 3 and 8 bytes long.
  type Dictionary = d: seq<Bytes> | |d| == 96 && forall i :: 0 <= i < 96 ==> 3 <= |d[i]| <= 8
    witness seq(96, _ => [0, 0, 0])

  // The window and the distance of the last explicit match (0 when there was none).
  datatype State = State(win: Bytes, last: nat)

  // n more bytes, each a copy of the one off back.
  function CopyBack(w: Bytes, off: nat, n: nat): (r: Bytes)
    requires 0 < off <= |w|
    ensures |r| == |w| + n && w <= r
    decreases n
  {
    if n == 0 then w else CopyBack(w + [w[|w| - off]], off, n - 1)
  }

  function Copied(st: State, off: nat, n: nat, limit: nat): Option<State> {
    if off == 0 || off > |st.win| || |st.win| + n > limit then None
    else Some(State(CopyBack(st.win, off, n), st.last))
  }

  function Appended(st: State, bytes: Bytes, limit: nat): Option<State> {
    if |st.win| + |bytes| > limit then None else Some(State(st.win + bytes, st.last))
  }

  // An explicit match also becomes the last distance.
  function Matched(st: State, off: nat, n: nat, limit: nat): Option<State> {
    Copied(State(st.win, off), off, n, limit)
  }

  function Be16(hi: int, lo: int): int {
    0x100 * hi + lo
  }

  // Number of bytes in the token that starts inp, its operands included.
  function TokenSize(inp: Bytes): (n: nat)
    requires inp != []
    ensures n >= 1
  {
    var t := inp[0];
    if t < 0x40 then 2 + t
    else if 0x80 <= t < 0xC0 then 2
    else if t >= 0xF0 then 3
    else 1
  }

  // The effect of the token that starts inp, or None if it is corrupt.
  function Token(dict: Dictionary, inp: Bytes, st: State, limit: nat): (r: Option<State>)
    requires inp != [] && TokenSize(inp) <= |inp|
  {
    var t := inp[0];
    if t < 0x40 then Appended(st, inp[1..2 + t], limit)
    else if t < 0x80 then Appended(st, dict[t - 0x40], limit)
    else if t < 0xC0 then Matched(st, Be16(t % 2, inp[1]), t / 2 % 32 + MATCH_MIN, limit)
    else if t < 0xD0 then Copied(st, st.last, t % 16 + MATCH_MIN, limit)
    else if t < 0xE0 then Appended(st, dict[80 + t % 16], limit)
    else if t < 0xF0 then Appended(st, dict[64 + t % 16], limit)
    else Matched(st, Be16(inp[1], inp[2]), t % 16 + MATCH_MIN, limit)
  }

  // What a whole token string does to the window; None when any token is corrupt or truncated,
  // or when the window would outgrow its limit.
  function Run(dict: Dictionary, inp: Bytes, st: State, limit: nat): Option<State>
    decreases |inp|
  {
    if inp == [] then Some(st)
    else if TokenSize(inp) > |inp| then None
    else match Token(dict, inp, st, limit)
      case None => None
      case Some(st') => Run(dict, inp[TokenSize(inp)..], st', limit)
  }

  // The block a token string stands for after some history.
  function Expand(dict: Dictionary, hist: Bytes, inp: Bytes, outLen: nat): Option<Bytes> {
    match Run(dict, inp, State(hist, 0), |hist| + outLen)
    case None => None
    case Some(st) => if |hist| + outLen == |st.win| then Some(st.win[|hist|..]) else None
  }

  lemma TokenAppend(dict: Dictionary, a: Bytes, b: Bytes, st: State, limit: nat)
    requires a != [] && TokenSize(a) <= |a|
    ensures TokenSize(a + b) == TokenSize(a)
    ensures Token(dict, a + b, st, limit) == Token(dict, a, st, limit)
    ensures (a + b)[TokenSize(a)..] == a[TokenSize(a)..] + b
  {
    var c, n := a + b, TokenSize(a);
    assert c[0] == a[0];
    if a[0] < 0x40 {
      assert c[1..n] == a[1..n];
    }
  }

  lemma {:induction false} RunAppend(dict: Dictionary, a: Bytes, b: Bytes, st: State, limit: nat)
    requires Run(dict, a, st, limit).Some?
    ensures Run(dict, a + b, st, limit) == Run(dict, b, Run(dict, a, st, limit).value, limit)
    decreases |a|
  {
    if a == [] {
      assert a + b == b;
    } else {
      TokenAppend(dict, a, b, st, limit);
      RunAppend(dict, a[TokenSize(a)..], b, Token(dict, a, st, limit).value, limit);
    }
  }

  // The bytes at pos repeat the n bytes that start off earlier.
  predicate Repeats(v: Bytes, pos: nat, off: nat, n: nat) {
    0 < off <= pos && pos + n <= |v| && forall j :: pos <= j < pos + n ==> v[j] == v[j - off]
  }

  lemma {:induction false} CopyBackRebuilds(v: Bytes, pos: nat, off: nat, n: nat)
    requires Repeats(v, pos, off, n)
    ensures CopyBack(v[..pos], off, n) == v[..pos + n]
    decreases n
  {
    if n > 0 {
      assert v[..pos] + [v[..pos][pos - off]] == v[..pos + 1];
      CopyBackRebuilds(v, pos + 1, off, n - 1);
    }
  }

  // The window only grows, so a block is always a suffix of the final window.
  lemma {:induction false} RunExtends(dict: Dictionary, inp: Bytes, st: State, limit: nat)
    requires Run(dict, inp, st, limit).Some?
    ensures st.win <= Run(dict, inp, st, limit).value.win
    decreases |inp|
  {
    if inp != [] {
      RunExtends(dict, inp[TokenSize(inp)..], Token(dict, inp, st, limit).value, limit);
    }
  }
}
