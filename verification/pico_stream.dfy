/** picocompress streams: frames of at most 508 bytes, each compressed against the history of what
    came before, or stored as it is when compression does not shorten it.
 */
module PicoStream {
  import opened Bits
  import opened Collections
  import opened PicoFormat

  // The last n elements, or all of them when there are fewer.
  function Suffix(s: Bytes, n: nat): (r: Bytes)
    ensures |r| <= n && |r| <= |s|
  {
    if |s| <= n then s else s[|s| - n..]
  }

  lemma SuffixLast(s: Bytes, n: nat)
    ensures |Suffix(s, n)| == (if |s| < n then |s| else n) && s[|s| - |Suffix(s, n)|..] == Suffix(s, n)
  {
    assert s[0..] == s;
  }

  lemma SuffixOfSuffix(a: Bytes, b: Bytes, n: nat)
    ensures Suffix(Suffix(a, n) + b, n) == Suffix(a + b, n)
  {
  }

  // One block of the stream: what it holds and how it was compressed, [] meaning stored.
  datatype Frame = Frame(raw: Bytes, packed: Bytes)

  function Le16(lo: int, hi: int): int {
    lo + 0x100 * hi
  }

  function FrameBytes(f: Frame): Bytes
    requires |f.raw| <= BLOCK_SIZE && |f.packed| <= BLOCK_SIZE
  {
    [|f.raw| % 0x100, |f.raw| / 0x100, |f.packed| % 0x100, |f.packed| / 0x100] + Body(f)
  }

  function Body(f: Frame): Bytes {
    if f.packed == [] then f.raw else f.packed
  }

  ghost predicate ValidFrame(dict: Dictionary, hist: Bytes, f: Frame) {
    && 0 < |f.raw| <= BLOCK_SIZE && |f.packed| < |f.raw|
    && (f.packed != [] ==> Expand(dict, hist, f.packed, |f.raw|) == Some(f.raw))
  }

  function RawOf(fs: seq<Frame>): Bytes {
    if fs == [] then [] else RawOf(fs[..|fs| - 1]) + fs[|fs| - 1].raw
  }

  // Each frame is valid after the history that the frames before it leave.
  ghost predicate ValidFrames(dict: Dictionary, fs: seq<Frame>) {
    fs != [] ==>
      && ValidFrames(dict, fs[..|fs| - 1])
      && ValidFrame(dict, Suffix(RawOf(fs[..|fs| - 1]), HISTORY_SIZE), fs[|fs| - 1])
  }

  function WireOf(fs: seq<Frame>): Bytes
    requires forall f :: f in fs ==> |f.raw| <= BLOCK_SIZE && |f.packed| <= BLOCK_SIZE
  {
    if fs == [] then [] else WireOf(fs[..|fs| - 1]) + FrameBytes(fs[|fs| - 1])
  }

  lemma {:induction false} ValidFramesFit(dict: Dictionary, fs: seq<Frame>)
    requires ValidFrames(dict, fs)
    ensures forall f :: f in fs ==> 0 < |f.raw| <= BLOCK_SIZE && |f.packed| < |f.raw|
  {
    if fs != [] {
      ValidFramesFit(dict, fs[..|fs| - 1]);
    }
  }

  ghost predicate IsEncoding(dict: Dictionary, input: Bytes, wire: Bytes) {
    exists fs: seq<Frame> :: EncodesBy(dict, fs, input, wire)
  }

  ghost predicate EncodesBy(dict: Dictionary, fs: seq<Frame>, input: Bytes, wire: Bytes) {
    && ValidFrames(dict, fs) && RawOf(fs) == input
    && (forall f :: f in fs ==> |f.raw| <= BLOCK_SIZE && |f.packed| <= BLOCK_SIZE)
    && WireOf(fs) == wire
  }

  // The decoder, one byte at a time.
  datatype Status = Fine | Corrupt | NoRoom | Overrun

  datatype Stage = Stage(header: Bytes, payload: Bytes, hist: Bytes, out: Bytes, status: Status) {
    function RawLen(): int requires |header| == 4 { Le16(header[0], header[1]) }
    function CompLen(): int requires |header| == 4 { Le16(header[2], header[3]) }
    function Target(): int requires |header| == 4 { if CompLen() == 0 then RawLen() else CompLen() }
  }

  const START := Stage([], [], [], [], Fine)

  // A complete header: skip it, refuse it, or go on to the payload. The payload buffer holds one
  // block, so a header may be accepted and still announce more than the buffer holds: Overrun.
  function TakeHeader(st: Stage): Stage
    requires |st.header| == 4
  {
    if st.RawLen() == 0 && st.CompLen() == 0 then st.(header := [])
    else if st.RawLen() == 0 || st.RawLen() > BLOCK_SIZE || st.CompLen() > BLOCK_MAX_COMPRESSED then st.(status := Corrupt)
    else if st.CompLen() > BLOCK_SIZE then st.(status := Overrun)
    else st.(payload := [])
  }

  // A complete payload: output the block, unless it is corrupt or there is no room for it.
  function TakePayload(dict: Dictionary, cap: nat, st: Stage): Stage
    requires |st.header| == 4
  {
    match if st.CompLen() == 0 then Some(st.payload) else if st.RawLen() < 0 then None else Expand(dict, st.hist, st.payload, st.RawLen())
    case None => st.(status := Corrupt)
    case Some(block) =>
      if |st.out| + |block| > cap then st.(status := NoRoom)
      else Stage([], [], Suffix(st.hist + block, HISTORY_SIZE), st.out + block, Fine)
  }

  function PushByte(dict: Dictionary, cap: nat, st: Stage, b: byte): Stage {
    if st.status != Fine then st
    else if |st.header| < 4 then
      var st' := st.(header := st.header + [b]);
      if |st'.header| == 4 then TakeHeader(st') else st'
    else if |st.header| > 4 then st.(status := Corrupt)
    else
      var st' := st.(payload := st.payload + [b]);
      if |st'.payload| == st.Target() then TakePayload(dict, cap, st') else st'
  }

  function Feed(dict: Dictionary, cap: nat, st: Stage, data: Bytes): Stage
    decreases |data|
  {
    if data == [] then st else Feed(dict, cap, PushByte(dict, cap, st, data[0]), data[1..])
  }

  // How the input is cut into chunks makes no difference.
  lemma {:induction false} FeedChunks(dict: Dictionary, cap: nat, st: Stage, a: Bytes, b: Bytes)
    ensures Feed(dict, cap, st, a + b) == Feed(dict, cap, Feed(dict, cap, st, a), b)
    decreases |a|
  {
    if a == [] {
      assert a + b == b;
    } else {
      assert (a + b)[1..] == a[1..] + b;
      FeedChunks(dict, cap, PushByte(dict, cap, st, a[0]), a[1..], b);
    }
  }

  lemma {:induction false} FeedAfterError(dict: Dictionary, cap: nat, st: Stage, data: Bytes)
    requires st.status != Fine
    ensures Feed(dict, cap, st, data) == st
    decreases |data|
  {
    if data != [] {
      FeedAfterError(dict, cap, st, data[1..]);
    }
  }

  lemma FeedOne(dict: Dictionary, cap: nat, st: Stage, b: byte)
    ensures Feed(dict, cap, st, [b]) == PushByte(dict, cap, st, b)
  {
    assert [b][1..] == [];
  }

  // Bytes that leave a header or a payload incomplete are only collected.
  lemma {:induction false} FeedCollects(dict: Dictionary, cap: nat, st: Stage, data: Bytes)
    requires st.status == Fine
    requires if |st.header| < 4 then |st.header| + |data| < 4
             else |st.header| == 4 && |st.payload| + |data| < st.Target()
    ensures Feed(dict, cap, st, data)
         == if |st.header| < 4 then st.(header := st.header + data) else st.(payload := st.payload + data)
    decreases |data|
  {
    hide TakePayload, TakeHeader;
    if data == [] {
      assert st.header + data == st.header && st.payload + data == st.payload;
    } else {
      var next := PushByte(dict, cap, st, data[0]);
      FeedCollects(dict, cap, next, data[1..]);
      assert [data[0]] + data[1..] == data;
      assert st.header + [data[0]] + data[1..] == st.header + data;
      assert st.payload + [data[0]] + data[1..] == st.payload + data;
    }
  }

  // The bytes that complete a header, all at once.
  lemma FeedHeader(dict: Dictionary, cap: nat, st: Stage, data: Bytes)
    requires st.status == Fine && data != [] && |st.header| + |data| == 4
    ensures Feed(dict, cap, st, data) == TakeHeader(st.(header := st.header + data))
  {
    var n := |data| - 1;
    assert data[..n] + [data[n]] == data && st.header + data[..n] + [data[n]] == st.header + data;
    FeedChunks(dict, cap, st, data[..n], [data[n]]);
    FeedCollects(dict, cap, st, data[..n]);
    FeedOne(dict, cap, st.(header := st.header + data[..n]), data[n]);
  }

  // The bytes that complete a payload, all at once.
  lemma FeedPayload(dict: Dictionary, cap: nat, st: Stage, data: Bytes)
    requires st.status == Fine && data != [] && |st.header| == 4 && |st.payload| + |data| == st.Target()
    ensures Feed(dict, cap, st, data) == TakePayload(dict, cap, st.(payload := st.payload + data))
  {
    var n := |data| - 1;
    assert data[..n] + [data[n]] == data && st.payload + data[..n] + [data[n]] == st.payload + data;
    FeedChunks(dict, cap, st, data[..n], [data[n]]);
    FeedCollects(dict, cap, st, data[..n]);
    FeedOne(dict, cap, st.(payload := st.payload + data[..n]), data[n]);
  }

  // A valid frame comes out as the block it holds, and the histories stay in step.
  lemma FrameDecodes(dict: Dictionary, cap: nat, hist: Bytes, out: Bytes, f: Frame)
    requires ValidFrame(dict, hist, f) && |out| + |f.raw| <= cap
    ensures Feed(dict, cap, Stage([], [], hist, out, Fine), FrameBytes(f))
         == Stage([], [], Suffix(hist + f.raw, HISTORY_SIZE), out + f.raw, Fine)
  {
    hide Feed, Suffix;
    var h := FrameBytes(f)[..4];
    var st := Stage([], [], hist, out, Fine);
    assert FrameBytes(f) == h + Body(f);
    FeedChunks(dict, cap, st, h, Body(f));
    FeedHeader(dict, cap, st, h);
    var mid := Stage(h, [], hist, out, Fine);
    assert st.header + h == h;
    assert mid.RawLen() == |f.raw| && mid.CompLen() == |f.packed|;
    assert Feed(dict, cap, st, h) == mid;
    FeedPayload(dict, cap, mid, Body(f));
    assert mid.payload + Body(f) == Body(f);
  }

  lemma {:induction false} FramesDecode(dict: Dictionary, cap: nat, fs: seq<Frame>)
    requires ValidFrames(dict, fs) && |RawOf(fs)| <= cap
    requires forall f :: f in fs ==> |f.raw| <= BLOCK_SIZE && |f.packed| <= BLOCK_SIZE
    ensures Feed(dict, cap, START, WireOf(fs)) == Stage([], [], Suffix(RawOf(fs), HISTORY_SIZE), RawOf(fs), Fine)
    decreases |fs|
  {
    if fs != [] {
      var init, f := fs[..|fs| - 1], fs[|fs| - 1];
      FramesDecode(dict, cap, init);
      FeedChunks(dict, cap, START, WireOf(init), FrameBytes(f));
      FrameDecodes(dict, cap, Suffix(RawOf(init), HISTORY_SIZE), RawOf(init), f);
      SuffixOfSuffix(RawOf(init), f.raw, HISTORY_SIZE);
    }
  }

  // What a whole compressed buffer decompresses to, given room for cap bytes.
  function Decoded(dict: Dictionary, wire: Bytes, cap: nat): Option<Bytes> {
    var st := Feed(dict, cap, START, wire);
    if st.status == Fine && st.header == [] then Some(st.out) else None
  }

  // Decoding undoes encoding, and never announces more than the payload buffer holds.
  lemma EncodingDecodes(dict: Dictionary, input: Bytes, wire: Bytes, cap: nat)
    requires IsEncoding(dict, input, wire) && |input| <= cap
    ensures Decoded(dict, wire, cap) == Some(input)
    ensures Feed(dict, cap, START, wire).status == Fine
  {
    var fs :| EncodesBy(dict, fs, input, wire);
    FramesDecode(dict, cap, fs);
  }
}
