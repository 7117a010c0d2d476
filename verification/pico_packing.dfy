/** What the streaming encoder makes of its input: full blocks and a last one, each as the block encoder
    packs it after its history, or stored as it is when that is no longer.
 */
module PicoPacking {
  import opened Bits
  import opened PicoFormat
  import opened PicoSteps
  import opened PicoStream
  import PicoRepeats

  // The frame holds what the block encoder makes of its block, if that is shorter.
  ghost predicate Tight(dict: Dictionary, hist: Bytes, f: Frame) {
    && |hist| + |f.raw| < 0x10000
    && exists o :: Packs(dict, hist + f.raw, |hist|, o) && f.packed == if |o| < |f.raw| then o else []
  }

  ghost predicate TightFrames(dict: Dictionary, fs: seq<Frame>) {
    fs != [] ==>
      && TightFrames(dict, fs[..|fs| - 1])
      && Tight(dict, Suffix(RawOf(fs[..|fs| - 1]), HISTORY_SIZE), fs[|fs| - 1])
  }

  lemma TightSnoc(dict: Dictionary, fs: seq<Frame>, f: Frame)
    requires TightFrames(dict, fs) && Tight(dict, Suffix(RawOf(fs), HISTORY_SIZE), f)
    ensures TightFrames(dict, fs + [f])
  {
    assert (fs + [f])[..|fs|] == fs;
  }

  // The frames from number n on hold full blocks.
  predicate FullFrom(fs: seq<Frame>, n: nat) {
    n <= |fs| && forall i :: n <= i < |fs| ==> |fs[i].raw| == BLOCK_SIZE
  }

  lemma FullMore(a: seq<Frame>, b: seq<Frame>, n: nat)
    requires n <= |a| && a <= b && FullFrom(a, n) && FullFrom(b, |a|)
    ensures FullFrom(b, n)
  {
    assert forall i :: 0 <= i < |a| ==> b[i] == a[i];
  }

  // All but the last hold full blocks.
  predicate Blocked(fs: seq<Frame>) {
    fs == [] || FullFrom(fs[..|fs| - 1], 0)
  }

  ghost predicate PacksBy(dict: Dictionary, fs: seq<Frame>, input: Bytes, wire: Bytes) {
    EncodesBy(dict, fs, input, wire) && TightFrames(dict, fs) && Blocked(fs)
  }

  ghost predicate IsPacking(dict: Dictionary, input: Bytes, wire: Bytes) {
    exists fs: seq<Frame> :: PacksBy(dict, fs, input, wire)
  }

  // After these frames the next one does not fit.
  ghost predicate RefusedAt(dict: Dictionary, base: seq<Frame>, fed: Bytes, cap: nat) {
    exists f, wire :: RefusedBy(dict, base, f, wire, fed, cap)
  }

  ghost predicate RefusedBy(dict: Dictionary, base: seq<Frame>, f: Frame, wire: Bytes, fed: Bytes, cap: nat) {
    EncodesBy(dict, base + [f], fed, wire) && TightFrames(dict, base + [f]) && cap < |wire|
  }

  // Packing the input goes beyond the room for it, with these frames or after more full ones.
  ghost predicate Refused(dict: Dictionary, before: seq<Frame>, input: Bytes, cap: nat) {
    exists base, fed :: RefusedIn(dict, before, base, fed, input, cap)
  }

  ghost predicate RefusedIn(dict: Dictionary, before: seq<Frame>, base: seq<Frame>, fed: Bytes, input: Bytes, cap: nat) {
    before <= base && FullFrom(base, |before|) && fed <= input && RefusedAt(dict, base, fed, cap)
  }

  lemma RefusedLater(dict: Dictionary, before: seq<Frame>, base: seq<Frame>, fed: Bytes, input: Bytes, cap: nat)
    requires before <= base && FullFrom(base, |before|) && fed <= input && RefusedAt(dict, base, fed, cap)
    ensures Refused(dict, before, input, cap)
  {
    hide RefusedAt, FullFrom;
    assert RefusedIn(dict, before, base, fed, input, cap);
  }

  lemma RefusedSooner(dict: Dictionary, before: seq<Frame>, part: Bytes, input: Bytes, cap: nat)
    requires Refused(dict, before, part, cap) && FullFrom(before, 0) && part <= input
    ensures Refused(dict, [], input, cap)
  {
    hide RefusedAt;
    var base, fed :| RefusedIn(dict, before, base, fed, part, cap);
    assert forall i :: 0 <= i < |before| ==> base[i] == before[i];
    RefusedLater(dict, [], base, fed, input, cap);
  }

  lemma PackingEncodes(dict: Dictionary, input: Bytes, wire: Bytes)
    requires IsPacking(dict, input, wire)
    ensures IsEncoding(dict, input, wire)
  {
  }

  lemma LastBlocked(before: seq<Frame>, after: seq<Frame>)
    requires FullFrom(before, 0) && (after == before || (after != [] && after[..|after| - 1] == before))
    ensures Blocked(after)
  {
  }

  lemma RawGrows(fs: seq<Frame>)
    requires fs != []
    ensures |RawOf(fs)| == |RawOf(fs[..|fs| - 1])| + |fs[|fs| - 1].raw|
  {
  }

  lemma OneOf(f: Frame)
    requires |f.raw| <= BLOCK_SIZE && |f.packed| <= BLOCK_SIZE
    ensures RawOf([f]) == f.raw && WireOf([f]) == FrameBytes(f)
  {
    assert [f][..0] == [] && [] + f.raw == f.raw && [] + FrameBytes(f) == FrameBytes(f);
  }

  lemma OverBlock(fs: seq<Frame>)
    requires |fs| >= 2 && Blocked(fs) && forall f :: f in fs ==> 0 < |f.raw|
    ensures |RawOf(fs)| > BLOCK_SIZE
  {
    hide RawOf;
    var n := |fs| - 1;
    RawGrows(fs);
    RawGrows(fs[..n]);
    assert fs[n] in fs && |fs[..n][n - 1].raw| == BLOCK_SIZE;
  }

  // One block or less makes one frame.
  lemma OneFrame(dict: Dictionary, fs: seq<Frame>, input: Bytes, wire: Bytes)
    requires PacksBy(dict, fs, input, wire) && 0 < |input| <= BLOCK_SIZE
    ensures |fs| == 1 && fs[0].raw == input && |fs[0].packed| <= BLOCK_SIZE && wire == FrameBytes(fs[0])
    ensures Tight(dict, [], fs[0])
  {
    hide ValidFrames, Tight, FrameBytes, WireOf, RawOf;
    var n := |fs| - 1;
    ValidFramesFit(dict, fs);
    assert RawOf([]) == [] by { NoRaw(); }
    if n > 0 {
      OverBlock(fs);
    } else {
      assert fs == [fs[0]] && fs[..0] == [];
      OneOf(fs[0]);
      NoneKept();
    }
  }

  lemma NoRaw()
    ensures RawOf([]) == []
  {
  }

  lemma NoneKept()
    ensures Suffix([], HISTORY_SIZE) == []
  {
  }

  // A run of one byte value is packed, to three eighths of its length and a few bytes.
  lemma RunPacks(dict: Dictionary, x: Bytes, wire: Bytes)
    requires PicoRepeats.AllSame(x) && 8 <= |x| <= BLOCK_SIZE && IsPacking(dict, x, wire)
    ensures 8 * |wire| <= 3 * |x| + 99 && (|x| >= 64 ==> |wire| < |x|)
  {
    hide PicoRepeats.AllSame, Packs;
    var fs: seq<Frame> :| PacksBy(dict, fs, x, wire);
    OneFrame(dict, fs, x, wire);
    var o :| Packs(dict, [] + x, 0, o) && fs[0].packed == if |o| < |x| then o else [];
    assert [] + x == x;
    PicoRepeats.RunShrinks(dict, x, o);
  }
}
