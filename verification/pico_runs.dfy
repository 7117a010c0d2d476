/** A whole transfer: input in chunks of any size through the encoder, its output in pieces of any size
    through the decoder.
 */
module PicoRuns {
  import opened Bits
  import opened Collections
  import opened PicoFormat
  import opened PicoStream
  import opened PicoPacking
  import opened PicoCodec

  function Joined(cs: seq<Bytes>): Bytes {
    if cs == [] then [] else Joined(cs[..|cs| - 1]) + cs[|cs| - 1]
  }

  lemma JoinedSnoc(cs: seq<Bytes>, i: nat)
    requires i < |cs|
    ensures Joined(cs[..i + 1]) == Joined(cs[..i]) + cs[i]
  {
    assert cs[..i + 1][..i] == cs[..i];
  }

  lemma {:induction false} JoinedStarts(cs: seq<Bytes>, i: nat)
    requires i <= |cs|
    ensures Joined(cs[..i]) <= Joined(cs)
    decreases |cs| - i
  {
    if i < |cs| {
      JoinedSnoc(cs, i);
      JoinedStarts(cs, i + 1);
    } else {
      assert cs[..i] == cs;
    }
  }

  // A stream cut after these many bytes, again and again.
  function Cut(s: Bytes, at: seq<nat>): seq<Bytes>
    decreases |at|
  {
    if at == [] || at[0] > |s| then [s] else [s[..at[0]]] + Cut(s[at[0]..], at[1..])
  }

  lemma {:induction false} JoinedHead(c: Bytes, cs: seq<Bytes>)
    ensures Joined([c] + cs) == c + Joined(cs)
    decreases |cs|
  {
    var all := [c] + cs;
    if cs == [] {
      assert all[..0] == [];
    } else {
      assert all[..|all| - 1] == [c] + cs[..|cs| - 1];
      JoinedHead(c, cs[..|cs| - 1]);
    }
  }

  lemma {:induction false} CutJoins(s: Bytes, at: seq<nat>)
    ensures Joined(Cut(s, at)) == s
    decreases |at|
  {
    if at == [] || at[0] > |s| {
      assert [s][..0] == [];
    } else {
      JoinedHead(s[..at[0]], Cut(s[at[0]..], at[1..]));
      CutJoins(s[at[0]..], at[1..]);
    }
  }

  function Total(at: seq<nat>): nat {
    if at == [] then 0 else at[0] + Total(at[1..])
  }

  // The pieces are as long as was asked for, and there is one more with the rest.
  lemma {:induction false} CutLengths(s: Bytes, at: seq<nat>)
    requires Total(at) <= |s|
    ensures |Cut(s, at)| == |at| + 1 && forall k :: 0 <= k < |at| ==> |Cut(s, at)[k]| == at[k]
    decreases |at|
  {
    if at != [] {
      CutLengths(s[at[0]..], at[1..]);
      assert Cut(s, at) == [s[..at[0]]] + Cut(s[at[0]..], at[1..]);
    }
  }

  // The bound leaves room for some full blocks, and is exact for all of them and the rest.
  lemma BoundOf(total: nat, full: nat, rest: nat)
    requires rest < BLOCK_SIZE && BLOCK_SIZE * full + rest <= total
    ensures (4 + BLOCK_SIZE) * full <= CompressBound(total)
    ensures total == BLOCK_SIZE * full + rest ==>
      CompressBound(total) == (4 + BLOCK_SIZE) * full + if rest == 0 then 0 else 4 + rest
  {
    hide CompressBound;
    BoundCovers(total);
    DivModUnique(BLOCK_SIZE * full + rest, BLOCK_SIZE, full, rest);
  }

  // After n bytes the writer holds at most the full blocks among them, and the rest is pending.
  ghost predicate InStep(n: nat, rest: nat, len: nat) {
    rest == n % BLOCK_SIZE && len <= (4 + BLOCK_SIZE) * (n / BLOCK_SIZE)
  }

  lemma NextInStep(n: nat, rest: nat, len: nat, more: nat, total: nat)
    requires InStep(n, rest, len) && n + more <= total
    ensures var full := (rest + more) / BLOCK_SIZE;
      InStep(n + more, (rest + more) % BLOCK_SIZE, len + (4 + BLOCK_SIZE) * full)
      && len + (4 + BLOCK_SIZE) * full <= CompressBound(total)
  {
    hide CompressBound;
    var full, left := (rest + more) / BLOCK_SIZE, (rest + more) % BLOCK_SIZE;
    DivModUnique(n + more, BLOCK_SIZE, n / BLOCK_SIZE + full, left);
    BoundOf(total, n / BLOCK_SIZE + full, left);
  }

  lemma LastInStep(n: nat, rest: nat, len: nat)
    requires InStep(n, rest, len) && rest > 0
    ensures len + 4 + rest <= CompressBound(n)
  {
    BoundOf(n, n / BLOCK_SIZE, rest);
  }

  // One chunk of an input of `total` bytes.
  method SinkChunk(enc: Encoder, chunk: Bytes, w: MemWriter, ghost total: nat) returns (ok: bool)
    requires enc.Writes(w) && enc.blockLen < BLOCK_SIZE && InStep(|enc.Fed()|, enc.blockLen, w.len)
    requires |enc.Fed()| + |chunk| <= total
    modifies enc, enc.block, enc.history, w, w.buf
    ensures ok ==> enc.Writes(w) && enc.blockLen < BLOCK_SIZE && enc.Fed() == old(enc.Fed()) + chunk
    ensures ok ==> InStep(|enc.Fed()|, enc.blockLen, w.len)
    ensures ok && old(FullFrom(enc.frames, 0)) ==> FullFrom(enc.frames, 0)
    ensures !ok ==> w.buf.Length < CompressBound(total)
    ensures !ok ==> Refused(enc.dict, old(enc.frames), old(enc.Fed()) + chunk, w.buf.Length)
  {
    hide RawOf, WireOf, ValidFrames, TightFrames, Suffix, CompressBound, Encoder.Fed, RefusedAt, Refused;
    NextInStep(|enc.Fed()|, enc.blockLen, w.len, |chunk|, total);
    ok := enc.Sink(chunk, w);
  }

  // The encoder makes one encoding of all chunks, packed as if they had come in one; a buffer as long as
  // the bound is long enough.
  method EncodeChunks(dict: Dictionary, chunks: seq<Bytes>, w: MemWriter) returns (ok: bool)
    requires w.Valid() && w.len == 0
    modifies w, w.buf
    ensures ok ==> w.Valid() && IsPacking(dict, Joined(chunks), w.Contents())
    ensures ok ==> IsEncoding(dict, Joined(chunks), w.Contents())
    ensures !ok ==> Refused(dict, [], Joined(chunks), w.buf.Length)
    ensures w.buf.Length >= CompressBound(|Joined(chunks)|) ==> ok
  {
    hide RawOf, WireOf, ValidFrames, TightFrames, Suffix, CompressBound, Encoder.Fed, FullFrom, Blocked, RefusedAt, Refused;
    var enc := new Encoder(dict);
    NothingFed(enc);
    ghost var all := Joined(chunks);
    assert Joined(chunks[..0]) == [] && InStep(0, 0, 0);
    NoneYet(enc);
    hide Joined, InStep;
    for i := 0 to |chunks|
      invariant enc.Writes(w) && enc.Fed() == Joined(chunks[..i])
      invariant enc.blockLen < BLOCK_SIZE && InStep(|enc.Fed()|, enc.blockLen, w.len) && FullFrom(enc.frames, 0)
    {
      JoinedSnoc(chunks, i);
      JoinedStarts(chunks, i + 1);
      ghost var before := enc.frames;
      ok := SinkChunk(enc, chunks[i], w, |all|);
      if !ok {
        RefusedSooner(dict, before, Joined(chunks[..i + 1]), all, w.buf.Length);
        return;
      }
    }
    assert chunks[..|chunks|] == chunks;
    if enc.blockLen > 0 {
      LastInStep(|all|, enc.blockLen, w.len);
    }
    ghost var full := enc.frames;
    ok := enc.Finish(w);
    if !ok {
      RefusedLater(dict, [], full, all, all, w.buf.Length);
    } else {
      LastBlocked(full, enc.frames);
      assert PacksBy(dict, enc.frames, all, w.Contents());
    }
  }

  lemma NoneYet(enc: Encoder)
    requires enc.frames == []
    ensures FullFrom(enc.frames, 0)
  {
  }

  // The decoder does the same with a stream however it is cut.
  method DecodeChunks(dict: Dictionary, chunks: seq<Bytes>, w: MemWriter) returns (ok: bool)
    requires w.Valid() && w.len == 0
    modifies w, w.buf
    ensures ok ==> w.Valid()
    ensures Decoded(dict, Joined(chunks), w.buf.Length) == if ok then Some(w.Contents()) else None
  {
    var dec := new Decoder(dict);
    ghost var cap := w.buf.Length;
    ghost var all := Joined(chunks);
    assert dec.Abs(w) == START == Feed(dict, cap, START, Joined(chunks[..0]));
    hide Feed, Joined;
    for i := 0 to |chunks|
      invariant dec.Writes(w) && dec.Open() && dec.Abs(w) == Feed(dict, cap, START, Joined(chunks[..i]))
    {
      JoinedSnoc(chunks, i);
      FeedChunks(dict, cap, START, Joined(chunks[..i]), chunks[i]);
      var status := dec.Sink(chunks[i], w);
      if status != Fine {
        JoinedStarts(chunks, i + 1);
        ghost var seen := Joined(chunks[..i + 1]);
        assert all == seen + all[|seen|..];
        FeedChunks(dict, cap, START, seen, all[|seen|..]);
        FeedAfterError(dict, cap, Feed(dict, cap, START, seen), all[|seen|..]);
        return false;
      }
    }
    assert chunks[..|chunks|] == chunks;
    ok := dec.Finish();
  }

  // However the input is cut into chunks, and however the bytes sent are cut on their way, what comes
  // out is what went in. `cuts` says where the stream is cut, whatever it turns out to be.
  method Transfer(dict: Dictionary, chunks: seq<Bytes>, wire: MemWriter, cuts: seq<nat>, w: MemWriter)
    requires wire.Valid() && wire.len == 0 && wire.buf.Length >= CompressBound(|Joined(chunks)|)
    requires w != wire && w.Valid() && w.len == 0 && w.buf.Length >= |Joined(chunks)|
    modifies wire, wire.buf, w, w.buf
    ensures w.Valid() && w.Contents() == Joined(chunks)
  {
    hide Joined, CompressBound, Decoded, IsEncoding, IsPacking;
    var sent := EncodeChunks(dict, chunks, wire);
    var bytes := wire.buf[..wire.len];
    EncodingDecodes(dict, Joined(chunks), bytes, w.buf.Length);
    CutJoins(bytes, cuts);
    var received := DecodeChunks(dict, Cut(bytes, cuts), w);
  }
}
