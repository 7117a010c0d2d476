/** The streaming encoder and decoder objects, and the buffer-to-buffer wrappers around them. */
module PicoCodec {
  import opened Bits
  import opened Collections
  import opened PicoFormat
  import opened PicoStream
  import opened PicoPacking
  import PicoEncoder
  import PicoDecoder

  // The writer behind the buffer wrappers: refuses what does not fit.
  class MemWriter {
    const buf: array<byte>
    var len: nat

    ghost predicate Valid() reads this {
      len <= buf.Length
    }

    ghost function Contents(): Bytes
      reads this, buf
      requires Valid()
    {
      buf[..len]
    }

    constructor (buf: array<byte>)
      ensures Valid() && this.buf == buf && Contents() == []
    {
      this.buf := buf;
      len := 0;
    }

    method Write(data: Bytes) returns (ok: bool)
      requires Valid()
      modifies this, buf
      ensures Valid()
      ensures ok <==> old(len) + |data| <= buf.Length
      ensures Contents() == if ok then old(Contents()) + data else old(Contents())
    {
      ok := len + |data| <= buf.Length;
      if ok {
        forall k | 0 <= k < |data| {
          buf[len + k] := data[k];
        }
        len := len + |data|;
      }
    }
  }

  // Slide the history: keep the last bytes of what it was followed by data.
  method UpdateHistory(hist: array<byte>, histLen: nat, data: Bytes) returns (n: nat)
    requires hist.Length == HISTORY_SIZE && histLen <= HISTORY_SIZE
    modifies hist
    ensures n <= HISTORY_SIZE && hist[..n] == Suffix(old(hist[..histLen]) + data, HISTORY_SIZE)
  {
    ghost var all := hist[..histLen] + data;
    if |data| >= HISTORY_SIZE {
      forall k | 0 <= k < HISTORY_SIZE {
        hist[k] := data[|data| - HISTORY_SIZE + k];
      }
      n := HISTORY_SIZE;
      assert hist[..n] == all[|all| - n..];
    } else if histLen + |data| <= HISTORY_SIZE {
      forall k | 0 <= k < |data| {
        hist[histLen + k] := data[k];
      }
      n := histLen + |data|;
      assert hist[..n] == all;
    } else {
      var keep := HISTORY_SIZE - |data|;
      if keep > histLen {
        keep := histLen;
      }
      forall k | 0 <= k < keep {
        hist[k] := hist[histLen - keep + k];
      }
      forall k | 0 <= k < |data| {
        hist[keep + k] := data[k];
      }
      n := keep + |data|;
      assert hist[..n] == all[|all| - n..];
    }
  }

  // Compress a block after its history, or store it when that is no longer.
  method PackBlock(dict: Dictionary, hist: Bytes, raw: Bytes) returns (f: Frame)
    requires |hist| <= HISTORY_SIZE && 0 < |raw| <= BLOCK_SIZE
    ensures f.raw == raw && ValidFrame(dict, hist, f) && Tight(dict, hist, f)
  {
    var tmp := new byte[BLOCK_MAX_COMPRESSED];
    var n := PicoEncoder.CompressBlock(dict, hist + raw, |hist|, tmp);
    assert (hist + raw)[..|hist|] == hist && (hist + raw)[|hist|..] == raw;
    f := Frame(raw, if n == PicoEncoder.OVERFLOW || n >= |raw| then [] else tmp[..n]);
  }

  method WriteFrame(w: MemWriter, f: Frame) returns (ok: bool)
    requires w.Valid() && |f.raw| <= BLOCK_SIZE && |f.packed| <= |f.raw|
    modifies w, w.buf
    ensures w.Valid()
    ensures ok <==> old(w.len) + |FrameBytes(f)| <= w.buf.Length
    ensures ok ==> w.Contents() == old(w.Contents()) + FrameBytes(f)
  {
    var header := FrameBytes(f)[..4];
    assert FrameBytes(f) == header + Body(f);
    ok := w.Write(header);
    if ok {
      ok := w.Write(Body(f));
    }
  }

  // One more valid frame.
  lemma FramesSnoc(dict: Dictionary, fs: seq<Frame>, f: Frame)
    requires ValidFrames(dict, fs) && ValidFrame(dict, Suffix(RawOf(fs), HISTORY_SIZE), f)
    requires forall g :: g in fs ==> |g.raw| <= BLOCK_SIZE && |g.packed| <= BLOCK_SIZE
    ensures ValidFrames(dict, fs + [f])
    ensures RawOf(fs + [f]) == RawOf(fs) + f.raw && WireOf(fs + [f]) == WireOf(fs) + FrameBytes(f)
  {
    assert (fs + [f])[..|fs|] == fs;
  }

  // A total that fills some blocks and leaves a rest.
  lemma FullBlocks(total: nat, full: nat, rest: nat)
    requires total == BLOCK_SIZE * full + rest
    ensures full <= total / BLOCK_SIZE
    ensures rest < BLOCK_SIZE ==> full == total / BLOCK_SIZE && rest == total % BLOCK_SIZE
  {
  }

  lemma NoMore(fs: seq<Frame>)
    ensures FullFrom(fs, |fs|)
  {
  }

  lemma FedPrefix(fed: Bytes, data: Bytes, pos: nat)
    requires pos <= |data|
    ensures fed + data[..pos] <= fed + data
  {
  }

  class Encoder {
    const dict: Dictionary
    const block: array<byte>
    var blockLen: nat
    const history: array<byte>
    var historyLen: nat
    ghost var frames: seq<Frame>  // what has been written

    ghost predicate Valid()
      reads this, block, history
    {
      && block.Length == BLOCK_SIZE && history.Length == HISTORY_SIZE && block != history
      && blockLen <= BLOCK_SIZE && historyLen <= HISTORY_SIZE
      && ValidFrames(dict, frames) && TightFrames(dict, frames)
      && (forall f :: f in frames ==> |f.raw| <= BLOCK_SIZE && |f.packed| <= BLOCK_SIZE)
      && history[..historyLen] == Suffix(RawOf(frames), HISTORY_SIZE)
    }

    // The writer is not part of the encoder and holds exactly the frames written.
    ghost predicate Writes(w: MemWriter)
      reads this, block, history, w, w.buf
    {
      Valid() && w.Valid() && w.buf != block && w.buf != history && w.Contents() == WireOf(frames)
    }

    // Everything the encoder was given.
    ghost function Fed(): Bytes
      reads this, block, history
      requires Valid()
    {
      RawOf(frames) + block[..blockLen]
    }

    constructor (dict: Dictionary)
      ensures Valid() && fresh(block) && fresh(history)
      ensures this.dict == dict && blockLen == 0 && frames == []
    {
      this.dict := dict;
      block := new byte[BLOCK_SIZE];
      history := new byte[HISTORY_SIZE];
      blockLen, historyLen, frames := 0, 0, [];
    }

    // Turn the pending block into a frame. Fails only when the writer is full.
    method Flush(w: MemWriter) returns (ok: bool)
      requires Writes(w)
      modifies this, history, w, w.buf
      ensures ok ==> Writes(w) && blockLen == 0 && Fed() == old(Fed())
      ensures ok ==> if old(blockLen) == 0 then frames == old(frames)
        else |frames| > 0 && frames[..|frames| - 1] == old(frames) && frames[|frames| - 1].raw == old(block[..blockLen])
      ensures ok ==> w.len <= old(w.len) + (if old(blockLen) == 0 then 0 else 4 + old(blockLen))
      ensures !ok ==> old(blockLen) > 0 && w.buf.Length < old(w.len) + 4 + old(blockLen)
      ensures !ok ==> RefusedAt(dict, old(frames), old(Fed()), w.buf.Length)
    {
      hide RawOf, WireOf, ValidFrames, TightFrames, Tight, Suffix;
      if blockLen == 0 {
        return true;
      }
      var raw := block[..blockLen];
      var f := PackBlock(dict, history[..historyLen], raw);
      FramesSnoc(dict, frames, f);
      TightSnoc(dict, frames, f);
      SuffixOfSuffix(RawOf(frames), raw, HISTORY_SIZE);
      historyLen := UpdateHistory(history, historyLen, raw);
      ok := WriteFrame(w, f);
      if ok {
        blockLen := 0;
        frames := frames + [f];
      } else {
        assert RefusedBy(dict, frames, f, WireOf(frames + [f]), RawOf(frames + [f]), w.buf.Length);
      }
    }

    // Copy part of the input to the end of the pending block.
    method Buffer(data: Bytes)
      requires Valid() && blockLen + |data| <= BLOCK_SIZE
      modifies this`blockLen, block
      ensures Valid() && blockLen == old(blockLen) + |data| && Fed() == old(Fed()) + data
    {
      hide RawOf, WireOf, ValidFrames, TightFrames, Tight, Suffix;
      ghost var before := block[..blockLen];
      forall k | 0 <= k < |data| {
        block[blockLen + k] := data[k];
      }
      blockLen := blockLen + |data|;
      assert block[..blockLen] == before + data;
    }

    // Accept input up to the end of the block, and flush a full block.
    method SinkSome(data: Bytes, w: MemWriter) returns (ok: bool)
      requires Writes(w) && blockLen + |data| <= BLOCK_SIZE
      modifies this, block, history, w, w.buf
      ensures ok ==> Writes(w) && blockLen < BLOCK_SIZE && Fed() == old(Fed()) + data
      ensures ok ==> old(frames) <= frames && FullFrom(frames, |old(frames)|)
      ensures ok ==> blockLen == if old(blockLen) + |data| == BLOCK_SIZE then 0 else old(blockLen) + |data|
      ensures ok ==> w.len <= old(w.len) + if old(blockLen) + |data| == BLOCK_SIZE then 4 + BLOCK_SIZE else 0
      ensures !ok ==> old(blockLen) + |data| == BLOCK_SIZE && w.buf.Length < old(w.len) + 4 + BLOCK_SIZE
      ensures !ok ==> RefusedAt(dict, old(frames), old(Fed()) + data, w.buf.Length)
    {
      hide RawOf, WireOf, ValidFrames, TightFrames, Tight, Suffix;
      Buffer(data);
      ok := true;
      if blockLen == BLOCK_SIZE {
        ok := Flush(w);
      }
    }

    // Accept a chunk of any size. Fails only when the writer is too small for the full blocks.
    method Sink(data: Bytes, w: MemWriter) returns (ok: bool)
      requires Writes(w) && blockLen < BLOCK_SIZE
      modifies this, block, history, w, w.buf
      ensures ok ==> Writes(w) && Fed() == old(Fed()) + data
      ensures ok ==> old(frames) <= frames && FullFrom(frames, |old(frames)|)
      ensures ok ==> w.len <= old(w.len) + (4 + BLOCK_SIZE) * ((old(blockLen) + |data|) / BLOCK_SIZE)
      ensures ok ==> blockLen == (old(blockLen) + |data|) % BLOCK_SIZE
      ensures !ok ==> w.buf.Length < old(w.len) + (4 + BLOCK_SIZE) * ((old(blockLen) + |data|) / BLOCK_SIZE)
      ensures !ok ==> Refused(dict, old(frames), old(Fed()) + data, w.buf.Length)
    {
      hide RawOf, WireOf, ValidFrames, TightFrames, Tight, Suffix, Fed, RefusedAt, Refused, FullFrom;
      NoMore(frames);
      var pos := 0;
      ghost var full := 0;  // blocks completed so far
      ghost var total := blockLen + |data|;
      while pos < |data|
        invariant 0 <= pos <= |data| && Writes(w) && 0 <= blockLen < BLOCK_SIZE
        invariant Fed() == old(Fed()) + data[..pos]
        invariant old(frames) <= frames && FullFrom(frames, |old(frames)|)
        invariant BLOCK_SIZE * full + blockLen == old(blockLen) + pos
        invariant w.len <= old(w.len) + (4 + BLOCK_SIZE) * full
      {
        var take := |data| - pos;
        if take > BLOCK_SIZE - blockLen {
          take := BLOCK_SIZE - blockLen;
        }
        if blockLen + take == BLOCK_SIZE {
          full := full + 1;
        }
        ghost var base, fed := frames, Fed();
        ok := SinkSome(data[pos..pos + take], w);
        assert data[..pos] + data[pos..pos + take] == data[..pos + take];
        pos := pos + take;
        if ok {
          FullMore(base, frames, |old(frames)|);
        } else {
          FedPrefix(old(Fed()), data, pos);
          RefusedLater(dict, old(frames), base, fed + data[pos - take..pos], old(Fed()) + data, w.buf.Length);
          FullBlocks(total, full, |data| - pos);
          return;
        }
      }
      FullBlocks(total, full, blockLen);
      assert data[..pos] == data;
      ok := true;
    }

    method Finish(w: MemWriter) returns (ok: bool)
      requires Writes(w)
      modifies this, history, w, w.buf
      ensures ok ==> Writes(w) && RawOf(frames) == old(Fed())
      ensures ok ==> if old(blockLen) == 0 then frames == old(frames)
        else frames != [] && frames[..|frames| - 1] == old(frames)
      ensures !ok ==> old(blockLen) > 0 && w.buf.Length < old(w.len) + 4 + old(blockLen)
      ensures !ok ==> RefusedAt(dict, old(frames), old(Fed()), w.buf.Length)
    {
      ok := Flush(w);
      if ok {
        assert RawOf(frames) + block[..blockLen] == RawOf(frames);
      }
    }
  }

  function CompressBound(n: nat): nat {
    if n == 0 then 0 else n + (n + BLOCK_SIZE - 1) / BLOCK_SIZE * 4
  }

  lemma BoundCovers(n: nat)
    ensures (4 + BLOCK_SIZE) * (n / BLOCK_SIZE) + (if n % BLOCK_SIZE == 0 then 0 else 4 + n % BLOCK_SIZE) == CompressBound(n)
  {
    var q, r := n / BLOCK_SIZE, n % BLOCK_SIZE;
    assert n == BLOCK_SIZE * q + r;
    if r == 0 {
      DivModUnique(n + BLOCK_SIZE - 1, BLOCK_SIZE, q, BLOCK_SIZE - 1);
    } else {
      DivModUnique(n + BLOCK_SIZE - 1, BLOCK_SIZE, q + 1, r - 1);
    }
  }

  lemma NothingFed(enc: Encoder)
    requires enc.Valid() && enc.frames == [] && enc.blockLen == 0
    ensures WireOf(enc.frames) == [] && enc.Fed() == []
  {
  }

  // Compress a whole buffer. Any output at least CompressBound long is long enough.
  method CompressBuffer(dict: Dictionary, input: Bytes, output: array<byte>) returns (ok: bool, n: nat)
    modifies output
    ensures ok ==> n <= output.Length && IsPacking(dict, input, output[..n]) && IsEncoding(dict, input, output[..n])
    ensures !ok ==> Refused(dict, [], input, output.Length)
    ensures output.Length >= CompressBound(|input|) ==> ok
  {
    hide RawOf, WireOf, ValidFrames, TightFrames, Suffix, CompressBound, Blocked, FrameBytes, Encoder.Fed;
    hide FullFrom, RefusedAt, Refused;
    var w := new MemWriter(output);
    var enc := new Encoder(dict);
    NothingFed(enc);
    BoundCovers(|input|);
    ok := enc.Sink(input, w);
    ghost var full := enc.frames;
    assert [] + input == input;
    if ok {
      ok := enc.Finish(w);
      if !ok {
        RefusedLater(dict, [], full, input, input, output.Length);
      }
    }
    n := w.len;
    if ok {
      LastBlocked(full, enc.frames);
      assert PacksBy(dict, enc.frames, input, w.Contents());
    }
  }

  class Decoder {
    const dict: Dictionary
    const header: array<byte>
    var headerLen: nat
    var rawLen: nat
    var compLen: nat
    var payloadLen: nat
    const payload: array<byte>
    const raw: array<byte>
    const history: array<byte>
    var historyLen: nat

    ghost predicate Valid()
      reads this, header, payload, raw, history
    {
      && header.Length == 4 && payload.Length == raw.Length == BLOCK_SIZE && history.Length == HISTORY_SIZE
      && header != payload && header != raw && header != history
      && payload != raw && payload != history && raw != history
      && headerLen <= 4 && historyLen <= HISTORY_SIZE
      && (headerLen < 4 ==> rawLen == compLen == payloadLen == 0)
      && (headerLen == 4 ==>
        && rawLen == Le16(header[0], header[1]) && compLen == Le16(header[2], header[3])
        && 0 < rawLen <= BLOCK_SIZE && compLen <= BLOCK_SIZE
        && payloadLen <= Target())
    }

    function Target(): nat
      reads this
    {
      if compLen == 0 then rawLen else compLen
    }

    // Between calls no complete payload is waiting.
    ghost predicate Open() reads this {
      headerLen == 4 ==> payloadLen < Target()
    }

    // The decoder and its output so far, as the byte-at-a-time decoder sees them.
    ghost function Abs(w: MemWriter): Stage
      reads this, header, payload, raw, history, w, w.buf
      requires Valid() && w.Valid()
    {
      Stage(header[..headerLen], payload[..payloadLen], history[..historyLen], w.Contents(), Fine)
    }

    ghost predicate Writes(w: MemWriter)
      reads this, header, payload, raw, history, w, w.buf
    {
      Valid() && w.Valid() && w.buf !in {header, payload, raw, history}
    }

    constructor (dict: Dictionary)
      ensures Valid() && fresh(header) && fresh(payload) && fresh(raw) && fresh(history)
      ensures this.dict == dict && headerLen == 0 && payloadLen == 0 && historyLen == 0
    {
      this.dict := dict;
      header, payload, raw, history := new byte[4], new byte[BLOCK_SIZE], new byte[BLOCK_SIZE], new byte[HISTORY_SIZE];
      headerLen, rawLen, compLen, payloadLen, historyLen := 0, 0, 0, 0, 0;
    }

    // Output the complete payload: as it is, or decompressed.
    method EmitBlock(w: MemWriter) returns (status: Status)
      requires Writes(w) && headerLen == 4 && payloadLen == Target()
      modifies this, raw, history, w, w.buf
      ensures status == TakePayload(dict, w.buf.Length, old(Abs(w))).status
      ensures status == Fine ==> Writes(w) && Open() && Abs(w) == TakePayload(dict, w.buf.Length, old(Abs(w)))
    {
      var block;
      if compLen == 0 {
        block := payload[..rawLen];
      } else {
        var ok := PicoDecoder.DecompressBlock(dict, history[..historyLen], payload[..compLen], raw, rawLen);
        if !ok {
          return Corrupt;
        }
        block := raw[..rawLen];
      }
      var ok := w.Write(block);
      if !ok {
        return NoRoom;
      }
      historyLen := UpdateHistory(history, historyLen, block);
      headerLen, rawLen, compLen, payloadLen := 0, 0, 0, 0;
      status := Fine;
    }

    // Take bytes of a header.
    method SinkHeader(data: Bytes, w: MemWriter) returns (status: Status)
      requires Writes(w) && Open() && headerLen < 4 && data != [] && headerLen + |data| <= 4
      modifies this, header
      ensures status == Feed(dict, w.buf.Length, old(Abs(w)), data).status
      ensures status == Fine ==> Writes(w) && Open() && Abs(w) == Feed(dict, w.buf.Length, old(Abs(w)), data)
    {
      hide Feed, PushByte, TakePayload, Expand;
      ghost var st := Abs(w);
      if headerLen + |data| == 4 {
        FeedHeader(dict, w.buf.Length, st, data);
      } else {
        FeedCollects(dict, w.buf.Length, st, data);
      }
      forall k | 0 <= k < |data| {
        header[headerLen + k] := data[k];
      }
      headerLen := headerLen + |data|;
      assert header[..headerLen] == st.header + data;
      status := Fine;
      if headerLen == 4 {
        rawLen, compLen, payloadLen := Le16(header[0], header[1]), Le16(header[2], header[3]), 0;
        ghost var full := st.(header := st.header + data);
        assert full.RawLen() == rawLen && full.CompLen() == compLen && payload[..0] == [] == st.payload;
        if rawLen == 0 && compLen == 0 {
          headerLen := 0;
        } else if rawLen == 0 || rawLen > BLOCK_SIZE || compLen > BLOCK_MAX_COMPRESSED {
          status := Corrupt;
        } else if compLen > BLOCK_SIZE {
          // The firmware accepts this header; what it does past the end of its buffer is not modelled.
          status := Overrun;
        }
      }
    }

    method StorePayload(data: Bytes, w: MemWriter)
      requires Writes(w) && headerLen == 4 && payloadLen + |data| <= Target()
      modifies this`payloadLen, payload
      ensures Writes(w) && Abs(w) == old(Abs(w)).(payload := old(Abs(w)).payload + data)
    {
      ghost var before := payload[..payloadLen];
      forall k | 0 <= k < |data| {
        payload[payloadLen + k] := data[k];
      }
      payloadLen := payloadLen + |data|;
      assert payload[..payloadLen] == before + data;
    }

    // Take bytes of a payload.
    method SinkPayload(data: Bytes, w: MemWriter) returns (status: Status)
      requires Writes(w) && Open() && headerLen == 4 && data != [] && payloadLen + |data| <= Target()
      modifies this, payload, raw, history, w, w.buf
      ensures status == Feed(dict, w.buf.Length, old(Abs(w)), data).status
      ensures status == Fine ==> Writes(w) && Open() && Abs(w) == Feed(dict, w.buf.Length, old(Abs(w)), data)
    {
      hide Feed, PushByte, TakePayload, TakeHeader, Expand, Suffix;
      ghost var st := Abs(w);
      ghost var result := Feed(dict, w.buf.Length, st, data);
      ghost var full := st.(payload := st.payload + data);
      assert st.Target() == Target();
      if payloadLen + |data| == Target() {
        FeedPayload(dict, w.buf.Length, st, data);
        StorePayload(data, w);
        assert Abs(w) == full && result == TakePayload(dict, w.buf.Length, full);
        status := EmitBlock(w);
      } else {
        FeedCollects(dict, w.buf.Length, st, data);
        StorePayload(data, w);
        assert Abs(w) == full == result;
        status := Fine;
      }
    }

    // Accept a chunk of any size: the bulk copies do what the byte-at-a-time decoder does.
    method Sink(data: Bytes, w: MemWriter) returns (status: Status)
      requires Writes(w) && Open()
      modifies this, header, payload, raw, history, w, w.buf
      ensures status == Feed(dict, w.buf.Length, old(Abs(w)), data).status
      ensures status == Fine ==> Writes(w) && Open() && Abs(w) == Feed(dict, w.buf.Length, old(Abs(w)), data)
    {
      hide Feed, PushByte, TakePayload, TakeHeader, Expand;
      ghost var cap := w.buf.Length;
      ghost var goal := Feed(dict, cap, Abs(w), data);
      var pos := 0;
      assert data[pos..] == data;
      while pos < |data|
        invariant pos <= |data| && Writes(w) && Open()
        invariant Feed(dict, cap, Abs(w), data[pos..]) == goal
      {
        var need := if headerLen < 4 then 4 - headerLen else Target() - payloadLen;
        var take := |data| - pos;
        if take > need {
          take := need;
        }
        var chunk := data[pos..pos + take];
        assert data[pos..] == chunk + data[pos + take..];
        FeedChunks(dict, cap, Abs(w), chunk, data[pos + take..]);
        if Feed(dict, cap, Abs(w), chunk).status != Fine {
          FeedAfterError(dict, cap, Feed(dict, cap, Abs(w), chunk), data[pos + take..]);
        }
        if headerLen < 4 {
          status := SinkHeader(chunk, w);
        } else {
          status := SinkPayload(chunk, w);
        }
        if status != Fine {
          return;
        }
        pos := pos + take;
      }
      FeedNothing(dict, cap, Abs(w));
      assert data[pos..] == [];
      status := Fine;
    }

    // A stream may only end between frames.
    method Finish() returns (ok: bool)
      requires Valid() && Open()
      ensures ok <==> headerLen == 0
    {
      ok := headerLen == 0 && rawLen == 0 && compLen == 0 && payloadLen == 0;
    }
  }

  lemma FeedNothing(dict: Dictionary, cap: nat, st: Stage)
    ensures Feed(dict, cap, st, []) == st
  {
  }

  // Decompress a whole buffer into room for output.Length bytes.
  method DecompressBuffer(dict: Dictionary, input: Bytes, output: array<byte>) returns (ok: bool, n: nat)
    modifies output
    ensures n <= output.Length
    ensures Decoded(dict, input, output.Length) == if ok then Some(output[..n]) else None
  {
    var w := new MemWriter(output);
    var dec := new Decoder(dict);
    assert dec.Abs(w) == START;
    var status := dec.Sink(input, w);
    n, ok := 0, false;
    if status == Fine {
      ok := dec.Finish();
      n := w.len;
    }
  }
}
