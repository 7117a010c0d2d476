/** The picocompress block decoder, writing into an output buffer with the history kept apart. */
module PicoDecoder {
  import opened Bits
  import opened Collections
  import opened PicoFormat

  // Copy a match whose source may start in the history and run on into the output.
  method CopyMatch(out: array<byte>, op: nat, hist: Bytes, off: nat, len: nat) returns (op': nat)
    requires 0 < off <= |hist| + op && op + len <= out.Length
    modifies out
    ensures op' == op + len
    ensures hist + out[..op'] == CopyBack(hist + old(out[..op]), off, len)
  {
    op' := op;
    var src := if off <= op then op - off else |hist| - (off - op);
    var j := 0;
    while j < len
      invariant j <= len && op' == op + j
      invariant CopyBack(hist + out[..op'], off, len - j) == CopyBack(hist + old(out[..op]), off, len)
    {
      ghost var w := hist + out[..op'];
      if off <= op {
        out[op'] := out[src + j];
      } else if src + j < |hist| {
        out[op'] := hist[src + j];
      } else {
        out[op'] := out[src + j - |hist|];
      }
      op' := op' + 1;
      j := j + 1;
      assert hist + out[..op'] == w + [w[|w| - off]];
    }
  }

  // A match of any of the three kinds; last is the last distance afterwards.
  method PutMatch(out: array<byte>, op: nat, hist: Bytes, off: nat, len: nat, outLen: nat, ghost last: nat)
    returns (ok: bool, op': nat)
    requires op <= outLen <= out.Length
    modifies out
    ensures op' <= outLen
    ensures Copied(State(hist + old(out[..op]), last), off, len, |hist| + outLen)
         == if ok then Some(State(hist + out[..op'], last)) else None
  {
    ok, op' := off != 0 && off <= op + |hist| && op + len <= outLen, op;
    if ok {
      op' := CopyMatch(out, op, hist, off, len);
    }
  }

  method PutLiteral(out: array<byte>, op: nat, hist: Bytes, bytes: Bytes, outLen: nat, ghost last: nat)
    returns (ok: bool, op': nat)
    requires op <= outLen <= out.Length
    modifies out
    ensures op' <= outLen
    ensures Appended(State(hist + old(out[..op]), last), bytes, |hist| + outLen)
         == if ok then Some(State(hist + out[..op'], last)) else None
  {
    ghost var before := out[..op];
    ok, op' := op + |bytes| <= outLen, op;
    if ok {
      forall k | 0 <= k < |bytes| {
        out[op + k] := bytes[k];
      }
      op' := op + |bytes|;
      assert hist + out[..op'] == hist + before + bytes;
    }
  }

  // Execute the token at the head of inp.
  method DecodeToken(dict: Dictionary, hist: Bytes, inp: Bytes, out: array<byte>, op: nat, outLen: nat, last: nat)
    returns (ok: bool, op': nat, last': nat)
    requires inp != [] && op <= outLen <= out.Length
    modifies out
    ensures op' <= outLen
    ensures ok ==> TokenSize(inp) <= |inp|
    ensures ok ==> Token(dict, inp, State(hist + old(out[..op]), last), |hist| + outLen) == Some(State(hist + out[..op'], last'))
    ensures !ok && TokenSize(inp) <= |inp| ==> Token(dict, inp, State(hist + old(out[..op]), last), |hist| + outLen) == None
  {
    var t: int := inp[0];
    ok, op', last' := false, op, last;
    if TokenSize(inp) > |inp| {
      return;
    }
    if t < 0x40 {
      ok, op' := PutLiteral(out, op, hist, inp[1..2 + t], outLen, last);
    } else if t < 0x80 {
      ok, op' := PutLiteral(out, op, hist, dict[t - 0x40], outLen, last);
    } else if t < 0xC0 {
      last' := Be16(t % 2, inp[1]);
      ok, op' := PutMatch(out, op, hist, last', t / 2 % 32 + MATCH_MIN, outLen, last');
    } else if t < 0xD0 {
      ok, op' := PutMatch(out, op, hist, last, t % 16 + MATCH_MIN, outLen, last);
    } else if t < 0xE0 {
      ok, op' := PutLiteral(out, op, hist, dict[80 + t % 16], outLen, last);
    } else if t < 0xF0 {
      ok, op' := PutLiteral(out, op, hist, dict[64 + t % 16], outLen, last);
    } else {
      last' := Be16(inp[1], inp[2]);
      ok, op' := PutMatch(out, op, hist, last', t % 16 + MATCH_MIN, outLen, last');
    }
  }

  // Decompress inp into out[..outLen], or find it corrupt.
  method DecompressBlock(dict: Dictionary, hist: Bytes, inp: Bytes, out: array<byte>, outLen: nat) returns (ok: bool)
    requires outLen <= out.Length
    modifies out
    ensures Expand(dict, hist, inp, outLen) == if ok then Some(out[..outLen]) else None
  {
    var ip, op, last := 0, 0, 0;
    ghost var limit := |hist| + outLen;
    ghost var result := Run(dict, inp, State(hist, 0), limit);
    assert hist + out[..0] == hist && inp[0..] == inp;
    while ip < |inp|
      invariant 0 <= ip <= |inp| && 0 <= op <= outLen
      invariant Run(dict, inp[ip..], State(hist + out[..op], last), limit) == result
    {
      var size := TokenSize(inp[ip..]);
      ok, op, last := DecodeToken(dict, hist, inp[ip..], out, op, outLen, last);
      if !ok {
        return;
      }
      assert inp[ip..][size..] == inp[ip + size..];
      ip := ip + size;
    }
    ok := op == outLen;
  }
}
