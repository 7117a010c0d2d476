/** The picocompress block encoder: greedy matching with one step of lookahead, into an output buffer. */
module PicoEncoder {
  import opened Bits
  import opened Collections
  import opened PicoFormat
  import opened PicoTable
  import opened PicoSearch
  import opened PicoTokens
  import opened PicoSteps

  const LAZY_STEPS := 1
  const OVERFLOW := 0xFFFF

  method EmitChunk(src: Bytes, pos: nat, out: array<byte>, op: nat) returns (ok: bool, pos': nat, op': nat)
    requires pos < |src| && op <= out.Length
    modifies out
    ensures ok ==> pos < pos' <= |src| && op' <= out.Length
    ensures ok ==> out[..op'] + LitBytes(src[pos'..]) == old(out[..op]) + LitBytes(src[pos..])
    ensures !ok ==> op + |LitBytes(src[pos..])| > out.Length && out[..] == old(out[..])
  {
    var chunk := |src| - pos;
    if chunk > LITERAL_MAX {
      chunk := LITERAL_MAX;
    }
    if op + 1 + chunk > out.Length {
      return false, pos, op;
    }
    LitBytesStep(out[..op], src, pos, chunk);
    ghost var before := out[..op];
    out[op] := chunk - 1;
    forall k | 0 <= k < chunk {
      out[op + 1 + k] := src[pos + k];
    }
    ok, pos', op' := true, pos + chunk, op + 1 + chunk;
    assert out[..op'] == before + [chunk - 1] + src[pos..pos'];
  }

  method EmitLiterals(src: Bytes, out: array<byte>, op: nat) returns (ok: bool, op': nat)
    requires op <= out.Length
    modifies out
    ensures ok <==> op + |LitBytes(src)| <= out.Length
    ensures ok ==> op' == op + |LitBytes(src)| && out[..op'] == old(out[..op]) + LitBytes(src)
  {
    op' := op;
    var pos := 0;
    ghost var all := out[..op] + LitBytes(src);
    assert src[0..] == src;
    while pos < |src|
      invariant pos <= |src| && op' <= out.Length
      invariant out[..op'] + LitBytes(src[pos..]) == all
    {
      ok, pos, op' := EmitChunk(src, pos, out, op');
      if !ok {
        return;
      }
    }
    assert LitBytes(src[pos..]) == [];
    ok := true;
  }

  // Whether the block looks binary, so that the dictionary is not worth probing.
  method LooksBinary(v: Bytes, histLen: nat) returns (skip: bool)
    requires histLen <= |v|
    ensures skip <==> Binary(v[histLen..])
  {
    skip := false;
    if histLen < |v| && v[histLen] !in {0x7B, 0x5B, 0x3C, 0xEF} {
      for i := 0 to if |v| - histLen < 4 then |v| - histLen else 4
        invariant forall k :: 0 <= k < i ==> 0x20 <= v[histLen..][k] <= 0x7E
      {
        if v[histLen + i] < 0x20 || v[histLen + i] > 0x7E {
          assert v[histLen + i] == v[histLen..][i];
          return true;
        }
      }
    }
  }

  method WriteToken(c: Choice, out: array<byte>, op: nat) returns (ok: bool, op': nat)
    requires c.len >= MATCH_MIN && c.off < 0x10000 && (c.entry < DICT_COUNT || c.entry == NO_ENTRY)
    requires op <= out.Length
    modifies out
    ensures ok <==> op + |TokenBytes(c)| <= out.Length
    ensures ok ==> op' == op + |TokenBytes(c)| && out[..op'] == old(out[..op]) + TokenBytes(c)
  {
    op' := op;
    if c.entry != NO_ENTRY || c.rep {
      if op + 1 > out.Length {
        return false, op;
      }
      out[op] :=
        if c.entry == NO_ENTRY then 0xC0 + (c.len - MATCH_MIN) % 16
        else if c.entry < 64 then 0x40 + c.entry
        else if c.entry < 80 then 0xE0 + (c.entry - 64)
        else 0xD0 + (c.entry - 80);
      op' := op + 1;
    } else if c.off <= OFFSET_SHORT_MAX && c.len <= MATCH_MAX {
      if op + 2 > out.Length {
        return false, op;
      }
      out[op] := 0x80 + (c.len - MATCH_MIN) % 32 * 2 + c.off / 0x100 % 2;
      out[op + 1] := c.off % 0x100;
      op' := op + 2;
    } else {
      if op + 3 > out.Length {
        return false, op;
      }
      var elen := if c.len > LONG_MATCH_MAX then LONG_MATCH_MAX else c.len;
      out[op] := 0xF0 + (elen - MATCH_MIN) % 16;
      out[op + 1] := c.off / 0x100;
      out[op + 2] := c.off % 0x100;
      op' := op + 3;
    }
    ok := true;
  }

  // The output so far decodes to the block up to anchor, with the same last distance, and the
  // matches so far have paid for the literal headers.
  ghost predicate Encoded(dict: Dictionary, v: Bytes, histLen: nat, anchor: nat, last: nat, o: Bytes) {
    && histLen <= anchor <= |v|
    && Run(dict, o, State(v[..histLen], 0), |v|) == Some(State(v[..anchor], last))
    && 64 * |o| <= 65 * (anchor - histLen)
  }

  // Room for any block of n bytes: every byte a literal.
  function WorstCase(n: nat): nat {
    n + (n + 63) / 64
  }

  lemma LiteralsExtend(dict: Dictionary, v: Bytes, histLen: nat, anchor: nat, pos: nat, last: nat, o: Bytes)
    requires Encoded(dict, v, histLen, anchor, last, o) && anchor <= pos <= |v|
    ensures Run(dict, o + LitBytes(v[anchor..pos]), State(v[..histLen], 0), |v|) == Some(State(v[..pos], last))
    ensures 64 * |o + LitBytes(v[anchor..pos])| <= 65 * (pos - histLen) + 63
  {
    var lits := v[anchor..pos];
    RunAppend(dict, o, LitBytes(lits), State(v[..histLen], 0), |v|);
    LiteralsDecode(dict, lits, State(v[..anchor], last), |v|);
    assert v[..anchor] + lits == v[..pos];
  }

  lemma NothingEncoded(dict: Dictionary, v: Bytes, histLen: nat)
    requires histLen <= |v|
    ensures Encoded(dict, v, histLen, histLen, 0, [])
  {
  }

  lemma WholeBlock(dict: Dictionary, v: Bytes, histLen: nat, last: nat, o: Bytes)
    requires histLen <= |v| && Run(dict, o, State(v[..histLen], 0), |v|) == Some(State(v, last))
    ensures Expand(dict, v[..histLen], o, |v| - histLen) == Some(v[histLen..])
  {
  }

  lemma ChoiceExtends(dict: Dictionary, v: Bytes, histLen: nat, anchor: nat, pos: nat, last: nat, c: Choice, o: Bytes)
    requires |v| < 0x10000 && Encoded(dict, v, histLen, anchor, last, o) && anchor <= pos
    requires c.savings > 0 && Usable(dict, v, pos, last, c)
    ensures Encoded(dict, v, histLen, pos + EmittedLen(c), LastAfter(c, last), o + LitBytes(v[anchor..pos]) + TokenBytes(c))
  {
    LiteralsExtend(dict, v, histLen, anchor, pos, last, o);
    RunAppend(dict, o + LitBytes(v[anchor..pos]), TokenBytes(c), State(v[..histLen], 0), |v|);
    TokenDecodes(dict, v, pos, last, c);
    TokenSaves(dict, v, pos, last, c);
  }

  // Write the literals from anchor to pos and the token for a choice at pos.
  method EmitChoice(dict: Dictionary, v: Bytes, ghost histLen: nat, anchor: nat, pos: nat, c: Choice,
                    ghost last: nat, out: array<byte>, op: nat) returns (ok: bool, op': nat)
    requires |v| < 0x10000 && op <= out.Length && Encoded(dict, v, histLen, anchor, last, out[..op]) && anchor <= pos
    requires c.savings > 0 && Usable(dict, v, pos, last, c)
    modifies out
    ensures Writable(c) && EmittedLen(c) >= MATCH_MIN && pos + EmittedLen(c) <= |v|
    ensures ok ==> op' <= out.Length
    ensures ok ==> Encoded(dict, v, histLen, pos + EmittedLen(c), LastAfter(c, last), out[..op'])
    ensures ok ==> out[..op'] == old(out[..op]) + LitBytes(v[anchor..pos]) + TokenBytes(c)
    ensures !ok ==> out.Length < WorstCase(|v| - histLen)
    ensures !ok ==> out.Length < op + |LitBytes(v[anchor..pos])| + |TokenBytes(c)|
  {
    ghost var o := out[..op];
    LiteralsExtend(dict, v, histLen, anchor, pos, last, o);
    ChoiceExtends(dict, v, histLen, anchor, pos, last, c, o);
    ok, op' := EmitLiterals(v[anchor..pos], out, op);
    if ok {
      ok, op' := WriteToken(c, out, op');
    }
  }

  // Look one position ahead: go there if what is found there saves more than the choice made at pos,
  // and only then. What was found there is `next`.
  method LookAhead(dict: Dictionary, v: Bytes, pos: nat, best: Choice, head: array2<int>, reps: seq<nat>, skip: bool,
                   ghost histLen: nat, ghost twice: set<nat>)
    returns (npos: nat, ghost next: Choice)
    requires pos < |v| && |reps| == 3 && histLen <= pos && TableIs(head, v, histLen, twice, pos + 1)
    modifies head
    ensures npos == pos || npos == pos + 1 < |v|
    ensures npos == pos + 1 <==> Looks(v, pos, best) && next.savings > best.savings
    ensures Looks(v, pos, best) ==> Picked(Spot(dict, v, pos + 1, reps, skip, Known(v, histLen, twice, pos + 1)), next)
    ensures TableIs(head, v, histLen, if npos == pos then twice else twice + {pos}, pos + 1)
  {
    hide Picked, TableIs, Known, Chain, Sound;
    TableShaped(head, v, histLen, twice, pos + 1);
    ChainIsKnown(head, v, histLen, twice, pos + 1);
    next := NO_CHOICE;
    if best.savings > 0 && best.len < GOOD_MATCH {
      for step := 1 to LAZY_STEPS + 1
        invariant step == 1 ==> unchanged(head)
        invariant TableIs(head, v, histLen, twice, pos + 1)
        invariant step > 1 ==> |v| - (pos + 1) >= MATCH_MIN && next.savings <= best.savings
        invariant step > 1 ==> Picked(Spot(dict, v, pos + 1, reps, skip, Known(v, histLen, twice, pos + 1)), next)
      {
        npos := pos + step;
        if npos >= |v| || |v| - npos < MATCH_MIN {
          break;
        }
        var found := FindBest(dict, v, npos, head, reps, skip);
        next := found;
        if found.savings > best.savings {
          for s := 0 to step
            invariant TableIs(head, v, histLen, if s == 0 then twice else twice + {pos}, pos + 1)
          {
            InsertAt(v, pos + s, head, histLen, twice, true);
          }
          return;
        }
      }
    }
    npos := pos;
  }

  lemma TableShaped(head: array2<int>, v: Bytes, histLen: nat, twice: set<nat>, n: nat)
    requires TableIs(head, v, histLen, twice, n)
    ensures TableShape(head)
  {
  }

  method EmitTail(dict: Dictionary, v: Bytes, histLen: nat, anchor: nat, ghost last: nat, out: array<byte>, op: nat)
    returns (r: nat)
    requires |v| < 0x8000 && op <= out.Length < OVERFLOW && Encoded(dict, v, histLen, anchor, last, out[..op])
    modifies out
    ensures r == OVERFLOW || r <= out.Length
    ensures r != OVERFLOW ==> Expand(dict, v[..histLen], out[..r], |v| - histLen) == Some(v[histLen..])
    ensures r != OVERFLOW ==> r <= WorstCase(|v| - histLen)
    ensures r == OVERFLOW ==> out.Length < WorstCase(|v| - histLen)
    ensures if r != OVERFLOW then out[..r] == old(out[..op]) + LitBytes(v[anchor..])
            else out.Length < op + |LitBytes(v[anchor..])|
  {
    hide Run, LitBytes, Expand;
    LiteralsExtend(dict, v, histLen, anchor, |v|, last, out[..op]);
    ghost var o := out[..op] + LitBytes(v[anchor..|v|]);
    var ok, op' := EmitLiterals(v[anchor..|v|], out, op);
    assert v[..|v|] == v && v[anchor..|v|] == v[anchor..];
    WholeBlock(dict, v, histLen, last, o);
    r := if ok then op' else OVERFLOW;
  }

  lemma StepTaken(dict: Dictionary, v: Bytes, histLen: nat, n: nat, p: Place, s: Step)
    requires histLen <= |v| < 0x10000 && Reaches(dict, v, histLen, n, p) && PlaceOk(v, histLen, p)
    requires StepOk(dict, v, histLen, Binary(v[histLen..]), p, s)
    requires Weighed(p, s.best).savings > 0 ==> Writable(s.best)
    ensures Reaches(dict, v, histLen, n + 1, After(v, p, s))
  {
    hide StepOk, After, Binary;
    assert Leads(dict, v, histLen, Binary(v[histLen..]), p, s, After(v, p, s));
  }

  lemma StepIs(v: Bytes, p: Place, s: Step, c: Choice)
    requires p.anchor <= p.pos <= |v| && |p.reps| == 3 && (c.savings > 0 ==> Writable(s.best))
    requires c == if s.best.savings <= 1 && s.best.entry == NO_ENTRY && p.anchor < p.pos
      then s.best.(savings := 0) else s.best
    ensures Weighed(p, s.best) == c && (MovesOn(v, p, s) <==> Looks(v, p.pos, c) && s.next.savings > c.savings)
    ensures c.savings > 0 ==> c == s.best
    ensures MovesOn(v, p, s) ==> After(v, p, s) == Place(p.pos + 1, p.anchor, p.reps, p.twice + {p.pos}, p.out)
    ensures !MovesOn(v, p, s) && c.savings <= 0 ==> After(v, p, s) == Place(p.pos + 1, p.anchor, p.reps, p.twice, p.out)
  {
  }

  lemma EmittedIs(v: Bytes, p: Place, s: Step, o: Bytes)
    requires p.anchor <= p.pos <= |v| && |p.reps| == 3 && Writable(s.best)
    requires !MovesOn(v, p, s) && Weighed(p, s.best).savings > 0
    requires o == p.out + LitBytes(v[p.anchor..p.pos]) + TokenBytes(s.best)
    ensures var end := p.pos + EmittedLen(s.best);
      After(v, p, s) == Place(end, end, RepsAfter(s.best, p.reps), p.twice, o)
  {
    hide LitBytes, TokenBytes;
  }

  lemma TooLong(dict: Dictionary, v: Bytes, histLen: nat, n: nat, p: Place, cap: nat)
    requires histLen <= |v| < 0x10000 && Reaches(dict, v, histLen, n, p) && PlaceOk(v, histLen, p)
    requires cap < |p.out| || (|v| - p.pos < MATCH_MIN && cap < |p.out + LitBytes(v[p.anchor..])|)
    ensures Overflows(dict, v, histLen, cap)
  {
    hide Reaches, LitBytes;
  }

  // Compress v[histLen..], the rest of v being the history. Returns the number of bytes written,
  // or OVERFLOW when they do not fit.
  method CompressBlock(dict: Dictionary, v: Bytes, histLen: nat, out: array<byte>) returns (r: nat)
    requires histLen <= |v| < 0x8000 && out.Length < OVERFLOW
    modifies out
    ensures r == OVERFLOW || r <= out.Length
    ensures if r != OVERFLOW then Packs(dict, v, histLen, out[..r]) else Overflows(dict, v, histLen, out.Length)
    ensures r != OVERFLOW ==> Expand(dict, v[..histLen], out[..r], |v| - histLen) == Some(v[histLen..])
    ensures r != OVERFLOW ==> r <= WorstCase(|v| - histLen)
    ensures r == OVERFLOW ==> out.Length < WorstCase(|v| - histLen)
  {
    hide Picked, Chain, Known, Usable, Encoded, TableIs, Reaches, LitBytes, TokenBytes, Binary, Sound;
    hide After, MovesOn, Weighed, Looks, EmittedLen, Writable;
    NothingEncoded(dict, v, histLen);
    var head := new int[HASH_CHAIN_DEPTH, HASH_SIZE]((_, _) => -1);
    var reps := [0, 0, 0];
    EmptyTable(head, v, histLen);
    SeedFromHistory(v, histLen, head);
    var anchor, pos, op, ok := histLen, histLen, 0, true;
    var skip := LooksBinary(v, histLen);
    ghost var n, p := 0, Start(histLen);
    Starts(dict, v, histLen);
    assert out[..0] == [];
    while |v| - pos >= MATCH_MIN
      invariant histLen <= anchor <= pos <= |v| && 0 <= op <= out.Length && |reps| == 3
      invariant fresh(head) && TableIs(head, v, histLen, p.twice, pos)
      invariant Encoded(dict, v, histLen, anchor, reps[0], out[..op])
      invariant p == Place(pos, anchor, reps, p.twice, out[..op]) && Reaches(dict, v, histLen, n, p)
    {
      TableShaped(head, v, histLen, p.twice, pos);
      ChainIsKnown(head, v, histLen, p.twice, pos);
      var best := FindBest(dict, v, pos, head, reps, skip);
      InsertAt(v, pos, head, histLen, p.twice, false);
      ghost var found := best;
      if best.savings <= 1 && best.entry == NO_ENTRY && anchor < pos {
        best := best.(savings := 0);
      }
      var npos;
      ghost var next;
      npos, next := LookAhead(dict, v, pos, best, head, reps, skip, histLen, p.twice);
      ghost var s := Step(found, next);
      if best.savings > 0 {
        SoundWritable(dict, v, pos, reps[0], best);
      }
      StepIs(v, p, s, best);
      StepTaken(dict, v, histLen, n, p, s);
      n := n + 1;
      if npos != pos {
        pos := npos;
      } else if best.savings > 0 {
        ghost var o := out[..op];
        ok, op := EmitChoice(dict, v, histLen, anchor, pos, best, reps[0], out, op);
        EmittedIs(v, p, s, o + LitBytes(v[anchor..pos]) + TokenBytes(best));
        if !ok {
          TooLong(dict, v, histLen, n, After(v, p, s), out.Length);
          return OVERFLOW;
        }
        if !best.rep && best.off != 0 && best.entry == NO_ENTRY {
          reps := [best.off, reps[0], reps[1]];
        }
        InsertCovered(v, pos, EmittedLen(best), head, histLen, p.twice);
        pos := pos + EmittedLen(best);
        anchor := pos;
      } else {
        pos := pos + 1;
      }
      p := After(v, p, s);
    }
    ghost var o := out[..op];
    r := EmitTail(dict, v, histLen, anchor, reps[0], out, op);
    if r == OVERFLOW {
      TooLong(dict, v, histLen, n, p, out.Length);
    } else {
      assert Ends(dict, v, histLen, n, p, out[..r]);
    }
  }

  lemma Starts(dict: Dictionary, v: Bytes, histLen: nat)
    requires histLen <= |v| < 0x10000
    ensures Reaches(dict, v, histLen, 0, Start(histLen))
  {
  }

  lemma EmptyTable(head: array2<int>, v: Bytes, histLen: nat)
    requires TableShape(head) && forall d, h :: 0 <= d < HASH_CHAIN_DEPTH && 0 <= h < HASH_SIZE ==> head[d, h] == -1
    ensures TableIs(head, v, histLen, {}, 0)
  {
  }

  lemma SoundWritable(dict: Dictionary, v: Bytes, pos: nat, last: nat, c: Choice)
    requires |v| < 0x10000 && Sound(dict, v, pos, last, c) && c.savings > 0
    ensures Usable(dict, v, pos, last, c) && Writable(c)
  {
  }
}
