/** The encoder compresses: what it makes of a block of equal bytes, whatever the dictionary. From the
    second position on the table gives the position before, and the match there covers what is left or
    33 bytes of it.
 */
module PicoRepeats {
  import opened Bits
  import opened PicoFormat
  import opened PicoMatch
  import opened PicoTable
  import opened PicoSearch
  import opened PicoTokens
  import opened PicoSteps

  ghost predicate AllSame(v: Bytes) {
    forall i :: 0 <= i < |v| ==> v[i] == v[0]
  }

  lemma SameMatch(v: Bytes, pos: nat, len: nat)
    requires AllSame(v) && 1 <= pos && pos + len <= |v|
    ensures IsMatchLen(v, pos, 1, len, len)
  {
  }

  lemma JustBefore(v: Bytes, pos: nat)
    requires AllSame(v) && 1 <= pos && pos + 3 <= |v|
    ensures Latest(v, 0, pos, Hash3(v, pos)) == pos - 1
  {
    SameHash(v, pos);
    hide Hash3, AllSame;
  }

  lemma SameHash(v: Bytes, pos: nat)
    requires AllSame(v) && 1 <= pos && pos + 3 <= |v|
    ensures Hash3(v, pos - 1) == Hash3(v, pos)
  {
    assert v[pos - 1] == v[0] && v[pos] == v[0] && v[pos + 1] == v[0] && v[pos + 2] == v[0];
  }

  ghost function Here(dict: Dictionary, v: Bytes, skip: bool, p: Place, pos: nat): Spot {
    Spot(dict, v, pos, p.reps, skip, Known(v, 0, p.twice, pos))
  }

  lemma MatchBefore(dict: Dictionary, v: Bytes, skip: bool, p: Place, pos: nat)
    requires AllSame(v) && 1 <= pos && pos + 3 <= |v|
    ensures var len := AtMost(|v| - pos, MATCH_MAX);
      At(Here(dict, v, skip, p, pos), LINKS, Choice(len - 2, len, 1, NO_ENTRY, false))
  {
    hide Latest, Hash3, Second;
    var len := AtMost(|v| - pos, MATCH_MAX);
    JustBefore(v, pos);
    SameMatch(v, pos, len);
    assert Known(v, 0, p.twice, pos)[0] == pos - 1;
  }

  // So what is chosen saves nearly all of it, or is a good match.
  lemma ChosenSaves(dict: Dictionary, v: Bytes, skip: bool, p: Place, pos: nat, c: Choice)
    requires AllSame(v) && 1 <= pos && pos + 3 <= |v| && |p.reps| == 3 && Chosen(dict, v, 0, skip, p, pos, c)
    ensures c.savings > 0 && (c.len >= GOOD_MATCH || c.savings >= AtMost(|v| - pos, MATCH_MAX) - 2)
    ensures Usable(dict, v, pos, p.reps[0], c) && c.len - 3 <= c.savings < c.len <= |v| - pos
  {
    var s := Here(dict, v, skip, p, pos);
    var len := AtMost(|v| - pos, MATCH_MAX);
    var m := Choice(len - 2, len, 1, NO_ENTRY, false);
    MatchBefore(dict, v, skip, p, pos);
    PickedSound(s, c);
    hide At, Sound, Known, Found;
    var n: nat :| Stops(s, n, c);
    if n > LINKS {
      assert At(s, LINKS, m) && m.savings <= c.savings;
    } else {
      AtUsable(s, n, c);
    }
    SoundIs(dict, v, pos, p.reps[0], c);
  }

  lemma SoundIs(dict: Dictionary, v: Bytes, pos: nat, last: nat, c: Choice)
    requires Sound(dict, v, pos, last, c) && c.savings > 0
    ensures Usable(dict, v, pos, last, c) && c.savings < c.len && pos + c.len <= |v|
  {
  }

  // At the first position nothing but a dictionary entry can be found.
  lemma ChosenFirst(dict: Dictionary, v: Bytes, skip: bool, p: Place, c: Choice)
    requires 8 <= |v| && p.reps == [0, 0, 0] && Chosen(dict, v, 0, skip, p, 0, c)
    ensures c == NO_CHOICE || (c.entry < DICT_COUNT && Usable(dict, v, 0, 0, c) && c.savings == c.len - 1 >= 2)
  {
    var s := Here(dict, v, skip, p, 0);
    hide Usable;
    var n: nat :| Stops(s, n, c);
    if c != NO_CHOICE {
      var k: nat :| k < END && Record(s, k, c);
      AtUsable(s, k, c);
      assert Known(v, 0, p.twice, 0) == [-1, -1];
      EntryOnly(s, k, c);
    }
  }

  lemma EntryOnly(s: Spot, k: nat, c: Choice)
    requires At(s, k, c) && s.pos == 0 && s.reps == [0, 0, 0] && s.prevs == [-1, -1]
    ensures c.entry < DICT_COUNT && c.savings == c.len - 1 >= 2
  {
  }

  // What a token costs.
  lemma TokenCosts(dict: Dictionary, v: Bytes, pos: nat, last: nat, c: Choice)
    requires |v| < 0x10000 && c.savings > 0 && Usable(dict, v, pos, last, c)
    ensures Writable(c) && 1 <= |TokenBytes(c)| <= 3 && AtMost(c.len, 17) <= EmittedLen(c) <= c.len
    ensures AtMost(c.savings, 14) <= EmittedLen(c) - |TokenBytes(c)|
    ensures c.entry != NO_ENTRY ==> |TokenBytes(c)| == 1 && EmittedLen(c) == c.len
  {
  }

  // Nothing written yet, and at the first or second position.
  ghost predicate Early(p: Place) {
    p.pos <= 1 && p.anchor == 0 && p.out == [] && (p.pos == 0 ==> p.reps == [0, 0, 0])
  }

  // What is written is shorter than what it stands for, by a fixed ratio until the last match.
  ghost predicate Late(v: Bytes, p: Place) {
    && p.out != [] && |p.out| + 4 <= p.anchor && (p.pos == p.anchor || |v| - p.anchor <= 2)
    && 8 * |p.out| <= 3 * p.anchor + 19 + (if |v| - p.anchor <= 1 then 24 else 0)
  }

  ghost predicate Shrinking(v: Bytes, p: Place) {
    PlaceOk(v, 0, p) && (Early(p) || Late(v, p))
  }

  // From the second position on it does not pay to move on.
  lemma NoMove(dict: Dictionary, v: Bytes, skip: bool, p: Place, s: Step)
    requires AllSame(v) && 1 <= p.pos && p.pos + 3 <= |v| && PlaceOk(v, 0, p) && StepOk(dict, v, 0, skip, p, s)
    requires Weighed(p, s.best) == s.best
    ensures !MovesOn(v, p, s)
  {
    hide Picked, Known;
    ChosenSaves(dict, v, skip, p, p.pos, s.best);
    if Looks(v, p.pos, s.best) && s.next.savings > 0 {
      PickedSound(Here(dict, v, skip, p, p.pos + 1), s.next);
      SoundIs(dict, v, p.pos + 1, p.reps[0], s.next);
    }
  }

  lemma FirstStep(dict: Dictionary, v: Bytes, skip: bool, p: Place, s: Step)
    requires AllSame(v) && 8 <= |v| < 0x8000 && Early(p) && p.pos == 0 && PlaceOk(v, 0, p) && StepOk(dict, v, 0, skip, p, s)
    requires Weighed(p, s.best).savings > 0 ==> Writable(s.best)
    ensures Shrinking(v, After(v, p, s))
  {
    hide Picked, Known, TokenBytes, Usable;
    ChosenFirst(dict, v, skip, p, s.best);
    if s.best != NO_CHOICE && !MovesOn(v, p, s) {
      TokenCosts(dict, v, 0, 0, s.best);
      if s.best.len < GOOD_MATCH {
        ChosenSaves(dict, v, skip, p, 1, s.next);
      }
      FitsIn(dict, v, 0, 0, s.best);
      assert LitBytes(v[0..0]) == [];
    }
  }

  lemma FitsIn(dict: Dictionary, v: Bytes, pos: nat, last: nat, c: Choice)
    requires Usable(dict, v, pos, last, c)
    ensures pos + c.len <= |v|
  {
  }

  lemma SecondStep(dict: Dictionary, v: Bytes, skip: bool, p: Place, s: Step)
    requires AllSame(v) && 8 <= |v| < 0x8000 && Early(p) && p.pos == 1 && PlaceOk(v, 0, p) && StepOk(dict, v, 0, skip, p, s)
    requires Weighed(p, s.best).savings > 0 ==> Writable(s.best)
    ensures Shrinking(v, After(v, p, s))
  {
    hide Picked, Known, TokenBytes, Usable;
    ChosenSaves(dict, v, skip, p, 1, s.best);
    NoMove(dict, v, skip, p, s);
    TokenCosts(dict, v, 1, p.reps[0], s.best);
    assert |LitBytes(v[0..1])| == 2;
  }

  lemma LaterStep(dict: Dictionary, v: Bytes, skip: bool, p: Place, s: Step)
    requires AllSame(v) && 8 <= |v| < 0x8000 && Late(v, p) && PlaceOk(v, 0, p) && StepOk(dict, v, 0, skip, p, s)
    requires Weighed(p, s.best).savings > 0 ==> Writable(s.best)
    ensures Shrinking(v, After(v, p, s))
  {
    hide Picked, Known, TokenBytes, Usable;
    assert LitBytes(v[p.anchor..p.pos]) == [];
    if |v| - p.pos >= 3 {
      ChosenSaves(dict, v, skip, p, p.pos, s.best);
      NoMove(dict, v, skip, p, s);
      TokenCosts(dict, v, p.pos, p.reps[0], s.best);
    } else if s.best.savings > 0 {
      PickedSound(Here(dict, v, skip, p, p.pos), s.best);
      SoundIs(dict, v, p.pos, p.reps[0], s.best);
      TokenCosts(dict, v, p.pos, p.reps[0], s.best);
    }
  }

  lemma {:induction false} AlwaysShrinking(dict: Dictionary, v: Bytes, n: nat, p: Place)
    requires AllSame(v) && 8 <= |v| < 0x8000 && Reaches(dict, v, 0, n, p)
    ensures Shrinking(v, p)
  {
    hide StepOk, After, Weighed, Writable, Early, Late, Binary, AllSame;
    if n == 0 {
      StartsEarly(v);
    } else {
      var skip := Binary(v[0..]);
      var q, s :| Reaches(dict, v, 0, n - 1, q) && Leads(dict, v, 0, skip, q, s, p);
      AlwaysShrinking(dict, v, n - 1, q);
      StepShrinks(dict, v, skip, q, s);
    }
  }

  lemma StartsEarly(v: Bytes)
    ensures Shrinking(v, Start(0))
  {
  }

  lemma StepShrinks(dict: Dictionary, v: Bytes, skip: bool, p: Place, s: Step)
    requires AllSame(v) && 8 <= |v| < 0x8000 && Shrinking(v, p) && StepOk(dict, v, 0, skip, p, s)
    requires Weighed(p, s.best).savings > 0 ==> Writable(s.best)
    ensures Shrinking(v, After(v, p, s))
  {
    hide StepOk, After, Weighed, Writable, Late, AllSame;
    if Late(v, p) {
      LaterStep(dict, v, skip, p, s);
    } else if p.pos == 0 {
      FirstStep(dict, v, skip, p, s);
    } else {
      SecondStep(dict, v, skip, p, s);
    }
  }

  // A block of equal bytes gets shorter, and a long one comes to three eighths and a few bytes.
  lemma RunShrinks(dict: Dictionary, v: Bytes, o: Bytes)
    requires AllSame(v) && 8 <= |v| < 0x8000 && Packs(dict, v, 0, o)
    ensures 0 < |o| < |v| && 8 * |o| <= 3 * |v| + 67
  {
    hide AllSame, Reaches;
    var n: nat, p :| Ends(dict, v, 0, n, p, o);
    AlwaysShrinking(dict, v, n, p);
  }
}
