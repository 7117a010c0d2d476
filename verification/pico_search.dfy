/** What to emit at a position: the repeated distances, the dictionary and the table of earlier
    positions are searched in this order for the match that saves most, until a good one is found.

    The table is only a source of guesses: every guess is compared before it is used, so what is
    sound does not depend on what the table holds.
 */
module PicoSearch {
  import opened Bits
  import opened PicoFormat
  import opened PicoMatch
  import opened PicoTable

  const GOOD_MATCH := 8
  const NO_ENTRY := 0xFFFF

  // What to emit at a position: a dictionary entry, or a match at a distance, possibly as a
  // repeat of the last distance.
  datatype Choice = Choice(savings: int, len: nat, off: nat, entry: nat, rep: bool)

  const NO_CHOICE := Choice(0, 0, 0, NO_ENTRY, false)

  ghost predicate Usable(dict: Dictionary, v: Bytes, pos: nat, rep0: nat, c: Choice) {
    if c.entry != NO_ENTRY then
      && c.entry < DICT_COUNT && c.off == 0 && !c.rep && c.len == |dict[c.entry]|
      && pos + c.len <= |v| && v[pos..pos + c.len] == dict[c.entry]
      && c.savings == c.len - 1
    else
      && c.len >= MATCH_MIN && Repeats(v, pos, c.off, c.len)
      && (c.rep ==> c.off == rep0 && c.len <= LONG_MATCH_MAX && c.savings == c.len - 1)
      && (!c.rep ==> c.len <= MATCH_MAX && c.savings == c.len - (if c.off <= OFFSET_SHORT_MAX then 2 else 3))
  }

  // A choice with positive savings can be emitted at pos.
  ghost predicate Sound(dict: Dictionary, v: Bytes, pos: nat, rep0: nat, c: Choice) {
    c.savings > 0 ==> Usable(dict, v, pos, rep0, c)
  }

  function AtMost(n: nat, max: nat): nat {
    if n > max then max else n
  }

  function Cost(off: nat, rep: bool): nat {
    if rep then 1 else if off <= OFFSET_SHORT_MAX then 2 else 3
  }

  // The longest match at a distance, up to a limit, as the encoder prices it.
  ghost predicate IsMatch(v: Bytes, pos: nat, off: nat, max: nat, c: Choice) {
    && 0 < off <= pos < |v| && c.off == off && c.entry == NO_ENTRY && c.len >= MATCH_MIN
    && IsMatchLen(v, pos, off, AtMost(|v| - pos, max), c.len)
    && c.savings == c.len - Cost(off, c.rep)
  }

  // The match at one of the last three distances; only the last of all has a token of its own.
  ghost predicate IsRepeat(v: Bytes, pos: nat, reps: seq<nat>, d: nat, c: Choice) {
    d < |reps| && IsMatch(v, pos, reps[d], MATCH_MAX, c) && c.rep == (d == 0 && c.len <= 17)
  }

  ghost predicate IsEntry(dict: Dictionary, v: Bytes, pos: nat, e: nat, c: Choice) {
    && e < DICT_COUNT && pos + |dict[e]| <= |v| && v[pos..pos + |dict[e]|] == dict[e]
    && c == Choice(|dict[e]| - 1, |dict[e]|, 0, e, false)
  }

  // A token for a far match cannot be as long.
  function LinkMax(off: nat): nat {
    if off <= OFFSET_SHORT_MAX then MATCH_MAX else LONG_MATCH_MAX
  }

  // The match at a position that the table gives.
  ghost predicate IsLink(v: Bytes, pos: nat, prevs: seq<int>, d: nat, c: Choice) {
    && d < |prevs| && 0 <= prevs[d] < pos && !c.rep
    && IsMatch(v, pos, pos - prevs[d], LinkMax(pos - prevs[d]), c)
  }

  // Where the search looks, and what it has to go by.
  datatype Spot = Spot(dict: Dictionary, v: Bytes, pos: nat, reps: seq<nat>, skip: bool, prevs: seq<int>)

  const REPEATS := 3
  const LINKS := REPEATS + DICT_COUNT
  const END := LINKS + HASH_CHAIN_DEPTH

  // The match that comes k-th in the search, if there is one.
  ghost predicate At(s: Spot, k: nat, c: Choice) {
    if k < REPEATS then IsRepeat(s.v, s.pos, s.reps, k, c)
    else if k < LINKS then !s.skip && IsEntry(s.dict, s.v, s.pos, k - REPEATS, c)
    else IsLink(s.v, s.pos, s.prevs, k - LINKS, c)
  }

  ghost predicate NoneIn(s: Spot, k: nat) {
    forall c :: !At(s, k, c)
  }

  // It saves more than any before it, or from the table at least as much.
  ghost predicate Record(s: Spot, k: nat, c: Choice) {
    At(s, k, c) && forall j: nat, b :: j < k && At(s, j, b) && b.savings > 0 ==>
      b.savings <= c.savings && (k < LINKS ==> b.savings < c.savings)
  }

  ghost predicate Found(s: Spot, n: nat, best: Choice) {
    best == NO_CHOICE || exists k: nat :: k < n && Record(s, k, best)
  }

  // None of the first n saves more, and a good one among them saves no more than one before it.
  ghost predicate Passed(s: Spot, n: nat, best: Choice) {
    forall j: nat, c :: j < n && At(s, j, c) && c.savings > 0 ==>
      c.savings <= best.savings && (c.len >= GOOD_MATCH ==> SavedBefore(s, j, c.savings))
  }

  ghost predicate SavedBefore(s: Spot, n: nat, savings: int) {
    exists j: nat, c :: j < n && At(s, j, c) && c.savings >= savings
  }

  // The search went past the first n.
  ghost predicate Trying(s: Spot, n: nat, best: Choice) {
    Found(s, n, best) && Passed(s, n, best)
  }

  // It ended with number n, a good one, or went through all of them.
  ghost predicate Stops(s: Spot, n: nat, best: Choice) {
    Found(s, END, best) && Passed(s, n, best) && (n >= END || (At(s, n, best) && best.len >= GOOD_MATCH))
  }

  // What the search ends with: the first good match that saves more than all before it, or else one that
  // no match saves more than. Nothing at all, or nothing that saves, means that there is no saving to be
  // had.
  ghost predicate Picked(s: Spot, best: Choice) {
    exists n: nat :: Stops(s, n, best)
  }

  // There is one match in each place, it can be emitted, and its token takes between one and three bytes.
  lemma AtOnce(s: Spot, k: nat, c: Choice, e: Choice)
    requires At(s, k, c) && At(s, k, e)
    ensures c == e
  {
    if k < REPEATS {
      MatchLenUnique(s.v, s.pos, c.off, AtMost(|s.v| - s.pos, MATCH_MAX), c.len, e.len);
    } else if k >= LINKS {
      MatchLenUnique(s.v, s.pos, c.off, AtMost(|s.v| - s.pos, LinkMax(c.off)), c.len, e.len);
    }
  }

  lemma AtUsable(s: Spot, k: nat, c: Choice)
    requires At(s, k, c) && |s.reps| == 3
    ensures Usable(s.dict, s.v, s.pos, s.reps[0], c) && 1 <= c.len - c.savings <= 3
  {
  }

  lemma FoundUsable(s: Spot, n: nat, c: Choice)
    requires Found(s, n, c) && |s.reps| == 3
    ensures Sound(s.dict, s.v, s.pos, s.reps[0], c) && Priced(c)
  {
    hide At, Usable;
    if c != NO_CHOICE {
      var k: nat :| k < n && Record(s, k, c);
      AtUsable(s, k, c);
    }
  }

  lemma FoundLater(s: Spot, m: nat, n: nat, best: Choice)
    requires Found(s, m, best) && m <= n
    ensures Found(s, n, best)
  {
    hide Record;
  }

  // Nothing in the next places.
  lemma NoneAt(s: Spot, m: nat, n: nat, best: Choice)
    requires Trying(s, m, best) && m <= n && forall k: nat :: m <= k < n ==> NoneIn(s, k)
    ensures Trying(s, n, best)
  {
    hide At, Found, SavedBefore;
    FoundLater(s, m, n, best);
    assert forall k: nat, c :: m <= k < n && NoneIn(s, k) ==> !At(s, k, c);
  }

  // A match in the next place, not taken or taken.
  lemma NotTaken(s: Spot, n: nat, best: Choice, c: Choice)
    requires Trying(s, n, best) && At(s, n, c) && c.savings <= best.savings
    ensures Trying(s, n + 1, best)
  {
    hide At, SavedBefore;
    FoundLater(s, n, n + 1, best);
    forall j: nat, e | j < n + 1 && At(s, j, e) && e.savings > 0
      ensures e.savings <= best.savings && (e.len >= GOOD_MATCH ==> SavedBefore(s, j, e.savings))
    {
      if j == n {
        AtOnce(s, n, c, e);
        FoundSaves(s, n, best);
        assert SavedBefore(s, n, e.savings) by {
          SavedLess(s, n, best.savings, e.savings);
        }
      }
    }
  }

  lemma FoundSaves(s: Spot, n: nat, best: Choice)
    requires Found(s, n, best) && best.savings > 0
    ensures SavedBefore(s, n, best.savings)
  {
    hide At;
    var k: nat :| k < n && Record(s, k, best);
  }

  lemma SavedLess(s: Spot, n: nat, more: int, less: int)
    requires SavedBefore(s, n, more) && less <= more
    ensures SavedBefore(s, n, less)
  {
    hide At;
  }

  lemma Taken(s: Spot, n: nat, best: Choice, c: Choice)
    requires Trying(s, n, best) && At(s, n, c)
    requires c.savings > best.savings || (n >= LINKS && (c.savings == best.savings || best.savings <= 0))
    ensures Found(s, n + 1, c) && Passed(s, n, c) && (c.len < GOOD_MATCH ==> Trying(s, n + 1, c))
  {
    hide At, SavedBefore;
    assert Record(s, n, c);
    forall j: nat, e | j < n + 1 && At(s, j, e) && e.savings > 0
      ensures e.savings <= c.savings && (j == n ==> e == c)
      ensures e.len >= GOOD_MATCH && j < n ==> SavedBefore(s, j, e.savings)
    {
      if j == n {
        AtOnce(s, n, c, e);
      }
    }
  }

  lemma Ended(s: Spot, n: nat, best: Choice)
    requires n < END && Found(s, n + 1, best) && Passed(s, n, best) && At(s, n, best) && best.len >= GOOD_MATCH
    ensures Stops(s, n, best)
  {
    hide Passed, At;
    FoundLater(s, n + 1, END, best);
  }

  // More is saved, or as much by a longer match, or by one as long and nearer.
  predicate Beats(c: Choice, best: Choice) {
    || c.savings > best.savings
    || (c.savings == best.savings && (c.len > best.len || (c.len == best.len && c.off < best.off)))
  }

  // A choice that saves something costs between one and three bytes.
  predicate Priced(c: Choice) {
    c.savings > 0 ==> 1 <= c.len - c.savings <= 3
  }

  // The rule that prefers a far match two bytes longer to one that saves a byte more never applies to a
  // match that saves anything: no two tokens differ by three bytes.
  lemma BonusNeverApplies(best: Choice, c: Choice)
    requires Priced(best) && best.savings > 0 && c.len - c.savings <= 3
    ensures !(c.savings == best.savings - 1 && c.len >= best.len + 2)
  {
  }

  // There is one match at a distance, and none without the first two bytes.
  lemma OneMatch(v: Bytes, pos: nat, off: nat, max: nat, len: nat)
    requires 0 < off <= pos < |v| && IsMatchLen(v, pos, off, AtMost(|v| - pos, max), len)
    ensures forall c :: IsMatch(v, pos, off, max, c) ==> c.len == len
  {
    forall c | IsMatch(v, pos, off, max, c)
      ensures c.len == len
    {
      MatchLenUnique(v, pos, off, AtMost(|v| - pos, max), c.len, len);
    }
  }

  lemma NoMatch(v: Bytes, pos: nat, off: nat, max: nat)
    requires pos < |v| && MATCH_MIN <= max
    requires off == 0 || off > pos || v[pos] != v[pos - off] || |v| - pos < 2 || v[pos + 1] != v[pos + 1 - off]
    ensures forall c :: !IsMatch(v, pos, off, max, c)
  {
  }

  lemma NoRepeat(s: Spot, d: nat)
    requires d < |s.reps| == REPEATS && s.pos < |s.v|
    requires var off := s.reps[d];
      || off == 0 || off > s.pos || s.v[s.pos] != s.v[s.pos - off] || |s.v| - s.pos < 2
      || s.v[s.pos + 1] != s.v[s.pos + 1 - off]
    ensures NoneIn(s, d)
  {
    hide IsMatch;
    NoMatch(s.v, s.pos, s.reps[d], MATCH_MAX);
  }

  lemma NoLink(s: Spot, d: nat)
    requires d < |s.prevs| && s.pos < |s.v|
    requires s.prevs[d] < 0 || s.prevs[d] >= s.pos || s.v[s.prevs[d]] != s.v[s.pos]
    ensures NoneIn(s, LINKS + d)
  {
    hide IsMatch;
    if 0 <= s.prevs[d] < s.pos {
      var off := s.pos - s.prevs[d];
      assert s.v[s.pos - off] != s.v[s.pos];
      NoMatch(s.v, s.pos, off, LinkMax(off));
    }
  }

  lemma RepeatFound(s: Spot, d: nat, len: nat)
    requires d < |s.reps| == REPEATS && 0 < s.reps[d] <= s.pos < |s.v|
    requires IsMatchLen(s.v, s.pos, s.reps[d], AtMost(|s.v| - s.pos, MATCH_MAX), len)
    ensures len < MATCH_MIN ==> NoneIn(s, d)
    ensures len >= MATCH_MIN ==>
      var rep := d == 0 && len <= 17;
      At(s, d, Choice(len - Cost(s.reps[d], rep), len, s.reps[d], NO_ENTRY, rep))
  {
    OneMatch(s.v, s.pos, s.reps[d], MATCH_MAX, len);
  }

  lemma LinkFound(s: Spot, d: nat, len: nat)
    requires d < |s.prevs| && 0 <= s.prevs[d] < s.pos < |s.v|
    requires var off := s.pos - s.prevs[d];
      IsMatchLen(s.v, s.pos, off, AtMost(|s.v| - s.pos, LinkMax(off)), len)
    ensures len < MATCH_MIN ==> NoneIn(s, LINKS + d)
    ensures len >= MATCH_MIN ==>
      var off := s.pos - s.prevs[d];
      At(s, LINKS + d, Choice(len - Cost(off, false), len, off, NO_ENTRY, false))
  {
    var off := s.pos - s.prevs[d];
    OneMatch(s.v, s.pos, off, LinkMax(off), len);
  }

  // The match at one of the repeated distances, if it saves more than what was found before.
  method TryRepeat(ghost s: Spot, v: Bytes, pos: nat, reps: seq<nat>, d: nat, best0: Choice)
    returns (best: Choice, done: bool)
    requires s.v == v && s.pos == pos && s.reps == reps && MATCH_MIN <= |v| - pos && pos < |v| && d < |reps| == REPEATS
    requires Trying(s, d, best0)
    ensures if done then Stops(s, d, best) else Trying(s, d + 1, best)
    ensures best == best0 || (best.savings > best0.savings && At(s, d, best))
  {
    hide At, Trying, Found, Passed, Stops, IsMatchLen;
    best, done := best0, false;
    var off, remaining := reps[d], |v| - pos;
    var maxRep := if remaining > MATCH_MAX then MATCH_MAX else remaining;
    if off == 0 || off > pos || v[pos] != v[pos - off] || v[pos + 1] != v[pos + 1 - off] {
      NoRepeat(s, d);
      NoneAt(s, d, d + 1, best0);
      return;
    }
    var len := MatchLenWords(v, pos, off, maxRep);
    RepeatFound(s, d, len);
    if len < MATCH_MIN {
      NoneAt(s, d, d + 1, best0);
      return;
    }
    var rep := d == 0 && len <= 17;
    var cost := if rep then 1 else if off <= OFFSET_SHORT_MAX then 2 else 3;
    ghost var c := Choice(len - cost, len, off, NO_ENTRY, rep);
    if len - cost > best.savings {
      best := Choice(len - cost, len, off, NO_ENTRY, rep);
      Taken(s, d, best0, c);
      if len >= GOOD_MATCH {
        Ended(s, d, c);
        done := true;
      }
    } else {
      NotTaken(s, d, best0, c);
    }
  }

  // The match at the repeated distances that saves most; a good one ends the search.
  method TryRepeats(ghost s: Spot, v: Bytes, pos: nat, reps: seq<nat>) returns (best: Choice, done: bool)
    requires s.v == v && s.pos == pos && s.reps == reps && pos < |v| && |reps| == REPEATS
    ensures if done then Picked(s, best) else Trying(s, REPEATS, best)
  {
    hide At, Trying, Found, Passed, Stops;
    best, done := NO_CHOICE, false;
    NothingYet(s);
    if |v| - pos < MATCH_MIN {
      NoRepeat(s, 0);
      NoRepeat(s, 1);
      NoRepeat(s, 2);
      NoneAt(s, 0, REPEATS, best);
      return;
    }
    for d := 0 to REPEATS
      invariant Trying(s, d, best)
    {
      best, done := TryRepeat(s, v, pos, reps, d, best);
      if done {
        return;
      }
    }
  }

  lemma NothingYet(s: Spot)
    ensures Trying(s, 0, NO_CHOICE)
  {
  }

  lemma NoEntry(s: Spot, d: nat)
    requires d < DICT_COUNT
    requires s.skip || s.pos + |s.dict[d]| > |s.v| || s.v[s.pos..s.pos + |s.dict[d]|] != s.dict[d]
    ensures NoneIn(s, REPEATS + d)
  {
  }

  lemma NoEntries(s: Spot, best: Choice)
    requires s.skip && Trying(s, REPEATS, best)
    ensures Trying(s, LINKS, best)
  {
    hide Trying;
    NoneAt(s, REPEATS, LINKS, best);
  }

  // Dictionary entry number d, if it follows in the input.
  lemma EntryTried(s: Spot, d: nat, best0: Choice, best: Choice)
    requires d < DICT_COUNT && !s.skip && Trying(s, REPEATS + d, best0)
    requires var e := s.dict[d];
      if s.pos + |e| <= |s.v| && |e| - 1 > best0.savings && s.v[s.pos..s.pos + |e|] == e
      then best == Choice(|e| - 1, |e|, 0, d, false) else best == best0
    ensures best.len < GOOD_MATCH || best == best0 ==> Trying(s, REPEATS + d + 1, best)
    ensures best != best0 ==> At(s, REPEATS + d, best)
    ensures best != best0 && best.len >= GOOD_MATCH ==> Stops(s, REPEATS + d, best)
  {
    hide Trying, Found, Passed, Stops;
    var e := s.dict[d];
    var c := Choice(|e| - 1, |e|, 0, d, false);
    var k := REPEATS + d;
    if s.pos + |e| > |s.v| || s.v[s.pos..s.pos + |e|] != e {
      NoEntry(s, d);
      NoneAt(s, k, k + 1, best0);
    } else if c.savings <= best0.savings {
      NotTaken(s, k, best0, c);
    } else {
      Taken(s, k, best0, c);
      if best.len >= GOOD_MATCH {
        Ended(s, k, c);
      }
    }
  }

  // The longest dictionary entry at pos, if it saves more than what was found before.
  method TryDictionary(ghost s: Spot, dict: Dictionary, v: Bytes, pos: nat, best0: Choice)
    returns (best: Choice, done: bool)
    requires s.dict == dict && s.v == v && s.pos == pos && !s.skip && pos < |v| && Trying(s, REPEATS, best0)
    ensures if done then Picked(s, best) else Trying(s, LINKS, best)
    ensures best == best0 || (best.savings > best0.savings && exists e :: IsEntry(dict, v, pos, e, best))
  {
    hide At, Trying, Found, Passed, Stops;
    best, done := best0, false;
    for d := 0 to DICT_COUNT
      invariant Trying(s, REPEATS + d, best)
      invariant best == best0 || (best.savings > best0.savings && exists e :: IsEntry(dict, v, pos, e, best))
    {
      var dlen := |dict[d]|;
      ghost var was := best;
      if dlen <= |v| - pos && dlen - 1 > best.savings && dict[d][0] == v[pos] && v[pos..pos + dlen] == dict[d] {
        best := Choice(dlen - 1, dlen, 0, d, false);
        assert IsEntry(dict, v, pos, d, best);
        done := dlen >= GOOD_MATCH;
      }
      EntryTried(s, d, was, best);
      if done {
        return;
      }
    }
  }

  // Of the matches that save anything, none of the first n beats the choice.
  ghost predicate BestLink(v: Bytes, pos: nat, prevs: seq<int>, n: nat, best: Choice) {
    forall k: nat, c :: k < n && IsLink(v, pos, prevs, k, c) && c.savings > 0 ==> !Beats(c, best)
  }

  lemma BestLinkStep(v: Bytes, pos: nat, prevs: seq<int>, d: nat, before: Choice, best: Choice)
    requires BestLink(v, pos, prevs, d, before)
    requires best == before || Beats(best, before) || before.savings <= 0
    requires forall c :: IsLink(v, pos, prevs, d, c) && c.savings > 0 ==> !Beats(c, best)
    ensures BestLink(v, pos, prevs, d + 1, best)
  {
    hide IsLink;
  }

  // The match that the table gives at depth d, if it beats what was found before.
  method TryLink(ghost s: Spot, v: Bytes, pos: nat, d: nat, prev: int, best0: Choice) returns (best: Choice, done: bool)
    requires s.v == v && s.pos == pos && |v| - pos >= 3 && d < |s.prevs| && s.prevs[d] == prev && |s.reps| == REPEATS
    requires d < HASH_CHAIN_DEPTH && Trying(s, LINKS + d, best0) && BestLink(v, pos, s.prevs, d, best0)
    ensures if done then Stops(s, LINKS + d, best) else Trying(s, LINKS + d + 1, best)
    ensures BestLink(v, pos, s.prevs, d + 1, best)
    ensures best == best0 || (IsLink(v, pos, s.prevs, d, best) && (best0.savings <= 0 || Beats(best, best0)))
  {
    hide At, Trying, Found, Passed, Stops, IsLink, BestLink, IsMatchLen;
    best, done := best0, false;
    FoundPriced(s, LINKS + d, best0);
    if prev < 0 || prev >= pos || v[prev] != v[pos] {
      NoLink(s, d);
      LinkPlace(s, d, best0, false);
      NoneAt(s, LINKS + d, LINKS + d + 1, best0);
      BestLinkStep(v, pos, s.prevs, d, best0, best);
      return;
    }
    var off, remaining := pos - prev, |v| - pos;
    var maxShort := if remaining > MATCH_MAX then MATCH_MAX else remaining;
    var maxLong := if remaining > LONG_MATCH_MAX then LONG_MATCH_MAX else remaining;
    var len := MatchLenWords(v, pos, off, if off <= OFFSET_SHORT_MAX then maxShort else maxLong);
    LinkFound(s, d, len);
    if len < MATCH_MIN {
      LinkPlace(s, d, best0, false);
      NoneAt(s, LINKS + d, LINKS + d + 1, best0);
      BestLinkStep(v, pos, s.prevs, d, best0, best);
      return;
    }
    var saved := len - (if off <= OFFSET_SHORT_MAX then 2 else 3);
    ghost var c := Choice(saved, len, off, NO_ENTRY, false);
    LinkPlace(s, d, c, true);
    if || saved > best.savings
       || (saved == best.savings && len > best.len)
       || (saved == best.savings && len == best.len && off < best.off)
       || (saved == best.savings - 1 && len >= best.len + 2)
    {
      best := Choice(saved, len, off, NO_ENTRY, false);
      if best0.savings > 0 {
        BonusNeverApplies(best0, best);
      }
      Taken(s, LINKS + d, best0, c);
      if len >= GOOD_MATCH {
        Ended(s, LINKS + d, c);
        done := true;
      }
    } else {
      NotTaken(s, LINKS + d, best0, c);
    }
    BestLinkStep(v, pos, s.prevs, d, best0, best);
  }

  lemma FoundPriced(s: Spot, n: nat, best: Choice)
    requires Trying(s, n, best) && |s.reps| == REPEATS
    ensures Priced(best)
  {
    FoundUsable(s, n, best);
  }

  lemma LinkPlace(s: Spot, d: nat, c: Choice, found: bool)
    requires if found then At(s, LINKS + d, c) else NoneIn(s, LINKS + d)
    ensures found ==> IsLink(s.v, s.pos, s.prevs, d, c) && forall e :: IsLink(s.v, s.pos, s.prevs, d, e) ==> e == c
    ensures !found ==> forall e :: !IsLink(s.v, s.pos, s.prevs, d, e)
  {
    hide IsLink;
    forall e | IsLink(s.v, s.pos, s.prevs, d, e)
      ensures At(s, LINKS + d, e) && (found ==> e == c)
    {
      if found {
        AtOnce(s, LINKS + d, c, e);
      }
    }
  }

  // The best match that the table gives, if it beats what was found before.
  method TryChain(ghost s: Spot, v: Bytes, pos: nat, head: array2<int>, best0: Choice) returns (best: Choice)
    requires s.v == v && s.pos == pos < |v| && TableShape(head) && s.prevs == Chain(v, pos, head) && |s.reps| == REPEATS
    requires Trying(s, LINKS, best0)
    ensures Picked(s, best)
    ensures best == best0 || ((exists d :: IsLink(v, pos, s.prevs, d, best)) && (best0.savings <= 0 || Beats(best, best0)))
    ensures best.len >= GOOD_MATCH || BestLink(v, pos, s.prevs, HASH_CHAIN_DEPTH, best)
  {
    hide At, Trying, Found, Passed, IsLink;
    best := best0;
    if |v| - pos < 3 {
      NoLinks(s, best0);
      return;
    }
    var hash := Hash3(v, pos);
    for d := 0 to HASH_CHAIN_DEPTH
      invariant Trying(s, LINKS + d, best) && BestLink(v, pos, s.prevs, d, best)
      invariant best == best0 ||
        ((exists e :: IsLink(v, pos, s.prevs, e, best)) && (best0.savings <= 0 || Beats(best, best0)))
    {
      assert s.prevs[d] == head[d, hash];
      var done;
      best, done := TryLink(s, v, pos, d, head[d, hash], best);
      if done {
        return;
      }
    }
    AllTried(s, best);
  }

  lemma NoLinks(s: Spot, best: Choice)
    requires s.prevs == [] && Trying(s, LINKS, best)
    ensures Picked(s, best) && BestLink(s.v, s.pos, s.prevs, HASH_CHAIN_DEPTH, best)
  {
    hide Trying;
    NoneAt(s, LINKS, END, best);
    AllTried(s, best);
  }

  lemma AllTried(s: Spot, best: Choice)
    requires Trying(s, END, best)
    ensures Picked(s, best)
  {
    hide Found, Passed;
    assert Stops(s, END, best);
  }

  // The best thing to emit at pos: repeated distances first, then the dictionary, then the table.
  method FindBest(dict: Dictionary, v: Bytes, pos: nat, head: array2<int>, reps: seq<nat>, skipDict: bool)
    returns (best: Choice)
    requires pos < |v| && TableShape(head) && |reps| == REPEATS
    ensures Picked(Spot(dict, v, pos, reps, skipDict, Chain(v, pos, head)), best)
    ensures Sound(dict, v, pos, reps[0], best)
  {
    hide Trying, Picked, Sound;
    ghost var s := Spot(dict, v, pos, reps, skipDict, Chain(v, pos, head));
    var done;
    best, done := TryRepeats(s, v, pos, reps);
    if !done && !skipDict {
      best, done := TryDictionary(s, dict, v, pos, best);
    } else if !done {
      NoEntries(s, best);
    }
    if !done {
      best := TryChain(s, v, pos, head, best);
    }
    PickedSound(s, best);
  }

  lemma PickedSound(s: Spot, best: Choice)
    requires Picked(s, best) && |s.reps| == REPEATS
    ensures Sound(s.dict, s.v, s.pos, s.reps[0], best) && Priced(best)
  {
    hide Passed, At, Sound;
    FoundUsable(s, END, best);
  }
}
