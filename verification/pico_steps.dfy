/** The block encoder one step at a time: what it finds at a position, and what it makes of it.
 */
module PicoSteps {
  import opened Bits
  import opened PicoFormat
  import opened PicoTable
  import opened PicoSearch
  import opened PicoTokens

  // How far the encoder is: the literals not yet written start at anchor, and the positions that were
  // entered twice are those it moved on from.
  datatype Place = Place(pos: nat, anchor: nat, reps: seq<nat>, twice: set<nat>, out: Bytes)

  // What was found at the position and, if it was looked at, at the next one.
  datatype Step = Step(best: Choice, next: Choice)

  function Start(histLen: nat): Place {
    Place(histLen, histLen, [0, 0, 0], {}, [])
  }

  // A match that saves one byte is not worth breaking a run of literals.
  function Weighed(p: Place, best: Choice): Choice {
    if best.savings <= 1 && best.entry == NO_ENTRY && p.anchor < p.pos then best.(savings := 0) else best
  }

  // Only a match that is not a good one is compared with the next position.
  predicate Looks(v: Bytes, pos: nat, c: Choice) {
    c.savings > 0 && c.len < GOOD_MATCH && |v| - (pos + 1) >= MATCH_MIN
  }

  // The next position saves more.
  predicate MovesOn(v: Bytes, p: Place, s: Step) {
    Looks(v, p.pos, Weighed(p, s.best)) && s.next.savings > Weighed(p, s.best).savings
  }

  function RepsAfter(c: Choice, reps: seq<nat>): (r: seq<nat>)
    requires |reps| == 3
    ensures |r| == 3
  {
    if !c.rep && c.off != 0 && c.entry == NO_ENTRY then [c.off, reps[0], reps[1]] else reps
  }

  // A choice that can be written as a token.
  predicate Writable(c: Choice) {
    c.len >= MATCH_MIN && c.off < 0x10000 && (c.entry < DICT_COUNT || c.entry == NO_ENTRY)
  }

  function Emitted(v: Bytes, p: Place, c: Choice): Place
    requires Writable(c) && p.anchor <= p.pos <= |v| && |p.reps| == 3
  {
    var end := p.pos + EmittedLen(c);
    Place(end, end, RepsAfter(c, p.reps), p.twice, p.out + LitBytes(v[p.anchor..p.pos]) + TokenBytes(c))
  }

  function After(v: Bytes, p: Place, s: Step): Place
    requires p.anchor <= p.pos <= |v| && |p.reps| == 3 && (Weighed(p, s.best).savings > 0 ==> Writable(s.best))
  {
    if MovesOn(v, p, s) then p.(pos := p.pos + 1, twice := p.twice + {p.pos})
    else if Weighed(p, s.best).savings > 0 then Emitted(v, p, Weighed(p, s.best))
    else p.(pos := p.pos + 1)
  }

  // What the search comes to at a position, with all positions before it entered.
  ghost predicate Chosen(dict: Dictionary, v: Bytes, histLen: nat, skip: bool, p: Place, pos: nat, c: Choice) {
    Picked(Spot(dict, v, pos, p.reps, skip, Known(v, histLen, p.twice, pos)), c)
  }

  ghost predicate StepOk(dict: Dictionary, v: Bytes, histLen: nat, skip: bool, p: Place, s: Step) {
    && |v| - p.pos >= MATCH_MIN && Chosen(dict, v, histLen, skip, p, p.pos, s.best)
    && (Looks(v, p.pos, Weighed(p, s.best)) ==> Chosen(dict, v, histLen, skip, p, p.pos + 1, s.next))
  }

  // Places that the encoder gets to.
  ghost predicate PlaceOk(v: Bytes, histLen: nat, p: Place) {
    histLen <= p.anchor <= p.pos <= |v| && |p.reps| == 3
  }

  // The encoder got to place p in n steps.
  ghost predicate Reaches(dict: Dictionary, v: Bytes, histLen: nat, n: nat, p: Place)
    requires histLen <= |v| < 0x10000
  {
    var skip := Binary(v[histLen..]);
    if n == 0 then p == Start(histLen)
    else exists q, s :: Reaches(dict, v, histLen, n - 1, q) && Leads(dict, v, histLen, skip, q, s, p)
  }

  ghost predicate Leads(dict: Dictionary, v: Bytes, histLen: nat, skip: bool, p: Place, s: Step, q: Place) {
    && PlaceOk(v, histLen, p) && StepOk(dict, v, histLen, skip, p, s)
    && (Weighed(p, s.best).savings > 0 ==> Writable(s.best)) && q == After(v, p, s)
  }

  // Whether the block looks binary: it starts like no text format and has a byte among its first four
  // that is not printable.
  predicate Binary(block: Bytes) {
    && block != [] && block[0] !in {0x7B, 0x5B, 0x3C, 0xEF}
    && exists i :: 0 <= i < 4 && i < |block| && !(0x20 <= block[i] <= 0x7E)
  }

  // The encoder's output for a block: what it has written where it ends, and the rest as literals.
  ghost predicate Packs(dict: Dictionary, v: Bytes, histLen: nat, o: Bytes)
    requires histLen <= |v| < 0x10000
  {
    exists n: nat, p :: Ends(dict, v, histLen, n, p, o)
  }

  ghost predicate Ends(dict: Dictionary, v: Bytes, histLen: nat, n: nat, p: Place, o: Bytes)
    requires histLen <= |v| < 0x10000
  {
    && Reaches(dict, v, histLen, n, p) && PlaceOk(v, histLen, p) && |v| - p.pos < MATCH_MIN
    && o == p.out + LitBytes(v[p.anchor..])
  }

  // Some output on the way to that does not fit.
  ghost predicate Overflows(dict: Dictionary, v: Bytes, histLen: nat, cap: nat)
    requires histLen <= |v| < 0x10000
  {
    exists n: nat, p :: Reaches(dict, v, histLen, n, p) && PlaceOk(v, histLen, p) && cap < |p.out + Rest(v, p)|
  }

  function Rest(v: Bytes, p: Place): Bytes
    requires p.anchor <= |v|
  {
    if |v| - p.pos < MATCH_MIN then LitBytes(v[p.anchor..]) else []
  }
}
