/** A condition on a joined pack, rewritten as "lookup field IN matching ids": the search for the ids,
    the printed list, and exactly when the list still says what the condition said.
 */
module QueryJoin {
  import opened QueryText

  const MATCH_MAX := 64

  // A card of the joined pack: its id, and whether it can be read and meets the condition.
  datatype Card = Card(id: nat, readable: bool, meets: bool)

  predicate Matching(cards: seq<Card>, v: int) {
    exists k :: 0 <= k < |cards| && cards[k].id == v && cards[k].readable && cards[k].meets
  }

  function MatchIds(cards: seq<Card>): (ids: seq<nat>)
    ensures forall v: nat :: v in ids <==> Matching(cards, v)
  {
    if cards == [] then []
    else
      var init, last := MatchIds(cards[..|cards| - 1]), cards[|cards| - 1];
      if last.readable && last.meets then init + [last.id] else init
  }

  function First<T>(s: seq<T>, n: nat): (t: seq<T>)
    ensures |t| <= n
  {
    if |s| <= n then s else s[..n]
  }

  lemma {:induction false} MatchIdsPrefix(cards: seq<Card>, n: nat)
    requires n <= |cards|
    ensures MatchIds(cards[..n]) <= MatchIds(cards)
    decreases |cards|
  {
    if n < |cards| {
      assert cards[..|cards| - 1][..n] == cards[..n];
      MatchIdsPrefix(cards[..|cards| - 1], n);
    } else {
      assert cards[..n] == cards;
    }
  }

  // The matching ids in scan order, the first `max` of them.
  method SearchPack(cards: seq<Card>, max: nat) returns (ids: seq<nat>)
    ensures ids == First(MatchIds(cards), max)
  {
    ids := [];
    var i := 0;
    while i < |cards| && |ids| < max
      invariant i <= |cards| && |ids| <= max && ids == MatchIds(cards[..i])
    {
      assert cards[..i + 1][..i] == cards[..i];
      if cards[i].readable && cards[i].meets {
        ids := ids + [cards[i].id];
      }
      i := i + 1;
    }
    MatchIdsPrefix(cards, i);
    assert cards[..|cards|] == cards;
  }

  // The ids printed in full with commas between.
  function Join(ids: seq<nat>): string {
    if ids == [] then ""
    else if |ids| == 1 then Dec(ids[0])
    else Join(ids[..|ids| - 1]) + "," + Dec(ids[|ids| - 1])
  }

  // How many ids are printed before the text reaches the stopping length.
  function Printed(ids: seq<nat>, from: nat): (m: nat)
    requires from <= |ids|
    ensures from <= m <= |ids|
    ensures forall k :: from <= k < m ==> |Join(ids[..k])| < LIST_STOP
    ensures m < |ids| ==> |Join(ids[..m])| >= LIST_STOP
    decreases |ids| - from
  {
    if from == |ids| || |Join(ids[..from])| >= LIST_STOP then from else Printed(ids, from + 1)
  }

  // The list the rewritten condition carries.
  function List(ids: seq<nat>): string {
    Cut(Join(ids[..Printed(ids, 0)]))
  }

  // snprintf into what room is left, never past the buffer.
  method BuildList(ids: seq<nat>) returns (list: string)
    ensures list == List(ids)
  {
    list := "";
    var len, mi := 0, 0;
    assert ids[..0] == [];
    while mi < |ids| && len < LIST_STOP
      invariant mi <= |ids| && len == |Join(ids[..mi])| && list == Cut(Join(ids[..mi]))
      invariant Printed(ids, mi) == Printed(ids, 0)
    {
      assert ids[..mi + 1][..mi] == ids[..mi];
      if mi > 0 {
        list := list + ",";
        len := len + 1;
      }
      var text, room := Dec(ids[mi]), TEXT_MAX - len;
      list := list + if |text| <= room then text else text[..room];
      len := len + |text|;
      mi := mi + 1;
    }
  }

  // Every id is printed, and printed whole.
  predicate Fits(ids: seq<nat>) {
    ids == [] || (|Join(ids[..|ids| - 1])| < LIST_STOP && |Join(ids)| <= TEXT_MAX)
  }

  predicate AllDiffer(ids: seq<nat>) {
    forall i, j :: 0 <= i < j < |ids| ==> ids[i] != ids[j]
  }

  function Decs(ids: seq<nat>): (ts: seq<string>)
    ensures |ts| == |ids|
  {
    seq(|ids|, k requires 0 <= k < |ids| => Dec(ids[k]))
  }

  lemma {:induction false} JoinTokens(ids: seq<nat>)
    ensures Tokens(Join(ids)) == Decs(ids)
  {
    if |ids| == 1 {
      DecPiece(ids[0], |Dec(ids[0])|);
      assert Dec(ids[0])[..|Dec(ids[0])|] == Dec(ids[0]) && Decs(ids) == [Dec(ids[0])];
    } else if |ids| > 1 {
      var init, last := ids[..|ids| - 1], ids[|ids| - 1];
      JoinTokens(init);
      DecPiece(last, |Dec(last)|);
      TokensSnoc(Join(init), Dec(last));
      assert Decs(ids) == Decs(init) + [Dec(last)];
    }
  }

  // Any beginning of a printed number is a piece of its own.
  lemma DecPiece(n: nat, q: nat)
    requires 0 < q <= |Dec(n)|
    ensures var t := Dec(n)[..q];
      ',' !in t && Tokens(t) == [t] && Trim(t) == t
  {
    var t := Dec(n)[..q];
    DecDigits(n);
    forall c | c in t
      ensures c != ',' && c != ' '
    {
      assert c in Dec(n);
    }
    assert t[0] in t && t[..|t|] == t && t[|t|..] == "";
    UntilIs(t, |t|);
  }

  // The last id printed, and how many of its digits are kept.
  function LastAt(ids: seq<nat>): (k: nat)
    requires ids != []
    ensures k < |ids|
  {
    Printed(ids, 0) - 1
  }

  function Kept(ids: seq<nat>): (q: nat)
    requires ids != []
  {
    var k := LastAt(ids);
    var room := TEXT_MAX - |Join(ids[..k])| - (if k > 0 then 1 else 0);
    if |Dec(ids[k])| <= room then |Dec(ids[k])| else room
  }

  // The list is the ids before the last one printed, and then some digits of that one.
  lemma ListTokens(ids: seq<nat>)
    requires ids != []
    ensures var k, q := LastAt(ids), Kept(ids);
      0 < q <= |Dec(ids[k])| && Tokens(Cut(List(ids))) == Decs(ids[..k]) + [Dec(ids[k])[..q]]
  {
    var k, q := LastAt(ids), Kept(ids);
    var base, text := Join(ids[..k]), Dec(ids[k]);
    assert ids[..k + 1][..k] == ids[..k];
    assert |base| < LIST_STOP;
    DecPiece(ids[k], q);
    JoinTokens(ids[..k]);
    if k == 0 {
      assert List(ids) == text[..q];
      assert Decs(ids[..k]) == [];
    } else {
      assert List(ids) == base + "," + text[..q];
      TokensSnoc(base, text[..q]);
    }
  }

  predicate Has(ids: seq<nat>, v: int) {
    exists k :: 0 <= k < |ids| && ids[k] == v
  }

  // Whether a row whose lookup field holds v passes the rewritten condition.
  predicate Accepts(ids: seq<nat>, v: int) {
    InList(IntText(v), List(ids))
  }

  lemma TextOf(v: int, n: nat)
    ensures IntText(v) == Dec(n) <==> v == n
  {
    hide Dec;
    if v < 0 {
      DecDigits(n);
      assert IntText(v)[0] == '-' && IsDigit(Dec(n)[0]) && !IsDigit('-');
    } else {
      DecInjective(v, n);
    }
  }

  // Exactly which values pass: the ids before the last one printed, and the number its kept digits spell.
  lemma AcceptsExactly(ids: seq<nat>, v: int)
    requires ids != []
    ensures Kept(ids) <= |Dec(ids[LastAt(ids)])|
    ensures Accepts(ids, v) <==>
      Has(ids[..LastAt(ids)], v) || IntText(v) == Dec(ids[LastAt(ids)])[..Kept(ids)]
  {
    ListTokens(ids);
    var k, q := LastAt(ids), Kept(ids);
    var ts := Decs(ids[..k]) + [Dec(ids[k])[..q]];
    DecPiece(ids[k], q);
    forall j | 0 <= j < k
      ensures Trim(ts[j]) == Dec(ids[j])
      ensures IntText(v) == Dec(ids[j]) <==> ids[..k][j] == v
    {
      DecPiece(ids[j], |Dec(ids[j])|);
      assert Dec(ids[j])[..|Dec(ids[j])|] == Dec(ids[j]);
      TextOf(v, ids[j]);
    }
    assert Trim(ts[k]) == Dec(ids[k])[..q];
  }

  lemma FitsMeans(ids: seq<nat>)
    requires ids != []
    ensures Fits(ids) <==> LastAt(ids) == |ids| - 1 && Kept(ids) == |Dec(ids[LastAt(ids)])|
  {
    var n := |ids| - 1;
    var k := LastAt(ids);
    assert ids[..k + 1][..k] == ids[..k] && ids[..n + 1] == ids;
    if Fits(ids) && k < n {
      JoinGrows(ids, k + 1, n);
      assert false;
    }
  }

  lemma {:induction false} JoinGrows(ids: seq<nat>, a: nat, b: nat)
    requires a <= b <= |ids|
    ensures |Join(ids[..a])| <= |Join(ids[..b])|
    decreases b
  {
    if a < b {
      assert ids[..b][..b - 1] == ids[..b - 1];
      JoinGrows(ids, a, b - 1);
    }
  }

  // An id that the list should hold and does not.
  function Missed(ids: seq<nat>): (k: nat)
    requires ids != []
    ensures k < |ids|
  {
    if Kept(ids) != |Dec(ids[LastAt(ids)])| || LastAt(ids) == |ids| - 1 then LastAt(ids) else LastAt(ids) + 1
  }

  lemma MissedIsRefused(ids: seq<nat>)
    requires ids != [] && AllDiffer(ids) && !Fits(ids)
    ensures !Accepts(ids, ids[Missed(ids)])
  {
    var k, q, v := LastAt(ids), Kept(ids), ids[Missed(ids)];
    FitsMeans(ids);
    AcceptsExactly(ids, v);
    if q == |Dec(ids[k])| {
      assert Dec(ids[k])[..q] == Dec(ids[k]);
      TextOf(v, ids[k]);
    }
  }

  lemma FitAccepts(ids: seq<nat>, v: int)
    requires ids != [] && Fits(ids)
    ensures Accepts(ids, v) <==> Has(ids, v)
  {
    hide Accepts, Fits;
    var k := |ids| - 1;
    FitsMeans(ids);
    AcceptsExactly(ids, v);
    assert Dec(ids[k])[..|Dec(ids[k])|] == Dec(ids[k]);
    TextOf(v, ids[k]);
    assert forall j :: 0 <= j < k ==> ids[..k][j] == ids[j];
  }

  // The rewritten condition accepts exactly the matched ids if and only if the list fits.
  lemma ListExact(ids: seq<nat>)
    requires ids != [] && AllDiffer(ids)
    ensures Fits(ids) <==> forall v: int :: Accepts(ids, v) <==> Has(ids, v)
  {
    hide *;
    if Fits(ids) {
      forall v: int
        ensures Accepts(ids, v) <==> Has(ids, v)
      {
        FitAccepts(ids, v);
      }
    } else {
      MissedIsRefused(ids);
      HasAt(ids, Missed(ids));
    }
  }

  lemma HasAt(ids: seq<nat>, k: nat)
    requires k < |ids|
    ensures Has(ids, ids[k])
  {
  }

  lemma {:induction false} JoinLong(ids: seq<nat>)
    ensures |Join(ids)| >= 2 * |ids| - 1
  {
    if |ids| > 1 {
      JoinLong(ids[..|ids| - 1]);
    }
  }

  // More matches than the search collects never fit.
  lemma TooMany(ids: seq<nat>)
    ensures |ids| > MATCH_MAX ==> !Fits(ids) && !Fits(First(ids, MATCH_MAX))
  {
    JoinLong(ids);
    JoinLong(First(ids, MATCH_MAX));
  }

  lemma HasMatching(cards: seq<Card>, v: int)
    ensures Has(MatchIds(cards), v) <==> Matching(cards, v)
  {
    if v >= 0 {
      assert v in MatchIds(cards) <==> Matching(cards, v);
    }
  }

  // The condition as a whole: with the search capped and the list cut, the rows that pass are those
  // with a matching joined card if and only if the ids of all matching cards fit the list.
  lemma SemiJoin(cards: seq<Card>)
    requires MatchIds(cards) != [] && AllDiffer(MatchIds(cards))
    ensures var ids := First(MatchIds(cards), MATCH_MAX);
      Fits(MatchIds(cards)) <==> forall v: int :: Accepts(ids, v) <==> Matching(cards, v)
  {
    hide MatchIds, Accepts, Matching, Has, Fits;
    var all := MatchIds(cards);
    var ids := First(all, MATCH_MAX);
    forall v: int
      ensures Has(all, v) <==> Matching(cards, v)
    {
      HasMatching(cards, v);
    }
    if Fits(all) {
      TooMany(all);
      ListExact(all);
    } else {
      SearchMisses(cards);
      HasAt(all, Missed(ids));
    }
  }

  // When the ids do not all fit, some matching card's id, among those found, is refused.
  lemma SearchMisses(cards: seq<Card>)
    requires MatchIds(cards) != [] && AllDiffer(MatchIds(cards)) && !Fits(MatchIds(cards))
    ensures var ids := First(MatchIds(cards), MATCH_MAX);
      ids != [] && ids <= MatchIds(cards) && !Accepts(ids, ids[Missed(ids)])
  {
    hide MatchIds, Accepts, Fits;
    var ids := First(MatchIds(cards), MATCH_MAX);
    TooMany(MatchIds(cards));
    MissedIsRefused(ids);
  }

  lemma DecFive(n: nat)
    requires 10000 <= n < 100000
    ensures |Dec(n)| == 5 && Dec(n)[..3] == Dec(n / 100)
  {
    var a, b, c, d := n / 10, n / 100, n / 1000, n / 10000;
    assert a / 10 == b && b / 10 == c && c / 10 == d && 1 <= d < 10;
    DecMore(n);
    DecMore(a);
    DecMore(b);
    DecMore(c);
    assert |Dec(d)| == 1;
    hide Dec;
    assert Dec(n)[..3] == Dec(b);
  }

  lemma DecMore(n: nat)
    requires n >= 10
    ensures Dec(n) == Dec(n / 10) + [DIGITS[n % 10]]
  {
  }

  lemma {:induction false} JoinFive(ids: seq<nat>)
    requires ids != [] && forall k :: 0 <= k < |ids| ==> 10000 <= ids[k] < 100000
    ensures |Join(ids)| == 6 * |ids| - 1
  {
    DecFive(ids[|ids| - 1]);
    if |ids| > 1 {
      JoinFive(ids[..|ids| - 1]);
    }
  }

  // Eleven matches with five-digit ids: the last id is cut to three digits, so the rows of that card
  // are lost and the rows of the card with the cut id pass instead.
  lemma ElevenCut(ids: seq<nat>)
    requires |ids| == 11 && forall k :: 0 <= k < |ids| ==> 10000 <= ids[k] < 100000
    requires AllDiffer(ids)
    ensures !Accepts(ids, ids[10]) && Accepts(ids, ids[10] / 100) && !Has(ids, ids[10] / 100)
  {
    var k := LastAt(ids);
    JoinFive(ids[..k + 1]);
    JoinFive(ids[..10]);
    assert k == 10;
    DecFive(ids[10]);
    assert Kept(ids) == 3;
    hide Join, List, Accepts, Printed, Kept, LastAt, Dec;
    AcceptsExactly(ids, ids[10]);
    AcceptsExactly(ids, ids[10] / 100);
    TextOf(ids[10], ids[10] / 100);
    TextOf(ids[10] / 100, ids[10] / 100);
  }
}
