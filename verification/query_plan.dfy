/** Running a query over one pack: reading numeric fields out of cards, comparing them, reordering the
    conditions by cost and filtering the rows with them.
 */
module QueryPlan {
  import opened Bits
  import opened Collections
  import opened QueryText
  import QueryJoin

  const RESULTS_MAX := 100
  const LOOKUP: byte := 0x12

  datatype Op = EQ | NE | GT | LT | GE | LE | IN | NI

  // A condition on the primary pack.
  datatype Pred = Pred(ord: byte, typ: byte, op: Op, value: string)

  // A condition with its estimated cost.
  datatype Costed = Costed(pred: Pred, cost: nat)

  predicate IsNumeric(typ: byte) {
    typ == 1 || typ == 2 || typ == 3 || typ == 4 || typ == 5 || typ == 6 || typ == LOOKUP
  }

  predicate IsCard(card: Bytes) {
    |card| >= 4 && card[0] == 0x7D && card[1] == 0xCA
  }

  // The first field with this ordinal, from off on, up to one that runs past the card's end.
  function FieldFrom(card: Bytes, ord: byte, off: nat): Option<Bytes>
    decreases |card| - off
  {
    if off + 1 >= |card| || off + 2 + card[off + 1] as int > |card| then None
    else if card[off] % 0x20 == ord then Some(card[off + 2..off + 2 + card[off + 1] as int])
    else FieldFrom(card, ord, off + 2 + card[off + 1] as int)
  }

  // The low n bytes as an unsigned number, or zero when the field is shorter.
  function Low(field: Bytes, n: nat): nat {
    if |field| >= n then LeNat(field[..n]) else 0
  }

  // Two's complement in the given range.
  function Signed(v: nat, range: nat): int {
    if 2 * v >= range then v - range else v
  }

  function Decode(field: Bytes, typ: byte): Option<int> {
    if typ == 1 then Some(Low(field, 1))
    else if typ == 2 then Some(Low(field, 2))
    else if typ == 3 || typ == LOOKUP || typ == 6 then Some(Signed(Low(field, 4), 0x1_0000_0000))
    else if typ == 4 then Some(Signed(Low(field, 1), 0x100))
    else if typ == 5 then Some(Signed(Low(field, 2), 0x1_0000))
    else None
  }

  // A numeric field's value.
  function IntField(card: Bytes, ord: byte, typ: byte): Option<int> {
    if !IsCard(card) then None
    else match FieldFrom(card, ord, 4)
      case None => None
      case Some(f) => Decode(f, typ)
  }

  method ExtractInt(card: Bytes, ord: byte, typ: byte) returns (r: Option<int>)
    ensures r == IntField(card, ord, typ)
  {
    if !IsCard(card) {
      return None;
    }
    var off := 4;
    while off + 1 < |card|
      invariant FieldFrom(card, ord, off) == FieldFrom(card, ord, 4)
    {
      var len: int := card[off + 1];
      if off + 2 + len > |card| {
        break;
      }
      if card[off] % 0x20 == ord {
        return Decode(card[off + 2..off + 2 + len], typ);
      }
      off := off + 2 + len;
    }
    r := None;
  }

  // strcmp on texts without embedded zeros.
  function StrCmp(a: string, b: string): int
    decreases |a|
  {
    if a == "" && b == "" then 0
    else if a == "" then -1
    else if b == "" then 1
    else if a[0] == b[0] then StrCmp(a[1..], b[1..])
    else a[0] as int - b[0] as int
  }

  lemma {:induction false} StrCmpOrders(a: string, b: string)
    ensures StrCmp(a, b) == 0 <==> a == b
    ensures StrCmp(a, b) > 0 <==> StrCmp(b, a) < 0
    decreases |a|
  {
    if a != "" && b != "" {
      StrCmpOrders(a[1..], b[1..]);
      assert a == [a[0]] + a[1..] && b == [b[0]] + b[1..];
    }
  }

  predicate Compares(order: int, op: Op)
    requires !op.IN? && !op.NI?
  {
    match op
    case EQ => order == 0
    case NE => order != 0
    case GT => order > 0
    case LT => order < 0
    case GE => order >= 0
    case LE => order <= 0
  }

  predicate TextMeets(actual: string, op: Op, expected: string) {
    if op.IN? then InList(actual, expected)
    else if op.NI? then !InList(actual, expected)
    else Compares(StrCmp(actual, expected), op)
  }

  predicate IntMeets(actual: int, op: Op, expected: string) {
    if op.IN? || op.NI? then TextMeets(IntText(actual), op, expected)
    else Compares(actual - Strtol(expected), op)
  }

  // Whether a card meets a condition. The text of a field that is not numeric is a parameter.
  predicate Meets(card: Bytes, p: Pred, text: (Bytes, byte, byte) -> string) {
    if IsNumeric(p.typ) then
      var v := IntField(card, p.ord, p.typ);
      v.Some? && IntMeets(v.value, p.op, p.value)
    else TextMeets(text(card, p.ord, p.typ), p.op, p.value)
  }

  method Evaluate(card: Bytes, p: Pred, text: (Bytes, byte, byte) -> string) returns (pass: bool)
    ensures pass == Meets(card, p, text)
  {
    hide InList, IntField;
    if IsNumeric(p.typ) {
      var v := ExtractInt(card, p.ord, p.typ);
      if v.None? {
        pass := false;
      } else if p.op.IN? || p.op.NI? {
        var found := CompareIn(IntText(v.value), p.value);
        pass := found == p.op.IN?;
      } else {
        pass := Compares(v.value - Strtol(p.value), p.op);
      }
    } else {
      var actual := text(card, p.ord, p.typ);
      if p.op.IN? || p.op.NI? {
        var found := CompareIn(actual, p.value);
        pass := found == p.op.IN?;
      } else {
        pass := Compares(StrCmp(actual, p.value), p.op);
      }
    }
  }

  ghost predicate MeetsAll(card: Bytes, ps: seq<Costed>, text: (Bytes, byte, byte) -> string) {
    forall k :: 0 <= k < |ps| ==> Meets(card, ps[k].pred, text)
  }

  // The readable rows that meet every condition, in scan order.
  ghost function Selected(rows: seq<Option<Bytes>>, ps: seq<Costed>, text: (Bytes, byte, byte) -> string):
    seq<Bytes>
  {
    if rows == [] then []
    else
      var init, last := Selected(rows[..|rows| - 1], ps, text), rows[|rows| - 1];
      if last.Some? && MeetsAll(last.value, ps, text) then init + [last.value] else init
  }

  // The order of the conditions does not matter.
  lemma {:induction false} OrderIrrelevant(rows: seq<Option<Bytes>>, ps: seq<Costed>, qs: seq<Costed>,
                                           text: (Bytes, byte, byte) -> string)
    requires multiset(ps) == multiset(qs)
    ensures Selected(rows, ps, text) == Selected(rows, qs, text)
  {
    if rows != [] {
      OrderIrrelevant(rows[..|rows| - 1], ps, qs, text);
      var last := rows[|rows| - 1];
      if last.Some? {
        MeetsSame(last.value, ps, qs, text);
        MeetsSame(last.value, qs, ps, text);
      }
    }
  }

  lemma MeetsSame(card: Bytes, ps: seq<Costed>, qs: seq<Costed>, text: (Bytes, byte, byte) -> string)
    requires multiset(ps) == multiset(qs)
    ensures MeetsAll(card, ps, text) ==> MeetsAll(card, qs, text)
  {
    forall k | MeetsAll(card, ps, text) && 0 <= k < |qs|
      ensures Meets(card, qs[k].pred, text)
    {
      assert qs[k] in multiset(qs);
      assert qs[k] in multiset(ps);
      assert qs[k] in ps;
    }
  }

  // The first i conditions are in place, and condition i is the cheapest of those up to j.
  ghost predicate Settled(cs: seq<Costed>, i: nat) {
    forall a, b :: 0 <= a < b < |cs| && a < i ==> cs[a].cost <= cs[b].cost
  }

  ghost predicate LeastTo(cs: seq<Costed>, i: nat, j: nat) {
    i < |cs| && forall b :: i < b < j && b < |cs| ==> cs[i].cost <= cs[b].cost
  }

  lemma SwapKeeps(cs: seq<Costed>, i: nat, j: nat)
    requires i < j < |cs| && Settled(cs, i) && LeastTo(cs, i, j) && cs[j].cost < cs[i].cost
    ensures var ds := cs[i := cs[j]][j := cs[i]];
      Settled(ds, i) && LeastTo(ds, i, j + 1) && multiset(ds) == multiset(cs)
  {
  }

  // The conditions of a query, held as parallel arrays, each with its estimated cost.
  class Plan {
    const ords: array<byte>
    const types: array<byte>
    const ops: array<Op>
    const values: array<string>
    const costs: array<nat>
    var count: nat

    ghost predicate Valid()
      reads this
    {
      && ords != types && count < 0x100
      && ords.Length == types.Length == ops.Length == values.Length == costs.Length && count <= ords.Length
    }

    ghost function At(k: nat): Costed
      requires Valid() && k < count
      reads this, ords, types, ops, values, costs
    {
      Costed(Pred(ords[k], types[k], ops[k], values[k]), costs[k])
    }

    // The conditions of a query, as written, each with its estimated cost.
    constructor (conds: seq<Costed>)
      requires |conds| < 0x100
      ensures Valid() && Conds() == conds
      ensures fresh(ords) && fresh(types) && fresh(ops) && fresh(values) && fresh(costs)
    {
      var n := |conds|;
      ords := new byte[n](k requires 0 <= k < n => conds[k].pred.ord);
      types := new byte[n](k requires 0 <= k < n => conds[k].pred.typ);
      ops := new Op[n](k requires 0 <= k < n => conds[k].pred.op);
      values := new string[n](k requires 0 <= k < n => conds[k].pred.value);
      costs := new nat[n](k requires 0 <= k < n => conds[k].cost);
      count := n;
      new;
      assert forall k :: 0 <= k < n ==> At(k) == conds[k];
    }

    // The conditions in their present order.
    ghost function Conds(): (cs: seq<Costed>)
      requires Valid()
      reads this, ords, types, ops, values, costs
      ensures |cs| == count && forall k :: 0 <= k < count ==> cs[k] == At(k)
    {
      seq(count, k requires Valid() && 0 <= k < count reads this, ords, types, ops, values, costs => At(k))
    }

    method SwapParts(i: nat, j: nat)
      requires Valid() && i < j < count
      modifies ords, types, ops, values, costs
      ensures forall k :: 0 <= k < count ==>
        At(k) == if k == i then old(At(j)) else if k == j then old(At(i)) else old(At(k))
    {
      ords[i], ords[j] := ords[j], ords[i];
      types[i], types[j] := types[j], types[i];
      ops[i], ops[j] := ops[j], ops[i];
      values[i], values[j] := values[j], values[i];
      costs[i], costs[j] := costs[j], costs[i];
    }

    // Swapping two conditions moves all five parts of each.
    method Swap(i: nat, j: nat)
      requires Valid() && i < j < count
      modifies ords, types, ops, values, costs
      ensures Conds() == old(Conds()[i := Conds()[j]][j := Conds()[i]])
    {
      hide At;
      ghost var cs := Conds();
      SwapParts(i, j);
      assert Conds() == cs[i := cs[j]][j := cs[i]];
    }

    // Exchange sort by cost: the same conditions, each still with its own parts, cheapest first.
    method Sort()
      requires Valid()
      modifies ords, types, ops, values, costs
      ensures multiset(Conds()) == multiset(old(Conds()))
      ensures Settled(Conds(), count)
    {
      hide Settled, LeastTo;
      ghost var cs := Conds();
      var i := 0;
      NoneSettled(cs);
      while i + 1 < count
        invariant i <= count && cs == Conds()
        invariant multiset(cs) == multiset(old(Conds())) && Settled(cs, i)
      {
        var j := i + 1;
        LeastSelf(cs, i);
        while j < count
          invariant i < j <= count && cs == Conds()
          invariant multiset(cs) == multiset(old(Conds())) && Settled(cs, i) && LeastTo(cs, i, j)
        {
          if costs[j] < costs[i] {
            SwapKeeps(cs, i, j);
            Swap(i, j);
            cs := Conds();
          } else {
            LeastStep(cs, i, j);
          }
          j := j + 1;
        }
        SettledStep(cs, i);
        i := i + 1;
      }
      LastSettled(cs, i);
    }

    // One row against the conditions in order, stopping at the first that fails.
    method RowPasses(card: Bytes, text: (Bytes, byte, byte) -> string) returns (pass: bool)
      requires Valid()
      ensures pass == MeetsAll(card, Conds(), text)
    {
      hide Meets;
      pass := true;
      var wi := 0;
      ghost var ps := Conds();
      while wi < count && pass
        invariant wi <= count
        invariant pass ==> forall k :: 0 <= k < wi ==> Meets(card, ps[k].pred, text)
        invariant !pass ==> exists k :: 0 <= k < wi && !Meets(card, ps[k].pred, text)
      {
        assert ps[wi] == At(wi);
        pass := Evaluate(card, Pred(ords[wi], types[wi], ops[wi], values[wi]), text);
        wi := wi + 1;
      }
    }

    method Filter(rows: seq<Option<Bytes>>, text: (Bytes, byte, byte) -> string) returns (kept: seq<Bytes>)
      requires Valid()
      ensures kept == QueryJoin.First(Selected(rows, Conds(), text), RESULTS_MAX)
    {
      hide MeetsAll;
      kept := [];
      var ci := 0;
      while ci < |rows| && |kept| < RESULTS_MAX
        invariant ci <= |rows| && |kept| <= RESULTS_MAX
        invariant kept == Selected(rows[..ci], Conds(), text)
      {
        assert rows[..ci + 1][..ci] == rows[..ci];
        if rows[ci].Some? {
          var pass := RowPasses(rows[ci].value, text);
          if pass {
            kept := kept + [rows[ci].value];
          }
        }
        ci := ci + 1;
      }
      SelectedPrefix(rows, ci, Conds(), text);
      assert rows[..|rows|] == rows;
    }

    // Whatever the costs, a query keeps the rows that the conditions as written keep, in scan order.
    method Run(rows: seq<Option<Bytes>>, text: (Bytes, byte, byte) -> string) returns (kept: seq<Bytes>)
      requires Valid()
      modifies ords, types, ops, values, costs
      ensures kept == QueryJoin.First(Selected(rows, old(Conds()), text), RESULTS_MAX)
    {
      ghost var was := Conds();
      if count > 1 {
        Sort();
      }
      kept := Filter(rows, text);
      OrderIrrelevant(rows, was, Conds(), text);
    }
  }

  // A query from its conditions to its rows.
  method Query(conds: seq<Costed>, rows: seq<Option<Bytes>>, text: (Bytes, byte, byte) -> string)
    returns (kept: seq<Bytes>)
    requires |conds| < 0x100
    ensures kept == QueryJoin.First(Selected(rows, conds, text), RESULTS_MAX)
  {
    var plan := new Plan(conds);
    kept := plan.Run(rows, text);
  }

  lemma NoneSettled(cs: seq<Costed>)
    ensures Settled(cs, 0)
  {
  }

  lemma LeastSelf(cs: seq<Costed>, i: nat)
    requires i < |cs|
    ensures LeastTo(cs, i, i + 1)
  {
  }

  lemma LeastStep(cs: seq<Costed>, i: nat, j: nat)
    requires i < j < |cs| && LeastTo(cs, i, j) && cs[i].cost <= cs[j].cost
    ensures LeastTo(cs, i, j + 1)
  {
  }

  lemma SettledStep(cs: seq<Costed>, i: nat)
    requires Settled(cs, i) && LeastTo(cs, i, |cs|)
    ensures Settled(cs, i + 1)
  {
  }

  // With at most one condition left, all are in place.
  lemma LastSettled(cs: seq<Costed>, i: nat)
    requires Settled(cs, i) && i + 1 >= |cs|
    ensures Settled(cs, |cs|)
  {
  }

  lemma {:induction false} SelectedPrefix(rows: seq<Option<Bytes>>, n: nat, ps: seq<Costed>,
                                          text: (Bytes, byte, byte) -> string)
    requires n <= |rows|
    ensures Selected(rows[..n], ps, text) <= Selected(rows, ps, text)
    decreases |rows|
  {
    hide MeetsAll;
    if n < |rows| {
      assert rows[..|rows| - 1][..n] == rows[..n];
      SelectedPrefix(rows[..|rows| - 1], n, ps, text);
    } else {
      assert rows[..n] == rows;
    }
  }

  // The card whose only field is a lookup to v.
  function LookupCard(ord: byte, v: word): (card: Bytes)
    requires ord < 0x20
  {
    [0x7D, 0xCA, 0, 0, ord, 4] + Store32(v)
  }

  lemma LookupValue(ord: byte, v: word)
    requires ord < 0x20 && v < 0x8000_0000
    ensures IntField(LookupCard(ord, v), ord, LOOKUP) == Some(v)
  {
    var card := LookupCard(ord, v);
    assert card[6..10] == Store32(v) == Store32(v)[..4];
    assert FieldFrom(card, ord, 4) == Some(Store32(v));
    Load32Store([], v, []);
    assert [] + Store32(v) + [] == Store32(v) == Store32(v)[0..4];
    LeNatOf4(Store32(v), 0);
  }

  // Whether a row's lookup field names a matching card of the joined pack.
  ghost predicate Names(card: Bytes, ord: byte, cards: seq<QueryJoin.Card>) {
    var v := IntField(card, ord, LOOKUP);
    v.Some? && QueryJoin.Matching(cards, v.value)
  }

  // The condition that stands in for one on a joined pack.
  function Rewritten(ord: byte, ids: seq<nat>): Pred {
    Pred(ord, LOOKUP, IN, QueryJoin.List(ids))
  }

  // The rewriting keeps the meaning for every row if and only if all matching ids fit the list.
  lemma RewriteExact(ord: byte, cards: seq<QueryJoin.Card>, text: (Bytes, byte, byte) -> string)
    requires ord < 0x20 && QueryJoin.MatchIds(cards) != []
    requires QueryJoin.AllDiffer(QueryJoin.MatchIds(cards))
    requires forall v: nat :: v in QueryJoin.MatchIds(cards) ==> v < 0x40_0000
    ensures var ids := QueryJoin.First(QueryJoin.MatchIds(cards), QueryJoin.MATCH_MAX);
      QueryJoin.Fits(QueryJoin.MatchIds(cards)) <==>
      forall card: Bytes :: Meets(card, Rewritten(ord, ids), text) <==> Names(card, ord, cards)
  {
    var all := QueryJoin.MatchIds(cards);
    var ids := QueryJoin.First(all, QueryJoin.MATCH_MAX);
    QueryJoin.SemiJoin(cards);
    if !QueryJoin.Fits(all) {
      QueryJoin.SearchMisses(cards);
      var v := ids[QueryJoin.Missed(ids)];
      assert v in all;
      LookupValue(ord, v);
      assert Names(LookupCard(ord, v), ord, cards);
    }
  }
}
