/** What conditions mean, apart from how they are evaluated: numbers compare as numbers, texts by their
    first difference, and a numeric field is its bytes in the width and sign of its type.
 */
module QueryValues {
  import opened Bits
  import opened Collections
  import opened QueryText
  import opened QueryPlan

  // A condition on a number, with a number printed as its value.
  lemma NumberMeets(a: int, v: int)
    requires -0x8000_0000 <= v < 0x8000_0000
    ensures IntMeets(a, EQ, IntText(v)) <==> a == v
    ensures IntMeets(a, NE, IntText(v)) <==> a != v
    ensures IntMeets(a, GT, IntText(v)) <==> a > v
    ensures IntMeets(a, LT, IntText(v)) <==> a < v
    ensures IntMeets(a, GE, IntText(v)) <==> a >= v
    ensures IntMeets(a, LE, IntText(v)) <==> a <= v
  {
    hide IntText, Strtol;
    StrtolOfText(v);
  }

  // a comes first: up to some place both are the same, and there a ends or has the smaller character.
  ghost predicate Earlier(a: string, b: string) {
    exists k: nat :: EarlierAt(a, b, k)
  }

  predicate EarlierAt(a: string, b: string, k: nat) {
    k <= |a| && k < |b| && a[..k] == b[..k] && (k < |a| ==> a[k] < b[k])
  }

  lemma EarlierStarts(a: string, b: string)
    ensures Earlier(a, b) ==> b != "" && (a == "" || a[0] <= b[0])
  {
    if Earlier(a, b) {
      var k: nat :| EarlierAt(a, b, k);
      if k > 0 {
        assert a[0] == a[..k][0] && b[0] == b[..k][0];
      }
    }
  }

  lemma {:induction false} StrCmpIsEarlier(a: string, b: string)
    ensures StrCmp(a, b) < 0 <==> Earlier(a, b)
    decreases |a|
  {
    if a != "" && b != "" && a[0] == b[0] {
      StrCmpIsEarlier(a[1..], b[1..]);
      if Earlier(a[1..], b[1..]) {
        var k: nat :| EarlierAt(a[1..], b[1..], k);
        assert a[..k + 1] == [a[0]] + a[1..][..k] && b[..k + 1] == [b[0]] + b[1..][..k];
        assert EarlierAt(a, b, k + 1);
      }
      if Earlier(a, b) {
        var k: nat :| EarlierAt(a, b, k);
        assert a[1..][..k - 1] == a[..k][1..] && b[1..][..k - 1] == b[..k][1..];
        assert EarlierAt(a[1..], b[1..], k - 1);
      }
    } else if b != "" && (a == "" || a[0] < b[0]) {
      assert EarlierAt(a, b, 0);
    } else {
      EarlierStarts(a, b);
    }
  }

  // A condition on a text.
  lemma TextOrder(a: string, b: string)
    ensures TextMeets(a, EQ, b) <==> a == b
    ensures TextMeets(a, NE, b) <==> a != b
    ensures TextMeets(a, GT, b) <==> Earlier(b, a)
    ensures TextMeets(a, LT, b) <==> Earlier(a, b)
    ensures TextMeets(a, GE, b) <==> !Earlier(a, b)
    ensures TextMeets(a, LE, b) <==> !Earlier(b, a)
  {
    hide StrCmp, Earlier;
    StrCmpOrders(a, b);
    StrCmpIsEarlier(a, b);
    StrCmpIsEarlier(b, a);
  }

  // One field of a card: its ordinal and its bytes.
  datatype Field = Field(ord: byte, data: Bytes)

  predicate Proper(f: Field) {
    |f.data| < 0x100
  }

  function FieldBytes(f: Field): (b: Bytes)
    requires Proper(f)
    ensures |b| == 2 + |f.data|
  {
    var len: byte := |f.data|;
    [f.ord, len] + f.data
  }

  function CardBytes(head: Bytes, fs: seq<Field>): Bytes
    requires forall f :: f in fs ==> Proper(f)
    decreases |fs|
  {
    if fs == [] then head else CardBytes(head + FieldBytes(fs[0]), fs[1..])
  }

  lemma {:induction false} CardStarts(head: Bytes, fs: seq<Field>)
    requires forall f :: f in fs ==> Proper(f)
    ensures head <= CardBytes(head, fs)
    decreases |fs|
  {
    if fs != [] {
      CardStarts(head + FieldBytes(fs[0]), fs[1..]);
    }
  }

  // The bytes of the first field with the ordinal, of which the low five bits count.
  function FirstWith(fs: seq<Field>, ord: byte): Option<Bytes> {
    if fs == [] then None else if fs[0].ord % 0x20 == ord then Some(fs[0].data) else FirstWith(fs[1..], ord)
  }

  // Searching a card made of whole fields finds that field.
  lemma {:induction false} FindsFirst(head: Bytes, fs: seq<Field>, ord: byte)
    requires forall f :: f in fs ==> Proper(f)
    ensures FieldFrom(CardBytes(head, fs), ord, |head|) == FirstWith(fs, ord)
    decreases |fs|
  {
    if fs != [] {
      var f, card := fs[0], CardBytes(head, fs);
      var next := head + FieldBytes(f);
      CardStarts(next, fs[1..]);
      assert forall k :: 0 <= k < |next| ==> card[k] == next[k];
      assert card[|head| + 2..|head| + 2 + |f.data|] == f.data;
      FindsFirst(next, fs[1..], ord);
    }
  }

  // The bytes of a number, lowest first, negative ones in two's complement.
  function Stored(v: int, n: nat): (b: Bytes)
    ensures |b| == n
    decreases n
  {
    if n == 0 then [] else [v % 0x100] + Stored(v / 0x100, n - 1)
  }

  function Power(n: nat): (p: int)
    ensures p > 0
  {
    if n == 0 then 1 else 0x100 * Power(n - 1)
  }

  lemma {:induction false} StoredNumber(v: int, n: nat)
    requires -Power(n) <= v < Power(n)
    ensures LeNat(Stored(v, n)) == if v < 0 then v + Power(n) else v
    decreases n
  {
    if n > 0 {
      StoredNumber(v / 0x100, n - 1);
      assert Stored(v, n)[1..] == Stored(v / 0x100, n - 1);
    }
  }

  // Every number in the range of a type reads back from its bytes.
  lemma NumberDecodes(v: int)
    ensures 0 <= v < 0x100 ==> Decode(Stored(v, 1), 1) == Some(v)
    ensures 0 <= v < 0x1_0000 ==> Decode(Stored(v, 2), 2) == Some(v)
    ensures -0x80 <= v < 0x80 ==> Decode(Stored(v, 1), 4) == Some(v)
    ensures -0x8000 <= v < 0x8000 ==> Decode(Stored(v, 2), 5) == Some(v)
    ensures -0x8000_0000 <= v < 0x8000_0000 ==>
      Decode(Stored(v, 4), 3) == Decode(Stored(v, 4), 6) == Decode(Stored(v, 4), LOOKUP) == Some(v)
  {
    hide Stored, LeNat;
    assert Power(1) == 0x100 && Power(2) == 0x1_0000 && Power(3) == 0x100_0000 && Power(4) == 0x1_0000_0000;
    assert Stored(v, 1)[..1] == Stored(v, 1) && Stored(v, 2)[..2] == Stored(v, 2) && Stored(v, 4)[..4] == Stored(v, 4);
    if -0x100 <= v < 0x100 {
      StoredNumber(v, 1);
    }
    if -0x1_0000 <= v < 0x1_0000 {
      StoredNumber(v, 2);
    }
    if -0x1_0000_0000 <= v < 0x1_0000_0000 {
      StoredNumber(v, 4);
    }
  }

  // A field shorter than its type reads as zero, and one of no numeric type as nothing.
  lemma OddFields(f: Bytes, typ: byte)
    ensures (typ == 1 || typ == 4) && f == [] ==> Decode(f, typ) == Some(0)
    ensures (typ == 2 || typ == 5) && |f| < 2 ==> Decode(f, typ) == Some(0)
    ensures (typ == 3 || typ == 6 || typ == LOOKUP) && |f| < 4 ==> Decode(f, typ) == Some(0)
    ensures !IsNumeric(typ) ==> Decode(f, typ) == None
  {
  }

  // A condition on a numeric field of a card made of whole fields, in terms of the number stored there.
  lemma CardMeets(fs: seq<Field>, lo: byte, hi: byte, ord: byte, typ: byte, n: nat, a: int, v: int,
                  text: (Bytes, byte, byte) -> string)
    requires (forall f :: f in fs ==> Proper(f)) && FirstWith(fs, ord) == Some(Stored(a, n))
    requires -0x8000_0000 <= v < 0x8000_0000
    requires || (typ == 1 && n == 1 && 0 <= a < 0x100) || (typ == 2 && n == 2 && 0 <= a < 0x1_0000)
             || (typ == 4 && n == 1 && -0x80 <= a < 0x80) || (typ == 5 && n == 2 && -0x8000 <= a < 0x8000)
             || (typ in {3, 6, LOOKUP} && n == 4 && -0x8000_0000 <= a < 0x8000_0000)
    ensures var card := CardBytes([0x7D, 0xCA, lo, hi], fs);
      && (Meets(card, Pred(ord, typ, EQ, IntText(v)), text) <==> a == v)
      && (Meets(card, Pred(ord, typ, NE, IntText(v)), text) <==> a != v)
      && (Meets(card, Pred(ord, typ, GT, IntText(v)), text) <==> a > v)
      && (Meets(card, Pred(ord, typ, LT, IntText(v)), text) <==> a < v)
      && (Meets(card, Pred(ord, typ, GE, IntText(v)), text) <==> a >= v)
      && (Meets(card, Pred(ord, typ, LE, IntText(v)), text) <==> a <= v)
  {
    hide IntMeets, IntText, FieldFrom, Decode, Stored, CardBytes, FirstWith;
    var head: Bytes := [0x7D, 0xCA, lo, hi];
    var card := CardBytes(head, fs);
    CardStarts(head, fs);
    assert forall k :: 0 <= k < 4 ==> card[k] == head[k];
    FindsFirst(head, fs, ord);
    NumberDecodes(a);
    NumberMeets(a, v);
  }

  // What is no card, or has no such field, meets no condition on a number.
  lemma NotMet(card: Bytes, p: Pred, text: (Bytes, byte, byte) -> string)
    requires p.typ in {1, 2, 3, 4, 5, 6, LOOKUP}
    requires |card| < 4 || card[0] != 0x7D || card[1] != 0xCA
    ensures !Meets(card, p, text)
  {
    hide IntMeets;
  }

  lemma AbsentNotMet(fs: seq<Field>, lo: byte, hi: byte, p: Pred, text: (Bytes, byte, byte) -> string)
    requires (forall f :: f in fs ==> Proper(f)) && FirstWith(fs, p.ord) == None && p.typ in {1, 2, 3, 4, 5, 6, LOOKUP}
    ensures !Meets(CardBytes([0x7D, 0xCA, lo, hi], fs), p, text)
  {
    hide IntMeets, FieldFrom, CardBytes, FirstWith;
    FindsFirst([0x7D, 0xCA, lo, hi], fs, p.ord);
  }
}
