/** Deferred batches received over UDP: the callback only parses and queues them, the poll loop stores
    their cards a few at a time and acknowledges each batch once.
 */
module BatchQueue {
  import opened Bits

  const QUEUE := 32
  const MAX_BATCH := 16
  const CARD_MAX := 128
  const PER_POLL := 4
  const ACK_QUEUED := 2
  const ACK_DURABLE := 3

  datatype Card = Card(key: word, data: Bytes)
  datatype Batch = Batch(active: bool, session: nat, batchSeq: nat, durability: byte,
                         next: nat, bitmap: nat, cards: seq<Card>)
  datatype Message = Ack(session: nat, batchSeq: nat, count: nat, bitmap: nat, committed: bool)
                   | Backpressure(session: nat)

  // A batch as it was accepted, and one store of one of its cards.
  datatype Accepted = Accepted(session: nat, batchSeq: nat, durability: byte, cards: seq<Card>)
  datatype Stored = Stored(ticket: nat, card: Card, ok: bool)

  // The complete cards of a payload, at most n of them, up to the first that is cut short or too long.
  function Cards(payload: Bytes, off: nat, n: nat): (cs: seq<Card>)
    ensures |cs| <= n
    ensures forall k :: 0 <= k < |cs| ==> |cs[k].data| <= CARD_MAX
    decreases n
  {
    if n == 0 || off + 8 > |payload| then []
    else
      var len := Load16(payload, off + 6);
      if off + 8 + len > |payload| || len > CARD_MAX then []
      else
        [Card(Load16(payload, off) % 0x400 * 0x40_0000 + Load32(payload, off + 2) % 0x40_0000,
              payload[off + 8..off + 8 + len])]
        + Cards(payload, off + 8 + len, n - 1)
  }

  // How a client writes a card: a pack of ten bits, a card number of twenty-two, and the data.
  predicate Sendable(c: Card) {
    |c.data| <= CARD_MAX
  }

  function CardBytes(c: Card): (b: Bytes)
    requires Sendable(c)
    ensures |b| == 8 + |c.data|
  {
    [c.key / 0x40_0000 % 0x100, c.key / 0x40_0000 / 0x100] + Store32(c.key % 0x40_0000)
    + [|c.data|, 0] + c.data
  }

  function AllBytes(cs: seq<Card>): Bytes
    requires forall k :: 0 <= k < |cs| ==> Sendable(cs[k])
  {
    if cs == [] then [] else CardBytes(cs[0]) + AllBytes(cs[1..])
  }

  lemma CardAt(pre: Bytes, c: Card, rest: Bytes)
    requires Sendable(c)
    ensures var b := pre + CardBytes(c) + rest;
      Load16(b, |pre|) == c.key / 0x40_0000 && Load32(b, |pre| + 2) == c.key % 0x40_0000
      && Load16(b, |pre| + 6) == |c.data| && b[|pre| + 8..|pre| + 8 + |c.data|] == c.data
  {
    var b := pre + CardBytes(c) + rest;
    var head := pre + [c.key / 0x40_0000 % 0x100, c.key / 0x40_0000 / 0x100];
    var tail := [|c.data|, 0] + c.data + rest;
    assert b == head + Store32(c.key % 0x40_0000) + tail;
    Load32Store(head, c.key % 0x40_0000, tail);
    assert b[|pre| + 8..] == c.data + rest;
  }

  lemma CardsStep(b: Bytes, off: nat, c: Card, n: nat)
    requires off + 8 + |c.data| <= |b| && Sendable(c) && n > 0
    requires Load16(b, off) == c.key / 0x40_0000 && Load32(b, off + 2) == c.key % 0x40_0000
    requires Load16(b, off + 6) == |c.data| && b[off + 8..off + 8 + |c.data|] == c.data
    ensures Cards(b, off, n) == [c] + Cards(b, off + 8 + |c.data|, n - 1)
  {
    hide Load16, Load32;
    var pack: int, card: int, key: int := c.key / 0x40_0000, c.key % 0x40_0000, c.key;
    assert pack < 0x400 && pack % 0x400 * 0x40_0000 + card % 0x40_0000 == key;
  }

  // Parsing gives back exactly the cards that were sent.
  lemma {:induction false} CardsParse(pre: Bytes, cs: seq<Card>)
    requires forall k :: 0 <= k < |cs| ==> Sendable(cs[k])
    ensures Cards(pre + AllBytes(cs), |pre|, |cs|) == cs
    decreases |cs|
  {
    hide Cards, AllBytes, CardBytes, Load16, Load32;
    CardsEnds(pre, cs);
    if cs != [] {
      var c, rest := cs[0], AllBytes(cs[1..]);
      var b := pre + CardBytes(c) + rest;
      assert pre + AllBytes(cs) == b;
      CardAt(pre, c, rest);
      CardsParse(pre + CardBytes(c), cs[1..]);
      CardsStep(b, |pre|, c, |cs|);
      assert [c] + cs[1..] == cs;
    }
  }

  // What follows is not a whole card of at most 128 bytes.
  predicate CutShort(tail: Bytes) {
    |tail| < 8 || Load16(tail, 6) > CARD_MAX || |tail| < 8 + Load16(tail, 6)
  }

  // Of a payload with cards and then something cut short or too long, the cards are taken, at most as many
  // as the batch announces.
  lemma {:induction false} CardsCut(pre: Bytes, cs: seq<Card>, tail: Bytes, n: nat)
    requires (forall k :: 0 <= k < |cs| ==> Sendable(cs[k])) && CutShort(tail)
    ensures Cards(pre + AllBytes(cs) + tail, |pre|, n) == if n < |cs| then cs[..n] else cs
    decreases |cs|
  {
    hide Cards, AllBytes, CardBytes, Load16, Load32;
    CardsEnds(pre, cs);
    var b := pre + AllBytes(cs) + tail;
    NoCards(b, |pre|);
    if cs != [] && n > 0 {
      var c, rest := cs[0], AllBytes(cs[1..]) + tail;
      assert b == pre + CardBytes(c) + rest;
      CardAt(pre, c, rest);
      assert b == pre + CardBytes(c) + AllBytes(cs[1..]) + tail;
      CardsCut(pre + CardBytes(c), cs[1..], tail, n - 1);
      CardsStep(b, |pre|, c, n);
      assert [c] + cs[1..] == cs && (n < |cs| ==> [c] + cs[1..][..n - 1] == cs[..n]);
    } else if cs == [] {
      NothingSent();
      assert pre + [] + tail == pre + tail;
      CutEnds(pre, tail, n);
    }
  }

  lemma NothingSent()
    ensures AllBytes([]) == []
  {
  }

  lemma NoCards(b: Bytes, off: nat)
    ensures Cards(b, off, 0) == []
  {
  }

  lemma CutEnds(pre: Bytes, tail: Bytes, n: nat)
    requires CutShort(tail)
    ensures Cards(pre + tail, |pre|, n) == []
  {
    var b := pre + tail;
    assert |tail| >= 8 ==> b[|pre| + 6] == tail[6] && b[|pre| + 7] == tail[7];
  }

  lemma CardsEnds(pre: Bytes, cs: seq<Card>)
    requires forall k :: 0 <= k < |cs| ==> Sendable(cs[k])
    ensures Cards(pre + AllBytes(cs), |pre|, 0) == []
    ensures cs != [] ==> AllBytes(cs) == CardBytes(cs[0]) + AllBytes(cs[1..])
  {
  }

  // The cards of a batch still to be stored.
  function Left(b: Batch): nat {
    if b.active && b.next < |b.cards| then |b.cards| - b.next else 0
  }

  function Remaining(slots: seq<Batch>): (n: nat) {
    if slots == [] then 0 else Remaining(slots[..|slots| - 1]) + Left(slots[|slots| - 1])
  }

  // All its cards are stored, and it has not been finished. A batch of no cards waits for its turn.
  predicate Complete(b: Batch) {
    b.active && b.cards != [] && b.next == |b.cards|
  }

  predicate NoneComplete(slots: seq<Batch>) {
    forall s :: 0 <= s < |slots| ==> !Complete(slots[s])
  }

  // Of the first n slots one changed only when all before it are finished.
  ghost predicate InTurn(was: seq<Batch>, slots: seq<Batch>, n: nat)
    requires n <= |was| && n <= |slots|
  {
    forall s, t :: 0 <= s < t < n && slots[t] != was[t] ==> !slots[s].active
  }

  lemma {:induction false} RemainingUpdate(slots: seq<Batch>, i: nat, b: Batch)
    requires i < |slots|
    ensures Remaining(slots[i := b]) == Remaining(slots) + Left(b) - Left(slots[i])
  {
    var n := |slots| - 1;
    if i < n {
      RemainingUpdate(slots[..n], i, b);
      assert slots[i := b][..n] == slots[..n][i := b];
    } else {
      assert slots[i := b][..n] == slots[..n];
    }
  }

  lemma {:induction false} NoneRemain(slots: seq<Batch>)
    requires forall i :: 0 <= i < |slots| ==> !slots[i].active
    ensures Remaining(slots) == 0
  {
    if slots != [] {
      NoneRemain(slots[..|slots| - 1]);
    }
  }

  // The stores of one batch, in the order they were made.
  function StoresOf(log: seq<Stored>, ticket: nat): (r: seq<Stored>)
    ensures |r| <= |log|
  {
    if log == [] then []
    else
      var init, last := StoresOf(log[..|log| - 1], ticket), log[|log| - 1];
      if last.ticket == ticket then init + [last] else init
  }

  lemma StoresSnoc(log: seq<Stored>, r: Stored, ticket: nat)
    ensures StoresOf(log + [r], ticket)
      == if r.ticket == ticket then StoresOf(log, ticket) + [r] else StoresOf(log, ticket)
  {
    assert (log + [r])[..|log|] == log;
  }

  // Bit i of the bitmap says whether store i succeeded.
  ghost predicate Reports(bitmap: nat, stores: seq<Stored>) {
    forall i: nat :: Bit(bitmap, i) <==> i < |stores| && stores[i].ok
  }

  lemma ReportsNone()
    ensures Reports(0, [])
  {
    forall i: nat
      ensures !Bit(0, i)
    {
      ZeroBit(i);
    }
  }

  lemma ReportsNext(bitmap: nat, stores: seq<Stored>, r: Stored)
    requires Reports(bitmap, stores)
    ensures Reports(if r.ok then Or(bitmap, Pow2(|stores|)) else bitmap, stores + [r])
  {
    hide Bit;
    forall i: nat
      ensures Bit(Or(bitmap, Pow2(|stores|)), i) <==> Bit(bitmap, i) || i == |stores|
    {
      OrBit(bitmap, Pow2(|stores|), i);
      Pow2Bit(|stores|, i);
    }
  }

  // The first n cards of a batch were stored once each, in order, and nothing else of it.
  ghost predicate StoredInOrder(log: seq<Stored>, ticket: nat, cards: seq<Card>, n: nat) {
    && n <= |cards| && |StoresOf(log, ticket)| == n
    && forall i :: 0 <= i < n ==> StoresOf(log, ticket)[i].card == cards[i]
  }

  // Slot s holds batch t, partly stored: its bitmap reports the stores made so far.
  ghost predicate SlotOk(b: Batch, s: nat, t: nat, accepted: seq<Accepted>, place: seq<int>, log: seq<Stored>) {
    && t < |accepted| == |place| && place[t] == s
    && Accepted(b.session, b.batchSeq, b.durability, b.cards) == accepted[t]
    && |b.cards| <= MAX_BATCH && b.next <= |b.cards|
    && Reports(b.bitmap, StoresOf(log, t)) && StoredInOrder(log, t, b.cards, b.next)
  }

  // A batch is in exactly one slot, unacknowledged, or done: then every card was stored once, in
  // order, and it was acknowledged once if it asked for that and never otherwise.
  ghost predicate TicketOk(a: Accepted, t: nat, at: int, slots: seq<Batch>, ticket: seq<nat>,
                           log: seq<Stored>, ackOf: seq<int>) {
    && |slots| == |ticket| == QUEUE
    && if at == -1 then
         && StoredInOrder(log, t, a.cards, |a.cards|)
         && multiset(ackOf)[t] == if a.durability >= ACK_QUEUED then 1 else 0
       else
         && 0 <= at < QUEUE && slots[at].active && ticket[at] == t && multiset(ackOf)[t] == 0
  }

  // An acknowledgement is of a batch that is done and reports the outcome of each of its cards.
  ghost predicate MessageOk(m: Message, t: int, accepted: seq<Accepted>, place: seq<int>, log: seq<Stored>) {
    && -1 <= t < |accepted| == |place|
    && (m.Backpressure? <==> t == -1)
    && (t >= 0 ==>
          && place[t] == -1 && Reports(m.bitmap, StoresOf(log, t))
          && m.session == accepted[t].session && m.batchSeq == accepted[t].batchSeq
          && m.count == |accepted[t].cards| && m.committed == (accepted[t].durability >= ACK_DURABLE))
  }

  ghost predicate SlotsOk(slots: seq<Batch>, ticket: seq<nat>, accepted: seq<Accepted>, place: seq<int>,
                          log: seq<Stored>) {
    && |slots| == |ticket| == QUEUE && |accepted| == |place|
    && forall s :: 0 <= s < QUEUE && slots[s].active ==>
         SlotOk(slots[s], s, ticket[s], accepted, place, log)
  }

  ghost predicate TicketsOk(accepted: seq<Accepted>, place: seq<int>, slots: seq<Batch>, ticket: seq<nat>,
                            log: seq<Stored>, ackOf: seq<int>) {
    && |accepted| == |place|
    && forall t :: 0 <= t < |accepted| ==> TicketOk(accepted[t], t, place[t], slots, ticket, log, ackOf)
  }

  ghost predicate MessagesOk(sent: seq<Message>, ackOf: seq<int>, accepted: seq<Accepted>, place: seq<int>,
                             log: seq<Stored>) {
    && |sent| == |ackOf|
    && forall k :: 0 <= k < |sent| ==> MessageOk(sent[k], ackOf[k], accepted, place, log)
  }

  ghost predicate LogOk(log: seq<Stored>, tickets: nat, outcome: nat -> bool) {
    forall k :: 0 <= k < |log| ==> log[k].ticket < tickets && log[k].ok == outcome(k)
  }

  lemma AckCount(ackOf: seq<int>, a: int, t: int)
    ensures multiset(ackOf + [a])[t] == multiset(ackOf)[t] + (if a == t then 1 else 0)
  {
  }

  lemma NotAcked(sent: seq<Message>, ackOf: seq<int>, accepted: seq<Accepted>, place: seq<int>,
                 log: seq<Stored>)
    requires MessagesOk(sent, ackOf, accepted, place, log)
    ensures multiset(ackOf)[|accepted|] == 0
  {
    assert forall x :: x in multiset(ackOf) <==> x in ackOf;
    assert |accepted| !in ackOf;
  }

  lemma {:induction false} NoStores(log: seq<Stored>, ticket: nat)
    requires forall k :: 0 <= k < |log| ==> log[k].ticket != ticket
    ensures StoresOf(log, ticket) == []
  {
    if log != [] {
      NoStores(log[..|log| - 1], ticket);
    }
  }

  // Storing the next card of slot s: its batch is one card further, and no other batch changes.
  lemma StoreSlots(slots: seq<Batch>, ticket: seq<nat>, accepted: seq<Accepted>, place: seq<int>,
                   log: seq<Stored>, s: nat, c: Batch, r: Stored)
    requires SlotsOk(slots, ticket, accepted, place, log) && s < QUEUE && slots[s].active
    requires slots[s].next < |slots[s].cards| && Stepped(slots[s], c, r) && r.ticket == ticket[s]
    ensures SlotsOk(slots[s := c], ticket, accepted, place, log + [r])
  {
    hide Reports, StoresOf;
    var b := slots[s];
    assert SlotOk(b, s, ticket[s], accepted, place, log);
    StoresSnoc(log, r, ticket[s]);
    ReportsNext(b.bitmap, StoresOf(log, ticket[s]), r);
    forall s' | 0 <= s' < QUEUE && s' != s && slots[s'].active
      ensures SlotOk(slots[s'], s', ticket[s'], accepted, place, log + [r])
    {
      assert SlotOk(slots[s'], s', ticket[s'], accepted, place, log);
      StoresSnoc(log, r, ticket[s']);
    }
    assert SlotOk(c, s, ticket[s], accepted, place, log + [r]);
  }

  predicate Stepped(b: Batch, c: Batch, r: Stored)
    requires b.next < |b.cards|
  {
    && c == b.(next := b.next + 1, bitmap := if r.ok then Or(b.bitmap, Pow2(b.next)) else b.bitmap)
    && r.card == b.cards[b.next]
  }

  lemma StoreTickets(accepted: seq<Accepted>, place: seq<int>, slots: seq<Batch>, ticket: seq<nat>,
                     log: seq<Stored>, ackOf: seq<int>, s: nat, c: Batch, r: Stored)
    requires TicketsOk(accepted, place, slots, ticket, log, ackOf) && s < QUEUE == |slots| && c.active
    requires r.ticket < |accepted| && place[r.ticket] == s
    ensures TicketsOk(accepted, place, slots[s := c], ticket, log + [r], ackOf)
  {
    hide StoresOf;
    forall t | 0 <= t < |accepted|
      ensures TicketOk(accepted[t], t, place[t], slots[s := c], ticket, log + [r], ackOf)
    {
      assert TicketOk(accepted[t], t, place[t], slots, ticket, log, ackOf);
      StoresSnoc(log, r, t);
    }
  }

  lemma StoreMessages(sent: seq<Message>, ackOf: seq<int>, accepted: seq<Accepted>, place: seq<int>,
                      log: seq<Stored>, r: Stored)
    requires MessagesOk(sent, ackOf, accepted, place, log)
    requires r.ticket < |accepted| == |place| && place[r.ticket] != -1
    ensures MessagesOk(sent, ackOf, accepted, place, log + [r])
  {
    hide StoresOf, Reports;
    forall k | 0 <= k < |sent|
      ensures MessageOk(sent[k], ackOf[k], accepted, place, log + [r])
    {
      assert MessageOk(sent[k], ackOf[k], accepted, place, log);
      if ackOf[k] >= 0 {
        StoresSnoc(log, r, ackOf[k]);
      }
    }
  }

  // Taking a finished batch out of slot s, with its acknowledgement if it asked for one.
  function AckFor(b: Batch): seq<Message> {
    if b.durability >= ACK_QUEUED then
      [Ack(b.session, b.batchSeq, |b.cards|, b.bitmap, b.durability >= ACK_DURABLE)]
    else []
  }

  lemma FinishKeeps(slots: seq<Batch>, ticket: seq<nat>, accepted: seq<Accepted>, place: seq<int>,
                    log: seq<Stored>, ackOf: seq<int>, sent: seq<Message>, s: nat)
    requires SlotsOk(slots, ticket, accepted, place, log) && s < QUEUE && slots[s].active
    requires TicketsOk(accepted, place, slots, ticket, log, ackOf)
    requires MessagesOk(sent, ackOf, accepted, place, log)
    requires slots[s].next == |slots[s].cards|
    ensures ticket[s] < |place|
    ensures var b, t := slots[s], ticket[s];
      var acks: seq<int> := if b.durability >= ACK_QUEUED then [t] else [];
      var after := slots[s := b.(active := false)];
      SlotsOk(after, ticket, accepted, place[t := -1], log)
      && TicketsOk(accepted, place[t := -1], after, ticket, log, ackOf + acks)
      && MessagesOk(sent + AckFor(b), ackOf + acks, accepted, place[t := -1], log)
  {
    hide StoresOf, Reports;
    var b, t := slots[s], ticket[s];
    assert SlotOk(b, s, t, accepted, place, log);
    assert ackOf + [] == ackOf && sent + [] == sent;
    forall u | 0 <= u < |accepted|
      ensures multiset(ackOf + [t])[u] == multiset(ackOf)[u] + (if t == u then 1 else 0)
      ensures TicketOk(accepted[u], u, place[u], slots, ticket, log, ackOf)
    {
      AckCount(ackOf, t, u);
    }
    assert MessageOk(Ack(b.session, b.batchSeq, |b.cards|, b.bitmap, b.durability >= ACK_DURABLE), t, accepted,
                     place[t := -1], log);
  }

  class Queue {
    // The outcome of the nth store ever made.
    const outcome: nat -> bool
    var slots: seq<Batch>
    var sent: seq<Message>
    var made: nat
    // Every batch accepted so far, which slot it is in (or -1 when it is done), which batch a slot
    // holds, all stores in order, and which batch each message acknowledges (or -1).
    ghost var accepted: seq<Accepted>
    ghost var place: seq<int>
    ghost var ticket: seq<nat>
    ghost var log: seq<Stored>
    ghost var ackOf: seq<int>

    ghost predicate Valid()
      reads this
    {
      && |slots| == |ticket| == QUEUE && |accepted| == |place| && made == |log|
      && SlotsOk(slots, ticket, accepted, place, log)
      && TicketsOk(accepted, place, slots, ticket, log, ackOf)
      && MessagesOk(sent, ackOf, accepted, place, log)
      && LogOk(log, |accepted|, outcome)
    }

    constructor (outcome: nat -> bool)
      ensures Valid() && accepted == [] && log == [] && sent == [] && this.outcome == outcome && NoneComplete(slots)
    {
      this.outcome := outcome;
      slots := seq(QUEUE, i => Batch(false, 0, 0, 0, 0, 0, []));
      sent, made := [], 0;
      accepted, place, ticket, log, ackOf := [], [], seq(QUEUE, i => 0), [], [];
    }

    // Accepting a batch stores nothing. A malformed one is ignored, and one that finds no slot is
    // answered with backpressure.
    method HandleBatchWrite(session: nat, payload: Bytes)
      requires Valid()
      modifies this
      ensures Valid() && log == old(log) && (old(NoneComplete(slots)) ==> NoneComplete(slots))
      ensures var n := if |payload| < 4 then 0 else payload[2] as int;
        if n == 0 || n > MAX_BATCH then
          accepted == old(accepted) && sent == old(sent) && slots == old(slots)
        else if forall s :: 0 <= s < QUEUE ==> old(slots)[s].active then
          accepted == old(accepted) && sent == old(sent) + [Backpressure(session)] && slots == old(slots)
        else
          accepted == old(accepted) + [Accepted(session, Load16(payload, 0), payload[3], Cards(payload, 4, n))]
          && sent == old(sent)
          && Remaining(slots) == old(Remaining(slots)) + |Cards(payload, 4, n)|
    {
      hide Remaining, Cards, Load16;
      if |payload| < 4 || payload[2] == 0 || payload[2] > MAX_BATCH {
        return;
      }
      var free := 0;
      while free < QUEUE && slots[free].active
        invariant free <= QUEUE
        invariant forall s :: 0 <= s < free ==> slots[s].active
      {
        free := free + 1;
      }
      if free == QUEUE {
        Refuse(session);
        return;
      }
      var cards := Cards(payload, 4, payload[2]);
      Enqueue(free, Batch(true, session, Load16(payload, 0), payload[3], 0, 0, cards));
    }

    method Refuse(session: nat)
      requires Valid()
      modifies this`sent, this`ackOf
      ensures Valid() && sent == old(sent) + [Backpressure(session)]
    {
      hide SlotsOk, LogOk, MessageOk, Reports, StoredInOrder;
      sent := sent + [Backpressure(session)];
      ackOf := ackOf + [-1];
      assert MessageOk(Backpressure(session), -1, accepted, place, log) by { RefusalOk(); }
    }

    lemma RefusalOk()
      requires |accepted| == |place|
      ensures forall x :: MessageOk(Backpressure(x), -1, accepted, place, log)
    {
    }

    method Enqueue(s: nat, b: Batch)
      requires Valid() && s < QUEUE && !slots[s].active
      requires b.active && b.next == 0 && b.bitmap == 0 && |b.cards| <= MAX_BATCH
      modifies this`slots, this`accepted, this`place, this`ticket
      ensures Valid() && slots == old(slots)[s := b]
      ensures accepted == old(accepted) + [Accepted(b.session, b.batchSeq, b.durability, b.cards)]
      ensures Remaining(slots) == old(Remaining(slots)) + |b.cards|
    {
      hide Remaining, Reports, StoresOf;
      ghost var t := |accepted|;
      NoStores(log, t);
      ReportsNone();
      NotAcked(sent, ackOf, accepted, place, log);
      RemainingUpdate(slots, s, b);
      slots := slots[s := b];
      accepted := accepted + [Accepted(b.session, b.batchSeq, b.durability, b.cards)];
      place := place + [s];
      ticket := ticket[s := t];
    }

    // One card of a batch goes to the store.
    method StoreNext(s: nat)
      requires Valid() && s < QUEUE && slots[s].active && slots[s].next < |slots[s].cards|
      modifies this`slots, this`made, this`log
      ensures Valid()
      ensures slots == old(slots)[s := old(slots)[s].(next := old(slots)[s].next + 1, bitmap := slots[s].bitmap)]
      ensures log == old(log) + [Stored(ticket[s], old(slots)[s].cards[old(slots)[s].next], outcome(|old(log)|))]
      ensures Remaining(slots) == old(Remaining(slots)) - 1
    {
      hide Remaining, SlotsOk, TicketsOk, MessagesOk, Reports, StoredInOrder;
      NextBound(s);
      var b := slots[s];
      var ok := outcome(made);
      var bitmap := if ok then Or(b.bitmap, Pow2(b.next)) else b.bitmap;
      var c := b.(next := b.next + 1, bitmap := bitmap);
      ghost var r := Stored(ticket[s], b.cards[b.next], ok);
      assert Stepped(b, c, r);
      assert LogOk(log + [r], |accepted|, outcome);
      RemainingUpdate(slots, s, c);
      StoreSlots(slots, ticket, accepted, place, log, s, c, r);
      StoreTickets(accepted, place, slots, ticket, log, ackOf, s, c, r);
      StoreMessages(sent, ackOf, accepted, place, log, r);
      slots := slots[s := c];
      log := log + [r];
      made := made + 1;
    }

    // A batch whose cards are all stored leaves its slot, acknowledged if it asked for that.
    method Finish(s: nat)
      requires Valid() && s < QUEUE && slots[s].active && slots[s].next == |slots[s].cards|
      modifies this`slots, this`sent, this`place, this`ackOf
      ensures Valid()
      ensures slots == old(slots)[s := old(slots)[s].(active := false)]
      ensures sent == old(sent) + AckFor(old(slots)[s])
      ensures Remaining(slots) == old(Remaining(slots))
    {
      hide Remaining, SlotsOk, TicketsOk, MessagesOk, LogOk;
      var b := slots[s];
      ghost var t := ticket[s];
      FinishKeeps(slots, ticket, accepted, place, log, ackOf, sent, s);
      RemainingUpdate(slots, s, b.(active := false));
      if b.durability >= ACK_QUEUED {
        sent := sent + [Ack(b.session, b.batchSeq, |b.cards|, b.bitmap, b.durability >= ACK_DURABLE)];
        ackOf := ackOf + [t];
      }
      assert old(ackOf) + [] == old(ackOf) && old(sent) + [] == old(sent);
      slots := slots[s := b.(active := false)];
      place := place[t := -1];
    }

    // One poll stores four cards, or all that are left if there are fewer.
    method Poll()
      requires Valid()
      modifies this`slots, this`made, this`log, this`sent, this`place, this`ackOf
      ensures Valid()
      ensures var n := if old(Remaining(slots)) < PER_POLL then old(Remaining(slots)) else PER_POLL;
        |log| == |old(log)| + n && old(log) <= log && old(sent) <= sent && Remaining(slots) == old(Remaining(slots)) - n
      ensures old(Remaining(slots)) < PER_POLL ==> forall s :: 0 <= s < QUEUE ==> !slots[s].active
      ensures InTurn(old(slots), slots, QUEUE) && (old(NoneComplete(slots)) ==> NoneComplete(slots))
    {
      hide Remaining, SlotsOk, TicketsOk, MessagesOk, LogOk;
      var done, i := 0, 0;
      while i < QUEUE && done < PER_POLL
        invariant i <= QUEUE && done <= PER_POLL && Valid()
        invariant |log| == |old(log)| + done && old(log) <= log && old(sent) <= sent
        invariant Remaining(slots) == old(Remaining(slots)) - done
        invariant done < PER_POLL ==> forall s :: 0 <= s < i ==> !slots[s].active
        invariant InTurn(old(slots), slots, i) && (old(NoneComplete(slots)) ==> NoneComplete(slots))
        invariant forall s :: i <= s < QUEUE ==> slots[s] == old(slots)[s]
      {
        if slots[i].active {
          while slots[i].next < |slots[i].cards| && done < PER_POLL
            invariant Valid() && slots[i].active && done <= PER_POLL
            invariant |log| == |old(log)| + done && old(log) <= log && old(sent) <= sent
            invariant Remaining(slots) == old(Remaining(slots)) - done
            invariant done < PER_POLL ==> forall s :: 0 <= s < i ==> !slots[s].active
            invariant forall s :: 0 <= s < i ==> !slots[s].active
            invariant InTurn(old(slots), slots, i)
            invariant old(NoneComplete(slots)) ==> forall s :: 0 <= s < QUEUE && s != i ==> !Complete(slots[s])
            invariant forall s :: i < s < QUEUE ==> slots[s] == old(slots)[s]
            decreases |slots[i].cards| - slots[i].next
          {
            StoreNext(i);
            done := done + 1;
          }
          if slots[i].next >= |slots[i].cards| {
            NextBound(i);
            Finish(i);
          }
        }
        i := i + 1;
      }
      if done < PER_POLL {
        NoneRemain(slots);
      }
    }

    // With nothing new coming in, one poll more than a quarter of the cards left finishes everything.
    method Drain() returns (polls: nat)
      requires Valid()
      modifies this`slots, this`made, this`log, this`sent, this`place, this`ackOf
      ensures Valid() && polls == old(Remaining(slots)) / PER_POLL + 1
      ensures old(log) <= log && old(sent) <= sent && |log| == |old(log)| + old(Remaining(slots))
      ensures forall s :: 0 <= s < QUEUE ==> !slots[s].active
      ensures forall t :: 0 <= t < |accepted| ==> StoredInOrder(log, t, accepted[t].cards, |accepted[t].cards|)
    {
      hide Remaining, SlotsOk, TicketsOk, MessagesOk, LogOk, StoredInOrder;
      polls := 0;
      while Remaining(slots) >= PER_POLL
        invariant Valid() && old(log) <= log && old(sent) <= sent
        invariant Remaining(slots) == old(Remaining(slots)) - polls * PER_POLL
        invariant |log| == |old(log)| + polls * PER_POLL
        decreases Remaining(slots)
      {
        Poll();
        polls := polls + 1;
      }
      Poll();
      polls := polls + 1;
      forall t: nat | t < |accepted|
        ensures StoredInOrder(log, t, accepted[t].cards, |accepted[t].cards|)
      {
        AllDone(t);
      }
    }

    // Once no slot is active, every batch ever accepted has had each of its cards stored once, in
    // order, and has been acknowledged once if it asked for that and not at all otherwise.
    lemma AllDone(t: nat)
      requires Valid() && t < |accepted| && forall s :: 0 <= s < QUEUE ==> !slots[s].active
      ensures StoredInOrder(log, t, accepted[t].cards, |accepted[t].cards|)
      ensures multiset(ackOf)[t] == if accepted[t].durability >= ACK_QUEUED then 1 else 0
      ensures forall k :: 0 <= k < |sent| && ackOf[k] == t ==>
        sent[k].Ack? && Reports(sent[k].bitmap, StoresOf(log, t))
    {
      hide StoredInOrder, Reports, StoresOf;
      assert TicketOk(accepted[t], t, place[t], slots, ticket, log, ackOf);
      forall k | 0 <= k < |sent| && ackOf[k] == t
        ensures sent[k].Ack? && Reports(sent[k].bitmap, StoresOf(log, t))
      {
        assert MessageOk(sent[k], ackOf[k], accepted, place, log);
      }
    }

    lemma NextBound(s: nat)
      requires Valid() && s < QUEUE && slots[s].active
      ensures slots[s].next <= |slots[s].cards|
      ensures ticket[s] < |accepted| && place[ticket[s]] == s
    {
      assert SlotOk(slots[s], s, ticket[s], accepted, place, log);
    }
  }
}
