/** The two-choice hash table on the SD card, read and written through a cache of 16 buckets. */
module SdHash {
  import opened Bits
  import opened Collections
  import opened SdBucket

  const CACHE := 16

  datatype CacheSlot = CacheSlot(bucket: nat, data: Bytes, age: byte, valid: bool)

  // What a key maps to within one bucket.
  function Get(v: seq<Entry>, key: word): Option<word> {
    var i := FirstOf(v, key);
    if i < 0 then None else Some(v[i].slot)
  }

  ghost predicate OnceIn(v: seq<Entry>, key: word) {
    forall i, j :: 0 <= i < j < |v| ==> !(v[i].key == key && v[j].key == key)
  }

  lemma GetAt(v: seq<Entry>, key: word, i: nat)
    requires i < |v| && v[i].key == key && OnceIn(v, key)
    ensures Get(v, key) == Some(v[i].slot) && FirstOf(v, key) == i
  {
  }

  lemma GetAdded(v: seq<Entry>, e: Entry, key: word)
    requires OnceIn(v, key) && (e.key == key ==> Get(v, key) == None)
    ensures OnceIn(v + [e], key)
    ensures Get(v + [e], key) == if e.key == key then Some(e.slot) else Get(v, key)
  {
    var w := v + [e];
    if e.key == key {
      GetAt(w, key, |v|);
    } else if FirstOf(v, key) >= 0 {
      GetAt(w, key, FirstOf(v, key));
    }
  }

  lemma GetReplaced(v: seq<Entry>, i: nat, slot: word, key: word)
    requires i < |v| && OnceIn(v, key)
    ensures OnceIn(v[i := Entry(v[i].key, slot)], key)
    ensures Get(v[i := Entry(v[i].key, slot)], key) == if v[i].key == key then Some(slot) else Get(v, key)
  {
    var w := v[i := Entry(v[i].key, slot)];
    assert forall j :: 0 <= j < |v| ==> w[j].key == v[j].key;
    if v[i].key == key {
      GetAt(w, key, i);
    } else if FirstOf(v, key) >= 0 {
      GetAt(w, key, FirstOf(v, key));
    }
  }

  lemma GetRemoved(v: seq<Entry>, i: nat, key: word)
    requires i < |v| && OnceIn(v, key)
    ensures OnceIn(SwapRemoved(v, i), key)
    ensures Get(SwapRemoved(v, i), key) == if v[i].key == key then None else Get(v, key)
  {
    var w, n := SwapRemoved(v, i), |v| - 1;
    assert forall j :: 0 <= j < n ==> w[j] == if j == i then v[n] else v[j];
    var f := FirstOf(v, key);
    if v[i].key != key && f >= 0 {
      GetAt(w, key, if f == n then i else f);
    }
  }

  type Blocks = s: seq<Bytes> | forall i :: 0 <= i < |s| ==> |s[i]| == BLOCK

  // A block that fails its checksum reads as an empty bucket.
  function ViewOf(block: Bytes): seq<Entry> {
    if Good(block) then View(block) else []
  }

  function Views(sd: Blocks): seq<seq<Entry>> {
    seq(|sd|, b requires 0 <= b < |sd| => ViewOf(sd[b]))
  }

  // A slot as the answer of a lookup.
  function AsSlot(v: Option<word>): int {
    match v
    case Some(s) => if s < 0x8000_0000 then s else -1
    case None => -1
  }

  // The two buckets a key may be in, for any two hash functions.
  datatype Choice = Choice(h1: word -> word, h2: word -> word, n: nat) {
    function First(key: word): (b: nat)
      requires n > 0
      ensures b < n
    {
      h1(key) % n
    }

    function Second(key: word): (b: nat)
      requires n > 0
      ensures b < n
    {
      h2(key) % n
    }

    // What the table maps a key to: its first bucket decides, then its second.
    function Lookup(vs: seq<seq<Entry>>, key: word): Option<word>
      requires |vs| == n
    {
      if n == 0 then None
      else if Get(vs[First(key)], key) != None then Get(vs[First(key)], key)
      else Get(vs[Second(key)], key)
    }

    // What a lookup answers for any table, a key in both its buckets included: the first bucket's
    // slot, else the second's, where slots from 2^31 on read as negative and do not count.
    function Answer(vs: seq<seq<Entry>>, key: word): int
      requires |vs| == n
    {
      if n == 0 then -1
      else if AsSlot(Get(vs[First(key)], key)) >= 0 then AsSlot(Get(vs[First(key)], key))
      else AsSlot(Get(vs[Second(key)], key))
    }

    // With one entry a key, that is the slot the table maps the key to.
    lemma AnswerIsLookup(vs: seq<seq<Entry>>, key: word)
      requires |vs| == n && (n > 0 ==> Single(vs, key))
      ensures Answer(vs, key) == AsSlot(Lookup(vs, key))
    {
      hide Get, OnceIn;
    }

    // The key has at most one entry in its two buckets.
    ghost predicate Single(vs: seq<seq<Entry>>, key: word)
      requires |vs| == n > 0
    {
      && OnceIn(vs[First(key)], key) && OnceIn(vs[Second(key)], key)
      && (First(key) != Second(key) ==> Get(vs[First(key)], key) == None || Get(vs[Second(key)], key) == None)
    }

    ghost predicate AllSingle(vs: seq<seq<Entry>>)
      requires |vs| == n > 0
    {
      forall key :: Single(vs, key)
    }

    lemma Present(vs: seq<seq<Entry>>, b: nat, key: word)
      requires |vs| == n > 0 && b in {First(key), Second(key)} && FirstOf(vs[b], key) >= 0
      ensures Lookup(vs, key) != None
    {
      assert Get(vs[b], key) != None;
    }

    // Adding a key that has no entry adds its entry and touches no other key.
    lemma AddLookup(vs: seq<seq<Entry>>, b: nat, e: Entry, k: word)
      requires |vs| == n > 0 && Single(vs, k) && b in {First(e.key), Second(e.key)} && Lookup(vs, e.key) == None
      ensures var ws := vs[b := vs[b] + [e]];
        Single(ws, k) && Lookup(ws, k) == if k == e.key then Some(e.slot) else Lookup(vs, k)
    {
      if b in {First(k), Second(k)} {
        GetAdded(vs[b], e, k);
      }
    }

    // Replacing the slot of an entry in place.
    lemma ReplaceLookup(vs: seq<seq<Entry>>, b: nat, i: nat, slot: word, k: word)
      requires |vs| == n > 0 && Single(vs, k) && b < n && i < |vs[b]| && b in {First(vs[b][i].key), Second(vs[b][i].key)}
      ensures var ws := vs[b := vs[b][i := Entry(vs[b][i].key, slot)]];
        Single(ws, k) && Lookup(ws, k) == if k == vs[b][i].key then Some(slot) else Lookup(vs, k)
    {
      if b in {First(k), Second(k)} {
        GetReplaced(vs[b], i, slot, k);
        if k == vs[b][i].key {
          GetAt(vs[b], k, i);
        }
      }
    }

    // Removing a key's entry removes the key and touches no other.
    lemma RemoveLookup(vs: seq<seq<Entry>>, b: nat, i: nat, k: word)
      requires |vs| == n > 0 && Single(vs, k) && b < n && i < |vs[b]| && b in {First(vs[b][i].key), Second(vs[b][i].key)}
      ensures var ws := vs[b := SwapRemoved(vs[b], i)];
        Single(ws, k) && Lookup(ws, k) == if k == vs[b][i].key then None else Lookup(vs, k)
    {
      if b in {First(k), Second(k)} {
        GetRemoved(vs[b], i, k);
        if k == vs[b][i].key {
          GetAt(vs[b], k, i);
        }
      }
    }

    // An update adds the new entry to the other bucket before it removes the old one. In between,
    // the key reads as its old or its new slot; afterwards it reads as the new one. No other key
    // changes at any time.
    lemma MoveLookup(vs: seq<seq<Entry>>, b: nat, i: nat, c: nat, slot: word, k: word)
      requires |vs| == n > 0 && Single(vs, k) && b < n && i < |vs[b]| && b != c
      requires {b, c} == {First(vs[b][i].key), Second(vs[b][i].key)}
      ensures var key := vs[b][i].key;
        var mid := vs[c := vs[c] + [Entry(key, slot)]];
        var ws := mid[b := SwapRemoved(mid[b], i)];
        && (k != key ==> Lookup(mid, k) == Lookup(vs, k))
        && (k == key ==> Lookup(vs, k) == Some(vs[b][i].slot) && Lookup(mid, k) in {Lookup(vs, k), Some(slot)})
        && (if k == key then Answer(mid, k) in {Answer(vs, k), AsSlot(Some(slot))} else Answer(mid, k) == Answer(vs, k))
        && Single(ws, k) && Lookup(ws, k) == if k == key then Some(slot) else Lookup(vs, k)
    {
      var key := vs[b][i].key;
      var mid := vs[c := vs[c] + [Entry(key, slot)]];
      if k == key {
        GetAt(vs[b], k, i);
        GetAdded(vs[c], Entry(key, slot), k);
        GetRemoved(vs[b], i, k);
      } else {
        if c in {First(k), Second(k)} {
          GetAdded(vs[c], Entry(key, slot), k);
        }
        if b in {First(k), Second(k)} {
          GetRemoved(vs[b], i, k);
        }
      }
    }

    // What the buckets hold after each write of an insertion, whatever they held before: none when it is
    // refused, two when the entry moves to the other bucket.
    function InsertSteps(vs: seq<seq<Entry>>, key: word, slot: word): (steps: seq<seq<seq<Entry>>>)
      requires |vs| == n
      ensures |steps| <= 2 && forall ws :: ws in steps ==> |ws| == n
    {
      if n == 0 then []
      else
        var b1, b2 := First(key), Second(key);
        var i1, i2 := FirstOf(vs[b1], key), if b2 == b1 then -1 else FirstOf(vs[b2], key);
        if i1 >= 0 && b2 != b1 && |vs[b2]| < ENTRIES then MoveSteps(vs, b1, b2, key, slot)
        else if i2 >= 0 && |vs[b1]| < ENTRIES then MoveSteps(vs, b2, b1, key, slot)
        else if i1 >= 0 then [vs[b1 := vs[b1][i1 := Entry(key, slot)]]]
        else if |vs[b1]| < ENTRIES then [vs[b1 := vs[b1] + [Entry(key, slot)]]]
        else if i2 >= 0 then [vs[b2 := vs[b2][i2 := Entry(key, slot)]]]
        else if b2 != b1 && |vs[b2]| < ENTRIES then [vs[b2 := vs[b2] + [Entry(key, slot)]]]
        else []
    }

    // The new entry goes to bucket d, then the first old one leaves bucket b.
    function MoveSteps(vs: seq<seq<Entry>>, b: nat, d: nat, key: word, slot: word): (steps: seq<seq<seq<Entry>>>)
      requires |vs| == n && b < n && d < n && b != d && FirstOf(vs[b], key) >= 0
      ensures |steps| == 2 && |steps[0]| == |steps[1]| == n
    {
      var mid := vs[d := vs[d] + [Entry(key, slot)]];
      [mid, mid[b := SwapRemoved(vs[b], FirstOf(vs[b], key))]]
    }

    // What they hold after a removal: the first entry found is gone.
    function RemoveStep(vs: seq<seq<Entry>>, key: word): (ws: seq<seq<Entry>>)
      requires |vs| == n
      ensures |ws| == n
    {
      if n == 0 then vs
      else
        var b1, b2 := First(key), Second(key);
        if FirstOf(vs[b1], key) >= 0 then vs[b1 := SwapRemoved(vs[b1], FirstOf(vs[b1], key))]
        else if FirstOf(vs[b2], key) >= 0 then vs[b2 := SwapRemoved(vs[b2], FirstOf(vs[b2], key))]
        else vs
    }

    // A key with one entry in each of its two buckets, as an update interrupted between its writes
    // leaves it.
    ghost predicate Doubled(vs: seq<seq<Entry>>, key: word)
      requires |vs| == n > 0
    {
      && First(key) != Second(key) && OnceIn(vs[First(key)], key) && OnceIn(vs[Second(key)], key)
      && Get(vs[First(key)], key) != None && Get(vs[Second(key)], key) != None
    }

    lemma InterruptedDoubles(vs: seq<seq<Entry>>, key: word, slot: word)
      requires |vs| == n > 0 && Single(vs, key) && |InsertSteps(vs, key, slot)| == 2
      ensures Doubled(InsertSteps(vs, key, slot)[0], key)
    {
      hide Get, OnceIn, SwapRemoved;
      var b1, b2 := First(key), Second(key);
      if FirstOf(vs[b1], key) >= 0 && b2 != b1 && |vs[b2]| < ENTRIES {
        MoveDoubles(vs, b1, b2, key, slot);
      } else {
        MoveDoubles(vs, b2, b1, key, slot);
      }
    }

    lemma MoveDoubles(vs: seq<seq<Entry>>, b: nat, d: nat, key: word, slot: word)
      requires |vs| == n > 0 && Single(vs, key) && b != d && {b, d} == {First(key), Second(key)}
      requires b < n && d < n && FirstOf(vs[b], key) >= 0
      ensures Doubled(MoveSteps(vs, b, d, key, slot)[0], key)
    {
      assert Get(vs[b], key) != None;
      GetAdded(vs[d], Entry(key, slot), key);
    }

    // What such a key answers after it was updated again: the new slot only when neither bucket has room,
    // and otherwise one of the two slots it had before.
    function StaleAnswer(vs: seq<seq<Entry>>, key: word, slot: word): int
      requires |vs| == n > 0
    {
      if |vs[Second(key)]| < ENTRIES then AsSlot(Get(vs[Second(key)], key))
      else if |vs[First(key)]| < ENTRIES then AsSlot(Get(vs[First(key)], key))
      else if AsSlot(Some(slot)) >= 0 then AsSlot(Some(slot))
      else AsSlot(Get(vs[Second(key)], key))
    }

    lemma DoubledInsert(vs: seq<seq<Entry>>, key: word, slot: word)
      requires |vs| == n > 0 && Doubled(vs, key)
      ensures var steps := InsertSteps(vs, key, slot);
        steps != [] && Answer(steps[|steps| - 1], key) == StaleAnswer(vs, key, slot)
    {
      var v1, v2 := vs[First(key)], vs[Second(key)];
      var i1, i2 := FirstOf(v1, key), FirstOf(v2, key);
      if |v2| < ENTRIES {
        GetAt(v1, key, i1);
        GetRemoved(v1, i1, key);
        FirstKept(v2, Entry(key, slot));
      } else if |v1| < ENTRIES {
        GetAt(v2, key, i2);
        GetRemoved(v2, i2, key);
        FirstKept(v1, Entry(key, slot));
      } else {
        GetReplaced(v1, i1, slot, key);
      }
    }

    // And after it was removed: the key is still found, in its second bucket.
    lemma DoubledRemove(vs: seq<seq<Entry>>, key: word)
      requires |vs| == n > 0 && Doubled(vs, key)
      ensures var ws := RemoveStep(vs, key);
        Lookup(ws, key) == Get(vs[Second(key)], key) != None && Answer(ws, key) == AsSlot(Get(vs[Second(key)], key))
    {
      GetRemoved(vs[First(key)], FirstOf(vs[First(key)], key), key);
    }
  }

  // An entry added at the end does not hide an earlier one.
  lemma FirstKept(v: seq<Entry>, e: Entry)
    requires FirstOf(v, e.key) >= 0
    ensures Get(v + [e], e.key) == Get(v, e.key)
  {
    var w, i, j := v + [e], FirstOf(v, e.key), FirstOf(v + [e], e.key);
    assert w[i].key == e.key;
    assert forall k :: 0 <= k < i ==> w[k].key == v[k].key;
    assert i == j;
  }
}
