/** Power lost during an update of the hash table, and what later operations make of what it leaves. */
module SdCrash {
  import opened Bits
  import opened Collections
  import opened SdBucket
  import opened SdHash
  import opened SdTable

  // A lookup after a restart.
  method Restarted(c: Choice, device: Blocks, probe: word) returns (r: int)
    requires |device| == c.n
    ensures r == c.Answer(Views(device), probe)
  {
    var t := new Table(c, device);
    r := t.Lookup(probe);
  }

  lemma InterimAnswers(c: Choice, vs: seq<seq<Entry>>, states: seq<Blocks>, key: word, slot: word, device: Blocks, probe: word)
    requires |vs| == |device| == c.n && Interim(c, vs, states, key, slot) && device in states
    ensures if probe == key then c.Answer(Views(device), probe) in {c.Answer(vs, key), AsSlot(Some(slot))}
      else c.Answer(Views(device), probe) == c.Answer(vs, probe)
  {
    hide Choice.Answer, Choice.Lookup;
    assert Between(c, vs, Views(device), key, slot);
  }

  // The device at some write of the last call, or as it was before.
  ghost predicate LeftBy(device: Blocks, start: Blocks, was: seq<Blocks>, writes: seq<Blocks>) {
    was <= writes && (device == start || device in writes[|was|..])
  }

  // No key has more than one entry.
  ghost predicate OneEach(c: Choice, vs: seq<seq<Entry>>)
    requires |vs| == c.n
  {
    c.n > 0 ==> c.AllSingle(vs)
  }

  // An insertion interrupted anywhere: a table that starts on what the device then holds answers the
  // key's old or new slot, and every other key's slot as before.
  method CrashInInsert(t: Table, key: word, slot: word, device: Blocks, probe: word) returns (r: int)
    requires t.Valid() && |device| == t.choice.n
    modifies t, t.cache
    ensures r == t.choice.Answer(Views(device), probe)
    ensures old(t.writes) <= t.writes
    ensures LeftBy(device, old(t.sd), old(t.writes), t.writes) && OneEach(t.choice, old(t.Contents())) ==>
      if probe == key then r in {old(t.choice.Answer(t.Contents(), key)), AsSlot(Some(slot))}
      else r == old(t.choice.Answer(t.Contents(), probe))
  {
    hide Choice.Answer, Choice.Lookup, Choice.AllSingle, Coherent, Logged, Ageless, HasRoom, Updated, Interim;
    hide Choice.InsertSteps;
    ghost var vs := t.Contents();
    var ok := t.Insert(key, slot);
    ghost var states := t.writes[|old(t.writes)|..];
    if t.choice.n > 0 && t.choice.AllSingle(vs) && device in states {
      InterimAnswers(t.choice, vs, states, key, slot, device, probe);
    }
    r := Restarted(t.choice, device, probe);
  }

  // The device between the two writes of an insertion that moves an entry, in a table without doubles.
  ghost predicate Interrupted(device: Blocks, c: Choice, vs: seq<seq<Entry>>, was: seq<Blocks>, writes: seq<Blocks>)
    requires |vs| == c.n
  {
    c.n > 0 && c.AllSingle(vs) && was <= writes && |writes| == |was| + 2 && device == writes[|was|]
  }

  lemma InterruptedIs(device: Blocks, c: Choice, vs: seq<seq<Entry>>, was: seq<Blocks>, writes: seq<Blocks>,
                      key: word, slot: word)
    requires |vs| == c.n && Interrupted(device, c, vs, was, writes)
    requires Stepped(was, writes, c.InsertSteps(vs, key, slot))
    ensures |Views(device)| == c.n && c.Doubled(Views(device), key)
  {
    hide Choice.InsertSteps, Choice.Doubled, Choice.Single;
    assert c.Single(vs, key);
    c.InterruptedDoubles(vs, key, slot);
    assert Views(writes[|was| + 0]) == c.InsertSteps(vs, key, slot)[0];
  }

  // After such a crash, updating the key again succeeds; but what it then reads as is the new slot only
  // when neither of its buckets had room, and otherwise one of the two slots it had.
  method UpdateAfterCrash(t: Table, key: word, slot: word, device: Blocks, again: word) returns (ok: bool, r: int)
    requires t.Valid() && |device| == t.choice.n
    modifies t, t.cache
    ensures Interrupted(device, t.choice, old(t.Contents()), old(t.writes), t.writes) ==>
      && t.choice.Doubled(Views(device), key)
      && ok && r == t.choice.StaleAnswer(Views(device), key, again)
  {
    hide Choice.Answer, Choice.Lookup, Choice.AllSingle, Coherent, Logged, Ageless, HasRoom, Updated, Interim;
    ghost var vs := t.Contents();
    assert |vs| == t.choice.n;
    hide Choice.InsertSteps, Choice.Doubled, Choice.StaleAnswer, Views, Stepped;
    var done := t.Insert(key, slot);
    var next := new Table(t.choice, device);
    ok := next.Insert(key, again);
    r := next.Lookup(key);
    if Interrupted(device, t.choice, vs, old(t.writes), t.writes) {
      InterruptedIs(device, t.choice, vs, old(t.writes), t.writes, key, slot);
      UpdatedDouble(next, device, key, again);
    }
  }

  lemma UpdatedDouble(t: Table, device: Blocks, key: word, slot: word)
    requires t.Valid() && |device| == t.choice.n > 0 && t.choice.Doubled(Views(device), key)
    requires Stepped([device], t.writes, t.choice.InsertSteps(Views(device), key, slot))
    ensures HasRoom(t.choice, Views(device), key)
    ensures t.choice.Answer(t.Contents(), key) == t.choice.StaleAnswer(Views(device), key, slot)
  {
    assert |Views(device)| == t.choice.n;
    hide Views, Coherent, HasRoom, Choice.Answer, Choice.InsertSteps, Choice.Doubled, Choice.StaleAnswer;
    t.choice.DoubledInsert(Views(device), key, slot);
    RoomIs(t.choice, Views(device), key, slot);
    LastStep([device], t.writes, t.choice.InsertSteps(Views(device), key, slot));
    LastWrite(t);
  }

  // Removing it succeeds, and leaves it in the table: what it then reads as is the slot in its second bucket.
  method RemoveAfterCrash(t: Table, key: word, slot: word, device: Blocks) returns (found: bool, r: int)
    requires t.Valid() && |device| == t.choice.n
    modifies t, t.cache
    ensures Interrupted(device, t.choice, old(t.Contents()), old(t.writes), t.writes) ==>
      && t.choice.Doubled(Views(device), key)
      && found && r == AsSlot(Get(Views(device)[t.choice.Second(key)], key))
  {
    hide Choice.Answer, Choice.AllSingle, Coherent, Logged, Ageless, HasRoom, Updated, Interim;
    ghost var vs := t.Contents();
    assert |vs| == t.choice.n;
    hide Choice.InsertSteps, Choice.RemoveStep, Views;
    var done := t.Insert(key, slot);
    var next := new Table(t.choice, device);
    found := next.Remove(key);
    r := next.Lookup(key);
    if Interrupted(device, t.choice, vs, old(t.writes), t.writes) {
      InterruptedIs(device, t.choice, vs, old(t.writes), t.writes, key, slot);
      t.choice.DoubledRemove(Views(device), key);
    }
  }

  lemma LastStep(was: seq<Blocks>, writes: seq<Blocks>, steps: seq<seq<seq<Entry>>>)
    requires Stepped(was, writes, steps) && steps != []
    ensures Views(writes[|writes| - 1]) == steps[|steps| - 1]
  {
    hide Views;
    assert Views(writes[|was| + (|steps| - 1)]) == steps[|steps| - 1];
  }

  lemma LastWrite(t: Table)
    requires t.Valid()
    ensures t.writes != [] && t.writes[|t.writes| - 1] == t.sd
  {
  }

  // Such a run, from an empty device: slot 1, an update to 2 that loses power between its two writes, and
  // an update to 3 that succeeds. The key reads as 2.
  method StaleRun(key: word) returns (t: Table, device: Blocks, ok: bool, r: int)
    ensures |t.writes| == 4 && |t.writes[1]| == |device| == t.choice.n
    ensures Interrupted(device, t.choice, Views(t.writes[1]), t.writes[..2], t.writes)
    ensures ok && r == 2
  {
    hide Choice.Answer, Choice.InsertSteps, Choice.AllSingle, Choice.Lookup, Choice.First, Choice.Second;
    hide Coherent, Logged, Ageless, HasRoom, Updated, Interim, Stepped, ViewOf, Interrupted;
    var c := Choice(_ => 0, _ => 1, 2);
    var empty: Blocks := [ZEROS, ZEROS];
    TwoBuckets(c, key);
    t := new Table(c, empty);
    EmptyViews(c, t);
    var done := t.Insert(key, 1);
    FirstStep(c, t, key);
    ghost var was := t.writes;
    var first: Blocks := t.sd;
    done := t.Insert(key, 2);
    SecondSteps(c, t, was, key);
    device := [first[0], t.sd[1]];
    assert device == t.writes[2];
    InterruptedHere(c, t, was, device);
    var next := new Table(c, device);
    ok := next.Insert(key, 3);
    r := next.Lookup(key);
    ThirdStep(c, next, device, key);
  }

  lemma TwoBuckets(c: Choice, key: word)
    requires c.n == 2 && c.h1(key) == 0 && c.h2(key) == 1
    ensures c.First(key) == 0 && c.Second(key) == 1
  {
  }

  lemma EmptyViews(c: Choice, t: Table)
    requires t.Valid() && t.choice == c && c.n == 2 && t.sd == [ZEROS, ZEROS]
    ensures t.Contents() == [[], []] && c.AllSingle(t.Contents())
  {
    assert Count(ZEROS) == 0;
  }

  lemma FirstStep(c: Choice, t: Table, key: word)
    requires t.Valid() && t.choice == c && c.n == 2 && c.First(key) == 0 && c.Second(key) == 1
    requires Stepped([[ZEROS, ZEROS]], t.writes, c.InsertSteps([[], []], key, 1))
    ensures |t.writes| == 2 && t.writes[1] == t.sd && t.Contents() == [[Entry(key, 1)], []]
  {
    hide Views, Coherent;
    var vs: seq<seq<Entry>> := [[], []];
    assert FirstOf(vs[0], key) == -1 && FirstOf(vs[1], key) == -1;
    var one: seq<Entry> := [Entry(key, 1)];
    assert vs[0] + one == one;
    assert vs[0 := one] == [one, []];
    assert c.InsertSteps(vs, key, 1) == [[[Entry(key, 1)], []]];
    assert c.InsertSteps(vs, key, 1)[0] == [one, []];
    LastStep([[ZEROS, ZEROS]], t.writes, c.InsertSteps(vs, key, 1));
  }

  lemma SecondSteps(c: Choice, t: Table, was: seq<Blocks>, key: word)
    requires t.Valid() && t.choice == c && c.n == 2 && c.First(key) == 0 && c.Second(key) == 1
    requires |was| == 2 && |was[1]| == 2 && Views(was[1]) == [[Entry(key, 1)], []]
    requires Stepped(was, t.writes, c.InsertSteps(Views(was[1]), key, 2))
    ensures |t.writes| == 4 && was <= t.writes && |t.sd| == 2 && t.writes[2] == [was[1][0], t.sd[1]]
    ensures Views(t.writes[2]) == [[Entry(key, 1)], [Entry(key, 2)]]
  {
    hide Coherent, ViewOf;
    var one, two := [Entry(key, 1)], [Entry(key, 2)];
    var vs: seq<seq<Entry>> := [one, []];
    assert FirstOf(vs[0], key) == 0 && FirstOf(vs[1], key) == -1 && SwapRemoved(one, 0) == [];
    var mid := vs[1 := vs[1] + two];
    assert vs[1] + two == two;
    assert mid == [one, two] && mid[0 := []] == [[], two];
    assert c.InsertSteps(vs, key, 2) == c.MoveSteps(vs, 0, 1, key, 2);
    assert c.InsertSteps([one, []], key, 2) == [[one, two], [[], two]];
    var w1, w2, w3 := t.writes[1], t.writes[2 + 0], t.writes[2 + 1];
    assert Views(w1) == [one, []] && Views(w2) == [one, two] && Views(w3) == [[], two];
    assert OneWrite(w1, w2) && OneWrite(w2, w3);
    assert ViewOf(w1[1]) == Views(w1)[1] && ViewOf(w2[1]) == Views(w2)[1];
    assert ViewOf(w2[0]) == Views(w2)[0] && ViewOf(w3[0]) == Views(w3)[0];
  }

  lemma InterruptedHere(c: Choice, t: Table, was: seq<Blocks>, device: Blocks)
    requires c.n == 2 && |was| == 2 && |was[1]| == 2 && was <= t.writes && |t.writes| == 4 && device == t.writes[2]
    requires c.AllSingle(Views(was[1]))
    ensures t.writes[1] == was[1] && Interrupted(device, c, Views(was[1]), t.writes[..2], t.writes)
  {
  }

  lemma ThirdStep(c: Choice, next: Table, device: Blocks, key: word)
    requires next.Valid() && next.choice == c && c.n == 2 && c.First(key) == 0 && c.Second(key) == 1 && |device| == 2
    requires Views(device) == [[Entry(key, 1)], [Entry(key, 2)]]
    requires Stepped([device], next.writes, c.InsertSteps(Views(device), key, 3))
    ensures HasRoom(c, Views(device), key) && c.Answer(next.Contents(), key) == 2
  {
    hide Views, Coherent, Choice.Answer, Choice.InsertSteps;
    var one, two := [Entry(key, 1)], [Entry(key, 2)];
    assert FirstOf(one, key) == 0 && FirstOf(two, key) == 0;
    UpdatedDouble(next, device, key, 3);
  }
}
