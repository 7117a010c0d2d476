/** The in-RAM index of the flash store: parallel arrays sorted by key, and a count of live records
    per page that saturates at 255.
 */
module KvIndex {
  import opened Bits
  import opened KvRecord
  import opened KvLog

  const SECTORS := 763
  const SATURATED := 255

  // The keys whose record lies on a page.
  ghost function KeysOn(m: Index, p: nat): set<word> {
    set k | k in m && LocPage(m[k].loc) == p
  }

  // A count is exact unless it has saturated, and then it stays that way.
  ghost predicate Counts(m: Index, refs: seq<byte>) {
    |refs| == SECTORS && forall p :: 0 <= p < SECTORS ==> refs[p] == |KeysOn(m, p)| || refs[p] == SATURATED
  }

  ghost predicate CountsExactly(m: Index, refs: seq<byte>) {
    |refs| == SECTORS && forall p :: 0 <= p < SECTORS ==> refs[p] == |KeysOn(m, p)|
  }

  ghost predicate OnPages(m: Index) {
    forall k :: k in m ==> LocPage(m[k].loc) < SECTORS
  }

  function Increment(refs: seq<byte>, p: nat): (r: seq<byte>)
    requires p < |refs|
    ensures |r| == |refs|
  {
    var n: int := refs[p];
    if n < SATURATED then refs[p := n + 1] else refs
  }

  function Decrement(refs: seq<byte>, p: nat): (r: seq<byte>)
    requires p < |refs|
    ensures |r| == |refs|
  {
    var n: int := refs[p];
    if 0 < n < SATURATED then refs[p := n - 1] else refs
  }

  lemma KeysOnRemoved(m: Index, k: word, p: nat)
    requires k in m
    ensures |KeysOn(m - {k}, p)| == |KeysOn(m, p)| - if LocPage(m[k].loc) == p then 1 else 0
    ensures LocPage(m[k].loc) == p ==> |KeysOn(m, p)| > 0
  {
    assert KeysOn(m - {k}, p) == KeysOn(m, p) - {k};
    assert k in KeysOn(m, p) <==> LocPage(m[k].loc) == p;
  }

  lemma KeysOnAdded(m: Index, k: word, e: Entry, p: nat)
    requires k !in m
    ensures |KeysOn(m[k := e], p)| == |KeysOn(m, p)| + if LocPage(e.loc) == p then 1 else 0
  {
    if LocPage(e.loc) == p {
      assert KeysOn(m[k := e], p) == KeysOn(m, p) + {k};
    } else {
      assert KeysOn(m[k := e], p) == KeysOn(m, p);
    }
  }

  lemma RemoveCounts(m: Index, refs: seq<byte>, k: word)
    requires Counts(m, refs) && k in m && LocPage(m[k].loc) < SECTORS
    ensures Counts(m - {k}, Decrement(refs, LocPage(m[k].loc)))
    ensures CountsExactly(m, refs) && |KeysOn(m, LocPage(m[k].loc))| < SATURATED
        ==> CountsExactly(m - {k}, Decrement(refs, LocPage(m[k].loc)))
  {
    hide KeysOn;
    var r := Decrement(refs, LocPage(m[k].loc));
    forall p | 0 <= p < SECTORS
      ensures r[p] == |KeysOn(m - {k}, p)| || r[p] == SATURATED
      ensures refs[p] == |KeysOn(m, p)| < SATURATED ==> r[p] == |KeysOn(m - {k}, p)|
      ensures refs[p] == |KeysOn(m, p)| && p != LocPage(m[k].loc) ==> r[p] == |KeysOn(m - {k}, p)|
    {
      KeysOnRemoved(m, k, p);
    }
  }

  lemma AddCounts(m: Index, refs: seq<byte>, k: word, e: Entry)
    requires Counts(m, refs) && k !in m && LocPage(e.loc) < SECTORS
    ensures Counts(m[k := e], Increment(refs, LocPage(e.loc)))
    ensures CountsExactly(m, refs) && |KeysOn(m, LocPage(e.loc))| < SATURATED
        ==> CountsExactly(m[k := e], Increment(refs, LocPage(e.loc)))
  {
    hide KeysOn;
    var r := Increment(refs, LocPage(e.loc));
    forall p | 0 <= p < SECTORS
      ensures r[p] == |KeysOn(m[k := e], p)| || r[p] == SATURATED
      ensures refs[p] == |KeysOn(m, p)| < SATURATED ==> r[p] == |KeysOn(m[k := e], p)|
      ensures refs[p] == |KeysOn(m, p)| && p != LocPage(e.loc) ==> r[p] == |KeysOn(m[k := e], p)|
    {
      KeysOnAdded(m, k, e, p);
    }
  }

  // Moving a key from one page to another.
  lemma ReplaceCounts(m: Index, refs: seq<byte>, k: word, e: Entry)
    requires Counts(m, refs) && k in m && LocPage(m[k].loc) < SECTORS && LocPage(e.loc) < SECTORS
    ensures var r := Increment(Decrement(refs, LocPage(m[k].loc)), LocPage(e.loc));
            && Counts(m[k := e], r)
            && (CountsExactly(m, refs) && (forall p :: |KeysOn(m, p)| < SATURATED) ==> CountsExactly(m[k := e], r))
  {
    hide KeysOn;
    RemoveCounts(m, refs, k);
    AddCounts(m - {k}, Decrement(refs, LocPage(m[k].loc)), k, e);
    KeysOnRemoved(m, k, LocPage(e.loc));
    assert (m - {k})[k := e] == m[k := e];
  }

  // Parallel arrays in key order hold exactly the entries of a map.
  ghost predicate Represents(keys: seq<word>, locs: seq<nat>, versions: seq<half>, m: Index) {
    |keys| == |locs| == |versions| == |m| && Sorted(keys) && Entries(keys, locs, versions, m) && Covers(keys, m)
  }

  ghost predicate Sorted(keys: seq<word>) {
    forall i, j :: 0 <= i < j < |keys| ==> keys[i] < keys[j]
  }

  ghost predicate Entries(keys: seq<word>, locs: seq<nat>, versions: seq<half>, m: Index)
    requires |keys| == |locs| == |versions|
  {
    forall i :: 0 <= i < |keys| ==> keys[i] in m && m[keys[i]] == Entry(locs[i], versions[i])
  }

  ghost predicate Covers(keys: seq<word>, m: Index) {
    forall k :: k in m ==> k in keys
  }

  function Insert<T>(s: seq<T>, i: nat, x: T): (r: seq<T>)
    requires i <= |s|
    ensures |r| == |s| + 1
    ensures forall j :: 0 <= j < |r| ==> r[j] == if j < i then s[j] else if j == i then x else s[j - 1]
  {
    s[..i] + [x] + s[i..]
  }

  function Delete<T>(s: seq<T>, i: nat): (r: seq<T>)
    requires i < |s|
    ensures |r| == |s| - 1
    ensures forall j :: 0 <= j < |r| ==> r[j] == if j < i then s[j] else s[j + 1]
  {
    s[..i] + s[i + 1..]
  }

  lemma InsertSorted(keys: seq<word>, i: nat, key: word)
    requires Sorted(keys) && i <= |keys|
    requires forall j :: 0 <= j < i ==> keys[j] < key
    requires forall j :: i <= j < |keys| ==> key < keys[j]
    ensures Sorted(Insert(keys, i, key))
  {
  }

  lemma InsertCovers(keys: seq<word>, m: Index, i: nat, key: word, e: Entry)
    requires Covers(keys, m) && i <= |keys|
    ensures Covers(Insert(keys, i, key), m[key := e])
  {
    var keys' := Insert(keys, i, key);
    forall k | k in m[key := e] ensures k in keys' {
      if k == key {
        assert keys'[i] == key;
      } else {
        var j :| 0 <= j < |keys| && keys[j] == k;
        assert keys'[if j < i then j else j + 1] == k;
      }
    }
  }

  lemma InsertEntries(keys: seq<word>, locs: seq<nat>, versions: seq<half>, m: Index, i: nat, key: word, e: Entry)
    requires |keys| == |locs| == |versions| && Entries(keys, locs, versions, m) && i <= |keys| && key !in keys
    ensures Entries(Insert(keys, i, key), Insert(locs, i, e.loc), Insert(versions, i, e.version), m[key := e])
  {
  }

  lemma InsertRepresents(keys: seq<word>, locs: seq<nat>, versions: seq<half>, m: Index, i: nat, key: word, e: Entry)
    requires Represents(keys, locs, versions, m) && i <= |keys|
    requires forall j :: 0 <= j < i ==> keys[j] < key
    requires forall j :: i <= j < |keys| ==> key < keys[j]
    ensures key !in m
    ensures Represents(Insert(keys, i, key), Insert(locs, i, e.loc), Insert(versions, i, e.version), m[key := e])
  {
    assert key !in keys;
    InsertSorted(keys, i, key);
    InsertCovers(keys, m, i, key, e);
    InsertEntries(keys, locs, versions, m, i, key, e);
    assert key !in m;
    hide Sorted, Covers, Entries;
  }

  lemma DeleteSorted(keys: seq<word>, i: nat)
    requires Sorted(keys) && i < |keys|
    ensures Sorted(Delete(keys, i)) && keys[i] !in Delete(keys, i)
  {
  }

  lemma DeleteCovers(keys: seq<word>, m: Index, i: nat)
    requires Covers(keys, m) && i < |keys|
    ensures Covers(Delete(keys, i), m - {keys[i]})
  {
    var keys' := Delete(keys, i);
    forall k | k in m - {keys[i]} ensures k in keys' {
      var j :| 0 <= j < |keys| && keys[j] == k;
      assert keys'[if j < i then j else j - 1] == k;
    }
  }

  lemma DeleteEntries(keys: seq<word>, locs: seq<nat>, versions: seq<half>, m: Index, i: nat)
    requires |keys| == |locs| == |versions| && Entries(keys, locs, versions, m) && i < |keys|
    requires keys[i] !in Delete(keys, i)
    ensures Entries(Delete(keys, i), Delete(locs, i), Delete(versions, i), m - {keys[i]})
  {
    var keys' := Delete(keys, i);
    forall j | 0 <= j < |keys'| ensures keys'[j] in m - {keys[i]} {
      assert keys'[j] in keys';
    }
  }

  lemma DeleteRepresents(keys: seq<word>, locs: seq<nat>, versions: seq<half>, m: Index, i: nat)
    requires Represents(keys, locs, versions, m) && i < |keys|
    ensures Represents(Delete(keys, i), Delete(locs, i), Delete(versions, i), m - {keys[i]})
  {
    DeleteSorted(keys, i);
    DeleteCovers(keys, m, i);
    DeleteEntries(keys, locs, versions, m, i);
    assert keys[i] in m;
    hide *;
    assert (m - {keys[i]}).Keys == m.Keys - {keys[i]};
  }

  lemma ReplaceRepresents(keys: seq<word>, locs: seq<nat>, versions: seq<half>, m: Index, i: nat, e: Entry)
    requires Represents(keys, locs, versions, m) && i < |keys|
    ensures Represents(keys, locs[i := e.loc], versions[i := e.version], m[keys[i] := e])
  {
    assert m[keys[i] := e].Keys == m.Keys;
  }

  class KeyIndex {
    var keys: seq<word>
    var locs: seq<nat>
    var versions: seq<half>
    var refs: seq<byte>
    ghost var contents: Index

    ghost predicate Valid() reads this {
      && Represents(keys, locs, versions, contents) && |keys| <= INDEX_CAPACITY
      && OnPages(contents) && Counts(contents, refs)
    }

    constructor ()
      ensures Valid() && contents == map[] && CountsExactly(contents, refs)
    {
      keys, locs, versions, contents := [], [], [], map[];
      refs := seq(SECTORS, _ => 0);
      assert forall p :: KeysOn(map[], p) == {};
    }

    // Binary search: the position of the key, or -(where it would go) - 1.
    method Find(key: word) returns (f: int)
      requires Valid()
      ensures f >= 0 ==> f < |keys| && keys[f] == key && key in contents
      ensures f < 0 ==> key !in contents && -f - 1 <= |keys|
      ensures f < 0 ==> forall j :: 0 <= j < -f - 1 ==> keys[j] < key
      ensures f < 0 ==> forall j :: -f - 1 <= j < |keys| ==> key < keys[j]
    {
      var lo, hi := 0, |keys| - 1;
      while lo <= hi
        invariant 0 <= lo <= hi + 1 <= |keys|
        invariant forall j :: 0 <= j < lo ==> keys[j] < key
        invariant forall j :: hi < j < |keys| ==> key < keys[j]
      {
        var mid := lo + (hi - lo) / 2;
        if keys[mid] == key {
          return mid;
        }
        if keys[mid] < key {
          lo := mid + 1;
        } else {
          hi := mid - 1;
        }
      }
      f := -(lo + 1);
    }

    method Get(key: word) returns (found: bool, loc: nat, version: half)
      requires Valid()
      ensures found <==> key in contents
      ensures found ==> contents[key] == Entry(loc, version)
      ensures !found ==> loc == 0 && version == 0
    {
      var f := Find(key);
      if f < 0 {
        return false, 0, 0;
      }
      return true, locs[f], versions[f];
    }

    // Insert or replace; refuses only a new key when the index is full.
    method Set(key: word, loc: nat, version: half) returns (ok: bool)
      requires Valid() && LocPage(loc) < SECTORS
      modifies this
      ensures Valid()
      ensures ok <==> key in old(contents) || |old(contents)| < INDEX_CAPACITY
      ensures contents == if ok then old(contents)[key := Entry(loc, version)] else old(contents)
      ensures old(CountsExactly(contents, refs)) && (forall p :: |KeysOn(old(contents), p)| < SATURATED)
          ==> CountsExactly(contents, refs)
    {
      hide Represents, KeysOn, Increment, Decrement, Insert, LocPage;
      var f := Find(key);
      ghost var e := Entry(loc, version);
      if f >= 0 {
        ReplaceCounts(contents, refs, key, e);
        Positions(keys, locs, versions, contents, f);
        ReplaceRepresents(keys, locs, versions, contents, f, e);
        refs := Increment(Decrement(refs, LocPage(locs[f])), LocPage(loc));
        locs, versions := locs[f := loc], versions[f := version];
        contents := contents[key := e];
        return true;
      }
      Sizes(keys, locs, versions, contents);
      if |keys| >= INDEX_CAPACITY {
        return false;
      }
      var pos := -f - 1;
      InsertRepresents(keys, locs, versions, contents, pos, key, e);
      AddCounts(contents, refs, key, e);
      keys, locs, versions := Insert(keys, pos, key), Insert(locs, pos, loc), Insert(versions, pos, version);
      refs := Increment(refs, LocPage(loc));
      contents := contents[key := e];
      Sizes(keys, locs, versions, contents);
      ok := true;
    }

    method Remove(key: word)
      requires Valid()
      modifies this
      ensures Valid() && contents == old(contents) - {key}
      ensures old(CountsExactly(contents, refs)) && (forall p :: |KeysOn(old(contents), p)| < SATURATED)
          ==> CountsExactly(contents, refs)
    {
      hide Represents, KeysOn, Decrement, Delete, LocPage;
      var f := Find(key);
      if f < 0 {
        assert contents - {key} == contents;
        return;
      }
      RemoveCounts(contents, refs, key);
      Positions(keys, locs, versions, contents, f);
      DeleteRepresents(keys, locs, versions, contents, f);
      refs := Decrement(refs, LocPage(locs[f]));
      keys, locs, versions := Delete(keys, f), Delete(locs, f), Delete(versions, f);
      contents := contents - {key};
    }
  }

  lemma Sizes(keys: seq<word>, locs: seq<nat>, versions: seq<half>, m: Index)
    requires Represents(keys, locs, versions, m)
    ensures |keys| == |locs| == |versions| == |m|
  {
  }

  lemma Positions(keys: seq<word>, locs: seq<nat>, versions: seq<half>, m: Index, i: nat)
    requires Represents(keys, locs, versions, m) && i < |keys|
    ensures |keys| == |locs| == |versions| && keys[i] in m && m[keys[i]] == Entry(locs[i], versions[i])
  {
  }
}
