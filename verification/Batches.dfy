// A write batch: buffered puts and deletes with their counters, the cached
// collection prefix, and the coalescing that Commit may do first.
module Batches {
  import opened Bytes
  import opened Pebble
  import Keyenc
  import Sorting

  const SAMPLE := 128

  // Which runes a collection name may hold is a Unicode table; here it is any
  // predicate on the bytes of a name.
  type NameRule = bytes -> bool

  // A Go string is never longer than MAX_INT.
  predicate ValidateCollection(rule: NameRule, name: bytes): (r: bool)
    ensures name == [] ==> !r
  {
    name != [] && |name| <= MAX_INT && rule(name)
  }

  function OpKey(op: PointOp): bytes {
    op.key
  }

  function Keys(ops: seq<PointOp>): (r: seq<bytes>)
    ensures |r| == |ops| && forall i :: 0 <= i < |ops| ==> r[i] == ops[i].key
  {
    seq(|ops|, i requires 0 <= i < |ops| => ops[i].key)
  }

  function OpBytes(op: PointOp): nat {
    |op.key| + if op.Set? then |op.value| else 0
  }

  function TotalBytes(ops: seq<PointOp>): nat {
    if ops == [] then 0 else TotalBytes(ops[..|ops| - 1]) + OpBytes(ops[|ops| - 1])
  }

  class Batch {
    const db: Db
    const rule: NameRule
    var ops: seq<PointOp>
    var count: nat
    var bytes: nat
    var collection: bytes
    var base: Option<bytes>

    // The counters describe `issued`, the operations as they were given; `ops`
    // is what will be written and differs only after a coalescing Commit.
    ghost var issued: seq<PointOp>

    ghost predicate Valid()
      reads this
    {
      count == |issued| && bytes == TotalBytes(issued)
      && (base.Some? ==> ValidateCollection(rule, collection) && base == Some(Keyenc.CollectionBase(collection)))
    }

    constructor (db: Db, rule: NameRule)
      ensures Valid() && this.db == db && this.rule == rule
      ensures ops == issued == [] && count == 0 && bytes == 0
    {
      this.db, this.rule := db, rule;
      ops, issued, count, bytes := [], [], 0, 0;
      collection, base := [], None;
    }

    predicate Full(batchSize: nat, batchBytes: nat)
      reads this
    {
      count >= batchSize || bytes >= batchBytes
    }

    method CollectionBase(name: bytes) returns (r: Option<bytes>)
      requires Valid()
      modifies this`collection, this`base
      ensures Valid()
      ensures r == if ValidateCollection(rule, name) then Some(Keyenc.CollectionBase(name)) else None
    {
      if base.Some? && name == collection {
        return base;
      }
      if !ValidateCollection(rule, name) {
        return None;
      }
      collection := name;
      base := Some(Keyenc.CollectionBase(name));
      return base;
    }

    method Put(name: bytes, key: bytes, value: bytes) returns (ok: bool)
      requires Valid() && ops == issued
      modifies this
      ensures Valid() && ops == issued
      ensures ok == ValidateCollection(rule, name)
      ensures ops == if ok then old(ops) + [Set(Keyenc.DataKey(name, key), value)] else old(ops)
      ensures ok ==> count == old(count) + 1 && bytes == old(bytes) + |Keyenc.DataKey(name, key)| + |value|
    {
      var b := CollectionBase(name);
      if b.None? {
        return false;
      }
      ops := ops + [Set(b.value + key, value)];
      count := count + 1;
      bytes := bytes + |b.value| + |key| + |value|;
      issued := ops;
      assert issued[..|issued| - 1] == old(issued);
      return true;
    }

    method Delete(name: bytes, key: bytes) returns (ok: bool)
      requires Valid() && ops == issued
      modifies this
      ensures Valid() && ops == issued
      ensures ok == ValidateCollection(rule, name)
      ensures ops == if ok then old(ops) + [Mutation.Delete(Keyenc.DataKey(name, key))] else old(ops)
      ensures ok ==> count == old(count) + 1 && bytes == old(bytes) + |Keyenc.DataKey(name, key)|
    {
      var b := CollectionBase(name);
      if b.None? {
        return false;
      }
      ops := ops + [Mutation.Delete(b.value + key)];
      count := count + 1;
      bytes := bytes + |b.value| + |key|;
      issued := ops;
      assert issued[..|issued| - 1] == old(issued);
      return true;
    }

    // Sample before sorting: the first 128 operations must repeat a key 16 times.
    method ShouldCoalesce() returns (r: bool)
      requires Valid() && ops == issued
      ensures r <==> RepeatsKeys(ops)
    {
      if count < SAMPLE {
        return false;
      }
      ghost var sample := Keys(ops[..SAMPLE]);
      var keys := new bytes[SAMPLE](i requires 0 <= i < SAMPLE reads this => if i < |ops| then ops[i].key else []);
      assert keys[..] == sample;
      Sorting.StableSort(keys, x => x);
      ghost var ordered := keys[..];
      Sorting.SameByKeySameElements(sample, ordered);
      Sorting.DuplicatesMeasureDistinctness(ordered);
      var duplicates := 0;
      for i := 1 to keys.Length
        invariant keys[..] == ordered && duplicates == Sorting.AdjacentEqual(ordered[..i])
      {
        assert ordered[..i + 1] == ordered[..i] + [ordered[i]];
        Sorting.AdjacentEqualAppend(ordered[..i], ordered[i]);
        if keys[i - 1] == keys[i] {
          duplicates := duplicates + 1;
        }
      }
      assert ordered[..keys.Length] == ordered;
      return duplicates >= SAMPLE / 8;
    }

    // Commits the batch. Coalescing is invisible in the database and in the
    // counters; if it happens, what is written is one operation per key, in
    // ascending key order, and it is the last one given for that key.
    method Commit()
      requires Valid() && ops == issued
      modifies this`ops, db
      ensures Valid()
      ensures db.data == ApplyAll(old(db.data), issued)
      ensures db.commits == old(db.commits) + [db.data]
      ensures if RepeatsKeys(issued) then IsCoalesced(issued, ops) else ops == issued
    {
      var coalesce := ShouldCoalesce();
      if !coalesce {
        db.Commit(ops);
        return;
      }
      var compact := Coalesce(ops);
      SameLastSameEffect(db.data, ops, compact);
      ops := compact;
      db.Commit(ops);
    }
  }

  // Sorts a copy of the operations in place and keeps the last of each run.
  method Coalesce(ops: seq<PointOp>) returns (compact: seq<PointOp>)
    ensures IsCoalesced(ops, compact)
  {
    var entries := new PointOp[|ops|](i requires 0 <= i < |ops| => ops[i]);
    assert entries[..] == ops;
    Sorting.StableSort(entries, OpKey);
    ghost var sorted := entries[..];
    compact := [];
    for i := 0 to entries.Length
      invariant entries[..] == sorted
      invariant compact + KeepLast(sorted[i..]) == KeepLast(sorted)
    {
      assert sorted[i..][1..] == sorted[i + 1..];
      if i + 1 < entries.Length && entries[i].key == entries[i + 1].key {
        continue;
      }
      assert KeepLast(sorted[i..]) == [sorted[i]] + KeepLast(sorted[i + 1..]);
      compact := compact + [entries[i]];
    }
    assert compact == KeepLast(sorted);
    CoalesceCorrect(ops, sorted);
  }

  // ---- coalescing ----

  // At most 112 of the first 128 operations are on distinct keys.
  ghost predicate RepeatsKeys(ops: seq<PointOp>) {
    |ops| >= 128 && |Elements(Keys(ops[..128]))| <= 112
  }

  // t holds each key of s once, ascending, with the last operation s has on it.
  ghost predicate IsCoalesced(s: seq<PointOp>, t: seq<PointOp>) {
    StrictlyAscending(Keys(t)) && forall p :: LastOn(t, p) == LastOn(s, p)
  }

  // Of each run of adjacent equal keys, the last operation.
  function KeepLast(s: seq<PointOp>): seq<PointOp> {
    if s == [] then []
    else if |s| > 1 && s[0].key == s[1].key then KeepLast(s[1..])
    else [s[0]] + KeepLast(s[1..])
  }

  lemma {:induction false} KeepLastKeepsLast(s: seq<PointOp>, p: bytes)
    ensures LastOn(KeepLast(s), p) == LastOn(s, p)
  {
    if s != [] {
      KeepLastKeepsLast(s[1..], p);
      if |s| > 1 && s[0].key == s[1].key {
        assert p == s[1].key ==> LastOn(s[1..], p).Some?;
      } else {
        assert ([s[0]] + KeepLast(s[1..]))[1..] == KeepLast(s[1..]);
      }
    }
  }

  lemma {:induction false} KeepLastAscends(s: seq<PointOp>)
    requires Sorting.SortedBy(s, OpKey)
    ensures StrictlyAscending(Keys(KeepLast(s)))
    ensures forall i :: 0 <= i < |KeepLast(s)| ==> AtMost(s[0].key, KeepLast(s)[i].key)
    ensures KeepLast(s) == [] <==> s == []
  {
    if s != [] {
      LessIrreflexive(s[0].key);
      var t := s[1..];
      forall i, j | 0 <= i < j < |t| ensures AtMost(OpKey(t[i]), OpKey(t[j])) {
        assert AtMost(OpKey(s[i + 1]), OpKey(s[j + 1]));
      }
      KeepLastAscends(t);
      if |s| > 1 {
        var u := KeepLast(t);
        assert AtMost(OpKey(s[0]), OpKey(s[1]));
        forall i | 0 <= i < |u|
          ensures AtMost(s[0].key, u[i].key) && (s[0].key != s[1].key ==> Less(s[0].key, u[i].key))
        {
          AtMostTransitive(s[0].key, s[1].key, u[i].key);
          LessTotal(s[0].key, u[i].key);
          if s[0].key == u[i].key {
            LessTotal(s[0].key, s[1].key);
          }
        }
      }
    }
  }

  // Of the operations on one key, stability keeps the last one last.
  lemma {:induction false} LastOnIsLastOfKey(s: seq<PointOp>, p: bytes)
    ensures var on := Sorting.OnKey(s, OpKey, p);
            LastOn(s, p) == if on == [] then None else Some(on[|on| - 1])
  {
    if s != [] {
      LastOnIsLastOfKey(s[1..], p);
    }
  }

  lemma CoalesceCorrect(ops: seq<PointOp>, sorted: seq<PointOp>)
    requires Sorting.SortedBy(sorted, OpKey) && Sorting.SameByKey(ops, sorted, OpKey)
    ensures IsCoalesced(ops, KeepLast(sorted))
  {
    KeepLastAscends(sorted);
    forall p ensures LastOn(KeepLast(sorted), p) == LastOn(ops, p) {
      KeepLastKeepsLast(sorted, p);
      LastOnIsLastOfKey(ops, p);
      LastOnIsLastOfKey(sorted, p);
      assert Sorting.OnKey(ops, OpKey, p) == Sorting.OnKey(sorted, OpKey, p);
    }
  }

  // A coalesced batch writes the same database, whatever it started from.
  lemma CoalescingPreservesMeaning(m: KV, ops: seq<PointOp>, compact: seq<PointOp>)
    requires IsCoalesced(ops, compact)
    ensures ApplyAll(m, compact) == ApplyAll(m, ops)
    ensures Elements(Keys(compact)) == Elements(Keys(ops))
    ensures |compact| == |Elements(Keys(ops))|
  {
    SameLastSameEffect(m, ops, compact);
    forall p ensures p in Keys(compact) <==> p in Keys(ops) {
      LastOnMember(ops, p);
      LastOnMember(compact, p);
    }
    AscendingCount(Keys(compact));
  }

  lemma {:induction false} LastOnMember(ops: seq<PointOp>, p: bytes)
    ensures LastOn(ops, p).Some? <==> p in Keys(ops)
  {
    if ops != [] {
      LastOnMember(ops[1..], p);
      assert Keys(ops) == [ops[0].key] + Keys(ops[1..]);
    }
  }

  // A batch has one coalesced form only.
  lemma CoalescedUnique(ops: seq<PointOp>, s: seq<PointOp>, t: seq<PointOp>)
    requires IsCoalesced(ops, s) && IsCoalesced(ops, t)
    ensures s == t
  {
    CoalescingPreservesMeaning(map[], ops, s);
    CoalescingPreservesMeaning(map[], ops, t);
    AscendingUnique(Keys(s), Keys(t));
    forall i | 0 <= i < |s| ensures s[i] == t[i] {
      LastOnAscending(s, i);
      LastOnAscending(t, i);
      assert Keys(s)[i] == Keys(t)[i];
    }
  }

  lemma {:induction false} LastOnAscending(s: seq<PointOp>, i: nat)
    requires StrictlyAscending(Keys(s)) && i < |s|
    ensures LastOn(s, s[i].key) == Some(s[i])
  {
    assert Keys(s[1..]) == Keys(s)[1..];
    AscendingTail(Keys(s));
    if i == 0 {
      LastOnMember(s[1..], s[0].key);
    } else {
      LastOnAscending(s[1..], i - 1);
    }
  }
}
