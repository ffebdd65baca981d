// The naive meaning of an operation stream, and what batches of encoded
// operations do to the physical database in its terms.
module Folds {
  import opened Bytes
  import opened Pebble
  import opened Views
  import opened Grammar
  import opened Batches
  import Stores
  import Keyenc

  function Effect(m: KV, r: ApplyRecord): KV {
    if r.delete then m - {r.key} else m[r.key := r.value]
  }

  // The operations one after another, with nothing batched, filtered or merged.
  function Fold(m: KV, rs: seq<ApplyRecord>): KV {
    if rs == [] then m else Effect(Fold(m, rs[..|rs| - 1]), rs[|rs| - 1])
  }

  lemma FoldSnoc(m: KV, rs: seq<ApplyRecord>, r: ApplyRecord)
    ensures Fold(m, rs + [r]) == Effect(Fold(m, rs), r)
  {
    assert (rs + [r])[..|rs|] == rs;
  }

  function LastRecord(rs: seq<ApplyRecord>, k: bytes): Option<ApplyRecord> {
    if rs == [] then None
    else if rs[|rs| - 1].key == k then Some(rs[|rs| - 1])
    else LastRecord(rs[..|rs| - 1], k)
  }

  // The fold key by key: the last operation on a key decides.
  lemma {:induction false} FoldLastWins(m: KV, rs: seq<ApplyRecord>, k: bytes)
    ensures Lookup(Fold(m, rs), k) ==
            match LastRecord(rs, k)
            case None => Lookup(m, k)
            case Some(r) => if r.delete then None else Some(r.value)
  {
    if rs != [] {
      FoldLastWins(m, rs[..|rs| - 1], k);
    }
  }

  lemma {:induction false} LastRecordOfPrefix(rs: seq<ApplyRecord>, n: nat, k: bytes)
    requires n <= |rs| && LastRecord(rs, k).None?
    ensures LastRecord(rs[..n], k).None?
  {
    if n < |rs| {
      LastRecordOfPrefix(rs[..|rs| - 1], n, k);
      assert rs[..|rs| - 1][..n] == rs[..n];
    } else {
      assert rs[..n] == rs;
    }
  }

  // Applying everything again after any part of it gives what applying it once
  // would have given.
  lemma FoldAgain(m: KV, rs: seq<ApplyRecord>, n: nat)
    requires n <= |rs|
    ensures Fold(Fold(m, rs[..n]), rs) == Fold(m, rs)
  {
    hide Fold, LastRecord;
    var part := Fold(m, rs[..n]);
    forall k ensures Lookup(Fold(part, rs), k) == Lookup(Fold(m, rs), k) {
      FoldLastWins(part, rs, k);
      FoldLastWins(m, rs, k);
      if LastRecord(rs, k).None? {
        LastRecordOfPrefix(rs, n, k);
        FoldLastWins(m, rs[..n], k);
      }
    }
    SameLookups(Fold(part, rs), Fold(m, rs));
  }

  // What is accepted of a stream: everything before the first empty key.
  function Accepted(rs: seq<ApplyRecord>): (r: seq<ApplyRecord>)
    ensures r <= rs
  {
    if rs == [] || rs[0].key == [] then [] else [rs[0]] + Accepted(rs[1..])
  }

  // Accepting stops exactly at the first empty key.
  lemma {:induction false} AcceptedMeans(rs: seq<ApplyRecord>, n: nat)
    requires n <= |rs| && forall i :: 0 <= i < n ==> rs[i].key != []
    requires n < |rs| ==> rs[n].key == []
    ensures Accepted(rs) == rs[..n]
  {
    if n > 0 {
      AcceptedMeans(rs[1..], n - 1);
      assert rs[..n] == [rs[0]] + rs[1..][..n - 1];
    }
  }

  // Nothing accepted has an empty key, so no empty key is ever added.
  lemma {:induction false} AcceptedKeys(rs: seq<ApplyRecord>)
    ensures forall i :: 0 <= i < |Accepted(rs)| ==> Accepted(rs)[i].key != []
  {
    if rs != [] && rs[0].key != [] {
      AcceptedKeys(rs[1..]);
    }
  }

  lemma {:induction false} FoldKeyed(m: KV, rs: seq<ApplyRecord>)
    requires [] !in m && forall i :: 0 <= i < |rs| ==> rs[i].key != []
    ensures [] !in Fold(m, rs)
  {
    if rs != [] {
      FoldKeyed(m, rs[..|rs| - 1]);
    }
  }

  // ---- encoded operations ----

  function Encode(c: bytes, r: ApplyRecord): PointOp {
    var p := Keyenc.DataKey(c, r.key);
    if r.delete then Delete(p) else Set(p, r.value)
  }

  // The fold after each record, from none to all.
  function States(m: KV, rs: seq<ApplyRecord>): (r: seq<KV>)
    ensures |r| == |rs| + 1
  {
    seq(|rs| + 1, n requires 0 <= n <= |rs| => Fold(m, rs[..n]))
  }

  lemma StatesLast(m: KV, rs: seq<ApplyRecord>)
    ensures States(m, rs)[|rs|] == Fold(m, rs)
  {
    assert rs[..|rs|] == rs;
  }

  lemma StatesSnoc(m: KV, rs: seq<ApplyRecord>, r: ApplyRecord)
    ensures States(m, rs)[|rs|] == Fold(m, rs)
    ensures States(m, rs + [r]) == States(m, rs) + [Effect(Fold(m, rs), r)]
  {
    StatesLast(m, rs);
    assert (rs + [r])[..|rs| + 1] == rs + [r];
    FoldSnoc(m, rs, r);
    assert forall n :: 0 <= n <= |rs| ==> (rs + [r])[..n] == rs[..n];
  }

  // The number of records that are puts.
  function Puts(rs: seq<ApplyRecord>): (n: nat)
    ensures n <= |rs|
  {
    if rs == [] then 0 else Puts(rs[..|rs| - 1]) + if rs[|rs| - 1].delete then 0 else 1
  }

  lemma {:induction false} PutsMeans(rs: seq<ApplyRecord>)
    ensures Puts(rs) == |set i | 0 <= i < |rs| && !rs[i].delete|
  {
    if rs != [] {
      var last := |rs| - 1;
      var init := rs[..last];
      PutsMeans(init);
      var some, all := set i | 0 <= i < |init| && !init[i].delete, set i | 0 <= i < |rs| && !rs[i].delete;
      assert all == if rs[last].delete then some else some + {last};
    }
  }

  lemma PutsSnoc(rs: seq<ApplyRecord>, r: ApplyRecord)
    ensures Puts(rs + [r]) == Puts(rs) + if r.delete then 0 else 1
  {
    assert (rs + [r])[..|rs|] == rs;
  }

  ghost predicate InCollection(ops: seq<PointOp>, c: bytes) {
    forall i :: 0 <= i < |ops| ==> exists k :: ops[i].key == Keyenc.DataKey(c, k)
  }

  lemma EncodeEffect(data: KV, c: bytes, ops: seq<PointOp>, r: ApplyRecord)
    ensures var before, after := ApplyAll(data, ops), ApplyAll(data, ops + [Encode(c, r)]);
            View(after, c) == Effect(View(before, c), r) && Outside(after, c) == Outside(before, c)
    ensures InCollection(ops, c) ==> InCollection(ops + [Encode(c, r)], c)
  {
    var before := ApplyAll(data, ops);
    ApplySnoc(data, ops, Encode(c, r));
    if r.delete {
      ViewDelete(before, c, r.key);
    } else {
      ViewSet(before, c, r.key, r.value);
    }
    assert Encode(c, r).key == Keyenc.DataKey(c, r.key);
  }

  // A whole batch inside one collection changes nothing else, and if the
  // collection is recorded the database stays sound.
  lemma {:induction false} BatchConfined(data: KV, c: bytes, ops: seq<PointOp>)
    requires InCollection(ops, c)
    ensures Outside(ApplyAll(data, ops), c) == Outside(data, c)
  {
    hide Outside;
    if ops != [] {
      var init, op := ops[..|ops| - 1], ops[|ops| - 1];
      BatchConfined(data, c, init);
      var k :| op.key == Keyenc.DataKey(c, k);
      if op.Set? {
        ViewSet(ApplyAll(data, init), c, k, op.value);
      } else {
        ViewDelete(ApplyAll(data, init), c, k);
      }
    }
  }

  ghost predicate Recorded(data: KV, env: Stores.Env, c: bytes) {
    Stores.Sound(data, env) && ValidateCollection(env.rule, c) && Keyenc.CollectionMetaKey(c) in data
  }

  lemma {:induction false} BatchSound(data: KV, env: Stores.Env, c: bytes, ops: seq<PointOp>)
    requires Recorded(data, env, c) && InCollection(ops, c)
    ensures Recorded(ApplyAll(data, ops), env, c)
  {
    hide Stores.Sound;
    if ops != [] {
      var init, op := ops[..|ops| - 1], ops[|ops| - 1];
      BatchSound(data, env, c, init);
      Stores.PointOpSound(ApplyAll(data, init), env, c, op);
    }
  }
}
