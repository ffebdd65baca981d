// Which deletes the filter drops, and what that does to the places where
// batches are cut.
module Skipping {
  import opened Bytes
  import opened Pebble
  import opened Grammar
  import opened Batches
  import opened Folds
  import opened Cutting
  import Bloom

  type BlockTotal = n: nat | n > 0 witness 1

  // A filter of so many blocks that began with the keys stored in the collection.
  datatype Filter = Filter(blocks: BlockTotal, hash: Bloom.Hash, stored: set<bytes>)

  function PutKeys(rs: seq<ApplyRecord>): set<bytes> {
    set i | 0 <= i < |rs| && !rs[i].delete :: rs[i].key
  }

  lemma PutKeysSnoc(rs: seq<ApplyRecord>, r: ApplyRecord)
    ensures PutKeys(rs + [r]) == if r.delete then PutKeys(rs) else PutKeys(rs) + {r.key}
  {
    var more := rs + [r];
    forall k | k in PutKeys(rs) ensures k in PutKeys(more) {
      var i :| 0 <= i < |rs| && !rs[i].delete && rs[i].key == k;
      assert more[i] == rs[i];
    }
    if !r.delete {
      assert more[|rs|].key in PutKeys(more);
    }
  }

  // What the filter holds when it has seen the puts of rs.
  function Known(stored: set<bytes>, rs: seq<ApplyRecord>): set<bytes> {
    stored + PutKeys(rs)
  }

  // Without a filter nothing is dropped.
  ghost predicate Dropped(filter: Option<Filter>, rs: seq<ApplyRecord>, r: ApplyRecord) {
    r.delete && filter.Some?
    && !Bloom.Passes(filter.value.blocks, filter.value.hash, Known(filter.value.stored, rs), r.key)
  }

  ghost function StepFor(c: bytes, filter: Option<Filter>, rs: seq<ApplyRecord>, r: ApplyRecord): BatchStep {
    if Dropped(filter, rs, r) then None else Some(Encode(c, r))
  }

  // What each record does to the batch.
  ghost function Steps(c: bytes, filter: Option<Filter>, rs: seq<ApplyRecord>): (r: seq<BatchStep>)
    ensures |r| == |rs|
  {
    seq(|rs|, n requires 0 <= n < |rs| => StepFor(c, filter, rs[..n], rs[n]))
  }

  lemma StepsSnoc(c: bytes, filter: Option<Filter>, rs: seq<ApplyRecord>, r: ApplyRecord)
    ensures Steps(c, filter, rs + [r]) == Steps(c, filter, rs) + [StepFor(c, filter, rs, r)]
  {
    hide StepFor;
    assert (rs + [r])[..|rs|] == rs;
    assert forall n :: 0 <= n < |rs| ==> (rs + [r])[..n] == rs[..n];
  }

  lemma StepsPrefix(c: bytes, filter: Option<Filter>, rs: seq<ApplyRecord>, n: nat)
    requires n <= |rs|
    ensures Steps(c, filter, rs[..n]) == Steps(c, filter, rs)[..n]
  {
    hide StepFor;
    assert forall i :: 0 <= i < n ==> rs[..n][..i] == rs[..i];
  }

  // ---- dropping loses nothing ----

  // The collection never holds a key the filter does not know.
  lemma {:induction false} LiveKeysKnown(m: KV, rs: seq<ApplyRecord>)
    ensures Fold(m, rs).Keys <= Known(m.Keys, rs)
  {
    if rs != [] {
      var init, r := rs[..|rs| - 1], rs[|rs| - 1];
      assert rs == init + [r];
      LiveKeysKnown(m, init);
      PutKeysSnoc(init, r);
    }
  }

  // A dropped delete would have changed nothing.
  lemma DroppedIsNothing(m: KV, filter: Filter, rs: seq<ApplyRecord>, r: ApplyRecord)
    requires filter.stored == m.Keys && Dropped(Some(filter), rs, r)
    ensures r.key !in Known(m.Keys, rs) && Effect(Fold(m, rs), r) == Fold(m, rs)
  {
    LiveKeysKnown(m, rs);
    Bloom.AddedPass(filter.blocks, filter.hash, Known(m.Keys, rs), r.key);
  }

  // ---- when the filter moves the cuts ----

  // Every delete names a key stored at the start or put earlier.
  predicate KnownDeletes(stored: set<bytes>, rs: seq<ApplyRecord>) {
    forall i :: 0 <= i < |rs| && rs[i].delete ==> rs[i].key in Known(stored, rs[..i])
  }

  // How many of the first n records are committed if the input fails there.
  ghost function Kept(c: bytes, filter: Option<Filter>, l: Limits, rs: seq<ApplyRecord>, n: nat): (r: nat)
    requires n <= |rs| && Positive(l)
    ensures r <= n
  {
    PendingBounds(l, Steps(c, filter, rs[..n]));
    LastCut(Cut(l, Steps(c, filter, rs[..n])).cuts)
  }

  // A failed run leaves what it would leave without the filter, whatever the
  // limits and wherever the input fails.
  ghost predicate SameContents(before: KV, c: bytes, filter: Filter, rs: seq<ApplyRecord>) {
    forall l, n :: 0 <= n <= |rs| && Positive(l) ==>
      Fold(before, rs[..Kept(c, Some(filter), l, rs, n)]) == Fold(before, rs[..Kept(c, None, l, rs, n)])
  }

  predicate AllPuts(rs: seq<ApplyRecord>) {
    forall i :: 0 <= i < |rs| ==> !rs[i].delete
  }

  // And so it is whatever puts follow. What follows matters: a dropped delete at
  // the end of the input has left nothing behind that could differ.
  ghost predicate Unseen(before: KV, c: bytes, filter: Filter, rs: seq<ApplyRecord>) {
    forall more :: AllPuts(more) ==> SameContents(before, c, filter, rs + more)
  }

  ghost predicate NothingDropped(filter: Filter, rs: seq<ApplyRecord>) {
    forall i :: 0 <= i < |rs| ==> !Dropped(Some(filter), rs[..i], rs[i])
  }

  lemma NothingDroppedSteps(c: bytes, filter: Filter, rs: seq<ApplyRecord>)
    requires NothingDropped(filter, rs)
    ensures Steps(c, Some(filter), rs) == Steps(c, None, rs)
  {
    hide Dropped, Encode;
    NoFilterDropsNothing(rs);
  }

  lemma NoFilterDropsNothing(rs: seq<ApplyRecord>)
    ensures forall i :: 0 <= i < |rs| ==> !Dropped(None, rs[..i], rs[i])
  {
  }

  lemma NothingDroppedKeeps(c: bytes, filter: Filter, rs: seq<ApplyRecord>, l: Limits, n: nat)
    requires NothingDropped(filter, rs) && Positive(l) && n <= |rs|
    ensures Kept(c, Some(filter), l, rs, n) == Kept(c, None, l, rs, n)
  {
    hide Dropped, Cut, LastCut;
    NothingDroppedSteps(c, filter, rs);
    StepsPrefix(c, Some(filter), rs, n);
    StepsPrefix(c, None, rs, n);
  }

  lemma PutsDropNothing(filter: Filter, rs: seq<ApplyRecord>, more: seq<ApplyRecord>)
    requires NothingDropped(filter, rs) && AllPuts(more)
    ensures NothingDropped(filter, rs + more)
  {
    hide Bloom.Passes, Known;
    forall i | 0 <= i < |rs + more| ensures !Dropped(Some(filter), (rs + more)[..i], (rs + more)[i]) {
      if i < |rs| {
        assert (rs + more)[..i] == rs[..i];
      }
    }
  }

  lemma KnownDeletesPass(filter: Filter, rs: seq<ApplyRecord>)
    requires KnownDeletes(filter.stored, rs)
    ensures NothingDropped(filter, rs)
  {
    hide Known;
    forall i | 0 <= i < |rs| ensures !Dropped(Some(filter), rs[..i], rs[i]) {
      Bloom.AddedPass(filter.blocks, filter.hash, Known(filter.stored, rs[..i]), rs[i].key);
    }
  }

  // ---- a dropped delete can change what a failure leaves ----

  lemma {:induction false} TotalBytesGrow(ops: seq<PointOp>, n: nat)
    requires n <= |ops|
    ensures TotalBytes(ops[..n]) <= TotalBytes(ops)
  {
    if n < |ops| {
      TotalBytesGrow(ops[..|ops| - 1], n);
      assert ops[..|ops| - 1][..n] == ops[..n];
    } else {
      assert ops[..n] == ops;
    }
  }

  lemma {:induction false} OpsGrow(steps: seq<BatchStep>, n: nat)
    requires n <= |steps|
    ensures Ops(steps[..n]) <= Ops(steps) && |Ops(steps)| - |Ops(steps[..n])| <= |steps| - n
  {
    if n < |steps| {
      OpsGrow(steps[..|steps| - 1], n);
      assert steps[..|steps| - 1][..n] == steps[..n];
    } else {
      assert steps[..n] == steps;
    }
  }

  // With a large byte limit only the number of operations cuts.
  lemma CountCuts(steps: seq<BatchStep>, l: Limits)
    requires 0 < l.batchSize && TotalBytes(Ops(steps)) < l.batchBytes && |steps| <= l.batchSize
    ensures |Ops(steps)| < l.batchSize ==> Cut(l, steps).cuts == []
    ensures |Ops(steps)| == l.batchSize ==> Cut(l, steps).cuts == [|steps|]
  {
    hide Ops, TotalBytes;
    forall x | 0 <= x <= |steps|
      ensures |Ops(steps[0..x])| <= |Ops(steps)| && TotalBytes(Ops(steps[0..x])) < l.batchBytes
      ensures |Ops(steps[0..x])| <= x
    {
      assert steps[0..x] == steps[..x];
      OpsGrow(steps, x);
      TotalBytesGrow(Ops(steps), |Ops(steps[..x])|);
      assert Ops(steps)[..|Ops(steps[..x])|] == Ops(steps[..x]);
    }
    assert steps[0..|steps|] == steps;
    if |Ops(steps)| < l.batchSize {
      CutsExactly(l, steps, []);
    } else {
      NoneReached(l, steps);
      assert Before([|steps|], 0) == 0;
      CutsExactly(l, steps, [|steps|]);
    }
  }

  lemma {:induction false} DroppingShrinks(c: bytes, filter: Filter, rs: seq<ApplyRecord>)
    ensures TotalBytes(Ops(Steps(c, Some(filter), rs))) <= TotalBytes(Ops(Steps(c, None, rs)))
  {
    hide Dropped, Encode, Steps, Ops, OpBytes;
    if rs == [] {
      NoSteps(c, Some(filter));
      NoSteps(c, None);
    } else {
      var init, r := rs[..|rs| - 1], rs[|rs| - 1];
      assert rs == init + [r];
      DroppingShrinks(c, filter, init);
      StepsSnoc(c, Some(filter), init, r);
      StepsSnoc(c, None, init, r);
      NoDropWithout(init, r);
      OpsSnoc(Steps(c, Some(filter), init), StepFor(c, Some(filter), init, r));
      OpsSnoc(Steps(c, None, init), StepFor(c, None, init, r));
      TotalBytesSnoc(Ops(Steps(c, Some(filter), init)), Encode(c, r));
      TotalBytesSnoc(Ops(Steps(c, None, init)), Encode(c, r));
    }
  }

  lemma NoSteps(c: bytes, filter: Option<Filter>)
    ensures Ops(Steps(c, filter, [])) == []
  {
  }

  lemma NoDropWithout(rs: seq<ApplyRecord>, r: ApplyRecord)
    ensures !Dropped(None, rs, r)
  {
  }

  lemma TotalBytesSnoc(ops: seq<PointOp>, op: PointOp)
    ensures TotalBytes(ops + [op]) == TotalBytes(ops) + OpBytes(op)
  {
    assert (ops + [op])[..|ops|] == ops;
  }

  // Wherever a delete was dropped, with batches of as many records as come before
  // the failure and bytes to spare, the failed run keeps nothing with the filter
  // and everything without it.
  lemma DropMovesCuts(c: bytes, filter: Filter, rs: seq<ApplyRecord>, i: nat, n: nat, l: Limits)
    requires i < n <= |rs| && Dropped(Some(filter), rs[..i], rs[i])
    requires l.batchSize == n && TotalBytes(Ops(Steps(c, None, rs[..n]))) < l.batchBytes
    ensures Kept(c, Some(filter), l, rs, n) == 0 && Kept(c, None, l, rs, n) == n
  {
    hide Dropped, Encode, TotalBytes, Ops;
    var with, without := Steps(c, Some(filter), rs[..n]), Steps(c, None, rs[..n]);
    assert rs[..n][..i] == rs[..i] && rs[..n][i] == rs[i];
    assert with[i].None?;
    NoFilterDropsNothing(rs[..n]);
    AllBatched(with);
    AllBatched(without);
    DroppingShrinks(c, filter, rs[..n]);
    CountCuts(with, l);
    CountCuts(without, l);
  }

  // ---- when that can be seen ----

  // After a dropped delete one short put shows the difference.
  lemma DropSeen(before: KV, c: bytes, filter: Filter, rs: seq<ApplyRecord>, i: nat) returns (put: ApplyRecord)
    requires i < |rs| && Dropped(Some(filter), rs[..i], rs[i])
    ensures !put.delete && |put.key| == 1 && |put.value| <= 1
    ensures !SameContents(before, c, filter, rs + [put])
  {
    hide Dropped, Encode, TotalBytes, Ops, Kept, Steps;
    var k: bytes := [0];
    var v: bytes := if Lookup(before, k) == Some([]) then [0] else [];
    put := ApplyRecord(false, k, v, |rs| + 1, 0);
    var all := rs + [put];
    var n := |all|;
    assert all[..i] == rs[..i] && all[..n] == all;
    var l := Limits(n, TotalBytes(Ops(Steps(c, None, all))) + 1);
    DropMovesCuts(c, filter, all, i, n, l);
    FoldSnoc(before, rs, put);
    assert Lookup(Fold(before, all), k) == Some(v) != Lookup(before, k);
    assert all[..0] == [] && Fold(before, []) == before;
  }

  // For a given hash the filter is unseen exactly if it drops nothing.
  lemma UnseenExactly(before: KV, c: bytes, filter: Filter, rs: seq<ApplyRecord>)
    ensures Unseen(before, c, filter, rs) <==> NothingDropped(filter, rs)
  {
    hide Dropped, Kept, Fold;
    if NothingDropped(filter, rs) {
      forall more | AllPuts(more) ensures SameContents(before, c, filter, rs + more) {
        PutsDropNothing(filter, rs, more);
        forall l, n | 0 <= n <= |rs + more| && Positive(l)
          ensures Kept(c, Some(filter), l, rs + more, n) == Kept(c, None, l, rs + more, n)
        {
          NothingDroppedKeeps(c, filter, rs + more, l, n);
        }
      }
    } else {
      var i :| 0 <= i < |rs| && Dropped(Some(filter), rs[..i], rs[i]);
      var put := DropSeen(before, c, filter, rs, i);
      assert AllPuts([put]);
    }
  }

  // Over all hashes the filter is unseen exactly if every delete names a key
  // that was stored at the start or put earlier.
  lemma UnseenForAllHashes(before: KV, c: bytes, blocks: BlockTotal, rs: seq<ApplyRecord>)
    ensures (forall hash :: Unseen(before, c, Filter(blocks, hash, before.Keys), rs)) <==> KnownDeletes(before.Keys, rs)
  {
    hide Unseen, Bloom.Passes, Known;
    var stored := before.Keys;
    if KnownDeletes(stored, rs) {
      forall hash ensures Unseen(before, c, Filter(blocks, hash, stored), rs) {
        KnownDeletesPass(Filter(blocks, hash, stored), rs);
        UnseenExactly(before, c, Filter(blocks, hash, stored), rs);
      }
    } else {
      var i :| 0 <= i < |rs| && rs[i].delete && rs[i].key !in Known(stored, rs[..i]);
      var hash := Bloom.SomeHashRejects(blocks, Known(stored, rs[..i]), rs[i].key);
      assert Dropped(Some(Filter(blocks, hash, stored)), rs[..i], rs[i]);
      UnseenExactly(before, c, Filter(blocks, hash, stored), rs);
    }
  }
}
