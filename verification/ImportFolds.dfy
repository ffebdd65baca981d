// The naive meaning of an import under each duplicate policy.
module ImportFolds {
  import opened Bytes
  import opened Pebble
  import opened Views
  import opened Batches
  import opened Folds
  import opened Lines
  import opened Cutting
  import Grammar
  import Keyenc

  datatype Policy = Replace | Ignore | Fail

  function ImportEffect(policy: Policy, m: KV, r: ImportRecord): KV {
    if policy != Replace && r.key in m then m else m[r.key := r.value]
  }

  function ImportFold(policy: Policy, m: KV, rs: seq<ImportRecord>): KV {
    if rs == [] then m else ImportEffect(policy, ImportFold(policy, m, rs[..|rs| - 1]), rs[|rs| - 1])
  }

  lemma ImportFoldSnoc(policy: Policy, m: KV, rs: seq<ImportRecord>, r: ImportRecord)
    ensures ImportFold(policy, m, rs + [r]) == ImportEffect(policy, ImportFold(policy, m, rs), r)
  {
    assert (rs + [r])[..|rs|] == rs;
  }

  // A record is refused for an empty key, and under Fail for a key already present.
  predicate Refused(policy: Policy, m: KV, r: ImportRecord) {
    r.key == [] || (policy == Fail && r.key in m)
  }

  // Everything before the first refused record.
  function ImportAccepted(policy: Policy, m: KV, rs: seq<ImportRecord>): (r: seq<ImportRecord>)
    ensures r <= rs
    decreases |rs|
  {
    if rs == [] || Refused(policy, m, rs[0]) then []
    else [rs[0]] + ImportAccepted(policy, ImportEffect(policy, m, rs[0]), rs[1..])
  }

  // ---- what the policies mean, key by key ----

  function FirstValue(rs: seq<ImportRecord>, k: bytes): Option<bytes> {
    if rs == [] then None else if rs[0].key == k then Some(rs[0].value) else FirstValue(rs[1..], k)
  }

  function LastValue(rs: seq<ImportRecord>, k: bytes): Option<bytes> {
    if rs == [] then None
    else if rs[|rs| - 1].key == k then Some(rs[|rs| - 1].value) else LastValue(rs[..|rs| - 1], k)
  }

  lemma {:induction false} FirstValueSnoc(rs: seq<ImportRecord>, r: ImportRecord, k: bytes)
    ensures FirstValue(rs + [r], k) ==
            if FirstValue(rs, k).Some? then FirstValue(rs, k) else if r.key == k then Some(r.value) else None
  {
    if rs != [] {
      assert (rs + [r])[1..] == rs[1..] + [r];
      FirstValueSnoc(rs[1..], r, k);
    }
  }

  // Ignore keeps what was stored, and of each fresh key the first input value.
  lemma {:induction false} IgnoreFirstWins(m: KV, rs: seq<ImportRecord>, k: bytes)
    ensures Lookup(ImportFold(Ignore, m, rs), k) == if k in m then Some(m[k]) else FirstValue(rs, k)
  {
    if rs != [] {
      var init, r := rs[..|rs| - 1], rs[|rs| - 1];
      assert rs == init + [r];
      IgnoreFirstWins(m, init, k);
      FirstValueSnoc(init, r, k);
    }
  }

  // Replace keeps the last input value of every key that is in the input.
  lemma {:induction false} ReplaceLastWins(m: KV, rs: seq<ImportRecord>, k: bytes)
    ensures Lookup(ImportFold(Replace, m, rs), k) == if LastValue(rs, k).Some? then LastValue(rs, k) else Lookup(m, k)
  {
    if rs != [] {
      ReplaceLastWins(m, rs[..|rs| - 1], k);
    }
  }

  ghost predicate FreshAndDistinct(m: KV, rs: seq<ImportRecord>) {
    (forall i :: 0 <= i < |rs| ==> rs[i].key !in m)
    && forall i, j :: 0 <= i < j < |rs| ==> rs[i].key != rs[j].key
  }

  // Fail accepts the whole input exactly when its keys are distinct and absent.
  lemma {:induction false} FailAcceptsDistinct(m: KV, rs: seq<ImportRecord>)
    requires NonemptyKeys(rs)
    ensures ImportAccepted(Fail, m, rs) == rs <==> FreshAndDistinct(m, rs)
    decreases |rs|
  {
    if rs != [] {
      var r, tail := rs[0], rs[1..];
      var m' := ImportEffect(Fail, m, r);
      assert NonemptyKeys(tail);
      FailAcceptsDistinct(m', tail);
      assert rs == [r] + tail;
      if r.key !in m {
        FreshCons(m, r, tail);
        assert ImportAccepted(Fail, m, rs) == [r] + ImportAccepted(Fail, m', tail);
        assert ImportAccepted(Fail, m, rs)[1..] == ImportAccepted(Fail, m', tail);
        assert rs[1..] == tail;
      }
    }
  }

  lemma FreshCons(m: KV, r: ImportRecord, tail: seq<ImportRecord>)
    requires r.key !in m
    ensures FreshAndDistinct(m, [r] + tail) <==> FreshAndDistinct(m[r.key := r.value], tail)
  {
    var rs := [r] + tail;
    if FreshAndDistinct(m, rs) {
      forall i | 0 <= i < |tail| ensures tail[i].key !in m[r.key := r.value] {
        assert rs[i + 1] == tail[i] && rs[0].key != rs[i + 1].key;
      }
      forall i, j | 0 <= i < j < |tail| ensures tail[i].key != tail[j].key {
        assert rs[i + 1].key != rs[j + 1].key;
      }
    }
    if FreshAndDistinct(m[r.key := r.value], tail) {
      forall i | 0 <= i < |rs| ensures rs[i].key !in m {
        assert i > 0 ==> rs[i] == tail[i - 1] && tail[i - 1].key !in m[r.key := r.value];
      }
      forall i, j | 0 <= i < j < |rs| ensures rs[i].key != rs[j].key {
        assert rs[j] == tail[j - 1] && tail[j - 1].key !in m[r.key := r.value];
        assert i > 0 ==> rs[i] == tail[i - 1];
      }
    }
  }

  // Without the Fail policy nothing with a key is refused.
  lemma {:induction false} OthersAcceptAll(policy: Policy, m: KV, rs: seq<ImportRecord>)
    requires NonemptyKeys(rs) && policy != Fail
    ensures ImportAccepted(policy, m, rs) == rs
    decreases |rs|
  {
    if rs != [] {
      assert NonemptyKeys(rs[1..]);
      OthersAcceptAll(policy, ImportEffect(policy, m, rs[0]), rs[1..]);
    }
  }

  // ---- the same input again ----

  lemma {:induction false} FirstValueOfPrefix(rs: seq<ImportRecord>, n: nat, k: bytes)
    requires n <= |rs|
    ensures FirstValue(rs[..n], k).Some? ==> FirstValue(rs, k) == FirstValue(rs[..n], k)
  {
    if n > 0 {
      assert rs[..n][1..] == rs[1..][..n - 1];
      FirstValueOfPrefix(rs[1..], n - 1, k);
    }
  }

  lemma {:induction false} LastValueOfPrefix(rs: seq<ImportRecord>, n: nat, k: bytes)
    requires n <= |rs| && LastValue(rs, k).None?
    ensures LastValue(rs[..n], k).None?
  {
    if n < |rs| {
      LastValueOfPrefix(rs[..|rs| - 1], n, k);
      assert rs[..|rs| - 1][..n] == rs[..n];
    } else {
      assert rs[..n] == rs;
    }
  }

  // Unless duplicates fail, importing everything again after any part of it
  // gives what importing it once would have given.
  lemma ImportAgain(policy: Policy, m: KV, rs: seq<ImportRecord>, n: nat)
    requires policy != Fail && n <= |rs|
    ensures ImportFold(policy, ImportFold(policy, m, rs[..n]), rs) == ImportFold(policy, m, rs)
  {
    hide ImportFold, FirstValue, LastValue;
    var part := ImportFold(policy, m, rs[..n]);
    forall k ensures Lookup(ImportFold(policy, part, rs), k) == Lookup(ImportFold(policy, m, rs), k) {
      if policy == Replace {
        ReplaceLastWins(part, rs, k);
        ReplaceLastWins(m, rs, k);
        if LastValue(rs, k).None? {
          LastValueOfPrefix(rs, n, k);
          ReplaceLastWins(m, rs[..n], k);
        }
      } else {
        IgnoreFirstWins(part, rs, k);
        IgnoreFirstWins(m, rs, k);
        IgnoreFirstWins(m, rs[..n], k);
        FirstValueOfPrefix(rs, n, k);
      }
    }
    SameLookups(ImportFold(policy, part, rs), ImportFold(policy, m, rs));
  }

  lemma {:induction false} ImportedStays(policy: Policy, m: KV, rs: seq<ImportRecord>, i: nat)
    requires i < |rs|
    ensures rs[i].key in ImportFold(policy, m, rs)
  {
    if i < |rs| - 1 {
      ImportedStays(policy, m, rs[..|rs| - 1], i);
    }
  }

  // If duplicates fail, nothing is accepted again once something was imported.
  lemma FailAgain(m: KV, rs: seq<ImportRecord>, n: nat)
    requires 0 < n <= |ImportAccepted(Fail, m, rs)|
    ensures ImportAccepted(Fail, ImportFold(Fail, m, ImportAccepted(Fail, m, rs)[..n]), rs) == []
  {
    hide ImportFold;
    var part := ImportAccepted(Fail, m, rs)[..n];
    assert part[0] == rs[0];
    ImportedStays(Fail, m, part, 0);
  }

  // No empty key is ever imported.
  lemma {:induction false} ImportAcceptedKeys(policy: Policy, m: KV, rs: seq<ImportRecord>)
    ensures forall i :: 0 <= i < |ImportAccepted(policy, m, rs)| ==> ImportAccepted(policy, m, rs)[i].key != []
    decreases |rs|
  {
    if rs != [] && !Refused(policy, m, rs[0]) {
      ImportAcceptedKeys(policy, ImportEffect(policy, m, rs[0]), rs[1..]);
    }
  }

  lemma {:induction false} ImportFoldKeyed(policy: Policy, m: KV, rs: seq<ImportRecord>)
    requires [] !in m && forall i :: 0 <= i < |rs| ==> rs[i].key != []
    ensures [] !in ImportFold(policy, m, rs)
  {
    if rs != [] {
      ImportFoldKeyed(policy, m, rs[..|rs| - 1]);
    }
  }

  // ---- batches ----

  function AsPut(r: ImportRecord): Grammar.ApplyRecord {
    Grammar.ApplyRecord(false, r.key, r.value, r.line, 0)
  }

  // The import after each record, from none to all.
  function ImportStates(policy: Policy, m: KV, rs: seq<ImportRecord>): (r: seq<KV>)
    ensures |r| == |rs| + 1
  {
    seq(|rs| + 1, n requires 0 <= n <= |rs| => ImportFold(policy, m, rs[..n]))
  }

  lemma ImportStatesLast(policy: Policy, m: KV, rs: seq<ImportRecord>)
    ensures ImportStates(policy, m, rs)[|rs|] == ImportFold(policy, m, rs)
  {
    assert rs[..|rs|] == rs;
  }

  lemma ImportStatesSnoc(policy: Policy, m: KV, rs: seq<ImportRecord>, r: ImportRecord)
    ensures ImportStates(policy, m, rs)[|rs|] == ImportFold(policy, m, rs)
    ensures ImportStates(policy, m, rs + [r])
            == ImportStates(policy, m, rs) + [ImportEffect(policy, ImportFold(policy, m, rs), r)]
  {
    ImportStatesLast(policy, m, rs);
    assert (rs + [r])[..|rs| + 1] == rs + [r];
    ImportFoldSnoc(policy, m, rs, r);
    assert forall n :: 0 <= n <= |rs| ==> (rs + [r])[..n] == rs[..n];
  }

  // A record already present is not batched, except under Replace.
  function ImportStepFor(c: bytes, policy: Policy, m: KV, r: ImportRecord): BatchStep {
    if policy != Replace && r.key in m then None else Some(Encode(c, AsPut(r)))
  }

  function ImportSteps(c: bytes, policy: Policy, m: KV, rs: seq<ImportRecord>): (r: seq<BatchStep>)
    ensures |r| == |rs|
  {
    seq(|rs|, n requires 0 <= n < |rs| => ImportStepFor(c, policy, ImportFold(policy, m, rs[..n]), rs[n]))
  }

  lemma ImportStepsSnoc(c: bytes, policy: Policy, m: KV, rs: seq<ImportRecord>, r: ImportRecord)
    ensures ImportSteps(c, policy, m, rs + [r])
            == ImportSteps(c, policy, m, rs) + [ImportStepFor(c, policy, ImportFold(policy, m, rs), r)]
  {
    hide ImportStepFor, ImportFold;
    assert (rs + [r])[..|rs|] == rs;
    assert forall n :: 0 <= n < |rs| ==> (rs + [r])[..n] == rs[..n];
  }

  lemma {:induction false} ImportFoldCons(policy: Policy, m: KV, r: ImportRecord, rs: seq<ImportRecord>)
    ensures ImportFold(policy, m, [r] + rs) == ImportFold(policy, ImportEffect(policy, m, r), rs)
  {
    if rs == [] {
      ImportFoldSnoc(policy, m, [], r);
      assert [r] + rs == [] + [r];
    } else {
      var init, last := rs[..|rs| - 1], rs[|rs| - 1];
      ImportFoldCons(policy, m, r, init);
      ImportFoldSnoc(policy, m, [r] + init, last);
      assert [r] + rs == [r] + init + [last] && rs == init + [last];
    }
  }

  // Nothing accepted is refused where it stands.
  lemma {:induction false} AcceptedNotRefused(policy: Policy, m: KV, rs: seq<ImportRecord>, i: nat)
    requires i < |ImportAccepted(policy, m, rs)|
    ensures var accepted := ImportAccepted(policy, m, rs);
            !Refused(policy, ImportFold(policy, m, accepted[..i]), accepted[i])
    decreases |rs|
  {
    hide Refused, ImportEffect;
    if i > 0 {
      var m', tail := ImportEffect(policy, m, rs[0]), ImportAccepted(policy, ImportEffect(policy, m, rs[0]), rs[1..]);
      AcceptedNotRefused(policy, m', rs[1..], i - 1);
      ImportFoldCons(policy, m, rs[0], tail[..i - 1]);
      assert ([rs[0]] + tail)[..i] == [rs[0]] + tail[..i - 1];
    }
  }

  // And what follows them, if anything does, is refused.
  lemma {:induction false} RefusedNext(policy: Policy, m: KV, rs: seq<ImportRecord>)
    ensures var accepted := ImportAccepted(policy, m, rs);
            accepted == rs || Refused(policy, ImportFold(policy, m, accepted), rs[|accepted|])
    decreases |rs|
  {
    hide Refused, ImportEffect;
    if rs != [] && !Refused(policy, m, rs[0]) {
      var m' := ImportEffect(policy, m, rs[0]);
      var tail := ImportAccepted(policy, m', rs[1..]);
      RefusedNext(policy, m', rs[1..]);
      ImportFoldCons(policy, m, rs[0], tail);
      assert rs == [rs[0]] + rs[1..];
    } else {
      assert ImportFold(policy, m, []) == m;
    }
  }

  // Unless duplicates are ignored every accepted record is batched.
  lemma AllPut(c: bytes, policy: Policy, m: KV, rs: seq<ImportRecord>)
    requires policy != Ignore
    ensures forall i :: 0 <= i < |ImportAccepted(policy, m, rs)| ==>
              ImportSteps(c, policy, m, ImportAccepted(policy, m, rs))[i].Some?
  {
    hide Encode, ImportFold;
    forall i | 0 <= i < |ImportAccepted(policy, m, rs)|
      ensures ImportSteps(c, policy, m, ImportAccepted(policy, m, rs))[i].Some?
    {
      AcceptedNotRefused(policy, m, rs, i);
    }
  }

  // ---- the pending keys ----

  // `seen` is exactly the set of pending keys, which is what the batch would add.
  ghost predicate Tracks(seen: set<bytes>, data: KV, ops: seq<PointOp>, c: bytes) {
    (forall k :: k in seen <==> Keyenc.DataKey(c, k) in Keys(ops))
    && View(ApplyAll(data, ops), c).Keys == View(data, c).Keys + seen
  }

  lemma TracksPut(seen: set<bytes>, data: KV, ops: seq<PointOp>, c: bytes, r: ImportRecord)
    requires Tracks(seen, data, ops, c)
    ensures Tracks(seen + {r.key}, data, ops + [Encode(c, AsPut(r))], c)
  {
    hide View, Outside, ApplyAll, InCollection, Keyenc.DataKey;
    EncodeEffect(data, c, ops, AsPut(r));
    assert Keys(ops + [Encode(c, AsPut(r))]) == Keys(ops) + [Keyenc.DataKey(c, r.key)];
    forall k | Keyenc.DataKey(c, k) == Keyenc.DataKey(c, r.key) ensures k == r.key {
      Keyenc.DataKeyInjective(c, k, c, r.key);
    }
  }

  lemma TracksKnown(seen: set<bytes>, data: KV, ops: seq<PointOp>, c: bytes, k: bytes)
    requires Tracks(seen, data, ops, c)
    ensures k in View(ApplyAll(data, ops), c) <==> k in seen || k in View(data, c)
  {
    hide View, ApplyAll;
    assert k in View(ApplyAll(data, ops), c) <==> k in View(ApplyAll(data, ops), c).Keys;
  }

  lemma TracksNothing(data: KV, c: bytes)
    ensures Tracks({}, data, [], c)
  {
  }
}
