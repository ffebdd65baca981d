// Where batches are cut. A stream turns record by record into steps: an
// operation for the batch, or nothing. A batch is committed as soon as it
// reaches either limit, so the steps alone decide every commit.
module Cutting {
  import opened Bytes
  import opened Pebble
  import opened Views
  import opened Batches
  import opened Folds
  import opened Grammar
  import Stores

  datatype Limits = Limits(batchSize: nat, batchBytes: nat)

  type BatchStep = Option<PointOp>

  predicate Reached(l: Limits, ops: seq<PointOp>) {
    |ops| >= l.batchSize || TotalBytes(ops) >= l.batchBytes
  }

  // Commits happen after the first cuts[i] steps; `pending` is not committed.
  datatype Cutting = Cutting(cuts: seq<nat>, pending: seq<PointOp>)

  function Cut(l: Limits, steps: seq<BatchStep>): Cutting {
    if steps == [] then Cutting([], []) else CutNext(l, Cut(l, steps[..|steps| - 1]), steps[|steps| - 1], |steps|)
  }

  function CutNext(l: Limits, before: Cutting, step: BatchStep, n: nat): Cutting {
    match step
    case None => before
    case Some(op) =>
      var ops := before.pending + [op];
      if Reached(l, ops) then Cutting(before.cuts + [n], []) else Cutting(before.cuts, ops)
  }

  lemma CutSnoc(l: Limits, steps: seq<BatchStep>, step: BatchStep)
    ensures Cut(l, steps + [step]) == CutNext(l, Cut(l, steps), step, |steps| + 1)
  {
    assert (steps + [step])[..|steps|] == steps;
  }

  function LastCut(cuts: seq<nat>): nat {
    if cuts == [] then 0 else cuts[|cuts| - 1]
  }

  // A run that reaches the end of its input also commits what is pending.
  function FinalCuts(l: Limits, steps: seq<BatchStep>, finished: bool): seq<nat> {
    var k := Cut(l, steps);
    if finished && k.pending != [] then k.cuts + [|steps|] else k.cuts
  }

  function Ops(steps: seq<BatchStep>): (r: seq<PointOp>)
    ensures |r| <= |steps|
  {
    if steps == [] then []
    else
      var init := Ops(steps[..|steps| - 1]);
      match steps[|steps| - 1]
      case None => init
      case Some(op) => init + [op]
  }

  lemma OpsSnoc(steps: seq<BatchStep>, step: BatchStep)
    ensures Ops(steps + [step]) == if step.None? then Ops(steps) else Ops(steps) + [step.value]
  {
    assert (steps + [step])[..|steps|] == steps;
  }

  // ---- the cuts, without running through the stream ----

  // No batch started after the first a steps is full within the first b.
  ghost predicate NeverFull(l: Limits, steps: seq<BatchStep>, a: nat, b: nat)
    requires b <= |steps|
  {
    forall x :: a <= x <= b ==> !Reached(l, Ops(steps[a..x]))
  }

  // The batch started after a steps is full after b steps, and not before.
  ghost predicate FullAt(l: Limits, steps: seq<BatchStep>, a: nat, b: nat) {
    a < b <= |steps| && Reached(l, Ops(steps[a..b])) && NeverFull(l, steps, a, b - 1)
  }

  function Before(cuts: seq<nat>, i: nat): nat
    requires i <= |cuts|
  {
    LastCut(cuts[..i])
  }

  ghost predicate Greedy(l: Limits, steps: seq<BatchStep>, cuts: seq<nat>) {
    (forall i :: 0 <= i < |cuts| ==> FullAt(l, steps, Before(cuts, i), cuts[i]))
    && LastCut(cuts) <= |steps| && NeverFull(l, steps, LastCut(cuts), |steps|)
  }

  predicate Positive(l: Limits) {
    l.batchSize > 0 && l.batchBytes > 0
  }

  lemma NeverFullSnoc(l: Limits, steps: seq<BatchStep>, step: BatchStep, a: nat, b: nat)
    requires a <= b <= |steps|
    ensures NeverFull(l, steps + [step], a, b) <==> NeverFull(l, steps, a, b)
  {
    forall x | a <= x <= b ensures (steps + [step])[a..x] == steps[a..x] {
    }
  }

  lemma FullAtSnoc(l: Limits, steps: seq<BatchStep>, step: BatchStep, a: nat, b: nat)
    requires FullAt(l, steps, a, b)
    ensures FullAt(l, steps + [step], a, b)
  {
    hide Reached;
    NeverFullSnoc(l, steps, step, a, b - 1);
    assert (steps + [step])[a..b] == steps[a..b];
  }

  // One more step adds its operation to the pending batch.
  lemma TailSnoc(steps: seq<BatchStep>, a: nat, step: BatchStep)
    requires a <= |steps|
    ensures var tail := Ops((steps + [step])[a..]);
            tail == if step.None? then Ops(steps[a..]) else Ops(steps[a..]) + [step.value]
  {
    assert (steps + [step])[a..] == steps[a..] + [step];
    OpsSnoc(steps[a..], step);
  }

  lemma GreedyKeep(l: Limits, steps: seq<BatchStep>, cuts: seq<nat>, step: BatchStep)
    requires Greedy(l, steps, cuts)
    requires !Reached(l, Ops((steps + [step])[LastCut(cuts)..]))
    ensures Greedy(l, steps + [step], cuts)
  {
    hide Reached, FullAt, NeverFull, Ops;
    var a, more := LastCut(cuts), steps + [step];
    forall i | 0 <= i < |cuts| ensures FullAt(l, more, Before(cuts, i), cuts[i]) {
      FullAtSnoc(l, steps, step, Before(cuts, i), cuts[i]);
    }
    NeverFullSnoc(l, steps, step, a, |steps|);
    assert more[a..|more|] == more[a..];
    NeverFullExtend(l, more, a, |steps|);
  }

  lemma NeverFullExtend(l: Limits, steps: seq<BatchStep>, a: nat, b: nat)
    requires a <= b < |steps| && NeverFull(l, steps, a, b) && !Reached(l, Ops(steps[a..b + 1]))
    ensures NeverFull(l, steps, a, b + 1)
  {
    hide Reached, Ops;
  }

  lemma GreedyCut(l: Limits, steps: seq<BatchStep>, cuts: seq<nat>, step: BatchStep)
    requires Positive(l) && Greedy(l, steps, cuts)
    requires Reached(l, Ops((steps + [step])[LastCut(cuts)..]))
    ensures Greedy(l, steps + [step], cuts + [|steps| + 1])
  {
    hide Reached, Ops, NeverFull, LastCut;
    var a, more, longer := LastCut(cuts), steps + [step], cuts + [|steps| + 1];
    NeverFullSnoc(l, steps, step, a, |steps|);
    assert more[a..|more|] == more[a..];
    assert FullAt(l, more, a, |more|);
    forall i | 0 <= i < |longer| ensures FullAt(l, more, Before(longer, i), longer[i]) {
      assert longer[..i] == cuts[..i];
      if i < |cuts| {
        FullAtSnoc(l, steps, step, Before(cuts, i), cuts[i]);
      } else {
        assert cuts[..i] == cuts;
      }
    }
    LastCutSnoc(cuts, |more|);
    NoneReached(l, more);
  }

  lemma LastCutSnoc(cuts: seq<nat>, n: nat)
    ensures LastCut(cuts + [n]) == n
  {
  }

  // An empty batch has reached nothing.
  lemma NoneReached(l: Limits, steps: seq<BatchStep>)
    requires Positive(l)
    ensures NeverFull(l, steps, |steps|, |steps|)
  {
    assert steps[|steps|..|steps|] == [];
  }

  // The stream is cut at exactly these places: each batch at the first step
  // that fills it, the last one never filled.
  lemma {:induction false} CutIsGreedy(l: Limits, steps: seq<BatchStep>)
    requires Positive(l)
    ensures var k := Cut(l, steps);
            Greedy(l, steps, k.cuts) && k.pending == Ops(steps[LastCut(k.cuts)..])
  {
    hide Reached, Greedy;
    if steps == [] {
      NothingIsGreedy(l);
    } else {
      var init, step := steps[..|steps| - 1], steps[|steps| - 1];
      var cuts := Cut(l, init).cuts;
      assert steps == init + [step];
      CutIsGreedy(l, init);
      CutSnoc(l, init, step);
      PendingNotFull(l, init, cuts);
      TailSnoc(init, LastCut(cuts), step);
      if Reached(l, Ops(steps[LastCut(cuts)..])) {
        GreedyCut(l, init, cuts, step);
        assert steps[|steps|..] == [];
      } else {
        GreedyKeep(l, init, cuts, step);
      }
    }
  }

  lemma PendingNotFull(l: Limits, steps: seq<BatchStep>, cuts: seq<nat>)
    requires Greedy(l, steps, cuts)
    ensures LastCut(cuts) <= |steps| && !Reached(l, Ops(steps[LastCut(cuts)..]))
  {
    hide Reached, FullAt;
    assert steps[LastCut(cuts)..|steps|] == steps[LastCut(cuts)..];
  }

  lemma NothingIsGreedy(l: Limits)
    requires Positive(l)
    ensures Greedy(l, [], [])
  {
    NoneReached(l, []);
  }

  lemma {:induction false} GreedyUnique(l: Limits, steps: seq<BatchStep>, s: seq<nat>, t: seq<nat>, n: nat)
    requires Greedy(l, steps, s) && Greedy(l, steps, t) && n <= |s|
    ensures n <= |t| && s[..n] == t[..n]
  {
    hide FullAt, NeverFull, LastCut;
    if n > 0 {
      GreedyUnique(l, steps, s, t, n - 1);
      var a := Before(s, n - 1);
      FullIsNotNever(l, steps, a, s[n - 1]);
      assert t[..|t|] == t;
      if n - 1 < |t| {
        assert a == Before(t, n - 1);
        SameFull(l, steps, a, s[n - 1], t[n - 1]);
        assert s[..n] == s[..n - 1] + [s[n - 1]] && t[..n] == t[..n - 1] + [t[n - 1]];
      }
    }
  }

  lemma FullIsNotNever(l: Limits, steps: seq<BatchStep>, a: nat, b: nat)
    requires FullAt(l, steps, a, b)
    ensures !NeverFull(l, steps, a, |steps|)
  {
  }

  lemma SameFull(l: Limits, steps: seq<BatchStep>, a: nat, b: nat, b': nat)
    requires FullAt(l, steps, a, b) && FullAt(l, steps, a, b')
    ensures b == b'
  {
    hide Reached;
  }

  // Being greedy decides the cuts.
  lemma CutsExactly(l: Limits, steps: seq<BatchStep>, cuts: seq<nat>)
    requires Positive(l)
    ensures cuts == Cut(l, steps).cuts <==> Greedy(l, steps, cuts)
  {
    hide Greedy;
    CutIsGreedy(l, steps);
    if Greedy(l, steps, cuts) {
      var t := Cut(l, steps).cuts;
      GreedyUnique(l, steps, cuts, t, |cuts|);
      GreedyUnique(l, steps, t, cuts, |t|);
    }
  }

  // A committed batch has at least one and at most batchSize operations, and
  // without its last one it is below both limits.
  lemma BatchBounds(l: Limits, steps: seq<BatchStep>, i: nat)
    requires Positive(l) && i < |Cut(l, steps).cuts|
    ensures var cuts := Cut(l, steps).cuts;
            Before(cuts, i) < cuts[i] <= |steps|
            && var ops := Ops(steps[Before(cuts, i)..cuts[i]]);
               0 < |ops| <= l.batchSize && Reached(l, ops) && !Reached(l, ops[..|ops| - 1])
  {
    hide FullAt;
    CutIsGreedy(l, steps);
    var cuts := Cut(l, steps).cuts;
    FullBatch(l, steps, Before(cuts, i), cuts[i]);
  }

  lemma FullBatch(l: Limits, steps: seq<BatchStep>, a: nat, b: nat)
    requires Positive(l) && FullAt(l, steps, a, b)
    ensures a < b <= |steps|
    ensures var ops := Ops(steps[a..b]);
            0 < |ops| <= l.batchSize && Reached(l, ops) && !Reached(l, ops[..|ops| - 1])
  {
    assert steps[a..b] == steps[a..b - 1] + [steps[b - 1]];
    OpsSnoc(steps[a..b - 1], steps[b - 1]);
    assert !Reached(l, Ops(steps[a..b - 1]));
  }

  // The same for the batch committed at the end, which need not be full.
  lemma FinalBatchBounds(l: Limits, steps: seq<BatchStep>, finished: bool, i: nat)
    requires Positive(l) && i < |FinalCuts(l, steps, finished)|
    ensures var cuts := FinalCuts(l, steps, finished);
            Before(cuts, i) < cuts[i] <= |steps|
            && var ops := Ops(steps[Before(cuts, i)..cuts[i]]);
               0 < |ops| <= l.batchSize && !Reached(l, ops[..|ops| - 1])
  {
    hide Cut;
    var k, cuts := Cut(l, steps), FinalCuts(l, steps, finished);
    assert cuts[..i] == k.cuts[..i];
    if i < |k.cuts| {
      BatchBounds(l, steps, i);
    } else {
      assert k.cuts[..i] == k.cuts;
      PendingBounds(l, steps);
      var a := LastCut(k.cuts);
      assert steps[a..|steps|] == steps[a..];
    }
  }

  // What is lost with the pending batch: the records after the last cut, whose
  // operations are below both limits.
  lemma PendingBounds(l: Limits, steps: seq<BatchStep>)
    requires Positive(l)
    ensures var k := Cut(l, steps);
            LastCut(k.cuts) <= |steps| && k.pending == Ops(steps[LastCut(k.cuts)..]) && !Reached(l, k.pending)
    ensures forall finished :: LastCut(FinalCuts(l, steps, finished)) <= |steps|
  {
    hide Reached, Greedy;
    CutIsGreedy(l, steps);
    PendingNotFull(l, steps, Cut(l, steps).cuts);
  }

  // Where every record is batched the operations lost are the records lost.
  lemma {:induction false} AllBatched(steps: seq<BatchStep>)
    ensures |Ops(steps)| == |steps| <==> forall i :: 0 <= i < |steps| ==> steps[i].Some?
  {
    if steps != [] {
      AllBatched(steps[..|steps| - 1]);
    }
  }

  // ---- the database under the cuts ----

  // states[n] is what the collection should be after n records. The database
  // has the state of the last cut, and with the pending operations the last one.
  ghost predicate Tracked(start: KV, data: KV, c: bytes, ops: seq<PointOp>, states: seq<KV>, last: nat) {
    last < |states|
    && Shows(start, data, c, states[last])
    && View(ApplyAll(data, ops), c) == states[|states| - 1]
    && InCollection(ops, c)
  }

  // The collection is m and the rest of the database is as it was.
  ghost predicate Shows(start: KV, data: KV, c: bytes, m: KV) {
    View(data, c) == m && Outside(data, c) == Outside(start, c)
  }

  // The commits from number `from` on are exactly the states at the cuts.
  ghost predicate History(start: KV, commits: seq<KV>, from: nat, c: bytes, states: seq<KV>, cuts: seq<nat>) {
    |commits| == from + |cuts|
    && forall i :: 0 <= i < |cuts| ==> cuts[i] < |states| && Shows(start, commits[from + i], c, states[cuts[i]])
  }

  lemma TrackedPut(start: KV, data: KV, c: bytes, ops: seq<PointOp>, states: seq<KV>, last: nat, r: ApplyRecord)
    requires Tracked(start, data, c, ops, states, last)
    ensures var next := states + [Effect(states[|states| - 1], r)];
            Tracked(start, data, c, ops + [Encode(c, r)], next, last)
  {
    hide Shows, View, Outside, ApplyAll, Effect, Encode, InCollection;
    EncodeEffect(data, c, ops, r);
  }

  lemma TrackedSkip(start: KV, data: KV, c: bytes, ops: seq<PointOp>, states: seq<KV>, last: nat)
    requires Tracked(start, data, c, ops, states, last)
    ensures Tracked(start, data, c, ops, states + [states[|states| - 1]], last)
  {
    hide Shows, View, ApplyAll, InCollection;
  }

  lemma TrackedFlush(start: KV, data: KV, env: Stores.Env, c: bytes, ops: seq<PointOp>, states: seq<KV>, last: nat)
    requires Tracked(start, data, c, ops, states, last)
    ensures Tracked(start, ApplyAll(data, ops), c, [], states, |states| - 1)
    ensures Shows(start, ApplyAll(data, ops), c, states[|states| - 1])
    ensures Recorded(data, env, c) ==> Recorded(ApplyAll(data, ops), env, c)
  {
    hide View, Outside, Recorded;
    BatchConfined(data, c, ops);
    if Recorded(data, env, c) {
      BatchSound(data, env, c, ops);
    }
  }

  lemma HistoryGrows(start: KV, commits: seq<KV>, from: nat, c: bytes, states: seq<KV>, cuts: seq<nat>, next: KV)
    requires History(start, commits, from, c, states, cuts)
    ensures History(start, commits, from, c, states + [next], cuts)
  {
    hide Shows;
  }

  lemma HistoryCommit(start: KV, commits: seq<KV>, from: nat, c: bytes, states: seq<KV>, cuts: seq<nat>, data: KV)
    requires History(start, commits, from, c, states, cuts)
    requires states != [] && Shows(start, data, c, states[|states| - 1])
    ensures History(start, commits + [data], from, c, states, cuts + [|states| - 1])
  {
    hide Shows;
  }
}
