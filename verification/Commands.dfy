// The commands end to end: open, ensure the collection, stream, commit. And
// whole sessions of commands, which never leave a database that cannot be
// opened again.
module Commands {
  import opened Bytes
  import opened Pebble
  import opened Views
  import opened Grammar
  import opened Batches
  import opened Stores
  import opened Folds
  import opened Cutting
  import opened Skipping
  import opened Lines
  import opened ImportFolds
  import opened Decoders
  import opened Applying
  import opened Importing
  import opened Exporting
  import Reading
  import Keyenc
  import Bloom

  const KEYS_ONLY := ScanOptions([], None, None, 0, false, true)

  datatype ApplyOptions = ApplyOptions(format: Format, limits: Limits, expectedKeys: Option<Bloom.uint64>)

  predicate ValidExpected(o: ApplyOptions) {
    o.expectedKeys.Some? ==> Bloom.BlockCount(o.expectedKeys.value).Blocks?
  }

  // The filter a run on a collection that holds `before` starts with.
  ghost function FilterOf(o: ApplyOptions, hash: Bloom.Hash, before: KV): Option<Filter>
    requires ValidExpected(o)
  {
    if o.expectedKeys.None? then None
    else
      Bloom.SizingExact(o.expectedKeys.value);
      Some(Filter(Bloom.BlockCount(o.expectedKeys.value).count, hash, before.Keys))
  }

  // Adds every stored key of the collection to the filter, and no other.
  method Preload(store: Store, c: bytes, filter: Bloom.DeleteBloom)
    requires ValidateCollection(store.env.rule, c) && filter.Valid()
    requires {store, store.db} !! {filter, filter.bits}
    modifies filter, filter.bits
    ensures filter.Valid() && filter.added == old(filter.added) + View(store.db.data, c).Keys
  {
    hide View, ScanSpec, Bloom.DeleteBloom.Valid;
    var err, rs := store.Scan(c, KEYS_ONLY);
    ghost var view, keys := View(store.db.data, c), ScannedKeys(rs);
    for i := 0 to |rs|
      invariant filter.Valid() && filter.added == old(filter.added) + Elements(keys[..i])
    {
      assert keys[..i + 1] == keys[..i] + [rs[i].key];
      filter.Add(rs[i].key);
    }
    assert keys[..|rs|] == keys;
    ForwardScan(view, KEYS_ONLY);
    WholeSelection(view, KEYS_ONLY);
  }

  datatype ApplyStats = ApplyStats(records: nat, puts: nat, deletes: nat, deletesSkipped: nat, batches: nat, bytes: nat)

  // What an apply run makes of a collection, whatever the chunking of the input:
  // on success the fold of all records, on failure the fold of the records
  // before the last cut.
  ghost predicate ApplyResult(before: KV, data: KV, c: bytes, o: ApplyOptions, hash: Bloom.Hash, input: bytes,
      err: Option<AppError>, stats: ApplyStats)
    requires Positive(o.limits) && ValidExpected(o)
  {
    var s := ParseStream(o.format, input, 0, 0);
    var accepted := Accepted(s.records);
    var steps := Steps(c, FilterOf(o, hash, before), accepted);
    var cuts := FinalCuts(o.limits, steps, err.None?);
    PendingBounds(o.limits, steps);
    Outcome(s, err, accepted)
    && View(data, c) == Fold(before, if err.None? then s.records else accepted[..LastCut(cuts)])
    && stats.puts == Puts(accepted) && stats.records == stats.puts + stats.deletes == |Ops(steps)|
    && stats.records + stats.deletesSkipped == |accepted| && stats.batches == |cuts|
    && stats.bytes == BytesRead(s, err, accepted) && (err.None? ==> stats.bytes == |input|)
  }

  // The collection after a run, as a function of the collection before it.
  ghost function ApplyLeaves(before: KV, c: bytes, o: ApplyOptions, hash: Bloom.Hash, input: bytes): KV
    requires Positive(o.limits) && ValidExpected(o)
  {
    var s := ParseStream(o.format, input, 0, 0);
    var accepted := Accepted(s.records);
    if RunError(s).None? then Fold(before, s.records)
    else Fold(before, accepted[..Kept(c, FilterOf(o, hash, before), o.limits, accepted, |accepted|)])
  }

  lemma ResultLeaves(before: KV, data: KV, c: bytes, o: ApplyOptions, hash: Bloom.Hash, input: bytes,
      err: Option<AppError>, stats: ApplyStats)
    requires Positive(o.limits) && ValidExpected(o) && ApplyResult(before, data, c, o, hash, input, err, stats)
    ensures View(data, c) == ApplyLeaves(before, c, o, hash, input)
  {
    hide ParseStream, View, Fold, Steps, Cut, Ops, FilterOf, Accepted;
    var accepted := Accepted(ParseStream(o.format, input, 0, 0).records);
    assert accepted[..|accepted|] == accepted;
  }

  // Each of its commits is the fold of the records before one more cut.
  ghost predicate ApplyHistory(start: KV, commits: seq<KV>, from: nat, c: bytes, o: ApplyOptions, hash: Bloom.Hash,
      input: bytes, finished: bool)
    requires ValidExpected(o)
  {
    var before, accepted := View(start, c), Accepted(ParseStream(o.format, input, 0, 0).records);
    History(start, commits, from, c, States(before, accepted),
            FinalCuts(o.limits, Steps(c, FilterOf(o, hash, before), accepted), finished))
  }

  lemma RunResult(run: ApplyRun, o: ApplyOptions, hash: Bloom.Hash, input: bytes, err: Option<AppError>,
      stats: ApplyStats)
    requires run.Open() && Positive(o.limits) && ValidExpected(o)
    requires run.Limit() == o.limits && run.dropping == FilterOf(o, hash, View(run.start, run.c))
    requires run.cuts == FinalCuts(o.limits, Steps(run.c, run.dropping, run.seen), err.None?)
    requires Outcome(ParseStream(o.format, input, 0, 0), err, run.seen)
    requires err.None? ==> View(run.store.db.data, run.c) == Fold(View(run.start, run.c), run.seen)
    requires run.bytes == BytesRead(ParseStream(o.format, input, 0, 0), err, run.seen)
    requires stats == ApplyStats(run.records, run.puts, run.deletes, run.deletesSkipped, run.batches, run.bytes)
    ensures run.sound ==> run.store.Valid()
    ensures ApplyResult(View(run.start, run.c), run.store.db.data, run.c, o, hash, input, err, stats)
    ensures ApplyHistory(run.start, run.store.db.commits, run.firstCommit, run.c, o, hash, input, err.None?)
    ensures Outside(run.store.db.data, run.c) == Outside(run.start, run.c)
  {
    hide View, Outside, Fold, ParseStream, Accepted, Puts, FilterOf, FinalCuts, Steps, Ops, Sound, History;
    StreamBytes(o.format, input, 0, 0);
    PendingBounds(o.limits, Steps(run.c, run.dropping, run.seen));
    assert LastCut(run.cuts) <= |run.seen|;
  }

  method MakeFilter(o: ApplyOptions, hash: Bloom.Hash) returns (ok: bool, filter: Bloom.DeleteBloom?)
    ensures ok == ValidExpected(o)
    ensures (filter != null) == (ok && o.expectedKeys.Some?)
    ensures filter != null ==>
              fresh(filter) && fresh(filter.bits) && filter.Valid() && filter.added == {} && filter.hash == hash
              && filter.Blocks() == Bloom.BlockCount(o.expectedKeys.value).count
  {
    if o.expectedKeys.None? {
      return true, null;
    }
    var made := Bloom.NewDeleteBloom(o.expectedKeys.value, hash);
    if made.None? {
      return false, null;
    }
    return true, made.value;
  }

  method RunApply(store: Store, c: bytes, o: ApplyOptions, hash: Bloom.Hash, filter: Bloom.DeleteBloom?, input: bytes)
    returns (err: Option<AppError>, stats: ApplyStats)
    requires ValidateCollection(store.env.rule, c)
    requires Positive(o.limits) && ValidExpected(o)
    requires (filter != null) == o.expectedKeys.Some?
    requires filter != null ==>
               filter.Valid() && {store, store.db} !! {filter, filter.bits}
               && FilterOf(o, hash, View(store.db.data, c)) == Some(Filter(filter.Blocks(), filter.hash, filter.added))
    modifies store.db, if filter == null then {} else {filter, filter.bits}
    ensures old(store.Valid() && Keyenc.CollectionMetaKey(c) in store.db.data) ==> store.Valid()
    ensures old(store.db.commits) <= store.db.commits
    ensures ApplyResult(View(old(store.db.data), c), store.db.data, c, o, hash, input, err, stats)
    ensures ApplyHistory(old(store.db.data), store.db.commits, |old(store.db.commits)|, c, o, hash, input, err.None?)
    ensures Outside(store.db.data, c) == Outside(old(store.db.data), c)
  {
    hide View, Outside, Fold, Outcome, ApplyResult, ApplyHistory, Accepted, Sound, ParseStream, FinalCuts, Steps,
      Reading.BufReader.Remaining, ApplyAll, ApplyRun.Valid, ApplyRun.Open, Bloom.DeleteBloom.Valid;
    var br := new Reading.BufReader(input, BUFFER_SIZE);
    var reader := new ApplyReader(o.format, br);
    var run := new ApplyRun(store, c, o.limits.batchSize, o.limits.batchBytes, filter);
    err := ApplyRecords(reader, run);
    stats := ApplyStats(run.records, run.puts, run.deletes, run.deletesSkipped, run.batches, run.bytes);
    RunResult(run, o, hash, input, err, stats);
  }

  method Apply(store: Store, c: bytes, o: ApplyOptions, hash: Bloom.Hash, input: bytes, now: bytes, meta: bytes)
    returns (err: Option<AppError>, stats: ApplyStats)
    requires ValidateCollection(store.env.rule, c) && Positive(o.limits)
    modifies store.db
    ensures old(store.Valid()) && store.env.isTimestamp(now) ==> store.Valid()
    ensures ApplyStart(old(store.db.data), store.env, c, o).Some? ==>
              err == ApplyStart(old(store.db.data), store.env, c, o) && stats == ApplyStats(0, 0, 0, 0, 0, 0)
              && store.db.data == old(store.db.data) && store.db.commits == old(store.db.commits)
    ensures ApplyStart(old(store.db.data), store.env, c, o).None? ==>
              var start := EnsureData(old(store.db.data), c, now, meta);
              var first := old(store.db.commits) + EnsureHistory(old(store.db.data), c, now, meta);
              ApplyResult(View(old(store.db.data), c), store.db.data, c, o, hash, input, err, stats)
              && Outside(store.db.data, c) == Outside(start, c)
              && first <= store.db.commits
              && ApplyHistory(start, store.db.commits, |first|, c, o, hash, input, err.None?)
  {
    hide View, Outside, EnsureData, EnsureHistory, ApplyResult, ApplyHistory, Sound, Bloom.BlockCount,
      Bloom.DeleteBloom.Valid;
    var ok, filter := MakeFilter(o, hash);
    if !ok {
      return Some(InvalidExpectedCount), ApplyStats(0, 0, 0, 0, 0, 0);
    }
    var failure := store.EnsureCollection(c, now, meta);
    if failure.Some? {
      return Some(Storage(failure.value)), ApplyStats(0, 0, 0, 0, 0, 0);
    }
    if Sound(old(store.db.data), store.env) && store.env.isTimestamp(now) {
      EnsureSound(old(store.db.data), store.env, c, now, meta);
    }
    EnsureKeepsViews(old(store.db.data), c, now, meta, c);
    if filter != null {
      Preload(store, c, filter);
      assert filter.added == View(store.db.data, c).Keys;
    }
    err, stats := RunApply(store, c, o, hash, filter, input);
  }

  // What stops an apply before it reads its input.
  function ApplyStart(data: KV, env: Env, c: bytes, o: ApplyOptions): (err: Option<AppError>)
    ensures err.None? <==> ValidExpected(o) && EnsureError(data, env, c).None?
    ensures err == Some(InvalidExpectedCount) <==> !ValidExpected(o)
    ensures forall e :: err == Some(Storage(e)) <==> ValidExpected(o) && EnsureError(data, env, c) == Some(e)
  {
    if !ValidExpected(o) then Some(InvalidExpectedCount)
    else if EnsureError(data, env, c).Some? then Some(Storage(EnsureError(data, env, c).value)) else None
  }

  // Batch limits, the filter and its hash are not observable where runs succeed:
  // two runs on the same contents and input succeed or fail alike, and where
  // they succeed they leave the same contents.
  lemma OptionsUnobservable(before: KV, d1: KV, d2: KV, c: bytes, o1: ApplyOptions, o2: ApplyOptions,
      h1: Bloom.Hash, h2: Bloom.Hash, input: bytes, e1: Option<AppError>, e2: Option<AppError>,
      s1: ApplyStats, s2: ApplyStats)
    requires o1.format == o2.format && Positive(o1.limits) && Positive(o2.limits)
    requires ValidExpected(o1) && ValidExpected(o2)
    requires ApplyResult(before, d1, c, o1, h1, input, e1, s1) && ApplyResult(before, d2, c, o2, h2, input, e2, s2)
    ensures e1 == e2 && (e1.None? ==> View(d1, c) == View(d2, c))
    ensures s1.puts == s2.puts && s1.records + s1.deletesSkipped == s2.records + s2.deletesSkipped
  {
    hide View, Fold, ParseStream, FinalCuts, Steps, Ops, FilterOf;
  }

  // A run succeeds exactly where its input is well formed and no key is empty, and
  // an empty key that comes first is reported first.
  lemma ApplySucceeds(before: KV, data: KV, c: bytes, o: ApplyOptions, hash: Bloom.Hash, input: bytes,
      err: Option<AppError>, stats: ApplyStats)
    requires Positive(o.limits) && ValidExpected(o) && ApplyResult(before, data, c, o, hash, input, err, stats)
    ensures var s := ParseStream(o.format, input, 0, 0);
            var keyed := forall i :: 0 <= i < |s.records| ==> s.records[i].key != [];
            (err.None? <==> s.error.None? && keyed)
            && (err == Some(EmptyRecordKey) <==> !keyed)
            && (forall e :: err == Some(BadInput(e)) <==> keyed && s.error == Some(e))
  {
    hide ParseStream, View, Fold, FinalCuts, Steps, Ops, FilterOf, Accepted;
    AcceptedIffKeys(ParseStream(o.format, input, 0, 0).records);
  }

  // Key by key, what a successful run leaves.
  lemma ApplyMeaning(before: KV, data: KV, c: bytes, o: ApplyOptions, hash: Bloom.Hash, input: bytes,
      stats: ApplyStats, k: bytes)
    requires Positive(o.limits) && ValidExpected(o) && ApplyResult(before, data, c, o, hash, input, None, stats)
    ensures Lookup(View(data, c), k) ==
            match LastRecord(ParseStream(o.format, input, 0, 0).records, k)
            case None => Lookup(before, k)
            case Some(r) => if r.delete then None else Some(r.value)
  {
    hide ParseStream, View, Accepted, FinalCuts, Steps, Ops, FilterOf;
    FoldLastWins(before, ParseStream(o.format, input, 0, 0).records, k);
  }

  // Each commit of a run adds the records between two cuts, at least one and at
  // most a batch of operations, which were below both limits before the last.
  lemma ApplyCommit(start: KV, commits: seq<KV>, from: nat, c: bytes, o: ApplyOptions, hash: Bloom.Hash,
      input: bytes, finished: bool, i: nat) returns (m: nat, n: nat)
    requires Positive(o.limits) && ValidExpected(o)
    requires ApplyHistory(start, commits, from, c, o, hash, input, finished) && i < |commits| - from
    ensures var before, accepted := View(start, c), Accepted(ParseStream(o.format, input, 0, 0).records);
            m < n <= |accepted|
            && View(if i == 0 then start else commits[from + i - 1], c) == Fold(before, accepted[..m])
            && View(commits[from + i], c) == Fold(before, accepted[..n])
            && var ops := Ops(Steps(c, FilterOf(o, hash, before), accepted)[m..n]);
               0 < |ops| <= o.limits.batchSize && !Reached(o.limits, ops[..|ops| - 1])
  {
    hide View, Outside, ParseStream, Accepted, Fold, Steps, FinalCuts, Ops, Reached;
    var before, accepted := View(start, c), Accepted(ParseStream(o.format, input, 0, 0).records);
    var steps := Steps(c, FilterOf(o, hash, before), accepted);
    var cuts := FinalCuts(o.limits, steps, finished);
    FinalBatchBounds(o.limits, steps, finished, i);
    m, n := Before(cuts, i), cuts[i];
    assert Shows(start, commits[from + i], c, States(before, accepted)[n]);
    if i == 0 {
      FoldNothing(before, accepted);
    } else {
      assert Shows(start, commits[from + i - 1], c, States(before, accepted)[m]);
    }
  }

  // A run that accepts nothing changes nothing.
  lemma NothingApplied(before: KV, data: KV, c: bytes, o: ApplyOptions, hash: Bloom.Hash, input: bytes,
      err: Option<AppError>, stats: ApplyStats)
    requires Positive(o.limits) && ValidExpected(o) && ApplyResult(before, data, c, o, hash, input, err, stats)
    requires err.Some? && Accepted(ParseStream(o.format, input, 0, 0).records) == []
    ensures View(data, c) == before
  {
    hide View, ParseStream, Accepted, Steps, Cut, FilterOf;
    PendingBounds(o.limits, Steps(c, FilterOf(o, hash, before), []));
  }

  lemma FoldNothing(m: KV, rs: seq<ApplyRecord>)
    ensures Fold(m, rs[..0]) == m
  {
  }

  // What a failed run keeps and what it loses: the accepted records from some
  // place on, whose operations are below both limits. Where every delete names a
  // key stored before or put earlier, that place is the one without a filter and
  // every lost record is one of those operations.
  lemma FailedApply(before: KV, data: KV, c: bytes, o: ApplyOptions, hash: Bloom.Hash, input: bytes,
      err: Option<AppError>, stats: ApplyStats) returns (n: nat)
    requires Positive(o.limits) && ValidExpected(o) && ApplyResult(before, data, c, o, hash, input, err, stats)
    requires err.Some?
    ensures var accepted := Accepted(ParseStream(o.format, input, 0, 0).records);
            var filter := FilterOf(o, hash, before);
            n == Kept(c, filter, o.limits, accepted, |accepted|)
            && View(data, c) == Fold(before, accepted[..n])
            && var lost := Ops(Steps(c, filter, accepted)[n..]);
               |lost| < o.limits.batchSize && TotalBytes(lost) < o.limits.batchBytes
               && (filter.None? || KnownDeletes(before.Keys, accepted) ==>
                     n == Kept(c, None, o.limits, accepted, |accepted|) && n + |lost| == |accepted|)
  {
    hide ParseStream, View, Fold, Cut, TotalBytes, Accepted, KnownDeletes, Encode, Dropped;
    var accepted := Accepted(ParseStream(o.format, input, 0, 0).records);
    var filter := FilterOf(o, hash, before);
    var steps := Steps(c, filter, accepted);
    assert accepted[..|accepted|] == accepted;
    n := Kept(c, filter, o.limits, accepted, |accepted|);
    PendingBounds(o.limits, steps);
    if filter.None? || KnownDeletes(before.Keys, accepted) {
      if filter.Some? {
        KnownDeletesPass(filter.value, accepted);
        NothingDroppedSteps(c, filter.value, accepted);
      }
      NoFilterDropsNothing(accepted);
      AllBatched(steps[n..]);
    }
  }

  // Whatever a crash left of a run, applying the same input again, with any
  // limits and filter, gives what the run would have given.
  lemma CrashThenApply(start: KV, commits: seq<KV>, from: nat, c: bytes, o: ApplyOptions, hash: Bloom.Hash,
      input: bytes, finished: bool, i: nat, data: KV, again: ApplyOptions, hash': Bloom.Hash, stats: ApplyStats)
    requires Positive(o.limits) && ValidExpected(o) && Positive(again.limits) && ValidExpected(again)
    requires ApplyHistory(start, commits, from, c, o, hash, input, finished) && i < |commits| - from
    requires o.format == again.format
    requires ApplyResult(View(commits[from + i], c), data, c, again, hash', input, None, stats)
    ensures View(data, c) == Fold(View(start, c), ParseStream(o.format, input, 0, 0).records)
  {
    hide View, ParseStream, Accepted, Fold, Steps, FinalCuts, Ops, FilterOf, ApplyHistory;
    var rs := ParseStream(o.format, input, 0, 0).records;
    var _, n := ApplyCommit(start, commits, from, c, o, hash, input, finished, i);
    assert Accepted(rs)[..n] == rs[..n];
    FoldAgain(View(start, c), rs, n);
  }

  // Where the filter drops a delete, a failure can lose what would have been kept:
  // here a collection is created by an input whose third record is malformed.
  // With batches of two, and bytes to spare, the put before it is kept without
  // the filter and lost with it, whatever the size and the hash.
  lemma FilterMovesCuts(c: bytes, a: bytes, b: bytes, v: bytes, l: Limits, expected: Bloom.uint64, hash: Bloom.Hash,
      d1: KV, e1: Option<AppError>, s1: ApplyStats, d2: KV, e2: Option<AppError>, s2: ApplyStats)
    requires a != [] && |a| <= MAX_RECORD_BYTES && b != [] && FitsFrame(b, v)
    requires l.batchSize == 2 && |Keyenc.DataKey(c, a)| + |Keyenc.DataKey(c, b)| + |v| < l.batchBytes
    requires ValidExpected(ApplyOptions(Frame, l, Some(expected)))
    requires var input := DeleteFrame(a) + (PrintFrame(b, v) + [NEWLINE]);
             ApplyResult(map[], d1, c, ApplyOptions(Frame, l, Some(expected)), hash, input, e1, s1)
             && ApplyResult(map[], d2, c, ApplyOptions(Frame, l, None), hash, input, e2, s2)
    ensures e1 == e2 == Some(BadInput(EmptyHeader))
    ensures View(d1, c) == map[] && View(d2, c) == map[b := v]
  {
    hide View, ParseStream, PrintFrame, DeleteFrame, Fold, Steps, Cut, Ops, Dropped, Bloom.BlockCount;
    var input := DeleteFrame(a) + (PrintFrame(b, v) + [NEWLINE]);
    var del, put := DeleteThenPut(a, b, v);
    var rs := [del, put];
    assert Accepted(rs) == rs;
    var filter := FilterOf(ApplyOptions(Frame, l, Some(expected)), hash, map[]).value;
    Bloom.AddedPass(filter.blocks, hash, {}, a);
    assert rs[..0] == [] && rs[..2] == rs;
    assert Dropped(Some(filter), [], del) by { LeadingDrop(filter, del); }
    UnfilteredBytes(c, del, put);
    DropMovesCuts(c, filter, rs, 0, 2, l);
    FoldTwo(map[], del, put);
  }

  lemma LeadingDrop(filter: Filter, del: ApplyRecord)
    requires del.delete && filter.stored == {}
    ensures Dropped(Some(filter), [], del)
  {
    assert Known({}, []) == {};
    Bloom.AddedPass(filter.blocks, filter.hash, {}, del.key);
  }

  lemma FoldTwo(m: KV, a: ApplyRecord, b: ApplyRecord)
    ensures Fold(m, []) == m && Fold(m, [a, b]) == Effect(Effect(m, a), b)
  {
    assert [a, b] == [] + [a] + [b];
    FoldSnoc(m, [], a);
    FoldSnoc(m, [] + [a], b);
  }

  lemma UnfilteredBytes(c: bytes, del: ApplyRecord, put: ApplyRecord)
    requires del.delete && !put.delete
    ensures TotalBytes(Ops(Steps(c, None, [del, put])))
            == |Keyenc.DataKey(c, del.key)| + |Keyenc.DataKey(c, put.key)| + |put.value|
  {
    hide Steps, Ops, TotalBytes, Keyenc.DataKey;
    assert [del, put] == [] + [del] + [put];
    NoSteps(c, None);
    StepsSnoc(c, None, [], del);
    StepsSnoc(c, None, [] + [del], put);
    OpsSnoc(Steps(c, None, []), Some(Encode(c, del)));
    OpsSnoc(Steps(c, None, [] + [del]), Some(Encode(c, put)));
    TotalBytesSnoc([], Encode(c, del));
    TotalBytesSnoc([Encode(c, del)], Encode(c, put));
    assert [] + [Encode(c, del)] == [Encode(c, del)];
    NoBytes();
  }

  lemma NoBytes()
    ensures TotalBytes([]) == 0
  {
  }

  lemma DeleteThenPut(a: bytes, b: bytes, v: bytes) returns (del: ApplyRecord, put: ApplyRecord)
    requires |a| <= MAX_RECORD_BYTES && FitsFrame(b, v)
    ensures del.delete && del.key == a && !put.delete && put.key == b && put.value == v
    ensures ParseStream(Frame, DeleteFrame(a) + (PrintFrame(b, v) + [NEWLINE]), 0, 0)
            == Stream([del, put], Some(EmptyHeader))
  {
    hide FrameStep, PrintFrame, DeleteFrame;
    var d, p := DeleteFrame(a), PrintFrame(b, v);
    del := ApplyRecord(true, a, [], 1, |d|);
    put := ApplyRecord(false, b, v, 2, |d| + |p|);
    DeleteThenParse(a, p + [NEWLINE]);
    PrintThenParse(b, v, [NEWLINE]);
    assert (d + (p + [NEWLINE]))[|d|..] == p + [NEWLINE] && (p + [NEWLINE])[|p|..] == [NEWLINE];
    LoneNewline();
    assert ParseStream(Frame, [NEWLINE], 2, |d| + |p|) == Stream([], Some(EmptyHeader));
    assert ParseStream(Frame, p + [NEWLINE], 1, |d|) == Stream([put], Some(EmptyHeader));
  }

  lemma LoneNewline()
    ensures FrameStep([NEWLINE]) == Bad(EmptyHeader)
  {
    assert [NEWLINE][..0] == [];
  }

  // Counts the selected keys by visiting them.
  method Count(store: Store, c: bytes, selection: ScanOptions) returns (err: Option<StoreError>, n: nat)
    requires selection.limit == 0
    ensures err == if !ValidateCollection(store.env.rule, c) then Some(InvalidName)
                   else if StartsAfterEnd(selection.start, selection.end) then Some(InvalidOptions) else None
    ensures err.None? ==> n == |SelectedKeys(View(store.db.data, c), selection)|
  {
    hide ScanSpec, View;
    var o := selection.(keysOnly := true);
    var visited;
    err, visited := store.Scan(c, o);
    CountIsCardinality(View(store.db.data, c), o);
    n := |visited|;
  }

  // ---- import ----

  datatype ImportOptions = ImportOptions(mode: ImportMode, policy: Policy, limits: Limits)

  // On success the import of all records, on failure of those before the last cut.
  ghost predicate ImportResult(before: KV, data: KV, c: bytes, o: ImportOptions, input: bytes,
      err: Option<ImportFailure>)
    requires Positive(o.limits)
  {
    var s := ParseImport(o.mode, input, 0);
    var accepted := ImportAccepted(o.policy, before, s.records);
    var steps := ImportSteps(c, o.policy, before, accepted);
    PendingBounds(o.limits, steps);
    ImportOutcome(s, o.policy, before, err, accepted)
    && View(data, c)
       == ImportFold(o.policy, before,
                     if err.None? then s.records else accepted[..LastCut(FinalCuts(o.limits, steps, false))])
  }

  // The collection after an import, as a function of the collection before it.
  ghost function ImportLeaves(before: KV, c: bytes, o: ImportOptions, input: bytes): KV
    requires Positive(o.limits)
  {
    var s := ParseImport(o.mode, input, 0);
    var accepted := ImportAccepted(o.policy, before, s.records);
    var steps := ImportSteps(c, o.policy, before, accepted);
    PendingBounds(o.limits, steps);
    if ImportRunError(s, o.policy, before).None? then ImportFold(o.policy, before, s.records)
    else ImportFold(o.policy, before, accepted[..LastCut(Cut(o.limits, steps).cuts)])
  }

  lemma ImportResultLeaves(before: KV, data: KV, c: bytes, o: ImportOptions, input: bytes,
      err: Option<ImportFailure>)
    requires Positive(o.limits) && ImportResult(before, data, c, o, input, err)
    ensures View(data, c) == ImportLeaves(before, c, o, input)
  {
    hide ParseImport, View, ImportFold, ImportSteps, Cut, ImportAccepted;
  }

  // Each of its commits is the import of the records before one more cut.
  ghost predicate ImportHistory(start: KV, commits: seq<KV>, from: nat, c: bytes, o: ImportOptions, input: bytes,
      finished: bool)
  {
    var before := View(start, c);
    var accepted := ImportAccepted(o.policy, before, ParseImport(o.mode, input, 0).records);
    History(start, commits, from, c, ImportStates(o.policy, before, accepted),
            FinalCuts(o.limits, ImportSteps(c, o.policy, before, accepted), finished))
  }

  lemma ImportRunResult(run: ImportRun, o: ImportOptions, input: bytes, err: Option<ImportFailure>)
    requires run.Open() && Positive(o.limits) && run.policy == o.policy && run.Limit() == o.limits
    requires run.cuts == FinalCuts(o.limits, run.Batched(), err.None?)
    requires ImportOutcome(ParseImport(o.mode, input, 0), o.policy, View(run.start, run.c), err, run.done)
    requires err.None? ==> View(run.store.db.data, run.c) == ImportFold(o.policy, View(run.start, run.c), run.done)
    ensures run.sound ==> run.store.Valid()
    ensures ImportResult(View(run.start, run.c), run.store.db.data, run.c, o, input, err)
    ensures ImportHistory(run.start, run.store.db.commits, run.firstCommit, run.c, o, input, err.None?)
    ensures Outside(run.store.db.data, run.c) == Outside(run.start, run.c)
  {
    hide View, Outside, ImportFold, ParseImport, ImportAccepted, Sound, FinalCuts, ImportSteps, History;
    PendingBounds(o.limits, run.Batched());
    assert LastCut(run.cuts) <= |run.done|;
  }

  method RunImport(store: Store, c: bytes, o: ImportOptions, input: bytes) returns (err: Option<ImportFailure>)
    requires ValidateCollection(store.env.rule, c) && Positive(o.limits)
    modifies store.db
    ensures old(store.Valid() && Keyenc.CollectionMetaKey(c) in store.db.data) ==> store.Valid()
    ensures old(store.db.commits) <= store.db.commits
    ensures ImportResult(View(old(store.db.data), c), store.db.data, c, o, input, err)
    ensures ImportHistory(old(store.db.data), store.db.commits, |old(store.db.commits)|, c, o, input, err.None?)
    ensures Outside(store.db.data, c) == Outside(old(store.db.data), c)
  {
    hide View, Outside, ImportResult, ImportHistory, ImportOutcome, ImportFold, Sound, ParseImport, ApplyAll,
      Reading.BufReader.Remaining, ImportRun.Valid, ImportRun.Open, ImportRun.Batched, FinalCuts;
    var br := new Reading.BufReader(input, BUFFER_SIZE);
    var lines := new LineReader(br);
    var reader := new ImportReader(o.mode, lines);
    var run := new ImportRun(store, c, o.policy, o.limits.batchSize, o.limits.batchBytes);
    err := ImportRecords(reader, run);
    ImportRunResult(run, o, input, err);
  }

  method Import(store: Store, c: bytes, o: ImportOptions, input: bytes, now: bytes,
      meta: bytes) returns (err: Option<ImportFailure>)
    requires ValidateCollection(store.env.rule, c) && Positive(o.limits)
    modifies store.db
    ensures old(store.Valid()) && store.env.isTimestamp(now) ==> store.Valid()
    ensures EnsureError(old(store.db.data), store.env, c).Some? ==>
              err == Some(StorageFailure(EnsureError(old(store.db.data), store.env, c).value))
              && store.db.data == old(store.db.data) && store.db.commits == old(store.db.commits)
    ensures EnsureError(old(store.db.data), store.env, c).None? ==>
              var start := EnsureData(old(store.db.data), c, now, meta);
              var first := old(store.db.commits) + EnsureHistory(old(store.db.data), c, now, meta);
              ImportResult(View(old(store.db.data), c), store.db.data, c, o, input, err)
              && Outside(store.db.data, c) == Outside(start, c)
              && first <= store.db.commits
              && ImportHistory(start, store.db.commits, |first|, c, o, input, err.None?)
  {
    hide View, Outside, EnsureData, EnsureHistory, ImportResult, ImportHistory, Sound;
    var failure := store.EnsureCollection(c, now, meta);
    if failure.Some? {
      return Some(StorageFailure(failure.value));
    }
    if Sound(old(store.db.data), store.env) && store.env.isTimestamp(now) {
      EnsureSound(old(store.db.data), store.env, c, now, meta);
    }
    EnsureKeepsViews(old(store.db.data), c, now, meta, c);
    err := RunImport(store, c, o, input);
  }

  // Each commit of an import adds the records between two cuts, at least one and
  // at most a batch of puts, which were below both limits before the last.
  lemma ImportCommit(start: KV, commits: seq<KV>, from: nat, c: bytes, o: ImportOptions, input: bytes,
      finished: bool, i: nat) returns (m: nat, n: nat)
    requires Positive(o.limits)
    requires ImportHistory(start, commits, from, c, o, input, finished) && i < |commits| - from
    ensures var before := View(start, c);
            var accepted := ImportAccepted(o.policy, before, ParseImport(o.mode, input, 0).records);
            m < n <= |accepted|
            && View(if i == 0 then start else commits[from + i - 1], c) == ImportFold(o.policy, before, accepted[..m])
            && View(commits[from + i], c) == ImportFold(o.policy, before, accepted[..n])
            && var ops := Ops(ImportSteps(c, o.policy, before, accepted)[m..n]);
               0 < |ops| <= o.limits.batchSize && !Reached(o.limits, ops[..|ops| - 1])
  {
    hide View, Outside, ParseImport, ImportAccepted, ImportFold, ImportSteps, FinalCuts, Ops, Reached;
    var before := View(start, c);
    var accepted := ImportAccepted(o.policy, before, ParseImport(o.mode, input, 0).records);
    var steps := ImportSteps(c, o.policy, before, accepted);
    var cuts := FinalCuts(o.limits, steps, finished);
    FinalBatchBounds(o.limits, steps, finished, i);
    m, n := Before(cuts, i), cuts[i];
    assert Shows(start, commits[from + i], c, ImportStates(o.policy, before, accepted)[n]);
    if i == 0 {
      ImportFoldNothing(o.policy, before, accepted);
    } else {
      assert Shows(start, commits[from + i - 1], c, ImportStates(o.policy, before, accepted)[m]);
    }
  }

  lemma ImportFoldNothing(policy: Policy, m: KV, rs: seq<ImportRecord>)
    ensures ImportFold(policy, m, rs[..0]) == m
  {
  }

  // Whatever a crash left of an import, the same input again gives what the
  // import would have given; if duplicates fail it is refused and changes nothing.
  lemma CrashThenImport(start: KV, commits: seq<KV>, from: nat, c: bytes, o: ImportOptions, input: bytes,
      finished: bool, i: nat, data: KV, limits: Limits, err: Option<ImportFailure>)
    requires Positive(o.limits) && Positive(limits)
    requires ImportHistory(start, commits, from, c, o, input, finished) && i < |commits| - from
    requires ImportResult(View(commits[from + i], c), data, c, o.(limits := limits), input, err)
    ensures o.policy != Fail && err.None? ==>
              View(data, c) == ImportFold(o.policy, View(start, c), ParseImport(o.mode, input, 0).records)
    ensures o.policy == Fail ==> err == Some(DuplicateKey) && View(data, c) == View(commits[from + i], c)
  {
    hide View, ParseImport, ImportAccepted, ImportFold, ImportSteps, FinalCuts, Ops, ImportHistory;
    var rs, before := ParseImport(o.mode, input, 0).records, View(start, c);
    var _, n := ImportCommit(start, commits, from, c, o, input, finished, i);
    var part := ImportAccepted(o.policy, before, rs)[..n];
    assert part == rs[..n];
    if o.policy == Fail {
      FailAgain(before, rs, n);
      ImportAcceptedKeys(Fail, before, rs);
      PendingBounds(limits, ImportSteps(c, Fail, View(commits[from + i], c), []));
      ImportFoldNothing(Fail, View(commits[from + i], c), []);
    } else {
      ImportAgain(o.policy, before, rs, n);
    }
  }

  // What a failed import keeps and loses; only ignored duplicates are lost
  // without counting towards a batch.
  lemma FailedImport(before: KV, data: KV, c: bytes, o: ImportOptions, input: bytes, err: Option<ImportFailure>)
    returns (n: nat)
    requires Positive(o.limits) && ImportResult(before, data, c, o, input, err) && err.Some?
    ensures var accepted := ImportAccepted(o.policy, before, ParseImport(o.mode, input, 0).records);
            n <= |accepted| && View(data, c) == ImportFold(o.policy, before, accepted[..n])
            && var lost := Ops(ImportSteps(c, o.policy, before, accepted)[n..]);
               |lost| < o.limits.batchSize && TotalBytes(lost) < o.limits.batchBytes
               && (o.policy != Ignore ==> n + |lost| == |accepted|)
  {
    hide ParseImport, View, ImportFold, Cut, TotalBytes, ImportAccepted, Encode, Refused;
    var rs := ParseImport(o.mode, input, 0).records;
    var accepted := ImportAccepted(o.policy, before, rs);
    var steps := ImportSteps(c, o.policy, before, accepted);
    n := LastCut(FinalCuts(o.limits, steps, false));
    PendingBounds(o.limits, steps);
    if o.policy != Ignore {
      AllPut(c, o.policy, before, rs);
      AllBatched(steps[n..]);
    }
  }

  // Under Fail an import succeeds exactly when its lines are well formed and its
  // keys are distinct and absent; otherwise only the lines matter.
  lemma ImportSucceeds(before: KV, data: KV, c: bytes, o: ImportOptions, input: bytes, err: Option<ImportFailure>)
    requires Positive(o.limits) && ImportResult(before, data, c, o, input, err)
    ensures var s := ParseImport(o.mode, input, 0);
            (err.None? <==> s.error.None? && (o.policy == Fail ==> FreshAndDistinct(before, s.records)))
            && (err == Some(DuplicateKey) <==> o.policy == Fail && !FreshAndDistinct(before, s.records))
            && (forall e :: err == Some(MalformedInput(e)) <==>
                  s.error == Some(e) && (o.policy == Fail ==> FreshAndDistinct(before, s.records)))
  {
    hide ParseImport, ImportFold, ImportSteps, FinalCuts, View, ImportAccepted;
    var s := ParseImport(o.mode, input, 0);
    ImportKeysNonempty(o.mode, input, 0);
    if o.policy == Fail {
      FailAcceptsDistinct(before, s.records);
    } else {
      OthersAcceptAll(o.policy, before, s.records);
    }
  }

  // Key by key, what a successful import leaves, for any batch limits.
  lemma ImportMeaning(before: KV, data: KV, c: bytes, o: ImportOptions, input: bytes, k: bytes)
    requires Positive(o.limits) && ImportResult(before, data, c, o, input, None)
    ensures var rs := ParseImport(o.mode, input, 0).records;
            Lookup(View(data, c), k)
            == if o.policy == Replace
               then (if LastValue(rs, k).Some? then LastValue(rs, k) else Lookup(before, k))
               else (if k in before then Some(before[k]) else FirstValue(rs, k))
  {
    hide ParseImport, ImportSteps, FinalCuts, View, ImportAccepted;
    var rs := ParseImport(o.mode, input, 0).records;
    if o.policy == Replace {
      ReplaceLastWins(before, rs, k);
    } else {
      IgnoreFirstWins(before, rs, k);
      KeepingPoliciesAgree(before, rs);
    }
  }

  lemma {:induction false} KeepingPoliciesAgree(m: KV, rs: seq<ImportRecord>)
    ensures ImportFold(Fail, m, rs) == ImportFold(Ignore, m, rs)
  {
    if rs != [] {
      KeepingPoliciesAgree(m, rs[..|rs| - 1]);
    }
  }

  // ---- export and restore ----

  // Applying the frames of an exported map, under any name, overlays that map.
  method Restore(store: Store, c: bytes, o: ApplyOptions, hash: Bloom.Hash, frames: bytes, ghost exported: KV,
      now: bytes, meta: bytes) returns (restored: bool)
    requires ValidateCollection(store.env.rule, c)
    requires o.format == Frame && Positive(o.limits) && ValidExpected(o)
    requires var rs := ScanSpec(exported, WHOLE_COLLECTION); AllFit(rs) && frames == PrintAll(rs)
    modifies store.db
    ensures old(store.Valid()) && store.env.isTimestamp(now) ==> store.Valid()
    ensures restored == (EnsureError(old(store.db.data), store.env, c).None? && [] !in exported)
    ensures View(store.db.data, c)
            == if restored then View(old(store.db.data), c) + exported else View(old(store.db.data), c)
    ensures forall c' :: c' != c ==> View(store.db.data, c') == View(old(store.db.data), c')
    ensures EnsureError(old(store.db.data), store.env, c).Some? ==> store.db.data == old(store.db.data)
  {
    hide View, Outside, EnsureData, EnsureHistory, EnsureError, Sound, ScanSpec, PrintAll, ParseStream, Fold, Accepted,
      Bloom.BlockCount, AllFit, ApplyHistory, FinalCuts, Steps, Ops, FilterOf;
    ExportMeansMap(exported, View(store.db.data, c));
    var failure, stats := Apply(store, c, o, hash, frames, now, meta);
    if EnsureError(old(store.db.data), store.env, c).None? {
      OthersKept(old(store.db.data), store.db.data, c, now, meta);
      if failure.Some? {
        NothingApplied(View(old(store.db.data), c), store.db.data, c, o, hash, frames, failure, stats);
      }
    }
    return failure.None?;
  }

  lemma OthersKept(before: KV, after: KV, c: bytes, now: bytes, meta: bytes)
    requires Outside(after, c) == Outside(EnsureData(before, c, now, meta), c)
    ensures forall c' :: c' != c ==> View(after, c') == View(before, c')
  {
    hide View, Outside, EnsureData;
    forall c' | c' != c ensures View(after, c') == View(before, c') {
      OutsideKeepsViews(after, EnsureData(before, c, now, meta), c, c');
      EnsureKeepsViews(before, c, now, meta, c');
    }
  }

  // Exporting a collection and applying the frames anywhere, be it in the same
  // database or under another name, overlays exactly the exported map, so on an
  // absent collection it reproduces it. Export fails exactly for an oversized
  // record, restore exactly for an empty key or a database of another version.
  method ExportThenRestore(src: Store, from: bytes, dst: Store, to: bytes, o: ApplyOptions, hash: Bloom.Hash,
      now: bytes, meta: bytes) returns (exported: bool, restored: bool)
    requires ValidateCollection(src.env.rule, from) && ValidateCollection(dst.env.rule, to)
    requires o.format == Frame && Positive(o.limits) && ValidExpected(o)
    modifies dst.db
    ensures old(dst.Valid()) && dst.env.isTimestamp(now) ==> dst.Valid()
    ensures var m, before := View(old(src.db.data), from), View(old(dst.db.data), to);
            var ready := EnsureError(old(dst.db.data), dst.env, to).None?;
            exported == (forall k :: k in m ==> FitsFrame(k, m[k]))
            && (!exported || !ready ==> dst.db.data == old(dst.db.data))
            && restored == (exported && ready && [] !in m)
            && View(dst.db.data, to) == (if restored then before + m else before)
            && (restored && before == map[] ==> View(dst.db.data, to) == m)
    ensures forall c :: c != to ==> View(dst.db.data, c) == View(old(dst.db.data), c)
  {
    hide View, EnsureError, Sound, ScanSpec, PrintAll, FitsFrame, Bloom.BlockCount, AllFit;
    ghost var m := View(src.db.data, from);
    AllFitMeans(m);
    OverlayNothing(m);
    var err, ok, frames := Export(src, from);
    if !ok {
      return false, false;
    }
    restored := Restore(dst, to, o, hash, frames, m, now, meta);
    return true, restored;
  }

  lemma OverlayNothing(m: KV)
    ensures map[] + m == m
  {
  }

  // Dropping a collection between its export and its restore loses nothing,
  // unless it holds an empty key: then it loses everything.
  method ExportDropRestore(store: Store, c: bytes, o: ApplyOptions, hash: Bloom.Hash, now: bytes, meta: bytes)
    returns (exported: bool, restored: bool)
    requires store.Valid() && store.env.isTimestamp(now) && ValidateCollection(store.env.rule, c)
    requires o.format == Frame && Positive(o.limits) && ValidExpected(o)
    modifies store.db
    ensures store.Valid()
    ensures var m := View(old(store.db.data), c);
            exported == (forall k :: k in m ==> FitsFrame(k, m[k]))
            && restored == (exported && [] !in m)
            && View(store.db.data, c) == if exported && !restored then map[] else m
    ensures forall c' :: c' != c ==> View(store.db.data, c') == View(old(store.db.data), c')
  {
    hide View, EnsureData, EnsureError, DropData, Sound, ScanSpec, PrintAll, FitsFrame, Bloom.BlockCount, AllFit;
    ghost var start, m := store.db.data, View(store.db.data, c);
    AllFitMeans(m);
    OverlayNothing(m);
    var err, ok, frames := Export(store, c);
    if !ok {
      return false, false;
    }
    var _ := store.Drop(c);
    forall c' ensures View(store.db.data, c') == if c' == c then map[] else View(start, c') {
      DropRemovesOnly(start, c, c');
    }
    EnsureSound(store.db.data, store.env, c, now, meta);
    restored := Restore(store, c, o, hash, frames, m, now, meta);
    return true, restored;
  }
}
