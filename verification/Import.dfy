// Importing records in batches under a duplicate policy. The set of keys seen
// is cleared at every flush; a key counts as a duplicate if it is in that set
// or already committed.
module Importing {
  import opened Bytes
  import opened Pebble
  import opened Views
  import opened Batches
  import opened Stores
  import opened Lines
  import opened Folds
  import opened ImportFolds
  import opened Decoders
  import opened Cutting
  import Reading
  import Keyenc

  datatype ImportFailure =
    | StorageFailure(error: StoreError)
    | MalformedInput(cause: ImportError)
    | EmptyKey
    | DuplicateKey

  class ImportRun {
    const store: Store
    const c: bytes
    const policy: Policy
    const batchSize: nat
    const batchBytes: nat
    var b: Batch
    var seen: set<bytes>
    // Where the run began and whether from a sound database, what it has accepted,
    // and after how many records it has committed.
    ghost const start: KV
    ghost const firstCommit: nat
    ghost const sound: bool
    ghost var done: seq<ImportRecord>
    ghost var cuts: seq<nat>

    function Limit(): Limits {
      Limits(batchSize, batchBytes)
    }

    ghost predicate BatchReady()
      reads this, b
    {
      b.Valid() && b.ops == b.issued && b.db == store.db && b.rule == store.env.rule
    }

    // A database that was sound, with this collection recorded, still is.
    ghost predicate StoreReady()
      reads store, store.db
    {
      ValidateCollection(store.env.rule, c)
      && (sound ==> store.Valid() && Keyenc.CollectionMetaKey(c) in store.db.data)
    }

    // Each commit of the run is the import up to its cut, and the batch leads on
    // to the import of everything accepted.
    ghost predicate Folded()
      reads this, b, store, store.db
    {
      var states := ImportStates(policy, View(start, c), done);
      Tracked(start, store.db.data, c, b.ops, states, LastCut(cuts))
      && History(start, store.db.commits, firstCommit, c, states, cuts)
    }

    ghost predicate Open()
      reads this, b, store, store.db
    {
      StoreReady() && BatchReady() && Folded()
      && (policy != Replace ==> Tracks(seen, store.db.data, b.ops, c))
    }

    ghost function Batched(): seq<BatchStep>
      reads this
    {
      ImportSteps(c, policy, View(start, c), done)
    }

    // Holds between records: the cuts and the pending batch are those of the
    // cutting rule.
    ghost predicate Valid()
      reads this, b, store, store.db
    {
      Open() && Cut(Limit(), Batched()) == Cutting(cuts, b.ops)
    }

    lemma ValidIsOpen()
      requires Valid()
      ensures Open() && cuts == FinalCuts(Limit(), Batched(), false)
      ensures FinalCuts(Limit(), Batched(), true) == if b.ops == [] then cuts else cuts + [|done|]
    {
      hide StoreReady, BatchReady, Folded, Tracks;
    }

    constructor (store: Store, c: bytes, policy: Policy, batchSize: nat, batchBytes: nat)
      requires ValidateCollection(store.env.rule, c)
      ensures Valid() && fresh(b) && done == [] && start == store.db.data
      ensures this.store == store && this.c == c && this.policy == policy
      ensures Limit() == Limits(batchSize, batchBytes) && firstCommit == |store.db.commits|
      ensures sound == (store.Valid() && Keyenc.CollectionMetaKey(c) in store.db.data)
    {
      hide View, Sound, Encode;
      this.store, this.c, this.policy := store, c, policy;
      this.batchSize, this.batchBytes := batchSize, batchBytes;
      b := new Batch(store.db, store.env.rule);
      seen := {};
      start, done, cuts, firstCommit := store.db.data, [], [], |store.db.commits|;
      sound := store.Valid() && Keyenc.CollectionMetaKey(c) in store.db.data;
      TracksNothing(store.db.data, c);
    }

    method Flush()
      requires Open()
      modifies this`cuts, this`seen, this`b, b, store.db
      ensures Open() && (b == old(b) || fresh(b))
      ensures b.ops == [] && cuts == if old(b.ops) == [] then old(cuts) else old(cuts) + [|done|]
      ensures View(store.db.data, c) == ImportFold(policy, View(start, c), done)
      ensures old(store.db.commits) <= store.db.commits
    {
      hide View, ImportFold, Sound, ApplyAll, Tracks;
      ImportStatesLast(policy, View(start, c), done);
      if b.count == 0 {
        assert b.ops == [];
        ApplyNothing(store.db.data);
        return;
      }
      CommitBatch();
    }

    method CommitBatch()
      requires Open() && b.count > 0
      modifies this`cuts, this`seen, this`b, b, store.db
      ensures Open() && fresh(b)
      ensures b.ops == [] && cuts == old(cuts) + [|done|]
      ensures Shows(start, store.db.data, c, ImportStates(policy, View(start, c), done)[|done|])
      ensures old(store.db.commits) <= store.db.commits
    {
      hide View, ImportFold, Sound, ApplyAll, Tracks, Shows, Tracked, History, Batch.Valid, IsCoalesced, RepeatsKeys;
      ghost var states := ImportStates(policy, View(start, c), done);
      TrackedFlush(start, store.db.data, store.env, c, b.ops, states, LastCut(cuts));
      HistoryCommit(start, store.db.commits, firstCommit, c, states, cuts, ApplyAll(store.db.data, b.ops));
      b.Commit();
      cuts := cuts + [|done|];
      b := new Batch(store.db, store.env.rule);
      seen := {};
      TracksNothing(store.db.data, c);
    }

    lemma Pending()
      requires Open()
      ensures View(ApplyAll(store.db.data, b.ops), c) == ImportFold(policy, View(start, c), done)
    {
      hide View, ImportFold, ApplyAll;
      ImportStatesLast(policy, View(start, c), done);
    }

    // Whether the key is stored or pending; under Replace nobody asks.
    method IsDuplicate(key: bytes) returns (dup: bool)
      requires Open() && policy != Replace
      ensures dup <==> key in ImportFold(policy, View(start, c), done)
    {
      hide View, ApplyAll, ImportFold, Sound, Folded, Tracks;
      Pending();
      TracksKnown(seen, store.db.data, b.ops, c, key);
      if key in seen {
        return true;
      }
      var found := store.Has(c, key);
      return found.value;
    }

    // What one more record does to the steps and the cuts.
    lemma NextStep(rec: ImportRecord)
      ensures var m := View(start, c);
              var step := ImportStepFor(c, policy, ImportFold(policy, m, done), rec);
              Cut(Limit(), ImportSteps(c, policy, m, done + [rec]))
              == CutNext(Limit(), Cut(Limit(), Batched()), step, |done| + 1)
    {
      hide ImportStepFor, Cut;
      var m := View(start, c);
      ImportStepsSnoc(c, policy, m, done, rec);
      CutSnoc(Limit(), Batched(), ImportStepFor(c, policy, ImportFold(policy, m, done), rec));
    }

    // A duplicate that is ignored changes nothing and is not batched.
    method Skip(rec: ImportRecord)
      requires Valid() && policy == Ignore && rec.key in ImportFold(policy, View(start, c), done)
      modifies this`done
      ensures Valid() && done == old(done) + [rec]
    {
      hide View, ApplyAll, ImportFold, Sound, Shows, Tracked, History, Encode, Cut, Tracks, Batch.Valid;
      ghost var m := View(start, c);
      ghost var last := ImportFold(policy, m, done);
      ImportStatesSnoc(policy, m, done, rec);
      TrackedSkip(start, store.db.data, c, b.ops, ImportStates(policy, m, done), LastCut(cuts));
      HistoryGrows(start, store.db.commits, firstCommit, c, ImportStates(policy, m, done), cuts, last);
      NextStep(rec);
      done := done + [rec];
    }

    method Append(rec: ImportRecord)
      requires Valid()
      requires policy == Replace || rec.key !in ImportFold(policy, View(start, c), done)
      modifies this`done, this`seen, b
      ensures Open() && done == old(done) + [rec] && b.ops == old(b.ops) + [Encode(c, AsPut(rec))]
      ensures Cut(Limit(), Batched())
              == CutNext(Limit(), Cutting(cuts, old(b.ops)), Some(Encode(c, AsPut(rec))), |done|)
    {
      hide View, ApplyAll, ImportFold, Sound, Shows, Tracked, History, Cut, Tracks, CutNext;
      ghost var m := View(start, c);
      ghost var last := ImportFold(policy, m, done);
      ImportStatesSnoc(policy, m, done, rec);
      TrackedPut(start, store.db.data, c, b.ops, ImportStates(policy, m, done), LastCut(cuts), AsPut(rec));
      HistoryGrows(start, store.db.commits, firstCommit, c, ImportStates(policy, m, done), cuts,
                   ImportEffect(policy, last, rec));
      NextStep(rec);
      if policy != Replace {
        TracksPut(seen, store.db.data, b.ops, c, rec);
        seen := seen + {rec.key};
      }
      var _ := b.Put(c, rec.key, rec.value);
      done := done + [rec];
      assert b.ops == old(b.ops) + [Encode(c, AsPut(rec))];
    }

    method Add(rec: ImportRecord) returns (err: Option<ImportFailure>)
      requires Valid()
      modifies this, b, store.db
      ensures Valid() && (b == old(b) || fresh(b))
      ensures err.Some? <==> Refused(policy, ImportFold(policy, View(start, c), old(done)), rec)
      ensures err.Some? ==> err == Some(if rec.key == [] then EmptyKey else DuplicateKey)
      ensures done == if err.None? then old(done) + [rec] else old(done)
      ensures old(store.db.commits) <= store.db.commits
    {
      hide View, ImportFold, Sound, Encode, Folded, Tracks, Cut, ImportSteps;
      if |rec.key| == 0 {
        return Some(EmptyKey);
      }
      if policy != Replace {
        var dup := IsDuplicate(rec.key);
        if dup {
          if policy == Fail {
            return Some(DuplicateKey);
          }
          Skip(rec);
          return None;
        }
      }
      Append(rec);
      if b.Full(batchSize, batchBytes) {
        Flush();
      }
      return None;
    }
  }

  // ---- the whole run ----

  ghost predicate PassingImport(policy: Policy, m: KV, done: seq<ImportRecord>) {
    forall more ::
      ImportAccepted(policy, m, done + more) == done + ImportAccepted(policy, ImportFold(policy, m, done), more)
  }

  lemma PassingImportNil(policy: Policy, m: KV)
    ensures PassingImport(policy, m, [])
  {
    forall more
      ensures ImportAccepted(policy, m, [] + more) == [] + ImportAccepted(policy, ImportFold(policy, m, []), more)
    {
      assert [] + more == more;
    }
  }

  lemma PassingImportSnoc(policy: Policy, m: KV, done: seq<ImportRecord>, rec: ImportRecord)
    requires PassingImport(policy, m, done) && !Refused(policy, ImportFold(policy, m, done), rec)
    ensures PassingImport(policy, m, done + [rec])
  {
    hide ImportAccepted, ImportFold;
    forall more
      ensures ImportAccepted(policy, m, done + [rec] + more)
              == done + [rec] + ImportAccepted(policy, ImportFold(policy, m, done + [rec]), more)
    {
      PassingImportAt(policy, m, done, rec, more);
    }
  }

  lemma PassingImportAt(policy: Policy, m: KV, done: seq<ImportRecord>, rec: ImportRecord, more: seq<ImportRecord>)
    requires PassingImport(policy, m, done) && !Refused(policy, ImportFold(policy, m, done), rec)
    ensures ImportAccepted(policy, m, done + [rec] + more)
            == done + [rec] + ImportAccepted(policy, ImportFold(policy, m, done + [rec]), more)
  {
    hide ImportEffect, Refused, ImportAccepted, ImportFold;
    var m' := ImportFold(policy, m, done);
    calc {
      ImportAccepted(policy, m, done + [rec] + more);
      { Associates(done, [rec], more); }
      ImportAccepted(policy, m, done + ([rec] + more));
      done + ImportAccepted(policy, m', [rec] + more);
      { AcceptCons(policy, m', rec, more); }
      done + ([rec] + ImportAccepted(policy, ImportEffect(policy, m', rec), more));
      { Associates(done, [rec], ImportAccepted(policy, ImportEffect(policy, m', rec), more)); }
      done + [rec] + ImportAccepted(policy, ImportEffect(policy, m', rec), more);
      { ImportFoldSnoc(policy, m, done, rec); }
      done + [rec] + ImportAccepted(policy, ImportFold(policy, m, done + [rec]), more);
    }
  }

  lemma AcceptCons(policy: Policy, m: KV, rec: ImportRecord, more: seq<ImportRecord>)
    requires !Refused(policy, m, rec)
    ensures ImportAccepted(policy, m, [rec] + more)
            == [rec] + ImportAccepted(policy, ImportEffect(policy, m, rec), more)
  {
    assert ([rec] + more)[1..] == more;
  }

  ghost predicate ImportMidway(mode: ImportMode, policy: Policy, m: KV, input: bytes, done: seq<ImportRecord>,
      unread: bytes, line: nat) {
    var whole, rest := ParseImport(mode, input, 0), ParseImport(mode, unread, line);
    whole.records == done + rest.records && whole.error == rest.error && PassingImport(policy, m, done)
  }

  function ImportRunError(s: ImportStream, policy: Policy, m: KV): Option<ImportFailure> {
    var done := ImportAccepted(policy, m, s.records);
    if done != s.records then Some(if s.records[|done|].key == [] then EmptyKey else DuplicateKey)
    else if s.error.Some? then Some(MalformedInput(s.error.value)) else None
  }

  // What an import's outcome is, given the parse of its whole input.
  ghost predicate ImportOutcome(s: ImportStream, policy: Policy, m: KV, err: Option<ImportFailure>,
      done: seq<ImportRecord>) {
    done == ImportAccepted(policy, m, s.records) && err == ImportRunError(s, policy, m)
  }

  lemma ImportMidwayStart(mode: ImportMode, policy: Policy, m: KV, input: bytes)
    ensures ImportMidway(mode, policy, m, input, [], input, 0)
  {
    var whole := ParseImport(mode, input, 0);
    assert whole.records == [] + whole.records;
    PassingImportNil(policy, m);
  }

  lemma ImportMidwayStep(mode: ImportMode, policy: Policy, m: KV, input: bytes, done: seq<ImportRecord>,
      unread: bytes, line: nat, rec: ImportRecord)
    requires ImportMidway(mode, policy, m, input, done, unread, line)
    requires var step := ImportStepOf(mode, unread, line + 1);
             step.ImportItem? && rec == ImportRecord(step.key, step.value, line + 1)
    requires !Refused(policy, ImportFold(policy, m, done), rec)
    ensures ImportMidway(mode, policy, m, input, done + [rec],
                         unread[ImportStepOf(mode, unread, line + 1).used..], line + 1)
  {
    hide ImportStepOf, ImportFold, ImportAccepted, Refused;
    var rest := ParseImport(mode, unread[ImportStepOf(mode, unread, line + 1).used..], line + 1);
    assert done + ([rec] + rest.records) == done + [rec] + rest.records;
    PassingImportSnoc(policy, m, done, rec);
  }

  lemma ImportMidwayEnd(mode: ImportMode, policy: Policy, m: KV, input: bytes, done: seq<ImportRecord>,
      unread: bytes, line: nat, err: Option<ImportFailure>)
    requires ImportMidway(mode, policy, m, input, done, unread, line)
    requires match ImportStepOf(mode, unread, line + 1)
             case ImportEnd => err == None
             case ImportBad(e) => err == Some(MalformedInput(e))
             case ImportItem(key, value, _) =>
               Refused(policy, ImportFold(policy, m, done), ImportRecord(key, value, line + 1))
               && err == Some(if key == [] then EmptyKey else DuplicateKey)
    ensures ImportOutcome(ParseImport(mode, input, 0), policy, m, err, done)
  {
    hide ImportStepOf, ImportFold, Refused;
    var rest := ParseImport(mode, unread, line);
    assert ImportAccepted(policy, m, done + rest.records)
           == done + ImportAccepted(policy, ImportFold(policy, m, done), rest.records);
    assert done + [] == done;
    if ImportStepOf(mode, unread, line + 1).ImportItem? {
      assert (done + rest.records)[|done|] == rest.records[0];
    }
  }

  // Reads and imports record by record, then commits what is pending.
  method ImportRecords(reader: ImportReader, run: ImportRun) returns (err: Option<ImportFailure>)
    requires reader.lines.br.Valid() && reader.lines.line == 0
    requires run.Valid() && run.done == []
    requires {reader, reader.lines, reader.lines.br, reader.lines.br.buf} !! {run, run.b, run.store, run.store.db}
    modifies reader.lines, reader.lines.br, reader.lines.br.buf, run, run.b, run.store.db
    ensures run.Open() && run.cuts == FinalCuts(run.Limit(), run.Batched(), err.None?)
    ensures ImportOutcome(ParseImport(reader.mode, old(reader.lines.br.Remaining()), 0), run.policy,
                          View(run.start, run.c), err, run.done)
    ensures err.None? ==> View(run.store.db.data, run.c) == ImportFold(run.policy, View(run.start, run.c), run.done)
    ensures old(run.store.db.commits) <= run.store.db.commits
  {
    hide ImportStepOf, ImportMidway, View, ImportFold, Reading.BufReader.Remaining, ImportOutcome,
      ImportRun.Valid, ImportRun.Open, FinalCuts, ImportSteps, Refused;
    ghost var mode, input, m := reader.mode, reader.lines.br.Remaining(), View(run.start, run.c);
    ImportMidwayStart(mode, run.policy, m, input);
    while true
      invariant reader.lines.br.Valid() && run.Valid()
      invariant {reader, reader.lines, reader.lines.br, reader.lines.br.buf} !! {run, run.b, run.store, run.store.db}
      invariant fresh({run.b} - {old(run.b)})
      invariant ImportMidway(mode, run.policy, m, input, run.done, reader.lines.br.Remaining(), reader.lines.line)
      invariant old(run.store.db.commits) <= run.store.db.commits
      decreases |reader.lines.br.Remaining()|
    {
      ghost var unread, line := reader.lines.br.Remaining(), reader.lines.line;
      var d := reader.Next();
      match d {
        case ImportDone =>
          ImportMidwayEnd(mode, run.policy, m, input, run.done, unread, line, None);
          break;
        case ImportFailed(e) =>
          ImportMidwayEnd(mode, run.policy, m, input, run.done, unread, line, Some(MalformedInput(e)));
          run.ValidIsOpen();
          return Some(MalformedInput(e));
        case Imported(rec) =>
          ghost var done := run.done;
          err := run.Add(rec);
          if err.Some? {
            ImportMidwayEnd(mode, run.policy, m, input, done, unread, line, err);
            run.ValidIsOpen();
            return;
          }
          ImportMidwayStep(mode, run.policy, m, input, done, unread, line, rec);
      }
    }
    run.ValidIsOpen();
    run.Flush();
    return None;
  }
}
