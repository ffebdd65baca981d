// Applying a stream of puts and deletes: filter, batch, flush, commit.
module Applying {
  import opened Bytes
  import opened Pebble
  import opened Views
  import opened Grammar
  import opened Batches
  import opened Stores
  import opened Folds
  import opened Decoders
  import opened Cutting
  import opened Skipping
  import Reading
  import Keyenc
  import Bloom

  datatype AppError =
    | InvalidExpectedCount
    | Storage(error: StoreError)
    | BadInput(cause: DecodeError)
    | EmptyRecordKey

  class ApplyRun {
    const store: Store
    const c: bytes
    const batchSize: nat
    const batchBytes: nat
    const filter: Bloom.DeleteBloom?
    var b: Batch
    var records: nat
    var puts: nat
    var deletes: nat
    var deletesSkipped: nat
    var batches: nat
    var bytes: nat
    // Where the run began and whether from a sound database, what its filter is,
    // what it has accepted, and after how many records it has committed.
    ghost const start: KV
    ghost const firstCommit: nat
    ghost const sound: bool
    ghost const dropping: Option<Filter>
    ghost var seen: seq<ApplyRecord>
    ghost var cuts: seq<nat>

    function Limit(): Limits {
      Limits(batchSize, batchBytes)
    }

    ghost function FilterParts(): set<object>
    {
      if filter == null then {} else {filter, filter.bits}
    }

    ghost predicate Separate()
      reads this
    {
      store !in FilterParts() && store.db !in FilterParts() && this !in FilterParts() && b !in FilterParts()
    }

    // A database that was sound, with this collection recorded, still is.
    ghost predicate StoreReady()
      reads store, store.db
    {
      ValidateCollection(store.env.rule, c)
      && (sound ==> store.Valid() && Keyenc.CollectionMetaKey(c) in store.db.data)
    }

    ghost predicate BatchReady()
      reads this, b
    {
      b.Valid() && b.ops == b.issued && b.db == store.db && b.rule == store.env.rule
    }

    // The filter holds what was stored at the start and what was put since.
    ghost predicate FilterReady()
      reads this, FilterParts()
    {
      (filter != null) == dropping.Some?
      && (filter != null ==>
            filter.Valid() && dropping.value == Filter(filter.Blocks(), filter.hash, View(start, c).Keys)
            && filter.added == Known(dropping.value.stored, seen))
    }

    // Every accepted record is counted once, as a put, a delete or a skipped delete.
    ghost predicate Counted()
      reads this
    {
      puts == Puts(seen) && records == puts + deletes == |Ops(Steps(c, dropping, seen))|
      && records + deletesSkipped == |seen| && batches == |cuts|
    }

    // Each commit of the run is the fold up to its cut, and the batch leads on
    // to the fold of everything accepted.
    ghost predicate Folded()
      reads this, b, store, store.db
    {
      var states := States(View(start, c), seen);
      Tracked(start, store.db.data, c, b.ops, states, LastCut(cuts))
      && History(start, store.db.commits, firstCommit, c, states, cuts)
    }

    // Holds also just after the record that fills a batch, and after the end.
    ghost predicate Open()
      reads this, b, store, store.db, FilterParts()
    {
      Separate() && StoreReady() && BatchReady() && FilterReady() && Counted() && Folded()
    }

    // Holds between records: the cuts and the pending batch are those of the
    // cutting rule.
    ghost predicate Valid()
      reads this, b, store, store.db, FilterParts()
    {
      Open() && Cut(Limit(), Steps(c, dropping, seen)) == Cutting(cuts, b.ops)
    }

    lemma ValidIsOpen()
      requires Valid()
      ensures Open() && cuts == FinalCuts(Limit(), Steps(c, dropping, seen), false)
      ensures FinalCuts(Limit(), Steps(c, dropping, seen), true) == if b.ops == [] then cuts else cuts + [|seen|]
    {
      hide Separate, StoreReady, BatchReady, FilterReady, Counted, Folded;
    }

    constructor (store: Store, c: bytes, batchSize: nat, batchBytes: nat, filter: Bloom.DeleteBloom?)
      requires ValidateCollection(store.env.rule, c)
      requires filter != null ==> filter.Valid() && filter.added == View(store.db.data, c).Keys
      requires filter != null ==> {store, store.db} !! {filter, filter.bits}
      ensures Valid() && fresh(b) && seen == [] && bytes == 0 && start == store.db.data
      ensures this.store == store && this.c == c && this.filter == filter
      ensures Limit() == Limits(batchSize, batchBytes) && firstCommit == |store.db.commits|
      ensures sound == (store.Valid() && Keyenc.CollectionMetaKey(c) in store.db.data)
      ensures dropping == if filter == null then None
                          else Some(Filter(filter.Blocks(), filter.hash, View(store.db.data, c).Keys))
    {
      hide View, Sound, Encode, Bloom.Exact;
      this.store, this.c, this.filter := store, c, filter;
      this.batchSize, this.batchBytes := batchSize, batchBytes;
      b := new Batch(store.db, store.env.rule);
      records, puts, deletes, deletesSkipped, batches, bytes := 0, 0, 0, 0, 0, 0;
      start, seen, cuts, firstCommit := store.db.data, [], [], |store.db.commits|;
      sound := store.Valid() && Keyenc.CollectionMetaKey(c) in store.db.data;
      dropping := if filter == null then None
                  else Some(Filter(filter.Blocks(), filter.hash, View(store.db.data, c).Keys));
    }

    // Commits the pending batch, if there is one, and starts a new one.
    method Flush()
      requires Open()
      modifies this, b, store.db
      ensures Open() && (b == old(b) || fresh(b))
      ensures seen == old(seen) && bytes == old(bytes)
      ensures b.ops == [] && cuts == if old(b.ops) == [] then old(cuts) else old(cuts) + [|seen|]
      ensures View(store.db.data, c) == Fold(View(start, c), seen)
      ensures old(store.db.commits) <= store.db.commits
    {
      hide View, Fold, Sound, ApplyAll, Puts, FilterReady;
      StatesLast(View(start, c), seen);
      if b.count == 0 {
        assert b.ops == [];
        ApplyNothing(store.db.data);
        return;
      }
      CommitBatch();
    }

    method CommitBatch()
      requires Open() && b.count > 0
      modifies this`batches, this`cuts, this`b, b, store.db
      ensures Open() && fresh(b)
      ensures b.ops == [] && cuts == old(cuts) + [|seen|]
      ensures Shows(start, store.db.data, c, States(View(start, c), seen)[|seen|])
      ensures old(store.db.commits) <= store.db.commits
    {
      hide View, Fold, Sound, ApplyAll, Puts, Shows, Tracked, History, Steps, Ops, Batch.Valid, Known,
        Bloom.DeleteBloom.Valid, IsCoalesced, RepeatsKeys;
      ghost var states := States(View(start, c), seen);
      TrackedFlush(start, store.db.data, store.env, c, b.ops, states, LastCut(cuts));
      HistoryCommit(start, store.db.commits, firstCommit, c, states, cuts, ApplyAll(store.db.data, b.ops));
      b.Commit();
      batches := batches + 1;
      cuts := cuts + [|seen|];
      b := new Batch(store.db, store.env.rule);
    }

    // A delete of a key the filter does not let through changes nothing and is
    // not batched.
    method Skip(rec: ApplyRecord)
      requires Valid() && Dropped(dropping, seen, rec)
      modifies this`deletesSkipped, this`seen
      ensures Valid() && seen == old(seen) + [rec]
    {
      hide View, ApplyAll, Sound, Puts, Fold, Shows, Tracked, History, Encode, Bloom.Passes, Cut, Ops, Batch.Valid,
        Bloom.DeleteBloom.Valid;
      ghost var m := View(start, c);
      DroppedIsNothing(m, dropping.value, seen, rec);
      StatesSnoc(m, seen, rec);
      TrackedSkip(start, store.db.data, c, b.ops, States(m, seen), LastCut(cuts));
      HistoryGrows(start, store.db.commits, firstCommit, c, States(m, seen), cuts, Fold(m, seen));
      NextStep(rec);
      deletesSkipped := deletesSkipped + 1;
      seen := seen + [rec];
    }

    // What one more record does to the steps, the cuts and the counters.
    lemma NextStep(rec: ApplyRecord)
      ensures var step := StepFor(c, dropping, seen, rec);
              var steps, more := Steps(c, dropping, seen), Steps(c, dropping, seen + [rec]);
              Cut(Limit(), more) == CutNext(Limit(), Cut(Limit(), steps), step, |seen| + 1)
              && |Ops(more)| == |Ops(steps)| + (if step.None? then 0 else 1)
      ensures Puts(seen + [rec]) == Puts(seen) + if rec.delete then 0 else 1
      ensures Dropped(dropping, seen, rec) ==> rec.delete
      ensures PutKeys(seen + [rec]) == if rec.delete then PutKeys(seen) else PutKeys(seen) + {rec.key}
    {
      hide StepFor, Cut, Ops;
      StepsSnoc(c, dropping, seen, rec);
      CutSnoc(Limit(), Steps(c, dropping, seen), StepFor(c, dropping, seen, rec));
      OpsSnoc(Steps(c, dropping, seen), StepFor(c, dropping, seen, rec));
      PutsSnoc(seen, rec);
      PutKeysSnoc(seen, rec);
    }

    // Adds one operation to the batch; a put's key is added to the filter first.
    method Enqueue(rec: ApplyRecord)
      requires Separate() && BatchReady() && ValidateCollection(store.env.rule, c)
      requires filter != null ==> filter.Valid()
      modifies b, FilterParts()
      ensures b.Valid() && b.ops == b.issued == old(b.ops) + [Encode(c, rec)]
      ensures filter != null ==>
                filter.Valid()
                && filter.added == if rec.delete then old(filter.added) else old(filter.added) + {rec.key}
    {
      if rec.delete {
        var _ := b.Delete(c, rec.key);
      } else {
        if filter != null {
          filter.Add(rec.key);
        }
        var _ := b.Put(c, rec.key, rec.value);
      }
    }

    method Append(rec: ApplyRecord)
      requires Valid() && !Dropped(dropping, seen, rec)
      modifies this`records, this`puts, this`deletes, this`seen, b, FilterParts()
      ensures Open() && seen == old(seen) + [rec] && b.ops == old(b.ops) + [Encode(c, rec)]
      ensures Cut(Limit(), Steps(c, dropping, seen))
              == CutNext(Limit(), Cutting(cuts, old(b.ops)), Some(Encode(c, rec)), |seen|)
    {
      hide View, ApplyAll, Sound, Puts, Fold, Shows, Tracked, History, Encode, Dropped, Cut, Ops, Batch.Valid,
        Bloom.DeleteBloom.Valid, CutNext, Steps, PutKeys, States, Effect;
      ghost var m := View(start, c);
      StatesSnoc(m, seen, rec);
      TrackedPut(start, store.db.data, c, b.ops, States(m, seen), LastCut(cuts), rec);
      HistoryGrows(start, store.db.commits, firstCommit, c, States(m, seen), cuts, Effect(Fold(m, seen), rec));
      NextStep(rec);
      Enqueue(rec);
      if rec.delete {
        deletes := deletes + 1;
      } else {
        puts := puts + 1;
      }
      records := records + 1;
      seen := seen + [rec];
    }

    // One record of the stream. Only an empty key is refused.
    method Add(rec: ApplyRecord) returns (err: Option<AppError>)
      requires Valid()
      modifies this, b, store.db, FilterParts()
      ensures Valid() && (b == old(b) || fresh(b))
      ensures err == if rec.key == [] then Some(EmptyRecordKey) else None
      ensures seen == if err.None? then old(seen) + [rec] else old(seen)
      ensures bytes == rec.bytes
      ensures old(store.db.commits) <= store.db.commits
    {
      hide View, Sound, Encode, Puts, Fold, Shows, Tracked, History, Cut, Ops, Bloom.Passes, Steps, Known;
      bytes := rec.bytes;
      if |rec.key| == 0 {
        return Some(EmptyRecordKey);
      }
      if rec.delete && filter != null {
        var may := filter.MayContain(rec.key);
        if !may {
          Skip(rec);
          return None;
        }
      }
      Append(rec);
      if b.Full(batchSize, batchBytes) {
        Flush();
      }
      return None;
    }
  }

  // ---- the whole run ----

  // Where the loop stands: `seen` records were accepted, the rest is unread.
  ghost predicate Midway(f: Format, input: bytes, seen: seq<ApplyRecord>, unread: bytes, line: nat, total: nat) {
    var whole, rest := ParseStream(f, input, 0, 0), ParseStream(f, unread, line, total);
    whole.records == seen + rest.records && whole.error == rest.error && Accepted(seen) == seen
    && Passing(seen) && total + |unread| == |input|
  }

  lemma MidwayStart(f: Format, input: bytes)
    ensures Midway(f, input, [], input, 0, 0)
  {
    var whole := ParseStream(f, input, 0, 0);
    assert whole.records == [] + whole.records;
    PassingNil();
  }

  // Records with keys do not keep what follows them from being accepted.
  ghost predicate Passing(seen: seq<ApplyRecord>) {
    forall more :: Accepted(seen + more) == seen + Accepted(more)
  }

  lemma PassingNil()
    ensures Passing([])
  {
    forall more ensures Accepted([] + more) == [] + Accepted(more) {
      assert [] + more == more;
    }
  }

  lemma PassingSnoc(seen: seq<ApplyRecord>, rec: ApplyRecord)
    requires Passing(seen) && rec.key != []
    ensures Passing(seen + [rec])
  {
    hide Accepted;
    forall more ensures Accepted(seen + [rec] + more) == seen + [rec] + Accepted(more) {
      calc {
        Accepted(seen + [rec] + more);
        { Associates(seen, [rec], more); }
        Accepted(seen + ([rec] + more));
        seen + Accepted([rec] + more);
        { AcceptCons(rec, more); }
        seen + ([rec] + Accepted(more));
        { Associates(seen, [rec], Accepted(more)); }
        seen + [rec] + Accepted(more);
      }
    }
  }

  lemma AcceptCons(rec: ApplyRecord, more: seq<ApplyRecord>)
    requires rec.key != []
    ensures Accepted([rec] + more) == [rec] + Accepted(more)
  {
    assert ([rec] + more)[1..] == more;
  }

  lemma MidwayStep(f: Format, input: bytes, seen: seq<ApplyRecord>, unread: bytes, line: nat, total: nat,
      rec: ApplyRecord)
    requires Midway(f, input, seen, unread, line, total)
    requires StepOf(f, unread).Item? && rec.key != []
    requires var step := StepOf(f, unread);
             rec == ApplyRecord(step.delete, step.key, step.value, line + 1, total + step.used)
    ensures Midway(f, input, seen + [rec], unread[StepOf(f, unread).used..], line + 1, rec.bytes)
    ensures rec.bytes <= |input|
  {
    hide StepOf;
    var rest := ParseStream(f, unread[StepOf(f, unread).used..], line + 1, rec.bytes);
    assert seen + ([rec] + rest.records) == seen + [rec] + rest.records;
    PassingSnoc(seen, rec);
    assert Accepted(seen + [rec] + []) == seen + [rec] + Accepted([]);
    assert seen + [rec] + [] == seen + [rec];
  }

  function RunError(s: Stream): Option<AppError> {
    if Accepted(s.records) != s.records then Some(EmptyRecordKey)
    else if s.error.Some? then Some(BadInput(s.error.value)) else None
  }

  // What a run's outcome is, given the parse of its whole input.
  ghost predicate Outcome(s: Stream, err: Option<AppError>, seen: seq<ApplyRecord>) {
    seen == Accepted(s.records) && err == RunError(s)
  }

  // The byte total of a run: up to the last record accepted, or the one refused
  // for its key.
  function BytesRead(s: Stream, err: Option<AppError>, seen: seq<ApplyRecord>): nat {
    if err == Some(EmptyRecordKey) && |seen| < |s.records| then s.records[|seen|].bytes else LastTotal(seen, 0)
  }

  // The record delivered next is the one the parse has after those accepted.
  lemma MidwayNext(f: Format, input: bytes, seen: seq<ApplyRecord>, unread: bytes, line: nat, total: nat,
      rec: ApplyRecord)
    requires Midway(f, input, seen, unread, line, total) && Grammar.StepOf(f, unread).Item?
    requires var step := Grammar.StepOf(f, unread);
             rec == ApplyRecord(step.delete, step.key, step.value, line + 1, total + step.used)
    ensures var s := ParseStream(f, input, 0, 0); |seen| < |s.records| && s.records[|seen|] == rec
  {
    hide Grammar.StepOf;
    var rest := ParseStream(f, unread, line, total);
    assert rest.records[0] == rec;
  }

  lemma MidwayEnd(f: Format, input: bytes, seen: seq<ApplyRecord>, unread: bytes, line: nat, total: nat,
      err: Option<AppError>)
    requires Midway(f, input, seen, unread, line, total)
    requires match StepOf(f, unread)
             case End => err == None
             case Bad(e) => err == Some(BadInput(e))
             case Item(_, key, _, _) => key == [] && err == Some(EmptyRecordKey)
    ensures Outcome(ParseStream(f, input, 0, 0), err, seen)
    ensures err.None? ==> total == |input|
  {
    hide StepOf;
    var rest := ParseStream(f, unread, line, total);
    assert Accepted(seen + rest.records) == seen + Accepted(rest.records);
    if StepOf(f, unread).Item? {
      assert rest.records[0].key == [];
      assert seen + rest.records != seen;
    } else {
      assert seen + rest.records == seen;
    }
  }

  // Reads the stream record by record and applies it. On success everything is
  // committed; on failure what the cutting rule had committed by then.
  method ApplyRecords(reader: ApplyReader, run: ApplyRun) returns (err: Option<AppError>)
    requires reader.Valid() && reader.line == 0 && reader.total == 0
    requires run.Valid() && run.seen == [] && run.bytes == 0
    requires {reader, reader.br, reader.br.buf, reader.keyBuf, reader.valueBuf}
             !! {run, run.b, run.store, run.store.db} + run.FilterParts()
    modifies reader, reader.br, reader.br.buf, reader.keyBuf, reader.valueBuf
    modifies run, run.b, run.store.db, run.FilterParts()
    ensures run.Open() && run.cuts == FinalCuts(run.Limit(), Steps(run.c, run.dropping, run.seen), err.None?)
    ensures Outcome(ParseStream(reader.format, old(reader.br.Remaining()), 0, 0), err, run.seen)
    ensures err.None? ==> View(run.store.db.data, run.c) == Fold(View(run.start, run.c), run.seen)
    ensures run.bytes == BytesRead(ParseStream(reader.format, old(reader.br.Remaining()), 0, 0), err, run.seen)
    ensures old(run.store.db.commits) <= run.store.db.commits
  {
    hide Grammar.StepOf, ParseStream, Midway, View, Fold, Reading.BufReader.Remaining, Outcome, ApplyRun.Valid,
      ApplyRun.Open, FinalCuts, Steps;
    ghost var f, input := reader.format, reader.br.Remaining();
    MidwayStart(f, input);
    while true
      invariant reader.Valid() && run.Valid()
      invariant {reader, reader.br, reader.br.buf, reader.keyBuf, reader.valueBuf}
                !! {run, run.b, run.store, run.store.db} + run.FilterParts()
      invariant fresh({run.b} - {old(run.b)})
      invariant Midway(f, input, run.seen, reader.br.Remaining(), reader.line, reader.total)
      invariant run.bytes == LastTotal(run.seen, 0)
      invariant reader.total <= |input|
      invariant old(run.store.db.commits) <= run.store.db.commits
      decreases |input| - reader.total
    {
      ghost var unread, line, total := reader.br.Remaining(), reader.line, reader.total;
      var d := reader.Next();
      match d {
        case Done =>
          MidwayEnd(f, input, run.seen, unread, line, total, None);
          break;
        case Failed(e) =>
          MidwayEnd(f, input, run.seen, unread, line, total, Some(BadInput(e)));
          run.ValidIsOpen();
          return Some(BadInput(e));
        case Delivered(rec) =>
          ghost var seen := run.seen;
          MidwayNext(f, input, seen, unread, line, total, rec);
          err := run.Add(rec);
          if err.Some? {
            MidwayEnd(f, input, seen, unread, line, total, err);
            run.ValidIsOpen();
            return;
          }
          MidwayStep(f, input, seen, unread, line, total, rec);
      }
    }
    run.ValidIsOpen();
    run.Flush();
    return None;
  }
}
