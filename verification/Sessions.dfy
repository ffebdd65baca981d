// Whole sessions of commands, which never leave a database that cannot be opened
// again or that holds an empty key.
module Sessions {
  import opened Bytes
  import opened Pebble
  import opened Views
  import opened Grammar
  import opened Batches
  import opened Stores
  import opened Folds
  import opened Cutting
  import opened Skipping
  import opened Lines
  import opened ImportFolds
  import opened Exporting
  import opened Applying
  import opened Importing
  import opened Commands
  import Keyenc
  import Bloom

  datatype Command =
    | InitCommand
    | PutCommand(c: bytes, key: bytes, value: bytes)
    | DeleteCommand(c: bytes, key: bytes)
    | DropCommand(c: bytes)
    | ApplyCommand(c: bytes, applyOptions: ApplyOptions)
    | ImportCommand(c: bytes, importOptions: ImportOptions)

  // One invocation: the command, its input, the time, the JSON entry that records
  // a new collection, the hash its filter drew, and how many of the latest
  // commits do not survive it, because it stopped early or was not synced.
  datatype Invocation = Invocation(command: Command, input: bytes, now: bytes, meta: bytes, hash: Bloom.Hash, lost: nat)

  // What the command line lets through.
  predicate WellFormed(env: Env, i: Invocation) {
    env.isTimestamp(i.now)
    && match i.command
       case ApplyCommand(c, o) => ValidateCollection(env.rule, c) && Positive(o.limits)
       case ImportCommand(c, o) => ValidateCollection(env.rule, c) && Positive(o.limits)
       case PutCommand(_, key, _) => key != []
       case DeleteCommand(_, key) => key != []
       case _ => true
  }

  // Only del and drop insist that the database exists.
  predicate MustExist(c: Command) {
    c.DeleteCommand? || c.DropCommand?
  }

  // ---- no empty keys ----

  // No collection holds an empty key, so export and restore never meets one.
  ghost predicate Keyed(data: KV) {
    forall c :: [] !in View(data, c)
  }

  ghost predicate AllKeyed(commits: seq<KV>) {
    forall i :: 0 <= i < |commits| ==> Keyed(commits[i])
  }

  lemma EnsureKeyed(data: KV, c: bytes, now: bytes, meta: bytes)
    requires Keyed(data)
    ensures Keyed(InitData(data, now)) && Keyed(EnsureData(data, c, now, meta))
    ensures AllKeyed(EnsureHistory(data, c, now, meta))
  {
    hide View, EnsureData, InitData, EnsureHistory;
    InitKeepsViews(data, now);
    EnsureKeepsAllViews(data, c, now, meta);
    EnsureHistoryKeepsViews(data, c, now, meta);
  }

  // A change inside one collection that leaves it without an empty key.
  lemma ShowsKeyed(start: KV, data: KV, c: bytes, m: KV)
    requires Keyed(start) && Shows(start, data, c, m) && [] !in m
    ensures Keyed(data)
  {
    hide View, Outside;
    forall c' ensures [] !in View(data, c') {
      if c' != c {
        OutsideKeepsViews(data, start, c, c');
      }
    }
  }

  lemma PutKeyed(data: KV, c: bytes, key: bytes, value: bytes)
    requires Keyed(data) && key != []
    ensures Keyed(data[Keyenc.DataKey(c, key) := value])
  {
    hide View, Outside;
    ViewSet(data, c, key, value);
    ShowsKeyed(data, data[Keyenc.DataKey(c, key) := value], c, View(data, c)[key := value]);
  }

  lemma DeleteKeyed(data: KV, c: bytes, key: bytes)
    requires Keyed(data)
    ensures Keyed(data - {Keyenc.DataKey(c, key)})
  {
    hide View, Outside;
    ViewDelete(data, c, key);
    ShowsKeyed(data, data - {Keyenc.DataKey(c, key)}, c, View(data, c) - {key});
  }

  lemma DropKeyed(data: KV, c: bytes)
    requires Keyed(data)
    ensures Keyed(DropData(data, c))
  {
    hide View, DropData;
    forall c' ensures [] !in View(DropData(data, c), c') {
      DropRemovesOnly(data, c, c');
    }
  }

  lemma HistoryKeyed(start: KV, commits: seq<KV>, from: nat, c: bytes, states: seq<KV>, cuts: seq<nat>)
    requires Keyed(start) && History(start, commits, from, c, states, cuts) && AllKeyed(commits[..from])
    requires forall n :: 0 <= n < |states| ==> [] !in states[n]
    ensures AllKeyed(commits)
  {
    hide Keyed, Shows;
    forall i | 0 <= i < |commits| ensures Keyed(commits[i]) {
      if i < from {
        assert commits[..from][i] == commits[i];
      } else {
        ShowsKeyed(start, commits[from + (i - from)], c, states[cuts[i - from]]);
      }
    }
  }

  lemma ApplyKeyed(start: KV, commits: seq<KV>, from: nat, c: bytes, o: ApplyOptions, hash: Bloom.Hash,
      input: bytes, finished: bool)
    requires ValidExpected(o) && ApplyHistory(start, commits, from, c, o, hash, input, finished)
    requires Keyed(start) && from <= |commits| && AllKeyed(commits[..from])
    ensures AllKeyed(commits)
  {
    hide View, ParseStream, Accepted, Fold, Steps, FinalCuts, FilterOf, History, AllKeyed;
    var before, accepted := View(start, c), Accepted(ParseStream(o.format, input, 0, 0).records);
    var cuts := FinalCuts(o.limits, Steps(c, FilterOf(o, hash, before), accepted), finished);
    AcceptedKeys(ParseStream(o.format, input, 0, 0).records);
    forall n | 0 <= n <= |accepted| ensures [] !in Fold(before, accepted[..n]) {
      FoldKeyed(before, accepted[..n]);
    }
    HistoryKeyed(start, commits, from, c, States(before, accepted), cuts);
  }

  lemma ImportKeyed(start: KV, commits: seq<KV>, from: nat, c: bytes, o: ImportOptions, input: bytes, finished: bool)
    requires ImportHistory(start, commits, from, c, o, input, finished)
    requires Keyed(start) && from <= |commits| && AllKeyed(commits[..from])
    ensures AllKeyed(commits)
  {
    hide View, ParseImport, ImportAccepted, ImportFold, ImportSteps, FinalCuts, History, AllKeyed;
    var before := View(start, c);
    var accepted := ImportAccepted(o.policy, before, ParseImport(o.mode, input, 0).records);
    ImportAcceptedKeys(o.policy, before, ParseImport(o.mode, input, 0).records);
    forall n | 0 <= n <= |accepted| ensures [] !in ImportFold(o.policy, before, accepted[..n]) {
      ImportFoldKeyed(o.policy, before, accepted[..n]);
    }
    HistoryKeyed(start, commits, from, c, ImportStates(o.policy, before, accepted),
                 FinalCuts(o.limits, ImportSteps(c, o.policy, before, accepted), finished));
  }

  lemma AllKeyedJoin(s: seq<KV>, t: seq<KV>)
    ensures AllKeyed(s) && AllKeyed(t) <==> AllKeyed(s + t)
  {
    hide Keyed;
    if AllKeyed(s + t) {
      assert forall i :: 0 <= i < |s| ==> (s + t)[i] == s[i];
      assert forall i :: 0 <= i < |t| ==> (s + t)[|s| + i] == t[i];
    }
  }

  // ---- what commands do ----

  datatype Report =
    | NotRun
    | Stored(error: Option<StoreError>)
    | Applied(failure: Option<AppError>, stats: ApplyStats)
    | Imported(refusal: Option<ImportFailure>)

  predicate Recorded(data: KV, c: bytes) {
    Keyenc.CollectionMetaKey(c) in data
  }

  // One collection becomes m, recorded or not; all others are as they were.
  ghost predicate Becomes(before: KV, after: KV, c: bytes, m: KV, recorded: bool) {
    View(after, c) == m && (Recorded(after, c) <==> recorded) && OthersSame(before, after, c)
  }

  ghost predicate OthersSame(before: KV, after: KV, c: bytes) {
    forall c' :: c' != c ==> View(after, c') == View(before, c') && (Recorded(after, c') <==> Recorded(before, c'))
  }

  ghost predicate SameRecorded(before: KV, after: KV) {
    forall c :: Recorded(after, c) <==> Recorded(before, c)
  }

  // What one command leaves and reports, in terms of what it found.
  ghost predicate Does(env: Env, i: Invocation, before: KV, after: KV, report: Report)
    requires WellFormed(env, i)
  {
    match i.command
    case InitCommand =>
      report == Stored(if before == map[] then None else Some(AlreadyInitialized))
      && (if before == map[] then SameViews(after, before) && SameRecorded(before, after) && after != map[]
          else after == before)
    case PutCommand(c, key, value) =>
      if ValidateCollection(env.rule, c) then
        report == Stored(None) && Becomes(before, after, c, View(before, c)[key := value], true)
      else report == Stored(Some(InvalidName)) && after == before
    case DeleteCommand(c, key) =>
      if ValidateCollection(env.rule, c) then
        report == Stored(None) && Becomes(before, after, c, View(before, c) - {key}, Recorded(before, c))
      else report == Stored(Some(InvalidName)) && after == before
    case DropCommand(c) =>
      if ValidateCollection(env.rule, c) then report == Stored(None) && Becomes(before, after, c, map[], false)
      else report == Stored(Some(InvalidName)) && after == before
    case ApplyCommand(c, o) =>
      report.Applied?
      && if ValidExpected(o) then
           ApplyResult(View(before, c), after, c, o, i.hash, i.input, report.failure, report.stats)
           && Becomes(before, after, c, View(after, c), true)
         else report.failure == Some(InvalidExpectedCount) && after == before
    case ImportCommand(c, o) =>
      report.Imported? && ImportResult(View(before, c), after, c, o, i.input, report.refusal)
      && Becomes(before, after, c, View(after, c), true)
  }

  // The commits it makes on the way.
  ghost predicate Commits(i: Invocation, before: KV, after: KV, old_: seq<KV>, commits: seq<KV>, report: Report) {
    match i.command
    case InitCommand => commits == old_ + if report == Stored(None) then [after] else []
    case PutCommand(c, _, _) =>
      commits == old_ + if report == Stored(None) then EnsureHistory(before, c, i.now, i.meta) + [after] else []
    case DeleteCommand(_, _) => commits == old_ + if report == Stored(None) then [after] else []
    case DropCommand(_) => commits == old_ + if report == Stored(None) then [after] else []
    case ApplyCommand(c, o) =>
      report.Applied?
      && if ValidExpected(o) then
           var first := old_ + EnsureHistory(before, c, i.now, i.meta);
           first <= commits
           && ApplyHistory(EnsureData(before, c, i.now, i.meta), commits, |first|, c, o, i.hash, i.input,
                           report.failure.None?)
         else commits == old_
    case ImportCommand(c, o) =>
      report.Imported?
      && var first := old_ + EnsureHistory(before, c, i.now, i.meta);
         first <= commits
         && ImportHistory(EnsureData(before, c, i.now, i.meta), commits, |first|, c, o, i.input,
                          report.refusal.None?)
  }

  lemma EnsureBecomes(data: KV, c: bytes, now: bytes, meta: bytes)
    ensures Becomes(data, EnsureData(data, c, now, meta), c, View(data, c), true)
  {
    hide View, Keyenc.CollectionMetaKey;
    EnsureKeepsAllViews(data, c, now, meta);
    forall c' ensures Recorded(EnsureData(data, c, now, meta), c') <==> c' == c || Recorded(data, c') {
      MetadataKeysDistinct(c, c');
      MetadataKeysDistinct(c', c);
    }
  }

  // A change inside one collection leaves all others and all entries.
  lemma ConfinedBecomes(before: KV, after: KV, c: bytes)
    requires Outside(after, c) == Outside(before, c)
    ensures Becomes(before, after, c, View(after, c), Recorded(before, c))
  {
    hide View, Outside;
    forall c' ensures Recorded(after, c') <==> Recorded(before, c') {
      EntryIsOutside(before, c, c');
      EntryIsOutside(after, c, c');
    }
    forall c' | c' != c ensures View(after, c') == View(before, c') {
      OutsideKeepsViews(after, before, c, c');
    }
  }

  lemma EntryIsOutside(data: KV, c: bytes, c': bytes)
    ensures Recorded(data, c') <==> Recorded(Outside(data, c), c')
  {
    MetadataIsOutside(c, Keyenc.Ascii("collection/") + c');
  }

  lemma BecomesTwice(a: KV, b: KV, d: KV, c: bytes, m: KV, n: KV, recorded: bool, recorded': bool)
    requires Becomes(a, b, c, m, recorded) && Becomes(b, d, c, n, recorded')
    ensures Becomes(a, d, c, n, recorded')
  {
    hide View, Recorded;
  }

  lemma PutBecomes(before: KV, c: bytes, key: bytes, value: bytes, now: bytes, meta: bytes)
    ensures Becomes(before, EnsureData(before, c, now, meta)[Keyenc.DataKey(c, key) := value], c,
                    View(before, c)[key := value], true)
  {
    hide View, Outside, EnsureData, Recorded;
    var start := EnsureData(before, c, now, meta);
    EnsureBecomes(before, c, now, meta);
    ViewSet(start, c, key, value);
    ConfinedBecomes(start, start[Keyenc.DataKey(c, key) := value], c);
    BecomesTwice(before, start, start[Keyenc.DataKey(c, key) := value], c, View(before, c),
                 View(before, c)[key := value], true, true);
  }

  lemma DeleteBecomes(before: KV, c: bytes, key: bytes)
    ensures Becomes(before, before - {Keyenc.DataKey(c, key)}, c, View(before, c) - {key}, Recorded(before, c))
  {
    hide View, Outside, Recorded;
    ViewDelete(before, c, key);
    ConfinedBecomes(before, before - {Keyenc.DataKey(c, key)}, c);
  }

  lemma DropBecomes(before: KV, c: bytes)
    ensures Becomes(before, DropData(before, c), c, map[], false)
  {
    hide View, DropData, Keyenc.CollectionMetaKey;
    forall c'
      ensures View(DropData(before, c), c') == if c' == c then map[] else View(before, c')
      ensures Recorded(DropData(before, c), c') <==> c' != c && Recorded(before, c')
    {
      DropRemovesOnly(before, c, c');
    }
  }

  lemma StreamBecomes(before: KV, after: KV, c: bytes, now: bytes, meta: bytes)
    requires Outside(after, c) == Outside(EnsureData(before, c, now, meta), c)
    ensures Becomes(before, after, c, View(after, c), true)
  {
    hide View, Outside, EnsureData, Recorded;
    var start := EnsureData(before, c, now, meta);
    EnsureBecomes(before, c, now, meta);
    ConfinedBecomes(start, after, c);
    BecomesTwice(before, start, after, c, View(before, c), View(after, c), true, true);
  }

  lemma InitDoes(data: KV, env: Env, now: bytes)
    requires Sound(data, env)
    ensures InitError(data) == if data == map[] then None else Some(AlreadyInitialized)
    ensures data != map[] ==> InitData(data, now) == data
    ensures SameViews(InitData(data, now), data) && SameRecorded(data, InitData(data, now))
    ensures InitData(data, now) != map[]
  {
    hide View;
    InitKeepsViews(data, now);
    forall c ensures Recorded(InitData(data, now), c) <==> Recorded(data, c) {
      MetadataKeysDistinct(c, c);
    }
  }

  // ---- one command ----

  // The database holds its latest commit, and after every commit it was sound and
  // held no empty key.
  ghost predicate AlwaysSound(db: Db, env: Env)
    reads db
  {
    db.Logged() && AllKeyed(db.commits)
    && Sound(db.data, env) && forall i :: 0 <= i < |db.commits| ==> Sound(db.commits[i], env)
  }

  // One process: it opens the database, runs one command, and closes it. Only del
  // and drop are refused, and only where there is no database.
  method Invoke(db: Db, env: Env, i: Invocation) returns (refusal: Option<StoreError>, report: Report)
    requires WellFormed(env, i) && AlwaysSound(db, env)
    modifies db
    ensures AlwaysSound(db, env) && old(db.commits) <= db.commits
    ensures refusal == if (i.command.DeleteCommand? || i.command.DropCommand?) && old(db.data) == map[]
                       then Some(Uninitialized) else None
    ensures refusal.Some? ==> report == NotRun && db.data == old(db.data) && db.commits == old(db.commits)
    ensures refusal.None? ==>
              Does(env, i, old(db.data), db.data, report)
              && Commits(i, old(db.data), db.data, old(db.commits), db.commits, report)
  {
    hide Sound, AllKeyed, Does, Commits;
    var s;
    refusal, s := Open(db, env, MustExist(i.command));
    SoundReopens(db.data, env);
    if refusal.Some? {
      return refusal, NotRun;
    }
    report := Run(s, i);
  }

  method Run(s: Store, i: Invocation) returns (report: Report)
    requires WellFormed(s.env, i) && s.Valid() && AllKeyed(s.db.commits)
    modifies s.db
    ensures s.Valid() && AllKeyed(s.db.commits) && old(s.db.commits) <= s.db.commits
    ensures Does(s.env, i, old(s.db.data), s.db.data, report)
    ensures Commits(i, old(s.db.data), s.db.data, old(s.db.commits), s.db.commits, report)
  {
    hide Sound, View, EnsureData, EnsureHistory, InitData, InitError, DropData, AllKeyed, Keyed, Becomes, SameViews,
      SameRecorded, Recorded, ApplyResult, ApplyHistory, ImportResult, ImportHistory;
    match i.command {
      case InitCommand => report := RunInit(s, i);
      case PutCommand(c, key, value) => report := RunPut(s, i);
      case DeleteCommand(c, key) => report := RunDelete(s, i);
      case DropCommand(c) => report := RunDrop(s, i);
      case ApplyCommand(c, o) => report := RunApplyCommand(s, i);
      case ImportCommand(c, o) => report := RunImportCommand(s, i);
    }
  }

  lemma LastKeyed(commits: seq<KV>)
    requires commits != [] && AllKeyed(commits)
    ensures Keyed(commits[|commits| - 1])
  {
    hide Keyed;
  }

  lemma OneMore(commits: seq<KV>, data: KV)
    requires AllKeyed(commits) && Keyed(data)
    ensures AllKeyed(commits + [data]) && AllKeyed(commits + [])
  {
    hide Keyed;
  }

  method RunInit(s: Store, i: Invocation) returns (report: Report)
    requires WellFormed(s.env, i) && i.command.InitCommand? && s.Valid() && AllKeyed(s.db.commits)
    modifies s.db
    ensures s.Valid() && AllKeyed(s.db.commits) && old(s.db.commits) <= s.db.commits
    ensures Does(s.env, i, old(s.db.data), s.db.data, report)
    ensures Commits(i, old(s.db.data), s.db.data, old(s.db.commits), s.db.commits, report)
  {
    hide Sound, View, InitData, InitError, EnsureData, EnsureHistory, AllKeyed, Keyed, SameViews, SameRecorded;
    LastKeyed(s.db.commits);
    EnsureKeyed(s.db.data, [], i.now, i.meta);
    InitDoes(s.db.data, s.env, i.now);
    OneMore(s.db.commits, InitData(s.db.data, i.now));
    var err := s.Init(i.now);
    return Stored(err);
  }

  method RunPut(s: Store, i: Invocation) returns (report: Report)
    requires WellFormed(s.env, i) && i.command.PutCommand? && s.Valid() && AllKeyed(s.db.commits)
    modifies s.db
    ensures s.Valid() && AllKeyed(s.db.commits) && old(s.db.commits) <= s.db.commits
    ensures Does(s.env, i, old(s.db.data), s.db.data, report)
    ensures Commits(i, old(s.db.data), s.db.data, old(s.db.commits), s.db.commits, report)
  {
    hide Sound, View, EnsureData, EnsureHistory, AllKeyed, Keyed, Becomes, Recorded, InitError;
    var PutCommand(c, key, value) := i.command;
    ghost var start := s.db.data;
    LastKeyed(s.db.commits);
    EnsureKeyed(start, c, i.now, i.meta);
    PutKeyed(EnsureData(start, c, i.now, i.meta), c, key, value);
    PutBecomes(start, c, key, value, i.now, i.meta);
    SoundVersion(start, s.env);
    var err := s.Put(c, key, value, i.now, i.meta);
    if err.None? {
      OneMore(EnsureHistory(start, c, i.now, i.meta), s.db.data);
      AllKeyedJoin(old(s.db.commits), EnsureHistory(start, c, i.now, i.meta) + [s.db.data]);
    } else {
      OneMore(old(s.db.commits), start);
    }
    return Stored(err);
  }

  lemma SoundVersion(data: KV, env: Env)
    requires Sound(data, env)
    ensures InitError(data) != Some(UnsupportedVersion)
  {
  }

  method RunDelete(s: Store, i: Invocation) returns (report: Report)
    requires WellFormed(s.env, i) && i.command.DeleteCommand? && s.Valid() && AllKeyed(s.db.commits)
    modifies s.db
    ensures s.Valid() && AllKeyed(s.db.commits) && old(s.db.commits) <= s.db.commits
    ensures Does(s.env, i, old(s.db.data), s.db.data, report)
    ensures Commits(i, old(s.db.data), s.db.data, old(s.db.commits), s.db.commits, report)
  {
    hide Sound, View, AllKeyed, Keyed, Becomes, Recorded;
    var DeleteCommand(c, key) := i.command;
    LastKeyed(s.db.commits);
    DeleteKeyed(s.db.data, c, key);
    DeleteBecomes(s.db.data, c, key);
    OneMore(s.db.commits, s.db.data);
    OneMore(s.db.commits, s.db.data - {Keyenc.DataKey(c, key)});
    var err := s.Delete(c, key);
    return Stored(err);
  }

  method RunDrop(s: Store, i: Invocation) returns (report: Report)
    requires WellFormed(s.env, i) && i.command.DropCommand? && s.Valid() && AllKeyed(s.db.commits)
    modifies s.db
    ensures s.Valid() && AllKeyed(s.db.commits) && old(s.db.commits) <= s.db.commits
    ensures Does(s.env, i, old(s.db.data), s.db.data, report)
    ensures Commits(i, old(s.db.data), s.db.data, old(s.db.commits), s.db.commits, report)
  {
    hide Sound, View, DropData, AllKeyed, Keyed, Becomes, Recorded;
    var DropCommand(c) := i.command;
    LastKeyed(s.db.commits);
    DropKeyed(s.db.data, c);
    DropBecomes(s.db.data, c);
    OneMore(s.db.commits, s.db.data);
    OneMore(s.db.commits, DropData(s.db.data, c));
    var err := s.Drop(c);
    return Stored(err);
  }

  method RunApplyCommand(s: Store, i: Invocation) returns (report: Report)
    requires WellFormed(s.env, i) && i.command.ApplyCommand? && s.Valid() && AllKeyed(s.db.commits)
    modifies s.db
    ensures s.Valid() && AllKeyed(s.db.commits) && old(s.db.commits) <= s.db.commits
    ensures Does(s.env, i, old(s.db.data), s.db.data, report)
    ensures Commits(i, old(s.db.data), s.db.data, old(s.db.commits), s.db.commits, report)
  {
    hide Sound, View, Outside, EnsureData, EnsureHistory, AllKeyed, Keyed, ApplyResult, ApplyHistory, Becomes, Recorded,
      InitError;
    var ApplyCommand(c, o) := i.command;
    ghost var start := s.db.data;
    ghost var first := s.db.commits + EnsureHistory(start, c, i.now, i.meta);
    LastKeyed(s.db.commits);
    EnsureKeyed(start, c, i.now, i.meta);
    AllKeyedJoin(s.db.commits, EnsureHistory(start, c, i.now, i.meta));
    SoundVersion(start, s.env);
    var err, stats := Apply(s, c, o, i.hash, i.input, i.now, i.meta);
    if ValidExpected(o) {
      assert s.db.commits[..|first|] == first;
      ApplyKeyed(EnsureData(start, c, i.now, i.meta), s.db.commits, |first|, c, o, i.hash, i.input, err.None?);
      StreamBecomes(start, s.db.data, c, i.now, i.meta);
    }
    return Applied(err, stats);
  }

  method RunImportCommand(s: Store, i: Invocation) returns (report: Report)
    requires WellFormed(s.env, i) && i.command.ImportCommand? && s.Valid() && AllKeyed(s.db.commits)
    modifies s.db
    ensures s.Valid() && AllKeyed(s.db.commits) && old(s.db.commits) <= s.db.commits
    ensures Does(s.env, i, old(s.db.data), s.db.data, report)
    ensures Commits(i, old(s.db.data), s.db.data, old(s.db.commits), s.db.commits, report)
  {
    hide Sound, View, Outside, EnsureData, EnsureHistory, AllKeyed, Keyed, ImportResult, ImportHistory, Becomes,
      Recorded, InitError;
    var ImportCommand(c, o) := i.command;
    ghost var start := s.db.data;
    ghost var first := s.db.commits + EnsureHistory(start, c, i.now, i.meta);
    LastKeyed(s.db.commits);
    EnsureKeyed(start, c, i.now, i.meta);
    AllKeyedJoin(s.db.commits, EnsureHistory(start, c, i.now, i.meta));
    SoundVersion(start, s.env);
    var err := Import(s, c, o, i.input, i.now, i.meta);
    assert s.db.commits[..|first|] == first;
    ImportKeyed(EnsureData(start, c, i.now, i.meta), s.db.commits, |first|, c, o, i.input, err.None?);
    StreamBecomes(start, s.db.data, c, i.now, i.meta);
    return Imported(err);
  }

  // ---- whole sessions ----

  // What one invocation makes of collection c, and of whether it is recorded.
  ghost function Meaning(env: Env, i: Invocation, c: bytes, m: KV): KV
    requires WellFormed(env, i)
  {
    match i.command
    case InitCommand => m
    case PutCommand(d, key, value) => if d == c && ValidateCollection(env.rule, d) then m[key := value] else m
    case DeleteCommand(d, key) => if d == c && ValidateCollection(env.rule, d) then m - {key} else m
    case DropCommand(d) => if d == c && ValidateCollection(env.rule, d) then map[] else m
    case ApplyCommand(d, o) => if d == c && ValidExpected(o) then ApplyLeaves(m, c, o, i.hash, i.input) else m
    case ImportCommand(d, o) => if d == c then ImportLeaves(m, c, o, i.input) else m
  }

  predicate RecordedAfter(env: Env, i: Invocation, c: bytes, recorded: bool) {
    match i.command
    case PutCommand(d, _, _) => recorded || (d == c && ValidateCollection(env.rule, d))
    case DropCommand(d) => recorded && !(d == c && ValidateCollection(env.rule, d))
    case ApplyCommand(d, o) => recorded || (d == c && ValidExpected(o))
    case ImportCommand(d, _) => recorded || d == c
    case _ => recorded
  }

  lemma DoesMeans(env: Env, i: Invocation, before: KV, after: KV, report: Report, c: bytes)
    requires WellFormed(env, i) && Does(env, i, before, after, report)
    ensures View(after, c) == Meaning(env, i, c, View(before, c))
    ensures Recorded(after, c) <==> RecordedAfter(env, i, c, Recorded(before, c))
  {
    hide View, Recorded, ApplyResult, ApplyLeaves, ImportResult, ImportLeaves, ValidateCollection;
    match i.command {
      case ApplyCommand(d, o) =>
        if ValidExpected(o) {
          ResultLeaves(View(before, d), after, d, o, i.hash, i.input, report.failure, report.stats);
        }
      case ImportCommand(d, o) => ImportResultLeaves(View(before, d), after, d, o, i.input, report.refusal);
      case _ =>
    }
  }

  // Where there is no database, what del and drop would do is nothing.
  lemma RefusedMeans(env: Env, i: Invocation, c: bytes)
    requires WellFormed(env, i) && (i.command.DeleteCommand? || i.command.DropCommand?)
    ensures View(map[], c) == Meaning(env, i, c, View(map[], c))
    ensures Recorded(map[], c) <==> RecordedAfter(env, i, c, Recorded(map[], c))
  {
  }

  // The commands on one collection, one after another.
  ghost function Contents(env: Env, invocations: seq<Invocation>, c: bytes): KV
    requires AllWellFormed(env, invocations)
  {
    if invocations == [] then map[]
    else Meaning(env, invocations[|invocations| - 1], c, Contents(env, invocations[..|invocations| - 1], c))
  }

  predicate IsRecorded(env: Env, invocations: seq<Invocation>, c: bytes) {
    invocations != []
    && RecordedAfter(env, invocations[|invocations| - 1], c, IsRecorded(env, invocations[..|invocations| - 1], c))
  }

  ghost predicate AllWellFormed(env: Env, invocations: seq<Invocation>) {
    forall i :: 0 <= i < |invocations| ==> WellFormed(env, invocations[i])
  }

  ghost predicate NothingLost(invocations: seq<Invocation>) {
    forall i :: 0 <= i < |invocations| ==> invocations[i].lost == 0
  }

  ghost predicate Holds(data: KV, env: Env, invocations: seq<Invocation>)
    requires AllWellFormed(env, invocations)
  {
    forall c :: View(data, c) == Contents(env, invocations, c)
                && (Recorded(data, c) <==> IsRecorded(env, invocations, c))
  }

  lemma HoldsNext(before: KV, after: KV, env: Env, invocations: seq<Invocation>, n: nat, report: Report)
    requires AllWellFormed(env, invocations) && n < |invocations| && Holds(before, env, invocations[..n])
    requires Does(env, invocations[n], before, after, report)
             || (after == before == map[]
                 && (invocations[n].command.DeleteCommand? || invocations[n].command.DropCommand?))
    ensures Holds(after, env, invocations[..n + 1])
  {
    hide View, Recorded, Does, Meaning, RecordedAfter, WellFormed;
    assert invocations[..n + 1][..n] == invocations[..n];
    forall c
      ensures View(after, c) == Contents(env, invocations[..n + 1], c)
              && (Recorded(after, c) <==> IsRecorded(env, invocations[..n + 1], c))
    {
      if Does(env, invocations[n], before, after, report) {
        DoesMeans(env, invocations[n], before, after, report, c);
      } else {
        RefusedMeans(env, invocations[n], c);
      }
    }
  }

  lemma HoldsNothing(env: Env)
    ensures Holds(map[], env, [])
  {
  }

  // From an empty database, whatever is invoked in whatever order and however
  // much each crash loses, every command opens the database, unless it insists
  // on one that is still empty; and every state after every commit can be
  // opened, records its collections, and holds no empty key. Where nothing is
  // lost each collection is what the commands on it make of it one by one.
  method Session(env: Env, invocations: seq<Invocation>) returns (db: Db, refusals: seq<Option<StoreError>>)
    requires AllWellFormed(env, invocations)
    ensures fresh(db) && AlwaysSound(db, env)
    ensures NothingLost(invocations) ==> Holds(db.data, env, invocations)
    ensures |refusals| == |invocations|
    ensures forall i :: 0 <= i < |refusals| && refusals[i].Some? ==>
              refusals[i] == Some(Uninitialized)
              && (invocations[i].command.DeleteCommand? || invocations[i].command.DropCommand?)
    ensures forall i :: 0 <= i < |db.commits| ==> OpenError(db.commits[i], env, false) == None
    ensures forall i, c, k :: 0 <= i < |db.commits| && Keyenc.DataKey(c, k) in db.commits[i] ==>
              Keyenc.CollectionMetaKey(c) in db.commits[i] && k != []
  {
    hide Sound, WellFormed, OpenError, AllKeyed, Holds, Does, Commits;
    db := new Db();
    EmptyIsSound(env);
    HoldsNothing(env);
    refusals := [];
    assert invocations[..0] == [];
    for n := 0 to |invocations|
      invariant fresh(db) && AlwaysSound(db, env) && |refusals| == n
      invariant NothingLost(invocations[..n]) ==> Holds(db.data, env, invocations[..n])
      invariant forall i :: 0 <= i < n && refusals[i].Some? ==>
                  refusals[i] == Some(Uninitialized)
                  && (invocations[i].command.DeleteCommand? || invocations[i].command.DropCommand?)
    {
      ghost var before := db.data;
      var refusal, report := Invoke(db, env, invocations[n]);
      refusals := refusals + [refusal];
      if NothingLost(invocations[..n + 1]) {
        NothingLostBefore(invocations, n);
        HoldsNext(before, db.data, env, invocations, n, report);
      }
      LosingKeeps(db.commits);
      db.Lose(invocations[n].lost);
    }
    assert invocations[..|invocations|] == invocations;
    forall i | 0 <= i < |db.commits|
      ensures OpenError(db.commits[i], env, false) == None
      ensures forall c, k :: Keyenc.DataKey(c, k) in db.commits[i] ==>
                Keyenc.CollectionMetaKey(c) in db.commits[i] && k != []
    {
      SoundReopens(db.commits[i], env);
      NoEmptyKey(db.commits, i);
    }
  }

  lemma NothingLostBefore(invocations: seq<Invocation>, n: nat)
    requires n < |invocations| && NothingLost(invocations[..n + 1])
    ensures NothingLost(invocations[..n]) && invocations[n].lost == 0
  {
    assert invocations[..n + 1][n] == invocations[n];
    assert forall i :: 0 <= i < n ==> invocations[..n + 1][i] == invocations[..n][i];
  }

  lemma EmptyIsSound(env: Env)
    ensures Sound(map[], env) && AllKeyed([map[]])
  {
  }

  lemma LosingKeeps(commits: seq<KV>)
    requires AllKeyed(commits)
    ensures forall n :: 0 <= n <= |commits| ==> AllKeyed(commits[..n])
  {
    hide Keyed;
  }

  lemma NoEmptyKey(commits: seq<KV>, i: nat)
    requires AllKeyed(commits) && i < |commits|
    ensures forall c, k :: Keyenc.DataKey(c, k) in commits[i] ==> k != []
  {
    forall c, k | Keyenc.DataKey(c, k) in commits[i] ensures k in View(commits[i], c) {
    }
  }

  // So an exported collection of a database that a session left comes back,
  // wherever it is restored, unless a record is too large to export.
  method RestoreAlways(src: Store, from: bytes, dst: Store, to: bytes, o: ApplyOptions, hash: Bloom.Hash,
      now: bytes, meta: bytes) returns (exported: bool, restored: bool)
    requires AlwaysSound(src.db, src.env) && dst.Valid() && dst.env.isTimestamp(now)
    requires ValidateCollection(src.env.rule, from) && ValidateCollection(dst.env.rule, to)
    requires o.format == Frame && Positive(o.limits) && ValidExpected(o)
    modifies dst.db
    ensures dst.Valid() && restored == exported
    ensures var m := View(old(src.db.data), from);
            exported == (forall k :: k in m ==> FitsFrame(k, m[k]))
            && View(dst.db.data, to) == View(old(dst.db.data), to) + if exported then m else map[]
  {
    hide View, Sound, FitsFrame, EnsureData, AllKeyed, ApplyHistory;
    LastKeyed(src.db.commits);
    OverlayWithNothing(View(dst.db.data, to));
    EnsureSound(dst.db.data, dst.env, to, now, meta);
    exported, restored := ExportThenRestore(src, from, dst, to, o, hash, now, meta);
  }

  lemma OverlayWithNothing(m: KV)
    ensures m + map[] == m
  {
  }
}
