// The store: metadata, collections, point writes, drop, ordered scans, and the
// check that decides whether a database may be opened.
module Stores {
  import opened Bytes
  import opened Pebble
  import opened Views
  import opened Batches
  import Keyenc

  datatype StoreError =
    | InvalidName
    | InvalidOptions
    | UnsupportedVersion
    | MissingCreatedAt
    | InvalidCreatedAt
    | AlreadyInitialized
    | Uninitialized
    | UnmarkedDatabase

  // The two tables this model takes as given: runes allowed in names, and which
  // strings parse as RFC 3339 timestamps.
  datatype Env = Env(rule: NameRule, isTimestamp: bytes -> bool)

  function VersionKey(): bytes { Keyenc.MetadataKey(Keyenc.Ascii("format-version")) }
  function CreatedKey(): bytes { Keyenc.MetadataKey(Keyenc.Ascii("created-at")) }
  function FormatVersion(): bytes { Keyenc.Ascii("1") }

  datatype Metadata = Present | Absent | Corrupt(error: StoreError)

  function CheckMetadata(data: KV, env: Env): Metadata {
    if VersionKey() !in data then Absent
    else if data[VersionKey()] != FormatVersion() then Corrupt(UnsupportedVersion)
    else if CreatedKey() !in data then Corrupt(MissingCreatedAt)
    else if !env.isTimestamp(data[CreatedKey()]) then Corrupt(InvalidCreatedAt)
    else Present
  }

  // ---- which databases the store itself can produce ----

  ghost predicate IsCollectionMeta(p: bytes, env: Env) {
    exists c :: ValidateCollection(env.rule, c) && p == Keyenc.CollectionMetaKey(c)
  }

  ghost predicate IsRecordedData(data: KV, p: bytes, env: Env) {
    exists c, k :: ValidateCollection(env.rule, c) && p == Keyenc.DataKey(c, k) && Keyenc.CollectionMetaKey(c) in data
  }

  // Empty, or marked with both required records and holding data only in
  // collections that are recorded.
  ghost predicate Sound(data: KV, env: Env) {
    data == map[]
    || (CheckMetadata(data, env) == Present
        && forall p :: p in data ==>
             p == VersionKey() || p == CreatedKey() || IsCollectionMeta(p, env) || IsRecordedData(data, p, env))
  }

  // What opening does with a database.
  function OpenError(data: KV, env: Env, mustExist: bool): Option<StoreError> {
    match CheckMetadata(data, env)
    case Present => None
    case Corrupt(e) => Some(e)
    case Absent => if data != map[] then Some(UnmarkedDatabase) else if mustExist then Some(Uninitialized) else None
  }

  // The names and values of the two required records.
  lemma RequiredRecords()
    ensures VersionKey() == [0] + Keyenc.Ascii("format-version") && FormatVersion() == [49]
    ensures CreatedKey() == [0] + Keyenc.Ascii("created-at")
  {
  }

  // A database opens exactly when it carries both required records in order, or
  // is empty and need not exist yet; each refusal has its own cause.
  lemma OpensExactly(data: KV, env: Env, mustExist: bool)
    ensures var err := OpenError(data, env, mustExist);
            var version := Lookup(data, [0] + Keyenc.Ascii("format-version"));
            var created := Lookup(data, [0] + Keyenc.Ascii("created-at"));
            (err.None? <==>
              (data == map[] && !mustExist)
              || (version == Some([49]) && exists t :: created == Some(t) && env.isTimestamp(t)))
            && (err == Some(UnsupportedVersion) <==> version.Some? && version.value != [49])
            && (err == Some(MissingCreatedAt) <==> version == Some([49]) && created.None?)
            && (err == Some(InvalidCreatedAt) <==>
                version == Some([49]) && created.Some? && !env.isTimestamp(created.value))
            && (err == Some(UnmarkedDatabase) <==> version.None? && data != map[])
            && (err == Some(Uninitialized) <==> data == map[] && mustExist)
  {
    RequiredRecords();
    if CreatedKey() in data {
      assert Lookup(data, CreatedKey()) == Some(data[CreatedKey()]);
    }
  }

  lemma SoundReopens(data: KV, env: Env)
    requires Sound(data, env)
    ensures OpenError(data, env, false).None?
    ensures OpenError(data, env, true).None? <==> data != map[]
    ensures forall c, k :: Keyenc.DataKey(c, k) in data ==> Keyenc.CollectionMetaKey(c) in data
  {
    forall c, k | Keyenc.DataKey(c, k) in data ensures Keyenc.CollectionMetaKey(c) in data {
      var p := Keyenc.DataKey(c, k);
      DataIsNotMetadata(c, k, env);
      var c', k' :|
        ValidateCollection(env.rule, c') && p == Keyenc.DataKey(c', k') && Keyenc.CollectionMetaKey(c') in data;
      Keyenc.DataKeyInjective(c, k, c', k');
    }
  }

  lemma DataIsNotMetadata(c: bytes, k: bytes, env: Env)
    ensures var p := Keyenc.DataKey(c, k);
            p != VersionKey() && p != CreatedKey() && !IsCollectionMeta(p, env)
  {
    assert Keyenc.DataKey(c, k)[0] == Keyenc.DATA_PREFIX;
  }

  // The metadata keys are all different.
  lemma MetadataKeysDistinct(c: bytes, c': bytes)
    ensures VersionKey() != CreatedKey()
    ensures Keyenc.CollectionMetaKey(c) != VersionKey() && Keyenc.CollectionMetaKey(c) != CreatedKey()
    ensures Keyenc.CollectionMetaKey(c) == Keyenc.CollectionMetaKey(c') ==> c == c'
  {
    assert |VersionKey()| == 15 && |CreatedKey()| == 11;
    var head := Keyenc.Ascii("collection/");
    assert Keyenc.CollectionMetaKey(c)[1] == head[0] && Keyenc.CollectionMetaKey(c)[2] == head[1];
    assert VersionKey()[1] == Keyenc.Ascii("format-version")[0] && CreatedKey()[2] == Keyenc.Ascii("created-at")[1];
    assert (head + c)[|head|..] == c && (head + c')[|head|..] == c';
    assert Keyenc.CollectionMetaKey(c)[1..] == head + c && Keyenc.CollectionMetaKey(c')[1..] == head + c';
  }

  // ---- states reached by the individual writes ----

  function InitData(data: KV, now: bytes): KV {
    if VersionKey() in data then data else data[VersionKey() := FormatVersion()][CreatedKey() := now]
  }

  function InitError(data: KV): Option<StoreError> {
    if VersionKey() !in data then None
    else if data[VersionKey()] != FormatVersion() then Some(UnsupportedVersion)
    else Some(AlreadyInitialized)
  }

  function EnsureError(data: KV, env: Env, c: bytes): Option<StoreError> {
    if !ValidateCollection(env.rule, c) then Some(InvalidName)
    else if InitError(data) == Some(UnsupportedVersion) then Some(UnsupportedVersion)
    else None
  }

  function EnsureData(data: KV, c: bytes, now: bytes, meta: bytes): KV {
    var d := InitData(data, now);
    if Keyenc.CollectionMetaKey(c) in d then d else d[Keyenc.CollectionMetaKey(c) := meta]
  }

  // What initialising does, record by record: nothing where there is a version.
  lemma InitMeans(data: KV, now: bytes, p: bytes)
    ensures var version := Lookup(data, [0] + Keyenc.Ascii("format-version"));
            var d, err := InitData(data, now), InitError(data);
            match version
            case None =>
              err == None
              && Lookup(d, p) == (if p == [0] + Keyenc.Ascii("format-version") then Some([49])
                                  else if p == [0] + Keyenc.Ascii("created-at") then Some(now) else Lookup(data, p))
            case Some(v) =>
              d == data && err == Some(if v == [49] then AlreadyInitialized else UnsupportedVersion)
  {
    RequiredRecords();
    MetadataKeysDistinct([], []);
  }

  // A collection is refused for its name first, then for another version.
  lemma EnsureErrorMeans(data: KV, env: Env, c: bytes)
    ensures var version := Lookup(data, [0] + Keyenc.Ascii("format-version"));
            EnsureError(data, env, c)
            == if !ValidateCollection(env.rule, c) then Some(InvalidName)
               else if version.Some? && version.value != [49] then Some(UnsupportedVersion) else None
  {
    InitMeans(data, [], []);
  }

  // What ensuring a collection does, record by record, in as many commits as
  // there is something to add.
  lemma EnsureMeans(data: KV, c: bytes, now: bytes, meta: bytes, p: bytes)
    ensures var version, created := [0] + Keyenc.Ascii("format-version"), [0] + Keyenc.Ascii("created-at");
            var entry := [0] + Keyenc.Ascii("collection/") + c;
            var d, h := EnsureData(data, c, now, meta), EnsureHistory(data, c, now, meta);
            Lookup(d, p) == (if p == version && version !in data then Some([49])
                             else if p == created && version !in data then Some(now)
                             else if p == entry && entry !in data then Some(meta) else Lookup(data, p))
            && |h| == (if version in data then 0 else 1) + (if entry in data then 0 else 1)
            && (version in data && entry in data ==> d == data && h == [])
  {
    RequiredRecords();
    MetadataKeysDistinct(c, c);
    Keyenc.LayoutOfKeys(c, []);
    InitMeans(data, now, p);
  }

  lemma InitSound(data: KV, env: Env, now: bytes)
    requires Sound(data, env) && env.isTimestamp(now)
    ensures Sound(InitData(data, now), env) && CheckMetadata(InitData(data, now), env) == Present
  {
    MetadataKeysDistinct([], []);
  }

  lemma EnsureSound(data: KV, env: Env, c: bytes, now: bytes, meta: bytes)
    requires Sound(data, env) && env.isTimestamp(now) && ValidateCollection(env.rule, c)
    ensures Sound(EnsureData(data, c, now, meta), env)
    ensures Keyenc.CollectionMetaKey(c) in EnsureData(data, c, now, meta)
    ensures CheckMetadata(EnsureData(data, c, now, meta), env) == Present
    ensures EnsureError(data, env, c).None?
  {
    InitSound(data, env, now);
    MetadataKeysDistinct(c, c);
    var d, d' := InitData(data, now), EnsureData(data, c, now, meta);
    forall p | p in d && IsRecordedData(d, p, env) ensures IsRecordedData(d', p, env) {
      var c', k :| ValidateCollection(env.rule, c') && p == Keyenc.DataKey(c', k) && Keyenc.CollectionMetaKey(c') in d;
      assert Keyenc.CollectionMetaKey(c') in d';
    }
    assert IsCollectionMeta(Keyenc.CollectionMetaKey(c), env);
  }

  ghost predicate SameViews(d: KV, e: KV) {
    forall c :: View(d, c) == View(e, c)
  }

  // The commits made on the way: the two required records, then the entry.
  function EnsureHistory(data: KV, c: bytes, now: bytes, meta: bytes): seq<KV> {
    var d := InitData(data, now);
    (if VersionKey() in data then [] else [d])
    + if Keyenc.CollectionMetaKey(c) in d then [] else [EnsureData(data, c, now, meta)]
  }

  // They lead to the ensured database, and show every collection as it was.
  lemma EnsureHistoryKeepsViews(data: KV, c: bytes, now: bytes, meta: bytes)
    ensures var h := EnsureHistory(data, c, now, meta);
            (forall i :: 0 <= i < |h| ==> SameViews(h[i], data))
            && EnsureData(data, c, now, meta) == if h == [] then data else h[|h| - 1]
  {
    hide SameViews;
    InitKeepsViews(data, now);
    EnsureKeepsAllViews(data, c, now, meta);
  }

  lemma InitKeepsViews(data: KV, now: bytes)
    ensures SameViews(InitData(data, now), data)
  {
    forall c ensures View(InitData(data, now), c) == View(data, c) {
      if VersionKey() !in data {
        MetadataKeepsView(data, Keyenc.Ascii("format-version"), FormatVersion(), c);
        MetadataKeepsView(data[VersionKey() := FormatVersion()], Keyenc.Ascii("created-at"), now, c);
      }
    }
  }

  lemma EnsureKeepsAllViews(data: KV, c: bytes, now: bytes, meta: bytes)
    ensures SameViews(EnsureData(data, c, now, meta), data)
  {
    hide EnsureData;
    forall c' ensures View(EnsureData(data, c, now, meta), c') == View(data, c') {
      EnsureKeepsViews(data, c, now, meta, c');
    }
  }

  lemma EnsureKeepsViews(data: KV, c: bytes, now: bytes, meta: bytes, c': bytes)
    ensures View(EnsureData(data, c, now, meta), c') == View(data, c')
  {
    hide InitData;
    var d := InitData(data, now);
    InitKeepsViews(data, now);
    MetadataKeepsView(d, Keyenc.Ascii("collection/") + c, meta, c');
  }

  // Point writes inside a recorded collection keep the database sound.
  lemma PointOpSound(data: KV, env: Env, c: bytes, op: PointOp)
    requires Sound(data, env) && ValidateCollection(env.rule, c)
    requires exists k :: op.key == Keyenc.DataKey(c, k)
    requires op.Set? ==> Keyenc.CollectionMetaKey(c) in data
    ensures Sound(ApplyOne(data, op), env)
    ensures Keyenc.CollectionMetaKey(c) in data ==> Keyenc.CollectionMetaKey(c) in ApplyOne(data, op)
  {
    var k :| op.key == Keyenc.DataKey(c, k);
    DataIsNotMetadata(c, k, env);
    var data' := ApplyOne(data, op);
    if data != map[] {
      MetaIsNotData(c, k);
      forall p | IsRecordedData(data, p, env) ensures IsRecordedData(data', p, env) {
        StillRecorded(data, data', env, p);
      }
      if op.Set? {
        assert IsRecordedData(data', op.key, env);
      }
    }
  }

  lemma StillRecorded(data: KV, data': KV, env: Env, p: bytes)
    requires IsRecordedData(data, p, env)
    requires forall c :: Keyenc.CollectionMetaKey(c) in data ==> Keyenc.CollectionMetaKey(c) in data'
    ensures IsRecordedData(data', p, env)
  {
  }

  lemma MetaIsNotData(c: bytes, k: bytes)
    ensures forall c' :: Keyenc.CollectionMetaKey(c') != Keyenc.DataKey(c, k)
  {
    forall c' ensures Keyenc.CollectionMetaKey(c') != Keyenc.DataKey(c, k) {
      assert Keyenc.CollectionMetaKey(c')[0] == Keyenc.META_PREFIX;
      assert Keyenc.DataKey(c, k)[0] == Keyenc.DATA_PREFIX;
    }
  }

  function DropData(data: KV, c: bytes): KV {
    Outside(data, c) - {Keyenc.CollectionMetaKey(c)}
  }

  lemma DropSound(data: KV, env: Env, c: bytes)
    requires Sound(data, env)
    ensures Sound(DropData(data, c), env)
  {
    hide IsRecordedData;
    var data' := DropData(data, c);
    if data != map[] {
      MetadataKeysDistinct(c, c);
      MetadataIsOutside(c, Keyenc.Ascii("format-version"));
      MetadataIsOutside(c, Keyenc.Ascii("created-at"));
      forall p | p in data' && IsRecordedData(data, p, env) ensures IsRecordedData(data', p, env) {
        RecordedAfterDrop(data, env, c, p);
      }
    }
  }

  lemma RecordedAfterDrop(data: KV, env: Env, c: bytes, p: bytes)
    requires p in DropData(data, c) && IsRecordedData(data, p, env)
    ensures IsRecordedData(DropData(data, c), p, env)
  {
    var c', k :| ValidateCollection(env.rule, c') && p == Keyenc.DataKey(c', k) && Keyenc.CollectionMetaKey(c') in data;
    DataKeyHasBase(c', k);
    MetadataKeysDistinct(c, c');
    MetadataIsOutside(c, Keyenc.Ascii("collection/") + c');
    assert Keyenc.CollectionMetaKey(c') in DropData(data, c);
  }

  // ---- scans ----

  datatype ScanOptions = ScanOptions(
    prefix: bytes, start: Option<bytes>, end: Option<bytes>,
    limit: int, reverse: bool, keysOnly: bool)

  datatype Record = Record(key: bytes, value: bytes)

  predicate ValidOptions(o: ScanOptions) {
    o.limit >= 0 && (o.end.None? || !Less(o.end.value, Keyenc.OrEmpty(o.start)))
  }

  // No start means the empty key, no end means no bound.
  predicate StartsAfterEnd(start: Option<bytes>, end: Option<bytes>) {
    match end
    case None => false
    case Some(e) => start.Some? && Less(e, start.value)
  }

  // A range whose start is its end is accepted and empty; otherwise the start
  // belongs to it and the end does not.
  lemma HalfOpen(view: KV, o: ScanOptions, k: bytes)
    requires k in view && o.prefix == [] && o.limit == 0
    ensures o.start == Some(k) && o.end.None? ==> ValidOptions(o) && k in SelectedKeys(view, o)
    ensures o.end == Some(k) ==> k !in SelectedKeys(view, o)
    ensures o.start == o.end == Some(k) ==> ValidOptions(o) && ScanSpec(view, o) == []
  {
    LessIrreflexive(k);
    assert k[..0] == [];
    if o.start == o.end == Some(k) {
      CountIsCardinality(view, o);
      assert SelectedKeys(view, o) == {};
    }
  }

  ghost function SelectedKeys(view: KV, o: ScanOptions): set<bytes> {
    set k | k in view && Keyenc.Selects(k, o.prefix, o.start, o.end)
  }

  function Reverse<T>(s: seq<T>): (r: seq<T>)
    ensures |r| == |s| && forall i :: 0 <= i < |s| ==> r[i] == s[|s| - 1 - i]
  {
    seq(|s|, i requires 0 <= i < |s| => s[|s| - 1 - i])
  }

  ghost function Directed(view: KV, o: ScanOptions): (r: seq<bytes>)
    ensures Elements(r) == SelectedKeys(view, o)
  {
    var keys := Sorted(SelectedKeys(view, o));
    assert Elements(Reverse(keys)) == Elements(keys) by {
      forall i | 0 <= i < |keys| ensures keys[i] in Reverse(keys) {
        assert keys[i] == Reverse(keys)[|keys| - 1 - i];
      }
    }
    if o.reverse then Reverse(keys) else keys
  }

  // The keys a scan must emit, in order.
  ghost function Selection(view: KV, o: ScanOptions): seq<bytes> {
    var directed := Directed(view, o);
    if 0 < o.limit < |directed| then directed[..o.limit] else directed
  }

  ghost function RecordsOf(view: KV, keys: seq<bytes>, keysOnly: bool): (r: seq<Record>)
    requires forall k :: k in keys ==> k in view
    ensures |r| == |keys|
  {
    assert forall i :: 0 <= i < |keys| ==> keys[i] in keys;
    seq(|keys|, i requires 0 <= i < |keys| => Record(keys[i], if keysOnly then [] else view[keys[i]]))
  }

  ghost function ScanSpec(view: KV, o: ScanOptions): seq<Record> {
    SelectionInView(view, o);
    RecordsOf(view, Selection(view, o), o.keysOnly)
  }

  lemma SelectionInView(view: KV, o: ScanOptions)
    ensures forall k :: k in Selection(view, o) ==> k in SelectedKeys(view, o)
  {
    forall k | k in Selection(view, o) ensures k in Elements(Directed(view, o)) {
    }
  }

  // The records of the first n keys in scan direction.
  ghost function FirstRecords(view: KV, o: ScanOptions, n: nat): (r: seq<Record>)
    requires n <= |Directed(view, o)|
    ensures |r| == n
  {
    var first := Directed(view, o)[..n];
    assert forall k :: k in first ==> k in Elements(Directed(view, o));
    RecordsOf(view, first, o.keysOnly)
  }

  lemma DirectedIndex(view: KV, o: ScanOptions)
    ensures var keys, directed := Sorted(SelectedKeys(view, o)), Directed(view, o);
            |directed| == |keys|
            && forall i :: 0 <= i < |keys| ==> directed[i] == keys[if o.reverse then |keys| - 1 - i else i]
  {
  }

  lemma FirstRecordsNone(view: KV, o: ScanOptions)
    ensures FirstRecords(view, o, 0) == []
  {
  }

  lemma FirstRecordsStep(view: KV, o: ScanOptions, n: nat)
    requires n < |Directed(view, o)|
    ensures var key := Directed(view, o)[n];
            key in view
            && FirstRecords(view, o, n + 1)
               == FirstRecords(view, o, n) + [Record(key, if o.keysOnly then [] else view[key])]
  {
    var key := Directed(view, o)[n];
    assert key in Elements(Directed(view, o));
    assert Directed(view, o)[..n + 1] == Directed(view, o)[..n] + [key];
  }

  lemma FirstRecordsAll(view: KV, o: ScanOptions, n: nat)
    requires n <= |Directed(view, o)| && (n == o.limit || n == |Directed(view, o)|)
    requires 0 < o.limit ==> n <= o.limit
    requires n < |Directed(view, o)| ==> 0 < o.limit
    ensures FirstRecords(view, o, n) == ScanSpec(view, o)
  {
    assert Directed(view, o)[..|Directed(view, o)|] == Directed(view, o);
  }

  ghost function ScannedKeys(rs: seq<Record>): (r: seq<bytes>)
    ensures |r| == |rs|
  {
    seq(|rs|, i requires 0 <= i < |rs| => rs[i].key)
  }

  // A forward scan without a limit emits the selected keys ascending.
  lemma ForwardScan(view: KV, o: ScanOptions)
    requires o.limit == 0 && !o.reverse
    ensures StrictlyAscending(ScannedKeys(ScanSpec(view, o)))
    ensures Elements(ScannedKeys(ScanSpec(view, o))) == SelectedKeys(view, o)
  {
    hide SelectedKeys;
    assert ScannedKeys(ScanSpec(view, o)) == Directed(view, o);
  }

  // Each record carries its stored value, or none if only keys are wanted.
  lemma ScanValues(view: KV, o: ScanOptions, i: nat)
    requires i < |ScanSpec(view, o)|
    ensures var r := ScanSpec(view, o)[i];
            r.key in view && r.value == if o.keysOnly then [] else view[r.key]
  {
    hide SelectedKeys;
    SelectionInView(view, o);
    assert Selection(view, o)[i] in Selection(view, o);
    SelectedAreStored(view, o);
  }

  lemma SelectedAreStored(view: KV, o: ScanOptions)
    ensures SelectedKeys(view, o) <= view.Keys
  {
  }

  // A reverse scan emits the reversal of the forward scan.
  lemma ReverseScan(view: KV, o: ScanOptions)
    requires o.limit == 0 && o.reverse
    ensures ScanSpec(view, o) == Reverse(ScanSpec(view, o.(reverse := false)))
  {
    hide SelectedKeys;
    var forward := o.(reverse := false);
    assert SelectedKeys(view, o) == SelectedKeys(view, forward) by {
      SameSelection(view, o, forward);
    }
    assert Selection(view, o) == Reverse(Selection(view, forward));
  }

  lemma SameSelection(view: KV, o: ScanOptions, p: ScanOptions)
    requires o.prefix == p.prefix && o.start == p.start && o.end == p.end
    ensures SelectedKeys(view, o) == SelectedKeys(view, p)
  {
  }

  // A limit keeps the first records of the scan without one.
  lemma LimitedScan(view: KV, o: ScanOptions)
    requires o.limit > 0
    ensures var all := ScanSpec(view, o.(limit := 0));
            ScanSpec(view, o) == if o.limit < |all| then all[..o.limit] else all
  {
    hide SelectedKeys;
    SameSelection(view, o, o.(limit := 0));
    assert Directed(view, o) == Directed(view, o.(limit := 0));
  }

  // Counting by scanning visits each selected key once.
  lemma CountIsCardinality(view: KV, o: ScanOptions)
    requires o.limit == 0
    ensures |ScanSpec(view, o)| == |SelectedKeys(view, o)|
  {
    AscendingCount(Sorted(SelectedKeys(view, o)));
  }

  // The physical keys between scan bounds are the encodings of the selected
  // user keys, in the same order.
  lemma PhysicalOrder(data: KV, c: bytes, o: ScanOptions, lower: bytes, upper: bytes)
    requires forall p :: Within(p, lower, Some(upper)) <==> Keyenc.SelectedPhysical(p, c, o.prefix, o.start, o.end)
    ensures var keys := Sorted(SelectedKeys(View(data, c), o));
            var physical := Sorted(InBounds(data, lower, upper));
            |physical| == |keys| && forall i :: 0 <= i < |keys| ==> physical[i] == Keyenc.DataKey(c, keys[i])
  {
    var view := View(data, c);
    var keys := Sorted(SelectedKeys(view, o));
    var encoded := seq(|keys|, i requires 0 <= i < |keys| => Keyenc.DataKey(c, keys[i]));
    forall i, j | 0 <= i < j < |encoded| ensures Less(encoded[i], encoded[j]) {
      Keyenc.OrderPreserved(c, keys[i], keys[j]);
    }
    forall p | p in InBounds(data, lower, upper) ensures p in Elements(encoded) {
      var k :| p == Keyenc.DataKey(c, k) && Keyenc.Selects(k, o.prefix, o.start, o.end);
      assert k in Elements(keys);
      var i :| 0 <= i < |keys| && keys[i] == k;
      assert encoded[i] == p;
    }
    forall p | p in Elements(encoded) ensures p in InBounds(data, lower, upper) {
      var i :| 0 <= i < |keys| && encoded[i] == p;
      assert keys[i] in Elements(keys);
      assert Keyenc.SelectedPhysical(p, c, o.prefix, o.start, o.end);
    }
    AscendingUnique(encoded, Sorted(InBounds(data, lower, upper)));
  }

  // ---- collection names ----

  ghost function CollectionNames(data: KV): (r: set<bytes>)
    ensures forall c :: c in r <==> Keyenc.CollectionMetaKey(c) in data
  {
    var prefix := Keyenc.CollectionMetaPrefix();
    var r := set p | p in data && IsPrefix(prefix, p) :: p[|prefix|..];
    assert forall c :: c in r <==> Keyenc.CollectionMetaKey(c) in data by {
      forall c ensures Keyenc.CollectionMetaKey(c) == prefix + c {
      }
      forall c | Keyenc.CollectionMetaKey(c) in data ensures c in r {
        var p := prefix + c;
        assert IsPrefix(prefix, p) && p[|prefix|..] == c;
      }
      forall p | p in data && IsPrefix(prefix, p) ensures p == prefix + p[|prefix|..] {
        PrefixSplit(prefix, p);
      }
    }
    r
  }

  lemma NamesInOrder(data: KV, physical: seq<bytes>, upper: bytes)
    requires NextPrefixOfCollections(upper)
    requires physical == Sorted(InBounds(data, Keyenc.CollectionMetaPrefix(), upper))
    ensures var names := Sorted(CollectionNames(data));
            |names| == |physical|
            && forall i :: 0 <= i < |names| ==> physical[i] == Keyenc.CollectionMetaPrefix() + names[i]
  {
    var prefix := Keyenc.CollectionMetaPrefix();
    var names := Sorted(CollectionNames(data));
    var encoded := seq(|names|, i requires 0 <= i < |names| => prefix + names[i]);
    forall c ensures Keyenc.CollectionMetaKey(c) == prefix + c {
    }
    forall i, j | 0 <= i < j < |encoded| ensures Less(encoded[i], encoded[j]) {
      LessPrepend(prefix, names[i], names[j]);
    }
    forall p ensures p in InBounds(data, prefix, upper) <==> p in Elements(encoded) {
      Keyenc.NextPrefixExact(prefix, p);
      if p in data && IsPrefix(prefix, p) {
        PrefixSplit(prefix, p);
        assert p[|prefix|..] in Elements(names);
        var i :| 0 <= i < |names| && names[i] == p[|prefix|..];
        assert encoded[i] == p;
      }
      if p in Elements(encoded) {
        var i :| 0 <= i < |names| && encoded[i] == p;
        assert names[i] in Elements(names);
      }
    }
    AscendingUnique(encoded, physical);
  }

  predicate NextPrefixOfCollections(upper: bytes) {
    Keyenc.NextPrefix(Keyenc.CollectionMetaPrefix()) == Some(upper)
  }

  // ---- the store object ----

  class Store {
    const db: Db
    const env: Env

    // The database is sound now, and was after every commit.
    ghost predicate Valid()
      reads this, db
    {
      db.Logged() && Sound(db.data, env) && forall i :: 0 <= i < |db.commits| ==> Sound(db.commits[i], env)
    }

    constructor (db: Db, env: Env)
      ensures this.db == db && this.env == env
    {
      this.db, this.env := db, env;
    }

    // Writes both required records at once, unless the database has a version.
    method Init(now: bytes) returns (err: Option<StoreError>)
      modifies db
      ensures old(Valid()) && env.isTimestamp(now) ==> Valid()
      ensures db.data == InitData(old(db.data), now)
      ensures db.commits == old(db.commits) + if err.None? then [db.data] else []
      ensures err == InitError(old(db.data))
      ensures match Lookup(old(db.data), [0] + Keyenc.Ascii("format-version"))
              case None => err == None
              case Some(v) =>
                db.data == old(db.data) && db.commits == old(db.commits)
                && err == Some(if v == [49] then AlreadyInitialized else UnsupportedVersion)
    {
      InitMeans(db.data, now, []);
      if VersionKey() !in db.data {
        if Sound(db.data, env) && env.isTimestamp(now) {
          InitSound(db.data, env, now);
        }
        var batch := [Set(VersionKey(), FormatVersion()), Set(CreatedKey(), now)];
        ApplyTwo(db.data, batch[0], batch[1]);
        db.Commit(batch);
        return None;
      }
      if db.data[VersionKey()] != FormatVersion() {
        return Some(UnsupportedVersion);
      }
      return Some(AlreadyInitialized);
    }

    method EnsureCollection(c: bytes, now: bytes, meta: bytes) returns (err: Option<StoreError>)
      modifies db
      ensures old(Valid()) && env.isTimestamp(now) ==> Valid()
      ensures err == EnsureError(old(db.data), env, c)
      ensures db.data == if err.None? then EnsureData(old(db.data), c, now, meta) else old(db.data)
      ensures db.commits == old(db.commits) + if err.None? then EnsureHistory(old(db.data), c, now, meta) else []
      ensures [0] + Keyenc.Ascii("format-version") in old(db.data) && Keyenc.CollectionMetaKey(c) in old(db.data) ==>
                db.data == old(db.data) && db.commits == old(db.commits)
    {
      RequiredRecords();
      if !ValidateCollection(env.rule, c) {
        return Some(InvalidName);
      }
      err := Init(now);
      if err.Some? && err.value != AlreadyInitialized {
        return;
      }
      if Sound(old(db.data), env) && env.isTimestamp(now) {
        EnsureSound(old(db.data), env, c, now, meta);
      }
      var key := Keyenc.CollectionMetaKey(c);
      if key !in db.data {
        ApplySnoc(db.data, [], Set(key, meta));
        db.Commit([Set(key, meta)]);
      }
      return None;
    }

    method Put(c: bytes, key: bytes, value: bytes, now: bytes, meta: bytes) returns (err: Option<StoreError>)
      modifies db
      ensures old(Valid()) && env.isTimestamp(now) ==> Valid()
      ensures err == EnsureError(old(db.data), env, c)
      ensures db.data == if err.None? then EnsureData(old(db.data), c, now, meta)[Keyenc.DataKey(c, key) := value]
                         else old(db.data)
      ensures db.commits == old(db.commits)
                            + if err.None? then EnsureHistory(old(db.data), c, now, meta) + [db.data] else []
    {
      err := EnsureCollection(c, now, meta);
      if err.Some? {
        return;
      }
      var op := Set(Keyenc.DataKey(c, key), value);
      if Sound(old(db.data), env) && env.isTimestamp(now) {
        EnsureSound(old(db.data), env, c, now, meta);
        PointOpSound(db.data, env, c, op);
      }
      ApplySnoc(db.data, [], op);
      db.Commit([op]);
    }

    method Has(c: bytes, key: bytes) returns (r: Option<bool>)
      ensures r == if ValidateCollection(env.rule, c) then Some(key in View(db.data, c)) else None
    {
      if !ValidateCollection(env.rule, c) {
        return None;
      }
      return Some(Keyenc.DataKey(c, key) in db.data);
    }

    method Delete(c: bytes, key: bytes) returns (err: Option<StoreError>)
      modifies db
      ensures old(Valid()) ==> Valid()
      ensures err == if ValidateCollection(env.rule, c) then None else Some(InvalidName)
      ensures db.commits == old(db.commits) + if err.None? then [db.data] else []
      ensures db.data == if err.None? then old(db.data) - {Keyenc.DataKey(c, key)} else old(db.data)
    {
      if !ValidateCollection(env.rule, c) {
        return Some(InvalidName);
      }
      var op := Mutation.Delete(Keyenc.DataKey(c, key));
      if Sound(db.data, env) {
        PointOpSound(db.data, env, c, op);
      }
      ApplySnoc(db.data, [], op);
      db.Commit([op]);
      return None;
    }

    // One atomic batch removes all and only the collection's records and its
    // metadata entry.
    method Drop(c: bytes) returns (err: Option<StoreError>)
      modifies db
      ensures old(Valid()) ==> Valid()
      ensures err == if ValidateCollection(env.rule, c) then None else Some(InvalidName)
      ensures db.commits == old(db.commits) + if err.None? then [db.data] else []
      ensures db.data == if err.None? then DropData(old(db.data), c) else old(db.data)
    {
      hide Sound;
      if !ValidateCollection(env.rule, c) {
        return Some(InvalidName);
      }
      if Sound(db.data, env) {
        DropSound(db.data, env, c);
      }
      var b := Keyenc.CollectionBounds(c);
      Keyenc.CollectionBoundsExact(c, []);
      var batch := [DeleteRange(b.lower, b.upper.value), Mutation.Delete(Keyenc.CollectionMetaKey(c))];
      DropBatch(db.data, c, b.lower, b.upper.value);
      db.Commit(batch);
      return None;
    }

    // Emits exactly the selected records, in the chosen direction, up to the
    // limit. No key within the bounds fails to decode.
    method Scan(c: bytes, o: ScanOptions) returns (err: Option<StoreError>, out: seq<Record>)
      ensures err == if !ValidateCollection(env.rule, c) then Some(InvalidName)
                     else if o.limit < 0 || StartsAfterEnd(o.start, o.end) then Some(InvalidOptions) else None
      ensures out == if err.None? then ScanSpec(View(db.data, c), o) else []
    {
      if !ValidateCollection(env.rule, c) {
        return Some(InvalidName), [];
      }
      if !ValidOptions(o) {
        return Some(InvalidOptions), [];
      }
      var lower, upper := Keyenc.ScanBounds(c, o.prefix, o.start, o.end);
      PhysicalOrder(db.data, c, o, lower, upper.value);
      if !Less(lower, upper.value) {
        EmptyBounds(db.data, lower, upper.value);
        return None, [];
      }
      var keys := db.IterKeys(lower, upper.value);
      out := Walk(c, o, keys);
      return None, out;
    }

    // One pass over the iterator's keys in the chosen direction.
    method Walk(c: bytes, o: ScanOptions, keys: seq<bytes>) returns (out: seq<Record>)
      requires ValidateCollection(env.rule, c) && o.limit >= 0
      requires var user := Sorted(SelectedKeys(View(db.data, c), o));
               |keys| == |user| && forall i :: 0 <= i < |user| ==> keys[i] == Keyenc.DataKey(c, user[i])
      ensures out == ScanSpec(View(db.data, c), o)
    {
      hide View, Directed, SelectedKeys, FirstRecords, ScanSpec, Keyenc.DecodeDataKeyView, Keyenc.DataKey,
        Keyenc.CollectionBase, ValidOptions;
      ghost var view := View(db.data, c);
      ghost var directed := Directed(view, o);
      DirectedIndex(view, o);
      FirstRecordsNone(view, o);
      out := [];
      var pos := if o.reverse then |keys| - 1 else 0;
      while 0 <= pos < |keys|
        invariant |out| <= |directed| == |keys|
        invariant pos == if o.reverse then |keys| - 1 - |out| else |out|
        invariant out == FirstRecords(view, o, |out|)
        invariant o.limit > 0 ==> |out| < o.limit
        decreases |directed| - |out|
      {
        ghost var key := directed[|out|];
        FirstRecordsStep(view, o, |out|);
        assert keys[pos] == Keyenc.DataKey(c, key);
        ViewAt(db.data, c, key);
        Keyenc.DecodeEncode(c, key);
        var decoded := Keyenc.DecodeDataKeyView(keys[pos]).value;
        var value := if o.keysOnly then [] else db.data[keys[pos]];
        out := out + [Record(decoded.userKey, value)];
        if o.limit > 0 && |out| >= o.limit {
          FirstRecordsAll(view, o, |out|);
          return;
        }
        pos := if o.reverse then pos - 1 else pos + 1;
      }
      FirstRecordsAll(view, o, |out|);
    }

    method ListCollections() returns (out: seq<bytes>)
      ensures out == Sorted(CollectionNames(db.data))
    {
      var prefix := Keyenc.CollectionMetaPrefix();
      CollectionsHaveUpper();
      var upper := Keyenc.NextPrefix(prefix);
      var keys := db.IterKeys(prefix, upper.value);
      NamesInOrder(db.data, keys, upper.value);
      out := TrimPrefixes(keys, prefix, Sorted(CollectionNames(db.data)));
    }
  }

  method TrimPrefixes(keys: seq<bytes>, prefix: bytes, ghost names: seq<bytes>) returns (out: seq<bytes>)
    requires |names| == |keys| && forall i :: 0 <= i < |names| ==> keys[i] == prefix + names[i]
    ensures out == names
  {
    out := [];
    for i := 0 to |keys|
      invariant out == names[..i]
    {
      assert (prefix + names[i])[|prefix|..] == names[i];
      out := out + [keys[i][|prefix|..]];
    }
  }

  lemma CollectionsHaveUpper()
    ensures Keyenc.NextPrefix(Keyenc.CollectionMetaPrefix()).Some?
  {
    Keyenc.NextPrefixFails(Keyenc.CollectionMetaPrefix());
    assert Keyenc.CollectionMetaPrefix()[0] == Keyenc.META_PREFIX;
  }

  lemma DropBatch(data: KV, c: bytes, lower: bytes, upper: bytes)
    requires Keyenc.CollectionBounds(c) == Keyenc.Bounds(lower, Some(upper))
    ensures ApplyAll(data, [DeleteRange(lower, upper), Mutation.Delete(Keyenc.CollectionMetaKey(c))])
            == DropData(data, c)
  {
    ApplyTwo(data, DeleteRange(lower, upper), Mutation.Delete(Keyenc.CollectionMetaKey(c)));
    forall p ensures Within(p, lower, Some(upper)) <==> IsPrefix(Keyenc.CollectionBase(c), p) {
      Keyenc.NextPrefixExact(lower, p);
    }
  }

  lemma ApplyTwo(m: KV, a: Mutation, b: Mutation)
    ensures ApplyAll(m, [a, b]) == ApplyOne(ApplyOne(m, a), b)
  {
    assert [a, b] == [a] + [b] && [a] == [] + [a];
    ApplySnoc(m, [], a);
    ApplySnoc(m, [a], b);
  }

  lemma EmptyBounds(data: KV, lower: bytes, upper: bytes)
    requires !Less(lower, upper)
    ensures InBounds(data, lower, upper) == {} && Sorted(InBounds(data, lower, upper)) == []
  {
    forall p | p in data ensures !Within(p, lower, Some(upper)) {
      if Within(p, lower, Some(upper)) {
        AtMostTransitive(upper, lower, p);
      }
    }
  }

  // Dropping removes one collection's records and entry, and no other's.
  lemma DropRemovesOnly(data: KV, c: bytes, c': bytes)
    ensures View(DropData(data, c), c') == if c' == c then map[] else View(data, c')
    ensures Keyenc.CollectionMetaKey(c') in DropData(data, c) <==> c' != c && Keyenc.CollectionMetaKey(c') in data
  {
    DropViews(data, c, c');
    MetadataKeysDistinct(c, c');
    MetadataIsOutside(c, Keyenc.Ascii("collection/") + c');
  }

  // A dropped collection that is created again holds only the new record.
  lemma DropThenPut(data: KV, c: bytes, k: bytes, v: bytes, now: bytes, meta: bytes)
    ensures View(EnsureData(DropData(data, c), c, now, meta)[Keyenc.DataKey(c, k) := v], c) == map[k := v]
  {
    var d := DropData(data, c);
    DropViews(data, c, c);
    EnsureKeepsViews(d, c, now, meta, c);
    ViewSet(EnsureData(d, c, now, meta), c, k, v);
  }

  lemma DropViews(data: KV, c: bytes, c': bytes)
    ensures View(DropData(data, c), c') == if c' == c then map[] else View(data, c')
  {
    OutsideView(data, c, c');
    MetadataKeepsView(Outside(data, c), Keyenc.Ascii("collection/") + c, [], c');
  }

  method Open(db: Db, env: Env, mustExist: bool) returns (err: Option<StoreError>, s: Store)
    ensures err == OpenError(db.data, env, mustExist)
    ensures s.db == db && s.env == env && fresh(s)
  {
    s := new Store(db, env);
    err := OpenError(db.data, env, mustExist);
  }
}
