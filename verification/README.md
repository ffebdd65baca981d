# pbl: a verified model

`pbl` is an ordered key-value store on one Pebble database. This project models
its storage layout, its write batches, its Bloom filter for deletes, its two
streaming decoders, and the `apply`, `import`, `scan`, `count`, `drop` and
export paths built on them, and proves when the optimisations can be seen from
outside and when they cannot.

## The results

- **Apply is a fold, and its commits are exact.** For every input, however it is
  cut into reads, and for every batch limit, hash and filter size, a successful
  `Commands.Apply` leaves the collection equal to the puts and deletes of the
  parsed stream applied one after another. Its commits are, one by one, the folds of the
  prefixes at the places where the batches are cut, and a failed run leaves
  the last of them. The cuts are those of a greedy rule that names no running
  state (`Cutting.CutsExactly`); a commit adds at most one batch (`Commands.ApplyCommit`)
  and a failure loses operations below both limits (`Commands.FailedApply`). The
  same holds for imports, under each policy (`Commands.ImportCommit`,
  `Commands.FailedImport`).
- **What the filter can change.** A dropped delete never changes the collection
  (`Skipping.DroppedIsNothing`), so the filter is invisible where runs succeed. It is
  *not* invisible where they fail: dropped deletes do not count towards a batch,
  so records can be lost that would have been kept. `Commands.FilterMovesCuts` is
  such an input, for every filter size and hash. For a given hash, failures leave
  the same contents for all limits, all places of failure and all puts that may
  follow, if and only if nothing is dropped (`Skipping.UnseenExactly`); for all
  hashes, if and only if every delete names a key stored at the start or put
  earlier (`Skipping.UnseenForAllHashes`).
- **The same input again.** Whatever a crash left of an apply, or of an import that
  does not fail on duplicates, running it again gives what it would have given;
  an import that fails on duplicates is then refused, once anything was committed,
  and changes nothing (`Commands.CrashThenApply`, `Commands.CrashThenImport`).
- **Export and restore is the identity.** Exporting as frames and applying them,
  in any database and under any name, overlays exactly the exported map; export
  fails exactly for an oversized record, restore exactly for an empty key or a
  database of another version, and then it changes nothing
  (`Commands.ExportThenRestore`). Export, drop and restore in one database gives the
  collection back, unless it holds an empty key (`Commands.ExportDropRestore`); no
  database that commands produce does (`Sessions.RestoreAlways`).
- **Import policies mean what they say**, key by key, whatever the batches
  (`Commands.ImportMeaning`, `Commands.ImportSucceeds`).
- **Every reachable state reopens.** Over whole sessions of commands from an empty
  database, however many of the latest commits each crash loses, no command is
  refused except one that insists on a database while there is none, and every
  committed state can be opened, records each collection that holds data, and holds
  no empty key; where nothing is lost, each collection is what the commands on it
  make of it one after another (`Sessions.Session`, `Sessions.Invoke`).
- **The decoders parse.** Each record delivered from the refilling buffer is what
  a parser of the whole byte string finds, and that parser accepts exactly the
  documented grammars, in both directions, and refuses the rest each for its own
  reason, down to the bytes (`Grammar.PutMeans`, `Grammar.KcatMeans`, `Lines.LineMeans`
  and the rows after them). Lengths may be signed or padded: a text
  is the printed one if and only if it is canonical (`Decimal.ReprintExactly`), and a
  put frame prints back to its own bytes if and only if both its lengths are
  (`Grammar.ReprintFrame`).
- **The key layout is exact.** Bounds select precisely the keys meant, order is
  user-key order, collections never overlap.

## How the program maps to the model

| file | models |
|---|---|
| `Bytes.dfy` | bytes, lexicographic order, sorted key sets |
| `Keyenc.dfy` | physical keys, unsigned LEB128 (section 7.6 of DWARF 5), bounds |
| `Pebble.dfy` | the database: one map, atomic commits, bounded iteration |
| `Sorting.dfy`, `Batches.dfy` | stable sorting, write batches, coalescing |
| `Bloom.dfy` | the delete filter, on real 64-bit words |
| `Views.dfy`, `Store.dfy` | collections as maps; the store's operations |
| `Decimal.dfy`, `Grammar.dfy`, `Lines.dfy`, `KeyParts.dfy` | formats as pure parsers and printers |
| `Reader.dfy`, `Decoders.dfy` | buffered reading and the streaming decoders |
| `Cutting.dfy` | where batches are cut, and the database at the cuts |
| `Folds.dfy`, `Skipping.dfy`, `Apply.dfy` | the apply pipeline, its naive meaning, and what its filter drops |
| `ImportFolds.dfy`, `Import.dfy` | the import pipeline and its naive meaning |
| `Export.dfy`, `Commands.dfy` | frame export; the commands end to end |
| `Sessions.dfy` | whole sessions of commands, with crashes |

Strings are byte sequences. Callbacks are turned inside out: a decoder is an
object whose `Next` does one turn of the decoder's loop, with that loop's local
variables as its fields, and `Scan` returns the records it would have passed on.
How many bytes a read yields, and whether the end comes with the last of them, is
left open, so each contract holds for every chunking. The field `Db.commits`
records the state at creation and after each commit, and a crash
(`Db.Lose`) drops any number of the latest ones. Three things are arbitrary
parameters: the hash, the rule for runes in collection names, and the strings
that parse as timestamps; so are the current time and the JSON entry written for a
new collection. Counters are unbounded integers; the places where 64-bit width
matters (varints, lengths, filter sizing) are explicit. `encoding/binary`,
`strconv`, `bufio` and `slices` are not part of the repository; their documented
behaviour is modelled. The stable sort is insertion by adjacent swaps, and
`Sorting.StableSortUnique` shows that any other stable sort gives the same result.

## Model

| member | source | states |
|---|---|---|
| Keyenc.NextPrefixLoop | internal/keyenc/keyenc.go:112-121 | the backwards in-place loop computes the prefix successor |
| Keyenc.NextPrefixExact | internal/keyenc/keyenc.go:112-121 | a string lies from b up to its successor if and only if it starts with b |
| Keyenc.NextPrefixFails | internal/keyenc/keyenc.go:112-121 | there is no successor if and only if every byte is 0xff |
| Keyenc.NextPrefixOfBase | internal/keyenc/keyenc.go:58-66 | a string that starts with a collection base always has a successor, so scan upper bounds are never nil |
| Keyenc.CollectionBoundsExact | internal/keyenc/keyenc.go:50-56 | the collection bounds hold exactly the collection's physical keys |
| Keyenc.ScanBounds | internal/keyenc/keyenc.go:69-82 | the bounds hold exactly the encodings of keys with the prefix in the half-open range, for all byte strings |
| Keyenc.UvarintRoundTrip | internal/keyenc/keyenc.go:27-33 | decoding an encoded length gives it and its width, whatever follows |
| Keyenc.UvarintPrefixFree | internal/keyenc/keyenc.go:42-48 | no encoded length is a prefix of another |
| Keyenc.UvarintExactly | internal/keyenc/keyenc.go:97-100 | decoding accepts exactly the varints of at most ten bytes, padded or not, whose weight fits in 64 bits, and gives that weight |
| Keyenc.DecodeEncode | internal/keyenc/keyenc.go:93-110 | decoding a physical key gives back collection and user key |
| Keyenc.DecodesExactly | internal/keyenc/keyenc.go:93-110 | a physical key decodes to a collection and key if and only if it is laid out as their data key, with a length that may be padded |
| Keyenc.EncodeDecode | internal/keyenc/keyenc.go:93-110 | re-encoding a decoded key gives the same bytes if and only if its length is not padded |
| Keyenc.PaddedLengthDecodes | internal/keyenc/keyenc.go:97-100 | a padded length is accepted, and re-encoding it differs |
| Keyenc.DataKeyInjective | internal/keyenc/keyenc.go:27-48 | a physical key belongs to one collection and one user key |
| Keyenc.LayoutOfKeys | internal/keyenc/keyenc.go:13-48 | the documented bytes of data keys, for one- and two-byte lengths, and of collection entries |
| Keyenc.BasesIsolated | internal/keyenc/keyenc.go:35-48 | no collection's base is a prefix of another's |
| Keyenc.OrderPreserved | internal/keyenc/keyenc.go:27-33 | physical order within a collection is user-key byte order |
| Bytes.LessMeans | internal/keyenc/keyenc.go:69-82 | byte order: the first difference decides, and a proper prefix comes first |
| Sorting.StableSort | internal/store/batch.go:91-91 | sorts in place and keeps equal keys in order |
| Sorting.StableSortUnique | internal/store/batch.go:91-91 | sortedness and stability determine the result |
| Sorting.DuplicatesMeasureDistinctness | internal/store/batch.go:158-165 | in any sorted sample, adjacent equals and distinct keys add up to the sample size |
| Batches.Batch.Put | internal/store/batch.go:21-36 | appends one put under the encoded key and accounts for it, with the cached base |
| Batches.Batch.Delete | internal/store/batch.go:38-52 | appends one delete under the encoded key and accounts for it |
| Batches.Batch.CollectionBase | internal/store/batch.go:54-64 | the cached base is the right one whenever the name is the same, and invalid names are refused |
| Batches.Batch.ShouldCoalesce | internal/store/batch.go:144-166 | true if and only if at most 112 of the first 128 operations are on distinct keys |
| Batches.Batch.Commit | internal/store/batch.go:66-120 | one atomic commit with the effect of all operations in order; counters untouched; what is written is coalesced exactly when the sample says so |
| Batches.CoalesceCorrect | internal/store/batch.go:91-112 | sorting stably and keeping the last of each run gives each key once, ascending, with its last operation |
| Batches.CoalescingPreservesMeaning | internal/store/batch.go:66-120 | a coalesced batch has one entry per distinct key and the same effect on every database |
| Batches.CoalescedUnique | internal/store/batch.go:99-112 | a batch has only one coalesced form |
| Pebble.ApplyAllAt | internal/store/batch.go:66-120 | after a batch each key holds what the last operation on it left |
| Bloom.SizingExact | internal/app/delete_bloom.go:19-28 | sizing never overflows, refuses exactly zero and counts that would overflow, and gives the least number of blocks |
| Bloom.DeleteBloom.Add | internal/app/delete_bloom.go:30-37 | the key joins the keys added, and the set bits stay exactly the bits of those keys |
| Bloom.DeleteBloom.MayContain | internal/app/delete_bloom.go:39-49 | true if and only if each of the key's six bits belongs to some added key, hence for every added key |
| Bloom.SpotMeans | internal/app/delete_bloom.go:30-57 | the bit of each probe, in closed form from the 64-bit hash |
| Bloom.PassesMeans | internal/app/delete_bloom.go:39-49 | a key passes if and only if each of its six bits is one of the six of an added key |
| Bloom.AfterProbesExact | internal/app/delete_bloom.go:30-37 | adding a key sets its six bits, clears none and sets no other |
| Bloom.AddedPass | internal/app/delete_bloom.go:39-49 | under every hash every added key passes, and an empty filter lets nothing through |
| Bloom.PassesMonotone | internal/app/delete_bloom.go:30-49 | no key stops passing when more are added |
| Bloom.SomeHashRejects | internal/app/delete_bloom.go:39-57 | whatever was added, some hash rejects any given other key |
| Bloom.MulHighInRange | internal/app/delete_bloom.go:52-57 | the block index is always in range |
| Stores.Open | internal/store/store.go:90-126 | which databases are refused, and why |
| Stores.OpensExactly | internal/store/store.go:109-124 | by record names and bytes: a database opens if and only if both required records are in order, or it is empty and need not exist; each refusal happens for exactly its own cause |
| Stores.SoundReopens | internal/store/store.go:374-404 | a sound database is never refused, and every collection with data is recorded |
| Stores.Store.Init | internal/store/store.go:148-170 | where there is a version record nothing is written and it decides the error; otherwise both required records are written in exactly one commit |
| Stores.InitMeans | internal/store/store.go:148-170 | record by record, what initialising leaves and reports |
| Stores.Store.EnsureCollection | internal/store/store.go:172-196 | initialises and records the collection, in exactly the commits that takes, none if both are done, keeping every one sound |
| Stores.EnsureErrorMeans | internal/store/store.go:172-178 | ensuring is refused for an invalid name first, then for another version, and for nothing else |
| Stores.EnsureMeans | internal/store/store.go:172-196 | record by record: what is there stays, and only what is missing is added, in as many commits |
| Stores.EnsureHistoryKeepsViews | internal/store/store.go:172-196 | those commits show every collection as it was, and end in the ensured database |
| Stores.Store.Put | internal/store/store.go:254-259 | records the collection, then stores the value in one commit, keeping every commit sound |
| Stores.Store.Has | internal/store/store.go:276-288 | membership in the collection's map |
| Stores.Store.Delete | internal/store/store.go:290-295 | removes the one physical key in one commit, keeping soundness |
| Stores.Store.Drop | internal/store/store.go:298-312 | exactly one commit removes the collection's range and its entry |
| Stores.DropRemovesOnly | internal/store/store.go:298-312 | dropping empties that collection and leaves every other's records and entry |
| Stores.DropThenPut | internal/store/store.go:297-312 | a recreated collection holds only the new record |
| Stores.Store.Scan | internal/store/store.go:314-356 | exactly the selected records, in the chosen direction, up to the limit; the undecodable branch is never taken |
| Stores.PhysicalOrder | internal/store/store.go:321-336 | the physical keys between the bounds are the encodings of the selected keys in the same order |
| Stores.ForwardScan | internal/store/store.go:330-336 | a forward scan emits the selected keys in ascending byte order |
| Stores.HalfOpen | internal/store/store.go:39-47 | a range includes its start and not its end; a start equal to the end is accepted and selects nothing |
| Stores.ScanValues | internal/store/store.go:339-349 | each record carries its stored value, or none where only keys are wanted |
| Stores.ReverseScan | internal/store/store.go:331-333 | a reverse scan emits exactly the reversal |
| Stores.LimitedScan | internal/store/store.go:350-353 | a limit keeps the first records of the same scan without one |
| Stores.CountIsCardinality | internal/app/commands_scan.go:68-72 | counting by scanning gives the size of the selection |
| Stores.Store.ListCollections | internal/store/store.go:198-214 | exactly the recorded names, in byte order |
| Stores.EnsureKeepsViews | internal/store/store.go:172-196 | initialising and recording change no collection's contents |
| Views.OutsideKeepsViews | internal/keyenc/keyenc.go:35-48 | a change inside one collection is invisible in every other |
| Decimal.ParseExactly | internal/codec/codec.go:196-199 | parsing gives n for exactly the texts that spell n: one or more digits, weighed by their places, alone or after a sign, within 64 bits |
| Decimal.ParsePrint | internal/codec/codec.go:438-440 | a printed length spells itself and parses to itself |
| Decimal.ReprintExactly | internal/codec/codec.go:321-327 | a text that parses as a length is the printed one if and only if it starts with a digit and has no leading zero, except as its only digit |
| Decimal.SignedLengthParses | internal/codec/codec.go:321-327 | two signed texts that parse, so parsing is not injective |
| Grammar.PutMeans | internal/codec/codec.go:230-289 | byte by byte, what "P keyLength valueLength", a newline and a body mean, for all lengths |
| Grammar.DeleteMeans | internal/codec/codec.go:230-302 | the same for "D keyLength" |
| Grammar.FrameRefusals | internal/codec/codec.go:263-302 | every other header is refused, each kind for its own reason |
| Grammar.FrameWithoutNewline | internal/codec/codec.go:236-247 | input without a newline is a truncated header, or too large |
| Grammar.FrameStepComplete | internal/codec/codec.go:230-302 | every text of the frame grammar is parsed to its record |
| Grammar.FrameStepSound | internal/codec/codec.go:230-302 | everything the frame parser accepts is a text of the grammar |
| Grammar.KcatMeans | internal/codec/codec.go:164-227 | byte by byte, what a key, a size and a payload mean, for all sizes |
| Grammar.KcatRefusals | internal/codec/codec.go:164-227 | every other record is refused, each kind for its own reason |
| Grammar.Tombstone | internal/codec/codec.go:196-203 | a key, a tab, "-1", a tab and a newline delete the key, whatever follows |
| Grammar.KcatStepComplete | internal/codec/codec.go:164-227 | every text of the kcat grammar is parsed to its record, the last newline being optional |
| Grammar.KcatStepSound | internal/codec/codec.go:164-227 | everything the kcat parser accepts is a text of the grammar |
| Grammar.PrintThenParse | internal/codec/codec.go:432-450 | a printed put parses back, whatever follows |
| Grammar.ReprintFrame | internal/codec/codec.go:230-302 | printing a parsed put frame gives its bytes back if and only if both length texts are canonical |
| Grammar.StreamBytes | internal/codec/codec.go:168-226 | byte totals grow record by record, lines count up, and on success the last total is the input length |
| Lines.LineMeans | internal/codec/codec.go:43-74 | a line ends at CR LF, at LF or at the end of the input, is delivered without its terminator, and is refused exactly above the limit |
| Lines.KVMeans | internal/codec/codec.go:76-85 | the first tab separates key and value; a line without one, or that begins with it, is refused |
| Lines.ImportLineMeans | internal/codec/codec.go:88-134 | what each import mode makes of a whole line |
| Lines.ImportKVMeans | internal/codec/codec.go:88-109 | a key-value line ended by CR LF imports its key and value, or is refused for an empty key |
| Lines.LongLine | internal/codec/codec.go:52-56 | a line above the limit is refused in every mode |
| Lines.ImportNumbered | internal/codec/codec.go:111-134 | lines are numbered consecutively, and keys by number are those numbers |
| Lines.KVRoundTrip | internal/codec/codec.go:414-430 | key-value output imports back to the same record if and only if the key and value meet the stated conditions |
| Lines.LineRoundTrip | internal/codec/codec.go:111-134 | a value on its own line comes back under itself or its line number, if and only if it meets the stated conditions |
| Lines.ImportKeysNonempty | internal/codec/codec.go:111-134 | the line readers never deliver an empty key |
| Lines.PrintInjective | internal/codec/codec.go:121-124 | line numbers used as keys never collide |
| KeyParts.ExtractKey | internal/codec/codec.go:365-388 | the loop over the fields computes the extraction that the next two rows describe |
| KeyParts.ExtractMeans | internal/codec/codec.go:365-388 | the first bad field decides the error; otherwise cutting the key at its separators gives the fields |
| KeyParts.SplitJoin | internal/codec/codec.go:388-388 | a joined key cut at its separators is the list of its parts |
| KeyParts.CompoundKeysUnambiguous | internal/codec/codec.go:372-387 | equal keys of equally many fields come from equal field values |
| Reading.BufReader.ReadSlice | internal/codec/codec.go:333-336 | a view up to the delimiter, the end or a full buffer, for any reads underneath |
| Reading.BufReader.ReadUntil | internal/codec/codec.go:329-357 | the content up to the delimiter or the end over any refills; too large if and only if the content exceeds the limit |
| Reading.BufReader.ReadFull | internal/codec/codec.go:204-208 | succeeds if and only if enough bytes are left, and delivers exactly those |
| Decoders.ApplyReader.Next | internal/codec/codec.go:164-261 | one record exactly as the pure parser finds it, with line and byte totals |
| Decoders.ApplyReader.NextKcat | internal/codec/codec.go:164-227 | the same for kcat; the key survives the reads that follow it |
| Decoders.ApplyReader.NextFrame | internal/codec/codec.go:230-302 | the same for frames |
| Decoders.LineReader.Next | internal/codec/codec.go:43-57 | a line is accepted if and only if it fits after trimming its carriage return |
| Decoders.ImportReader.Next | internal/codec/codec.go:88-134 | one import record exactly as the pure line parser finds it |
| Folds.FoldLastWins | internal/app/commands_import.go:303-331 | in the fold the last operation on a key decides |
| Folds.AcceptedMeans | internal/app/commands_import.go:303-307 | accepting stops exactly at the first empty key |
| Folds.PutsMeans | internal/app/commands_import.go:316-322 | puts are counted one by one |
| Folds.FoldAgain | internal/app/commands_import.go:303-331 | applying a stream again after any part of it gives what applying it once gives |
| Folds.EncodeEffect | internal/app/commands_import.go:313-322 | an encoded operation has the operation's effect on its collection and none elsewhere |
| Folds.BatchConfined | internal/app/commands_import.go:291-302 | a batch of one collection's operations changes nothing outside it |
| Cutting.CutsExactly | internal/app/commands_import.go:291-331 | the running rule cuts exactly at each first place where the operations since the last cut reach a limit |
| Cutting.BatchBounds | internal/app/commands_import.go:328-330 | a full batch has between one and the limit of operations, and was below both limits before its last |
| Cutting.FinalBatchBounds | internal/app/commands_import.go:291-302 | the same for every commit of a finished run, whose last batch need not be full |
| Cutting.PendingBounds | internal/app/commands_import.go:328-330 | what is pending is exactly the operations since the last cut, below both limits |
| Cutting.TrackedFlush | internal/app/commands_import.go:291-302 | committing the pending batch brings the collection to the state after everything accepted, and leaves the rest |
| Skipping.LiveKeysKnown | internal/app/commands_import.go:242-249 | the collection never holds a key that was neither stored at the start nor put since |
| Skipping.DroppedIsNothing | internal/app/commands_import.go:308-311 | a delete that the filter drops would have changed nothing |
| Skipping.DropSeen | internal/app/commands_import.go:308-330 | after any dropped delete one short put makes the contents that a failure leaves differ |
| Skipping.UnseenExactly | internal/app/commands_import.go:308-330 | for a given hash, failures leave the contents they would leave without the filter, for all limits, places and following puts, if and only if nothing is dropped |
| Skipping.UnseenForAllHashes | internal/app/commands_import.go:308-330 | the same over all hashes, if and only if every delete names a key stored at the start or put earlier |
| Skipping.DropMovesCuts | internal/app/commands_import.go:308-330 | wherever a delete is dropped, batches as large as the records before a later failure keep all of them without the filter and none with it |
| Applying.ApplyRun.Add | internal/app/commands_import.go:303-331 | one record: refused only for an empty key, otherwise folded and counted once; the cuts, the pending batch and the filter stay exactly those of the records accepted |
| Applying.ApplyRun.Flush | internal/app/commands_import.go:291-302 | everything accepted so far becomes committed |
| Applying.ApplyRecords | internal/app/commands_import.go:286-350 | the run accepts the stream up to the first bad record, has cut exactly where the rule says, and on success has committed the fold |
| ImportFolds.IgnoreFirstWins | internal/app/commands_import.go:136-155 | ignore keeps stored values and the first input value of each fresh key |
| ImportFolds.ReplaceLastWins | internal/app/commands_import.go:156-158 | replace keeps the last input value |
| ImportFolds.FailAcceptsDistinct | internal/app/commands_import.go:136-155 | fail accepts everything if and only if the keys are distinct and absent |
| ImportFolds.ImportAgain | internal/app/commands_import.go:136-158 | under ignore and replace, importing again after any part gives what importing once gives |
| ImportFolds.FailAgain | internal/app/commands_import.go:136-155 | under fail, nothing is accepted again once anything was imported |
| ImportFolds.TracksPut | internal/app/commands_import.go:154-158 | the keys seen stay exactly the pending keys |
| ImportFolds.TracksKnown | internal/app/commands_import.go:138-153 | a key is known if and only if it was seen since the flush or is stored |
| ImportFolds.AcceptedNotRefused | internal/app/commands_import.go:132-153 | no accepted record is refused where it stands, whatever the batches before it |
| ImportFolds.RefusedNext | internal/app/commands_import.go:132-153 | what follows the accepted records, if anything does, is refused |
| ImportFolds.AllPut | internal/app/commands_import.go:136-158 | unless duplicates are ignored every accepted record counts towards a batch |
| Importing.ImportRun.Add | internal/app/commands_import.go:132-163 | refused exactly for an empty key or, under fail, a key already present; otherwise folded, with cuts and pending batch exactly those of the records accepted |
| Importing.ImportRun.Flush | internal/app/commands_import.go:120-131 | everything accepted becomes committed and the keys seen are forgotten safely |
| Importing.ImportRecords | internal/app/commands_import.go:164-180 | the import accepts the lines up to the first refused or bad one, has cut exactly where the rule says, and on success has committed their fold |
| Exporting.WriteFramePut | internal/codec/codec.go:432-450 | writes one frame, or nothing exactly when key or value is too large |
| Exporting.Export | internal/app/output.go:61-72 | all records in key order as frames; fails exactly when one does not fit |
| Exporting.PrintedParses | internal/codec/codec.go:432-450 | a sequence of frames parses back to its records |
| Exporting.ExportMeansMap | internal/codec/codec.go:432-450 | the exported frames, parsed and folded over any map, overlay the exported map; all of them are accepted, or none if there is an empty key |
| Commands.Preload | internal/app/commands_import.go:242-249 | exactly the stored keys join the filter before the stream starts |
| Commands.Apply | internal/app/commands_import.go:198-264 | the command's whole effect on any database, for every input, limit, filter and hash, on success and on failure, with its statistics; its commits are exactly the folds at the cuts |
| Commands.FailedApply | internal/app/commands_import.go:286-350 | what a failed run keeps, and that it loses operations below both limits; where every delete names a known key, exactly the records an unfiltered run loses |
| Commands.ApplyCommit | internal/app/commands_import.go:291-331 | each commit adds the records between two cuts, with at least one and at most a batch of operations |
| Commands.CrashThenApply | internal/app/commands_import.go:286-350 | after a crash at any commit, applying the same input again, with any options, gives what the run would have given |
| Commands.FilterMovesCuts | internal/app/commands_import.go:308-330 | an input of a delete, a put and a malformed frame that leaves the put without the filter and nothing with it, for every size and hash |
| Commands.OptionsUnobservable | internal/app/commands_import.go:286-350 | limits, filters and hashes change neither success nor what a successful run leaves |
| Commands.ApplySucceeds | internal/app/commands_import.go:286-350 | a run succeeds if and only if its input is well formed and has no empty key; otherwise the first of these is reported |
| Commands.ApplyMeaning | internal/app/commands_import.go:286-350 | key by key, the last operation of the parsed input decides |
| Commands.Import | internal/app/commands_import.go:116-180 | the command's whole effect on any database, on success and on failure; its commits are exactly the imports at the cuts |
| Commands.FailedImport | internal/app/commands_import.go:116-180 | what a failed import keeps, and that it loses puts below both limits; only ignored duplicates are lost besides |
| Commands.ImportCommit | internal/app/commands_import.go:120-163 | each commit adds the records between two cuts, with at least one and at most a batch of puts |
| Commands.CrashThenImport | internal/app/commands_import.go:116-180 | after a crash at any commit, the same import gives what it would have given, or under fail is refused and changes nothing |
| Commands.ImportSucceeds | internal/app/commands_import.go:116-180 | when an import succeeds, for each policy, and what it reports otherwise |
| Commands.ImportMeaning | internal/app/commands_import.go:116-180 | key by key, what a successful import leaves, for any batch limits |
| Commands.Count | internal/app/commands_scan.go:47-80 | the number of selected keys |
| Commands.ExportThenRestore | internal/app/commands_import.go:286-350 | export and restore, in any two databases or one, under any two names, overlays exactly the exported map or changes nothing, reproduces it on an absent collection, and leaves other collections alone |
| Commands.ExportDropRestore | internal/app/commands_import.go:286-350 | export, drop and restore in one database gives the collection back, or leaves it empty exactly if it held an empty key, and leaves the others alone |
| Sessions.Invoke | internal/app/app.go:129-149 | only del and drop are refused, and only where there is no database; otherwise the command leaves and reports what it should, collection by collection, in exactly its commits, sound and without an empty key |
| Sessions.DoesMeans | internal/app/app.go:129-149 | what each command makes of each collection and of its entry, as a function of what was there |
| Sessions.Session | internal/store/store.go:90-126 | over any session, with any loss of latest commits at each step, every committed state reopens, records its collections and holds no empty key, and no command finds a corrupt database; where nothing is lost each collection is the fold of the commands on it |
| Sessions.RestoreAlways | internal/app/validation.go:64-74 | what sessions store can always be restored once exported, since no key is empty |

## Left out

- Pebble itself (log, memtables, compaction, filters, sync, flushing): the database is one map with atomic commits, used by one process at a time.
- The command line, exit codes, messages, timing, and output buffering; the directory checks of `OpenExisting`.
- JSON: reading NDJSON, looking up fields, formatting and joining values. `KeyParts.ExtractKey` starts from the fields' values.
- Unicode tables and timestamp syntax: arbitrary predicates.
- `hash/maphash`: an arbitrary function, so no claim about false positives.
- Reads that return no bytes without an end, and read or write errors other than the end of input.
- `import --format raw`, `get`, `get-many`, `exists`, `del-many` and `join`: single lookups, or the same batching loop again.
- Sorting.StableSort: inserts over the whole slice where the library inserts in blocks and merges; the result is the same by `Sorting.StableSortUnique`.
- Reuse of the entry slices across batches.
