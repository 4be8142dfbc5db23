# Verified model of finokit's hot-reload configuration, page tokens, listing, messaging and error codes

A Dafny model of the protocols and data algebra of finokit, with proofs about all their inputs
and all their interleavings. `dafny verify dfyconfig.toml` checks everything.

## What is modelled

- **Hot reload.** Three layers: an in-memory source that fans updates out over channels of
  capacity 100 (`SourceMemory`, `SourceRuns`), a loader that merges the sets of its sources into
  versioned snapshots and pushes values to path watchers over channels of capacity one
  (`LoaderCore`, `LoaderSets`, `LoaderMemory`, `LoaderRuns`, `LoaderObserver`), and the configuration object with its own
  watchers (`ConfigLayer`, `ConfigRuns`). The mutable objects are classes whose methods are
  proved against step functions; the step functions are then interleaved in transition systems
  whose atomic steps are the lock-protected sections, the non-blocking sends and the receives. A
  history of installed snapshots, deliveries and replacements is kept beside the state.
- **The data under it.** Trees with Get, Set and Del, printing and re-reading (`JsonValues`,
  `JsonPrint`, `JsonRoundTrip`,
  `JsonNumber`, `JsonText`), merging (`Merge`), both together (`ReaderTheorems`), `${NAME}` substitution (`EnvVars`), paths (`Paths`)
  and the environment source (`EnvSource`), version strings (`Versions`).
- **Page tokens.** JSON, sealing and Base64 (`Base64`, `Cursor`, `Page`), after sections 3.2, 4
  and 5 of RFC 4648, section 7 of RFC 8259 and sections 7.1 and 7.2 of NIST SP 800-38D.
- **Listing** of a bucket page by page (`Listing`), **acknowledge-once** messages with any number
  of goroutines (`Messaging`), and the **error-code** validators and generator (`ErrorCodes`).

Go strings are byte strings: one `char` stands for one byte.

## Where the code does less than expected

For each of these the exact condition is proved for all inputs or runs, or the instance is given
beside it.

- Sync never writes the loader's sets, so the next reload or event reverts it
  (`LoaderTheorems.SyncLeavesNoTrace`, `LoaderTheorems.SyncSurvivesIff`; a run: `LoaderWitnesses.SyncIsReverted`).
- An undrained watcher keeps the oldest pending item, and a stale item can keep a newer one out
  (`LoaderObserver.UndrainedIsCurrentIff`, `LoaderObserver.SentIsTakenIff`; a run:
  `LoaderWitnesses.StaleItemBlocksNewer`).
- An update between a baseline read and a registration is missed, in the loader
  (`LoaderObserver.RegistrationIsCurrentIff`; a run: `LoaderWitnesses.RegistrationMissesUpdate`), between
  a source and the loader (`SourceRuns.DrainedLoaderHoldsCurrentIff`, `SourceRuns.GapIsMissed`), and
  between the loader and the configuration (`ConfigTheorems.NothingInstalledNothingAnswered`; a run:
  `ConfigTheorems.LaggingBaseline`).
- A configuration watcher compares with its registration value for ever, so a return to it is not
  reported (`ConfigTheorems.LastAnswerIsCurrentIff`; a run: `ConfigTheorems.ReturnIsNotReported`).
- config.Sync can take the configuration back in time (`ConfigRuns.VersionDropsIff`; a run:
  `ConfigTheorems.SyncGoesBack`).
- A set that does not decode blocks all other sources (`Merge.UndecodableBlocksInstalls`).
- A watched string that starts with JSON text becomes that JSON value
  (`JsonValues.RebuiltIsSameIff`); deleting under a missing parent overwrites what stands in the way
  (`JsonValues.DelIsRemovalIff`).
- Positions that are not valid UTF-8 do not survive a token (`Cursor.KeysetRoundTrip`).
- The order of version strings is not transitive when numbers and other strings mix
  (`Versions.TransitiveUnlessTwoNumbers`); merging is not associative when a leaf meets an object
  (`Merge.AssociativeIff`), and a later empty value may not win (`Merge.LastSourceWinsIff`); substituting
  twice is not substituting once (`EnvVars.TwiceIsOnceIff`, `EnvVars.ChainTakesTwo`).
- A variable whose name contains a dot cannot be reached by its dotted path
  (`EnvSource.EntryIsReachableIff`).
- Two accepted error names can generate the same Go name (`ErrorCodes.PackageDistinctIff`).

## Model

| member | source | states |
|---|---|---|
| LoaderMemory.Memory.constructor | config/loader/memory/memory.go:469-495 | a new loader has one placeholder set per configured source and nothing installed |
| LoaderMemory.Memory.SourceEvent | config/loader/memory/memory.go:67-85 | the whole state after a source event: the set is stored even when merging fails; otherwise the merge of all sets is installed, with nil values when they do not parse |
| LoaderMemory.Memory.Reload | config/loader/memory/memory.go:140-162 | reload installs the merge of the sets under the clock reading, or changes nothing and fails when they do not merge or parse |
| LoaderMemory.Memory.Sync | config/loader/memory/memory.go:228-275 | Sync merges the answers of the readable sources, leaves `sets` alone, installs the merge with its values under the clock reading, or changes nothing when there is no merge or no values; it succeeds exactly when it installed and every source could be read |
| LoaderMemory.Memory.Append | config/loader/memory/memory.go:338-342 | source and set are appended together; the index handed to the watch goroutine is theirs |
| LoaderMemory.Memory.Load | config/loader/memory/memory.go:325-357 | Load skips unreadable sources, appends the others in order behind what is there and reloads; it succeeds exactly when every source was readable and the sets could be installed |
| LoaderSets.ReadableInOrder | config/loader/memory/memory.go:237-243 | what Sync merges is the answer of every source that could be read, each once, at strictly increasing source indexes, so that a later source is merged over an earlier one |
| LoaderSets.AllReadable | config/loader/memory/memory.go:237-243 | when every source could be read it is what each answered, at its index |
| LoaderSets.SyncIsReload | config/loader/memory/memory.go:140-162 | for every reader: when each source answers with the set the loader has of it, Sync and reload give the same state |
| LoaderSets.AppendAllInOrder | config/loader/memory/memory.go:328-346 | Load leaves sets and sources as they were and puts behind them those of the readable sources, in their order |
| LoaderSets.InitialIsEmpty | config/loader/memory/memory.go:469-495 | a new loader has installed nothing and has one placeholder without data for each source, in order |
| LoaderMemory.Memory.Update | config/loader/memory/memory.go:170-203 | each listed watcher older than the captured snapshot is offered the captured value at its path without blocking; the others are untouched |
| LoaderMemory.Memory.Register | config/loader/memory/memory.go:369-382 | a watcher is registered with the earlier baseline and the version that is current now |
| LoaderMemory.Memory.Remove | config/loader/memory/memory.go:384-389 | removal takes exactly that watcher out and keeps the order of the rest |
| LoaderMemory.Watcher.TrySend | config/loader/memory/memory.go:198-201 | the one-slot channel drops an item when it is full |
| LoaderMemory.Watcher.Receive | config/loader/memory/memory.go:421-437 | the update branch of the select: the item is taken; it is dropped when it is not newer or nil, otherwise its version is taken over, and it is reported exactly when its bytes differ |
| LoaderMemory.Watcher.Next | config/loader/memory/memory.go:398-440 | Next returns the first arrival that is newer than the watcher, not nil and different in bytes, having taken over the versions of those it skipped for equal bytes; a stopped watcher may take some items before the select takes the exit signal, and does take it when there is no item |
| LoaderMemory.Watcher.Stop | config/loader/memory/memory.go:442-453 | after Stop the exit channel is closed, however often it is called |
| LoaderCore.NextFinds | config/loader/memory/memory.go:398-440 | what the loop of Next computes: if one of the items it may take has a value with other bytes than the watcher holds and is newer than the watcher and all earlier items with a value, Next reports the first such item, moves to it and takes nothing behind it |
| LoaderCore.NextFindsNothing | config/loader/memory/memory.go:398-440 | if there is none, it takes all it may, reports nothing, keeps its value and ends at the newest version it saw; it has stopped exactly when the exit signal was there |
| LoaderCore.NewestIsLargest | config/loader/memory/memory.go:428-431 | that version is the largest among the watcher's and those of the items with a value |
| LoaderRuns.StepKeeps | config/loader/memory/memory.go:57-203 | every atomic step of loader, publishers and watchers keeps the invariant on sets, snapshot, history, publishers and watchers |
| LoaderRuns.ConsumeKeeps | config/loader/memory/memory.go:416-439 | one turn of Next only moves forward and only reports values of installed snapshots, whatever stale item it finds |
| LoaderTheorems.WatcherSeesInstalledSnapshots | config/loader/memory/memory.go:170-203 | in every interleaving accepted versions strictly increase, consecutive deliveries differ, and each delivery is the value at the path in an installed snapshot under that snapshot's version |
| LoaderTheorems.SetsFollowSources | config/loader/memory/memory.go:57-90 | in every run no two workers share an index, each stores at the index of its own source, the set there is the last one it got from it, the values are those of the snapshot, and events and reloads install the merge of the sets |
| LoaderTheorems.IndexesAreStable | config/loader/memory/memory.go:338-345 | a worker keeps its source and its index for good, and what it got is only added to |
| LoaderTheorems.SnapshotMergesSets | config/loader/memory/memory.go:140-160 | in runs without Sync the current snapshot is the merge of the sets it was installed from |
| LoaderTheorems.SyncsDoNotTouchSets | config/loader/memory/memory.go:228-264 | erasing every Sync from any run leaves sets, sources and workers as they are |
| LoaderTheorems.SyncLeavesNoTrace | config/loader/memory/memory.go:228-264 | from the first successful reload or event on, the whole state of the core is what it would have been without any earlier Sync, in every run |
| LoaderTheorems.SyncSurvivesIff | config/loader/memory/memory.go:228-264 | what a Sync installed stays until something else is installed; after that it is the current change set exactly when the sets merge to what the sources returned to the Sync |
| LoaderTheorems.BadSetBlocks | config/loader/memory/memory.go:72-77 | a set that cannot be merged blocks every later reload and event until its own source delivers another |
| LoaderTheorems.RemovedIsSpared | config/loader/memory/memory.go:384-389 | once a watcher is removed no publication that starts later, in any run, has anything for it, and the other watchers are untouched |
| LoaderWitnesses.SyncIsReverted | config/loader/memory/memory.go:230-264 | a run in which Sync brings B and the next reload brings A back |
| LoaderObserver.PacedWatcherIsSynchronous | config/loader/memory/memory.go:170-203 | refinement, for all runs: if at each installation the watcher has caught up and the versions grow, then whenever it has caught up its deliveries are the run of values at its path with equal neighbours collapsed and it holds the last; otherwise only the last is missing. Overlapping and late publications, other watchers, failing events and registrations may interleave |
| LoaderRounds.RoundsArePaced | config/loader/memory/memory.go:186-202 | draining the channel after each uninterrupted publication keeps that pace |
| LoaderRounds.DrainedWatcherIsSynchronous | config/loader/memory/memory.go:186-202 | so a watcher drained after each publication has delivered the changes of all values installed |
| LoaderObserver.RegisteredWatcherIsSynchronous | config/loader/memory/memory.go:359-440 | for a watcher registered at once in any reachable state, and any such run: it delivers exactly the changes installed since, and once it has caught up it holds the current value |
| LoaderObserver.RegistrationIsCurrentIff | config/loader/memory/memory.go:364-382 | when the registration comes later than the baseline read, nothing is delivered until something is installed, whatever is in flight; the watcher holds the current value exactly when the baseline has its bytes |
| LoaderObserver.SentIsTakenIff | config/loader/memory/memory.go:198-201 | after draining, a sent item has been taken over exactly when the send found the slot empty or holding an item of the same version, in every interleaving that sends the watcher nothing more |
| LoaderObserver.UndrainedKeepsOldest | config/loader/memory/memory.go:198-201 | in every run from any state in which a watcher takes nothing, its slot holds what was there or else the first item sent to it, and nothing else of the watcher changes |
| LoaderObserver.UndrainedIsCurrentIff | config/loader/memory/memory.go:416-439 | a watcher that takes its slot after such a run delivers at most that oldest item, the value of an installed snapshot, moves to its version, and is current exactly when the current value has that item's bytes, or those held before if the item is stale or nil |
| LoaderWitnesses.StaleItemBlocksNewer | config/loader/memory/memory.go:186-202 | a run with overlapping updates in which a stale item fills the slot, the newest publication is lost, and the drained watcher stays behind |
| LoaderWitnesses.RegistrationMissesUpdate | config/loader/memory/memory.go:364-382 | a run in which an update between the baseline read and the registration is never seen |
| LoaderClock.HistoryFollowsClock | config/loader/memory/memory.go:455-457 | with a non-decreasing clock, installed versions are non-decreasing clock readings and the current snapshot is the newest |
| LoaderClock.HistoryIncreases | config/loader/memory/memory.go:455-457 | with a strictly increasing clock they strictly increase |
| ConfigLayer.Config.RunStep | config/default.go:102-116 | the run loop installs a snapshot exactly when it is newer and parses, snapshot and values together |
| ConfigLayer.Config.Install | config/default.go:180-195 | Load and Sync replace the snapshot whatever its version, and the values only when it parses |
| ConfigLayer.Watcher.Next | config/default.go:295-314 | Next skips every item with the bytes of the registration value and answers with the first other one; the baseline never changes |
| ConfigLayer.Watcher.NextAll | config/default.go:295-314 | a user who keeps asking is answered once per item that differs from the registration value, in order |
| ConfigRuns.NextKeeps | config/default.go:102-116 | every step of the configuration keeps its snapshot no newer than the loader's and its log in order |
| ConfigRuns.VersionsOnlyDropOnOvertakenSync | config/default.go:90-270 | in every run with a non-decreasing clock the version grows strictly on run-loop installs and never drops on Load; a drop is always a Sync whose snapshot was read before another replacement |
| ConfigRuns.VersionDropsIff | config/default.go:175-196 | with a non-decreasing clock the version drops exactly when Sync puts in a snapshot it had read before the loader made any of the installations behind the version it replaces |
| ConfigRuns.NoSyncNoDrop | config/default.go:250-270 | in runs without config.Sync the configuration's version never drops |
| ConfigTheorems.SyncGoesBack | config/default.go:175-196 | a run in which Sync puts version 1 back over version 2 because its snapshot was taken before the lock |
| ConfigTheorems.UserSeesFilteredDeliveries | config/default.go:295-314 | in every run a user sees exactly the delivered items whose bytes are not the registration value's, each an installed value, in version order |
| ConfigTheorems.LastAnswerIsCurrentIff | config/default.go:302-305 | the last answer is the last delivered value exactly when that is not the registration value |
| ConfigTheorems.UserSeesChangesExceptReturns | config/default.go:272-314 | end to end, for any baseline the configuration had and any run in which the loader watcher can catch up: the user is told of the changes of the value except each return to the baseline |
| ConfigTheorems.NothingInstalledNothingAnswered | config/default.go:272-288 | until something more is installed a user is answered nothing, also when the configuration he took his baseline from lags behind the loader |
| ConfigTheorems.LaggingBaseline | config/default.go:272-288 | a run in which configuration and user have A, the loader B, and the loader watcher starts from B |
| ConfigTheorems.ReturnIsNotReported | config/default.go:302-305 | a run from A to B to A in which the loader delivers both changes, A is current, and the last thing the user heard is B |
| SourceMemory.Source.constructor | config/source/memory/memory.go:88-106 | a new source holds the stamped change set of the options' context, or an empty one in the encoder's format, and has no watchers |
| SourceRuns.CurrentIsLatest | config/source/memory/memory.go:20-35 | in every run what Read returns is the latest update, or the empty change set the source was made with |
| SourceRuns.UpdatesArePublished | config/source/memory/memory.go:57-82 | in every run the updates are the texts that were published, in order, each with its format and its checksum, and the last of them is current |
| SourceMemory.Source.Watch | config/source/memory/memory.go:37-49 | Watch adds one watcher with an empty channel and touches no other |
| SourceMemory.Source.Update | config/source/memory/memory.go:57-82 | a nil update changes nothing; any other becomes current with its checksum and is offered once to every watcher, a channel holding 100 dropping it |
| SourceMemory.Watcher.Next | config/source/memory/watcher.go:17-24 | Next takes the oldest buffered change set, or reports the stop, or waits; a stopped watcher may still return buffered items |
| SourceMemory.Source.Stop | config/source/memory/watcher.go:26-35 | the first Stop closes the watcher and unregisters it, later ones do nothing |
| SourceRuns.WatcherSeesUpdatesInOrder | config/source/memory/memory.go:57-82 | in every run what a watcher received and buffers is an in-order subsequence of the updates since registration, all of them exactly when none found a full channel, each with the checksum of its data |
| SourceRuns.BurstKeepsOldest | config/source/memory/memory.go:74-80 | of a burst nobody consumes the first hundred are kept |
| SourceRuns.UnregisteredGetsNothingMore | config/source/memory/watcher.go:26-35 | in any continuation after a watcher is unregistered it is offered nothing more and only takes what its channel still holds |
| SourceRuns.DrainedLoaderHoldsCurrentIff | config/loader/memory/memory.go:325-346 | source, watcher and loader composed, in every interleaving from the Read of Load on: once drained, and if the latest update was not dropped, the loader's set is the source's current change set exactly when nothing was published between the read and the registration, or something since, or what was read is current again |
| SourceRuns.GapIsMissed | config/loader/memory/memory.go:325-346 | in every continuation without a further publication the worker has stored nothing but what Load read, so an update between the read and the registration is missed for good |
| Versions.ParseFormat | config/loader/memory/memory.go:455-461 | every 64-bit integer survives printing as a version and parsing |
| Versions.DigitsAreDecimal | config/loader/memory/memory.go:455-457 | versions are printed in decimal, digit by digit, without leading zeros |
| Versions.LessIsLexicographic | config/loader/memory/memory.go:459-467 | other strings are ordered as Go orders them: the first byte that differs decides, and a proper beginning is smaller |
| Versions.NewerIsLater | config/loader/memory/memory.go:455-467 | on genVer output snapshotNewer is the order of the clock readings, and equal versions mean equal readings |
| Versions.NewerIsAsymmetric | config/loader/memory/memory.go:459-467 | on all strings snapshotNewer is irreflexive and asymmetric |
| Versions.TransitiveUnlessTwoNumbers | config/default.go:320-328 | it is transitive on a kind of triples exactly when not exactly two of the three strings are numbers |
| Versions.Cycle | config/loader/memory/memory.go:459-467 | 10, 9 and 5a form a cycle |
| Base64.EncodedShape | pagination/cursor.go:74 | unpadded Base64 has the length RFC 4648 gives it and contains no padding or line break |
| Base64.SymbolsAre | pagination/cursor.go:74 | the characters are those of the standard and the URL alphabet of RFC 4648, by their byte values |
| Base64.QuantumIsNumber | pagination/cursor.go:74 | the characters of up to three bytes are the base-64 digits of the number the bytes are |
| Base64.EncodeConcat | pagination/cursor.go:74 | whole quanta are encoded one after the other |
| Base64.DecodeEncode | pagination/cursor.go:74-85 | unpadded decoding inverts encoding for byte strings of every length, in both alphabets |
| Base64.DecodePaddedEncode | pagination/cursor.go:50 | padded decoding inverts padded encoding |
| Base64.PaddedNeedsFullQuanta | pagination/cursor.go:50-53 | a text whose length is no multiple of four is not padded Base64, so the fallback is reached |
| JsonText.SanitizeKeepsIff | pagination/cursor.go:65 | the JSON encoder keeps a string exactly when it is valid UTF-8 |
| JsonText.QuoteRoundTrip | pagination/cursor.go:65-94 | a JSON string literal reads back as the string with invalid bytes replaced, which is the string itself exactly when it is valid UTF-8 |
| JsonText.QuoteUnescaped | pagination/cursor.go:65 | printable ASCII other than quote, backslash and the characters of HTML is put between quotes as it is |
| JsonText.QuoteOfOne | pagination/cursor.go:65 | how the other ASCII characters are escaped |
| Cursor.MarshalIsBytes | pagination/cursor.go:65 | the printed cursor is a byte string |
| Cursor.MarshalLooks | pagination/cursor.go:20-24 | the JSON of a cursor: offset, then position unless it is empty, then binding |
| Cursor.TokenIsSealed | pagination/cursor.go:65-74 | a token is the Base64 of the nonce followed by the sealed cursor, and of nothing else |
| Cursor.AcceptedWasSealed | pagination/cursor.go:77-98 | if the cipher opens only what it sealed, every token either decoder accepts is a nonce and a sealed text that is the JSON of a cursor with the binding asked for |
| Cursor.MixedTokenIsRefused | pagination/cursor.go:104-134 | a sealed cursor with both an offset and a position is accepted as neither kind |
| Cursor.UnmarshalMarshal | pagination/cursor.go:65-94 | parsing a printed cursor gives its offset back and its texts as JSON keeps them |
| Cursor.OpenEncode | pagination/cursor.go:60-98 | for every lawful cipher, nonce and cursor with a non-negative 64-bit offset a token is issued, is not empty, and opens to that cursor |
| Cursor.OffsetRoundTrip | pagination/cursor.go:100-114 | an offset token gives its offset back exactly when the binding is valid UTF-8, and is never a keyset token |
| Cursor.KeysetRoundTrip | pagination/cursor.go:116-134 | a keyset token gives its position back exactly when position and binding are valid UTF-8; an empty position is refused; it is never an offset token |
| Cursor.InvalidPositionIsLost | pagination/cursor.go:116-134 | a position of the single byte 0xFF is issued as a token but does not come back |
| Cursor.TokenHasOneMeaning | pagination/cursor.go:77-134 | any non-empty string is accepted by at most one of the two decoders, for at most one binding, with a non-negative offset or a non-empty position |
| Cursor.PaddingDoesNotMatter | pagination/cursor.go:49-58 | a key yields the cipher built for that key, or the same refusal, padded and unpadded; exactly the 32-byte keys are accepted |
| Page.NormalizePageSize | pagination/page.go:8-21 | accepted exactly when not negative; the result is in 1..1000 and never exceeds a positive request |
| Page.BindingIsValid | pagination/cursor.go:136-144 | bindings are valid UTF-8, so the round trips apply to them |
| Page.ResolvedIsInRange | pagination/page.go:25-63 | whatever the token, a request that resolves has a page size in 1..1000 and an offset not below zero; the empty token starts at the beginning |
| Page.NextPageResolves | pagination/page.go:25-42 | the token issued for a query resolves for it to the offset it was issued for, for no other binding, and not as a keyset token |
| Page.NextKeysetResolves | pagination/page.go:46-63 | the same for keyset positions |
| Page.OffsetTokenIsBound | pagination/page.go:25-42 | the token issued for one query is refused, as either kind, for every query whose payload has another digest, and resolves to its offset for every query whose payload has the same, negative page sizes being refused after that |
| Page.KeysetTokenIsBound | pagination/page.go:46-63 | the same for keyset tokens and their positions |
| Page.NoPayloadNoPage | pagination/cursor.go:136-140 | a query whose scope cannot be printed is refused, whatever its token |
| JsonRoundTrip.ReadPrint | config/reader/json/values.go:38-45 | reading a printed JSON value gives it back and stops right after it, for every tree |
| JsonNumber.NumberRunIff | config/reader/json/values.go:38-45 | what is read as one number are exactly the numbers of section 6 of RFC 8259 |
| JsonPrint.KeysAscend | config/reader/json/values.go:72-75 | keys are printed in byte order |
| JsonPrint.ArraysLook | config/reader/json/values.go:72-75 | how arrays are printed |
| JsonPrint.ObjectsLook | config/reader/json/values.go:72-75 | how objects are printed |
| JsonPrint.SpaceIsSkipped | config/reader/json/values.go:38-45 | white space before a value is skipped |
| JsonValues.Values.Get | config/reader/json/values.go:47-49 | the walk along the path gives the tree found there, null where nothing is |
| JsonValues.Values.Set | config/reader/json/values.go:68-70 | afterwards Get finds the value at the path and below it, and at every path that neither leads to it nor lies below it what it found before |
| JsonValues.Values.Del | config/reader/json/values.go:51-66 | afterwards Get finds nothing at the path and what it found before at paths apart from it; only the key is gone exactly when the path has one key or its parent was there; an empty path empties the tree |
| JsonValues.GetAfterSet | config/reader/json/values.go:47-70 | what was set is what Get finds at the path and below it |
| JsonValues.SetChangesNothingElse | config/reader/json/values.go:68-70 | Set changes nothing at a path that neither contains nor extends the one set |
| JsonValues.SetTwice | config/reader/json/values.go:68-70 | the second of two Sets at one path decides |
| JsonValues.SetOfGet | config/reader/json/values.go:47-70 | setting what is there changes nothing |
| JsonValues.DelRemoves | config/reader/json/values.go:51-66 | after Del nothing is found at the path, and paths apart from it keep their values |
| JsonValues.DelIsRemovalIff | config/reader/json/values.go:51-66 | Del is plain removal exactly when the path has one key or its parent exists |
| JsonValues.DelLosesValue | config/reader/json/values.go:63-65 | deleting a.b.c where a is 5 replaces 5 by an object holding a null |
| JsonValues.SubstitutedIsRead | config/reader/json/values.go:38-45 | for every text and environment: references are replaced before the text is read, so if the filled text starts with a printed tree, that tree is the value |
| JsonValues.UnreadableIsRaw | config/reader/json/values.go:41-43 | if the filled text starts with no JSON value, the value is the text as it was before the substitution |
| JsonValues.VariableIsRead | config/reader/json/values.go:38-45 | a reference alone becomes what its variable spells, a number for a number |
| JsonValues.ReaderParses | config/reader/json/json.go:64-72 | Values gives that tree for JSON change sets, fails for other formats, and Get finds in it what it has at a path |
| JsonValues.RebuiltIsSameIff | config/reader/json/values.go:38-45 | a value rebuilt from its Bytes is the same exactly when it is not a string that starts with a JSON value, and is that value otherwise |
| JsonValues.SameBytesIff | config/reader/json/values.go:263-274 | two values have the same Bytes exactly when they are equal or one is a string that spells the other |
| JsonValues.UserGetsValueIff | config/default.go:302-312 | the value a user's Next returns is the watched one exactly when that is not a string starting with a JSON value |
| JsonValues.DottedBecomesNumber | config/reader/json/values.go:38-45 | a string such as 10.0.0.1 comes back as the number 10.0 |
| JsonValues.NumberAndItsText | config/reader/json/values.go:263-274 | a number and the string that spells it have the same Bytes and both come back as the number |
| Merge.Merge | config/reader/json/json.go:20-61 | the loop of Merge: nil and empty sets are skipped, an undecodable one fails the whole, and the fold of the others is encoded (Merge.MergedChangeSet says what that contains) |
| Merge.SkippedDoNotMatter | config/reader/json/json.go:24-30 | nil change sets and those with empty data can be left out anywhere |
| Merge.MergeAllIsMergeSources | config/reader/json/json.go:38-44 | merging change sets, each decoded by the codec of its format or else as JSON, is merging their trees; those that give no map change nothing, and without any the result is nil |
| Merge.LeafOfSources | config/reader/json/json.go:42-44 | for shape-compatible sources every path has the leaf of the last source defining it or, if mergo skips empty values, of the last source whose value is not empty |
| Merge.LastSourceWinsIff | config/reader/json/json.go:42-44 | the last source defining a path wins exactly when empty values replace, or its value is not empty, or no source has one that is not |
| Merge.FalseIsSkipped | config/reader/json/json.go:42-44 | whether a later false replaces an earlier true depends on that rule |
| Merge.MergedLeaf | config/reader/json/json.go:20-61 | so the leaf that wins at a path is that of the last change set that has one, or of the last whose leaf is not empty |
| Merge.MergedChangeSet | config/reader/json/json.go:47-58 | the change set Merge returns is JSON with the checksum of its data, and its data decode to the merged tree, whose leaf at every path is the winning one, for every codec that reads back what it printed |
| Merge.NothingMergesToNil | config/reader/json/json.go:24-30 | change sets without data, such as a new loader's placeholders, merge to nil |
| Merge.MergeFailsIff | config/reader/json/json.go:38-41 | the decoding of Merge fails exactly when some change set with data does not decode |
| Merge.EmptyValues | config/reader/json/json.go:42-44 | what counts as empty for mergo |
| ReaderTheorems.MergedIsParsed | config/reader/json/json.go:20-72 | change sets that decode are merged into one whose values are the merged tree with its references replaced |
| ReaderTheorems.GetFindsWinningLeaf | config/reader/json/json.go:20-72 | end to end: Get on the values of the merged change set finds at every path the leaf of the source that wins there |
| Merge.UndecodableBlocksInstalls | config/reader/json/json.go:38-41 | in the loader a change set that does not decode blocks every reload and every event of the other sources until its own source delivers another |
| Merge.AssociativeIff | config/reader/json/json.go:42-44 | merging three trees is associative exactly when no leaf of the middle one separates an object of the first from one of the last that lacks a key of it, at any depth (where empty values are skipped, an empty leaf or object separates nothing, and a key with an empty value counts as lacking if the first has more there) |
| Merge.OverlaysIff | config/reader/json/json.go:42-44 | merging a tree into another leaves only the second exactly when that has every key of the first, at any depth (and where empty values are skipped is not empty where the first is not) |
| Merge.CompatibleIsAssociative | config/reader/json/json.go:42-44 | it is associative for shape-compatible trees |
| Merge.ClashIsNotAssociative | config/reader/json/json.go:42-44 | a leaf between two objects makes it fail, so merging from scratch matters |
| EnvVars.SplitExists | config/reader/preprocessor.go:9 | every text splits into reference-free gaps and references |
| EnvVars.SplitIsUnique | config/reader/preprocessor.go:9 | in only one way, since references do not overlap |
| EnvVars.SubstitutionIsPiecewise | config/reader/preprocessor.go:8-23 | the substitution keeps the gaps of that split and replaces each reference once |
| EnvVars.IdentityOnSelfReferences | config/reader/preprocessor.go:8-23 | it is the identity when every name stands for its own reference |
| EnvVars.ScanFinds | config/reader/preprocessor.go:9 | a left-to-right scan finds a reference exactly when the text has one |
| EnvVars.NamesAre | config/reader/preprocessor.go:9 | names are letters, digits and underscores of ASCII, at least one |
| EnvVars.OneReference | config/reader/preprocessor.go:8-23 | a text that is one reference becomes the value of its variable |
| EnvVars.NoDollarNoChange | config/reader/preprocessor.go:8-23 | a text without a dollar sign stays as it is |
| EnvVars.TwiceIsOnce | config/reader/json/values.go:38-45 | for every text and environment: if the gaps and the values put between them make up no reference, other than to names that stand for their own, substituting twice is substituting once |
| EnvVars.TwiceIsOnceIff | config/reader/json/values.go:38-45 | and only then, whatever dollar signs, open references or circles of variables the values contain, unless a variable left by the first substitution has a value with its own reference and other text |
| EnvVars.SelfReferenceCanSettle | config/reader/json/values.go:38-45 | that exception is one: a value of both references and an empty value cancel out |
| EnvVars.PlainTwiceIsOnceIff | config/reader/json/values.go:38-45 | so with values free of dollar signs, exactly when gaps and values make up no reference at all, piece by piece |
| EnvVars.ExpandIsParse | config/reader/json/values.go:38-45 | with values that contain references, what one substitution leaves splits into the gaps and the splits of the values, when none ends in the beginning of a reference |
| EnvVars.FlatTwiceIsOnceIff | config/reader/json/values.go:38-45 | then the condition is that no variable of the text has a value with a reference, other than to names that stand for their own |
| EnvVars.ChainTakesTwo | config/reader/json/values.go:38-45 | a variable whose value is a reference to another takes two substitutions |
| EnvVars.NestedReference | config/reader/preprocessor.go:8-17 | a reference around a reference is resolved by the second pass, so the substitution is not idempotent |
| Paths.NormalizePath | config/config.go:218-225 | the loop of normalizePath |
| Paths.JoinSplit | config/config.go:221 | splitting at dots and joining gives the text back |
| Paths.NormalizedIsSplitOfJoin | config/config.go:218-225 | normalizing a non-empty path is splitting its dotted form |
| Paths.DottedAndSegmentedAgree | config/config.go:218-225 | dotted and segmented paths name the same value, and normalizing again changes nothing |
| Paths.JoinedIsSameIff | config/config.go:218-225 | joined segments normalize to themselves exactly when none contains a dot |
| EnvSource.Reverse | config/source/env/env.go:95-100 | the in-place loop reverses its array |
| EnvSource.ReadEntry | config/source/env/env.go:43-62 | one entry becomes its typed value nested under the lowercased segments of its name |
| EnvSource.NestHasOneLeaf | config/source/env/env.go:48-62 | that tree has exactly one leaf, at those segments |
| EnvSource.EntryIsReachableIff | config/source/env/env.go:43-62 | Get with the segments joined by dots finds the value exactly when the name contains no dot |
| EnvSource.Read | config/source/env/env.go:22-83 | the loop of Read: prefixes select and strip lines, each is cut at its first equals sign, and the trees are merged without override; a selected line without one is the panic |
| EnvSource.ReadSucceeds | config/source/env/env.go:43-44 | that panic needs a prefix to strip that contains the equals sign |
| EnvSource.EveryEntryIsThere | config/source/env/env.go:64-66 | when no entry's keys lead to another's, the leaves of the result are those of the entries and no others |
| EnvSource.EveryEntryIsRead | config/source/env/env.go:22-83 | and Get finds each entry's value at its keys |
| EnvSource.FirstValueWins | config/source/env/env.go:64-66 | of several entries with the same keys the first whose value is not empty decides |
| EnvSource.ValueOfText | config/source/env/env.go:54-60 | which texts are numbers, booleans and texts |
| EnvSource.WordsAre | config/source/env/env.go:57-58 | the words for true and false |
| EnvSource.KeysSpellName | config/source/env/env.go:45-46 | keys are what stands between the underscores of the lowercased name |
| EnvSource.SelectedIff | config/source/env/env.go:26-41 | which lines are read: all without prefixes; otherwise those that start with a prefix to strip, without the first that matches, and those that start with a prefix to keep |
| EnvSource.SelectedInOrder | config/source/env/env.go:25-62 | lines give their entries in order |
| Listing.CollectListPage | storage/client.go:156-184 | the whole channel is drained; the page is what precedes the first error, up to 1000 objects, continued after the 1000th; an error is reported exactly when it precedes that one; cancel is called at most once |
| Listing.List | storage/client.go:134-154 | List succeeds exactly when no such error occurs and returns no partial page otherwise |
| Listing.PageIsExact | storage/client.go:156-184 | a page is what is delivered first, up to 1000 objects and up to an error, continued after the 1000th; an error is reported exactly when it stands before the 1000th object with only objects before it, and it is that one |
| Listing.RestDoesNotMatter | storage/client.go:160-163 | nothing that arrives after the cancellation changes page or error |
| Listing.Continue | storage/client.go:140-145 | listing again after the k-th key leaves exactly the matches behind it |
| Listing.PagesListEverythingOnce | storage/client.go:134-184 | following the tokens ends after n / 1000 + 1 pages, the last alone not full, which together are every matching object once, in order |
| Listing.NoKeyTwice | storage/client.go:134-184 | even when the bucket changes between pages no key is listed twice and keys stay in order |
| Listing.StableObjectIsListed | storage/client.go:134-184 | and an object that is there throughout is listed |
| Listing.ReadIsWholeIff | storage/client.go:87-101 | an object is read whole exactly when neither its announced nor its delivered size exceeds the limit, and refused otherwise |
| Messaging.SubMessage.Finish | messaging/sub_message.go:45-88 | the first call with a callback fires it and sets done; a nil callback or a later call does nothing |
| Messaging.CompleteMessage | messaging/nats.go:248-257 | an open message that is to be acknowledged gets Nak after a failure and Ack after success |
| Messaging.JSONHandler | messaging/subscriber.go:12-32 | an undecodable payload is terminated and fails; otherwise the endpoint decides and the message is left alone |
| Messaging.Deliver | messaging/nats.go:182-229 | one delivery on one goroutine: with JetStream Term for an undecodable envelope or payload, Nak when the endpoint fails, Ack when it succeeds; nothing without |
| Messaging.ScriptGivesAnswers | messaging/nats.go:182-229 | the interleaved system, run without other goroutines, gives the answers of that code: Term, Nak or Ack |
| Messaging.StepKeepsOnce | messaging/sub_message.go:80-88 | every step of any number of goroutines keeps the flag equal to the history of successful swaps |
| Messaging.AtMostOneAnswer | messaging/sub_message.go:80-88 | in every interleaving at most one answer is sent, that of the one swap that succeeded; with Core NATS none |
| Messaging.FinishedIsAnswered | messaging/nats.go:182-229 | once a JetStream callback is over exactly one swap has succeeded; its answer is sent unless its goroutine still holds it; an undecodable envelope gets only Term |
| Messaging.ChoiceIsFinal | messaging/sub_message.go:80-88 | once a swap succeeded no later call changes the choice |
| Messaging.UntouchedFollowsResult | messaging/nats.go:248-257 | a message the handler leaves alone is answered by the handler's result |
| Messaging.FailureIsNakSuccessIsAck | messaging/nats.go:248-257 | in every run in which nobody calls Ack, Nak or Term the answer that wins is Nak after a failure and Ack after success, and one has won when the callback is over |
| Messaging.FinishedHasReturned | messaging/nats.go:182-229 | the callback is over only after its handler has returned |
| Messaging.OwnCallSettles | messaging/nats.go:222-228 | a call on the handler's own goroutine is settled before the handler returns |
| Messaging.DecodeFailureOnlyTerms | messaging/subscriber.go:17-26 | after a JSONEndpoint decode failure Term is the only answer ever sent, whatever is called afterwards, and it is sent if only the handler's own goroutine made calls before it returned; completeMessage adds no Nak |
| ErrorCodes.ValidateSpec | errorx/generator/generator.go:238-272 | accepted exactly when the ranges hold (application code 1 to 9, business code and error code 1 to 9999, status 0 or 100 to 599), names are exported identifiers and names and codes are distinct; otherwise the first offending definition and its fault are reported |
| ErrorCodes.ExportedIff | errorx/generator/generator.go:27 | error names are a capital letter followed by letters, digits and underscores of ASCII |
| ErrorCodes.PackageNameIff | errorx/generator/generator.go:28 | package names are letters, digits and underscores of ASCII, not starting with a digit |
| ErrorCodes.BlankIff | errorx/generator/generator.go:105-118 | blank is what has only ASCII white space |
| ErrorCodes.SeeDefinitions | errorx/generator/generator.go:286-299 | the inner loop accepts a file exactly when its names and full codes repeat none seen before |
| ErrorCodes.ValidateInputFiles | errorx/generator/generator.go:274-302 | accepted exactly when output files, error names and full codes are distinct over all files; a conflict that is reported is there |
| ErrorCodes.Generate | errorx/generator/generator.go:105-145 | generation goes ahead exactly when there are inputs, the package name is a Go name or blank, every file could be loaded, and both validators accept |
| ErrorCodes.FullCodeDecodes | errorx/generator/generator.go:520-522 | a full code decodes to its three parts, has nine digits and fits the int32 of errorx.Define |
| ErrorCodes.CodesDistinctIff | errorx/generator/generator.go:293-298 | full codes clash exactly when application code, business code and sub-code all agree |
| ErrorCodes.BuildGoCode | errorx/generator/generator.go:437-461 | for each definition its name and New, Wrap and Is followed by it are declared, in order |
| ErrorCodes.AcceptedNamesCollide | errorx/generator/generator.go:463-494 | the accepted names A and NewA both declare NewA |
| ErrorCodes.DeclaredDistinctIff | errorx/generator/generator.go:463-494 | those names are distinct exactly when no error name is New, Wrap or Is followed by another error name |
| ErrorCodes.PackageDistinctIff | errorx/generator/generator.go:146-153 | and so for all files of an accepted batch together, which share one package |

## Left out

- Timestamps, logging, tracing, counters and error texts: they change nothing the properties speak of.
- The clock, the environment, nonces, SHA-256, checksums and AES-GCM are parameters; of AES-GCM only that opening inverts sealing is assumed. The environment does not change during a run.
- Goroutine restarts and their one-second sleeps, timers, and anything about progress under an unfair scheduler: only safety and drained-queue statements are proved. A restarted watch is a new registration; the composition of source and loader follows one registration.
- Each watcher has one consumer; two goroutines calling Next of the same watcher are not modelled.
- In the step model versions are the clock readings themselves and Merge and Values are arbitrary functions that may fail; Versions.NewerIsLater and JsonValues.JsonReader connect them to the strings and the JSON reader.
- memory.Get's last resort of parsing the snapshot again when its values are nil: Values being a function, it can only fail again. A Watch before anything is loaded is a Sync followed by a Watch.
- config.Set and config.Del on the configuration's values are modelled on the tree (JsonValues.Values) but not as steps of the runs.
- Identifiers of memory-source watchers are assumed to be new.
- mergo is assumed to merge maps recursively, with override to replace and without it to fill in what is missing or empty. Whether with override an empty value (null, false, 0, the empty string, list or object) replaces one that is not empty is not assumed: both rules are modelled.
- EnvVars.TwiceIsOnceIff: where a variable left by the first substitution has a value with its own reference and other text, only EnvVars.TwiceIsOnce is claimed; the other direction is false there (EnvVars.SelfReferenceCanSettle).
- ErrorCodes.Generate: formatting and writing the files, which come after, can still fail.
- go-simplejson's Get, Set and Del are modelled from its documentation; its UnmarshalJSON reads the first JSON value of a text and ignores the rest, as json.Decoder.Decode does.
- JSON: numbers keep their text. The cursor parser takes compact objects with exact member names and string or integer values, which is all the encoder writes. Control characters may be printed with other escapes by other encoders; they read back the same. Invalid UTF-8 inside a literal that is read is kept.
- Lowercasing and letter classes are those of ASCII.
- The NATS, Redis, S3, GORM and file-notification drivers, the NATS configuration source and the other sources: what they do happens in libraries that are not part of this model. A listing is the sequence the channel delivers; S3 is assumed to list in byte order after an exclusive start key.
- storage Write, Remove, Upload and Download, the presigned URLs and the bucket choice: one check or one call each.
- The callbacks of a SubMessage are set only before its handler runs, as the subscription code does; a handler that replaces them is not modelled. InProgress sends no terminal answer and is left out, as are nil receivers, the nil endpoint, and the queue's subscription list, publishing and closing.
- The generated text other than its declared names, the order of the Markdown tables, file discovery and file writing in the generator, and the derivation of file names.
- Reflection-based scanning, XML, YAML and TOML decoding, secrets, mocks, and the addr, db, redis and errorx runtime helpers.
