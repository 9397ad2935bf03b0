# Verification model of the key-value storage engine

This project models the LSM storage engine of `internal/kvstore`: the memtable,
the write-ahead log, the sorted tables, the manifest, the negative cache, the
flush, the k-way heap compaction and crash recovery, taken as one system. The
engine exists to behave like a plain `map<string, string>` while its data moves
through log records, an in-memory map with tombstones, a list of sorted tables
and files named by a manifest. That is what is proved here, for every run, with
an I/O failure or a crash at any disk effect.

Verify everything with `dafny verify dfyconfig.toml`.

## How it is built

| file | what it holds |
|---|---|
| `Order.dfy` | the lexicographic order of keys, a strict total order |
| `Tables.dfy` | entries, tables, lookup in a table and newest-first lookup in a list of tables |
| `Memtables.dfy` | the memtable, and the sorted table a flush makes of it, sorted in place |
| `Heap.dfy` | `sstableItemHeap` with the sift-up and sift-down of Go's `container/heap` |
| `Merging.dfy` | the iterators and the merge: pop, advance, drain |
| `Compaction.dfy` | what the output of a compaction means, on values |
| `Operations.dfy` | writes, the plain map, and the memtable that a replay builds |
| `Lines.dfy`, `ManifestText.dfy`, `LogText.dfy` | the text of the MANIFEST and of the log, with `bufio.Scanner`, `strconv.Atoi` and the trimming functions written out |
| `Protocol.dfy` | disk, memory, crash images, the step relation and the invariant |
| `Recovery.dfy` | every step keeps the invariant, and so does every run |
| `Refinement.dfy` | what a client may rely on; the limit found |
| `Effects.dfy` | the disk effects of every call, in order |
| `World.dfy` | the disk as the code drives it: each effect may fail and is one protocol step |
| `Manifests.dfy` | the manifest in memory: the next id, and saving the list |
| `Outputs.dfy` | what the tables written by a flush or a compaction are good for |
| `Sessions.dfy` | what each write does to memtable, tables and operation count while nothing fails, and so how many tables there may be |
| `Store.dfy` | the store: `Set`, `Delete`, `Get`, flush, compaction, recovery |

The merge layer and the store are classes with loops, as in the source; the
slices and maps that the source reassigns are fields of type `seq`, `map` and
`set`, and what it sorts or reverses in place is an array. `maxMemtableEntries`
and `maxOperations` are symbolic (`maxEntries`, `maxOperations`), each at least
one.

The disk holds the log, the table files (partial or complete), the manifest and
the temporary manifest. Whatever has not been settled may be kept or lost by a
crash, each thing on its own: table files whose directory entry changed since
the last directory sync (nothing at all is assumed of these), every manifest
renamed over since then, and the log before a truncation until the next append.

The store's methods require and keep `Valid()`, which ties the fields to a ghost
run of the protocol that ends in the present state. So every disk effect of the
code is a step that the protocol allows, every state between two effects belongs
to the run, and the theorems about runs hold at each of them. A write becomes
part of the map when its record is appended; whatever fails later in the flush
or the compaction is reported, but the write stands. A ghost trace lists the
effects that were tried: every call is proved to try exactly the effects stated
for it, in that order, all of them if it succeeds and up to the first that fails
if it does not.

## What was found

**Reopening while a rename is not synced.** `clearDanglingSSTables` removes the
tables that the manifest it has just read does not name, before it syncs the
directory. If the program ends, killed or closed, after a manifest was renamed
into place but before that rename was synced, a failure of the machine may later
keep the removals and lose the rename. The manifest it brings back then names
missing files, if it named a table that the new one does not:
`Refinement.UnsyncedRenameHazard` is a run that gets there by a compaction. The
model follows the code and calls such a manifest broken.
`Refinement.CrashRecoversIff` says which crashes a disk survives, manifest by
manifest. `Refinement.ReopeningIsSafeIff` gives the exact condition on the disk
that a store is reopened on: every manifest whose rename is not settled names
only tables that the present manifest names. `Refinement.CarefulIffAlwaysReopens`
is the same for whole runs. The rename of a flush keeps that condition if memory
and disk agree on the list; a compaction's, which replaces every table, does not
(`Refinement.WhichRenamesCover`), and neither need a flush that is repeated after
its first save failed behind the rename. Nor does opening the store again always
help: a clearing that finds nothing to remove does not sync, so `Store.LsmStore.Open`
ends on a disk that survives every crash exactly if it removed a table or no
manifest was broken before. As far as tables and manifest go, the
program ending at any moment is safe without a failure of the machine.

**A record that is not written whole.** `log` writes the record, then its
newline, then syncs. `LogText.TornRecordReplays` gives the outcome of a call that
fails, or that a crash cuts short, at every character. Nothing written: all is
well. Everything written, and only the sync failed: the write counts at the next
opening, although the call was answered with an error. A part written: the next
opening fails with a decoding error, and no write acknowledged behind it can be
read back. Only a missing newline does no harm, so long as nothing more is logged
behind it; so for a program killed between the two writes the next opening
succeeds, and the first write logged after that makes the log unreadable.

## Model

| member | source | states |
|---|---|---|
| Order.LessIsLexicographic | internal/kvstore/sstable.go:52-54 | the order is the ascending one: a proper prefix first, otherwise by the first character that differs |
| Order.Trichotomy | internal/kvstore/sstable_item_heap.go:42 | of two different keys exactly one is less than the other |
| Order.Transitive | internal/kvstore/sstable_item_heap.go:42 | the key order is transitive |
| Tables.Get | internal/kvstore/sstable.go:138-150 | the linear scan answers as the first entry for the key says: value, deleted or not found |
| Tables.FindAt | internal/kvstore/sstable.go:138-150 | in a strictly sorted table the scan finds every entry |
| Tables.SortedUnique | internal/kvstore/sstable.go:39-56 | a strictly sorted table is determined by its lookups |
| Tables.NewestAt | internal/kvstore/lsm_tree_store.go:140-157 | the newest-first search answers from the table of least index that has the key |
| Memtables.NewTable | internal/kvstore/sstable.go:39-56 | the table made of a memtable is strictly sorted, has as many entries, and answers every key as the memtable does, tombstones included |
| Memtables.TableOfCellsIsUnique | internal/kvstore/sstable.go:42-55 | the order in which the map is walked does not show in the table |
| Memtables.Memtable.Get | internal/kvstore/memtable.go:38-48 | a deleted key and an unknown key give their two errors, any other its value |
| Heap.BeforeIsStrictTotalOrder | internal/kvstore/sstable_item_heap.go:36-43 | `Less` is a strict total order on items with distinct key and table |
| Heap.RootIsLeast | internal/kvstore/sstable_item_heap.go:32-59 | under heap order no item comes before the root |
| Heap.ItemHeap.Push | internal/kvstore/sstable_item_heap.go:49-51 | pushing keeps heap order and adds exactly the item |
| Heap.ItemHeap.Pop | internal/kvstore/sstable_item_heap.go:53-59 | popping keeps heap order and removes exactly one item, which comes before every item that differs from it in key or table |
| Merging.Iterator.Next | internal/kvstore/sstable_iterator.go:49-56 | moves one entry on, or refuses at the end with the index left on the last entry |
| Merging.Merger.constructor | internal/kvstore/lsm_tree_store.go:229-240 | the heap starts with exactly the first entry of every table that has one |
| Merging.Merger.TakeItem | internal/kvstore/lsm_tree_store.go:245-253 | consumes exactly one entry, before which no waiting entry comes, and the heap again holds the next entry of each table |
| Merging.Merger.NextKey | internal/kvstore/lsm_tree_store.go:243-273 | the item is the first of all heads, and every table loses its entry for that key and nothing else |
| Merging.FirstHeadIsNewest | internal/kvstore/sstable_item_heap.go:36-43 | the first head holds what newest-first lookup gives for its key, and no key below it is waiting |
| Merging.MergeRound | internal/kvstore/lsm_tree_store.go:243-282 | a round extends the merged entries by the newest entry of the next key and loses no other key |
| Compaction.CompactionPreservesMeaning | internal/kvstore/lsm_tree_store.go:219-326 | for every key the new list of tables shows the live value of the old one, whatever the tables |
| Compaction.CompactionShape | internal/kvstore/lsm_tree_store.go:275-320 | the output has strictly increasing keys across tables, no tombstones, full tables but the last, and as many tables as the entries need |
| Compaction.CompactionConserves | internal/kvstore/lsm_tree_store.go:243-300 | an entry is emitted exactly when it is an input entry that no newer table shadows and no tombstone |
| Compaction.CompactionIsDeterministic | internal/kvstore/lsm_tree_store.go:219-320 | the output is a function of the input tables |
| Operations.LastWriteWins | internal/kvstore/memtable.go:34-52 | the map holds a value for a key exactly when the last write to the key put it |
| Lines.ScanSplits | internal/kvstore/manifest.go:84-86 | any text is scanned into its lines, each without a carriage return it ends in, with or without a newline at the end |
| Lines.ScanJoinThen | internal/kvstore/write_ahead_log.go:91-93 | what was written line by line is scanned line by line, whatever follows |
| ManifestText.ParseManifest | internal/kvstore/manifest.go:81-110 | the loop and the reversal in place compute `Parse` |
| ManifestText.ParseMeans | internal/kvstore/manifest.go:81-110 | for any text, an error exactly if some line has no id; else the trimmed lines last first, and one more than the greatest id, or than zero, with wrap-around |
| ManifestText.TrimSpaceMeans | internal/kvstore/manifest.go:85 | trimming drops spaces only, and all that stand at either end |
| ManifestText.SpacesAre | internal/kvstore/manifest.go:85 | the 25 characters that Go counts as spaces |
| ManifestText.IdOfMeans | internal/kvstore/manifest.go:86-92 | the id is what is left of the line without spaces at either end, one `sst-` in front and one `.json` behind |
| ManifestText.AtoiAccepts | internal/kvstore/manifest.go:92 | for any text, a number exactly if it is digits, with or without a sign, in the range of an `int` |
| ManifestText.DigitsAreDecimal | internal/kvstore/manifest.go:92 | digits that stand for a number are its decimal digits behind zeros |
| ManifestText.WriteNames | internal/kvstore/manifest.go:147-152 | the loop from the end of the list writes the oldest table first |
| ManifestText.AtoiDecimal | internal/kvstore/manifest.go:92 | a decimal id parses to itself exactly if it fits an `int` |
| ManifestText.NamesDiffer | internal/kvstore/manifest.go:112-116 | different ids give different file names |
| ManifestText.ManifestRoundTrip | internal/kvstore/manifest.go:81-152 | writing a list and parsing it gives it back exactly if every id fits an `int`, with a next id one above the greatest, so above all, or the least `int` if the greatest was the last |
| LogText.WriteAheadLog.Log | internal/kvstore/write_ahead_log.go:146-182 | success appends the whole record and its newline; a failure of either write or of the sync leaves as much as was written until then |
| LogText.ReplayLog | internal/kvstore/write_ahead_log.go:91-131 | the loop over the lines computes the replayed memtable or the error |
| LogText.LoggedTextReplaysWhole | internal/kvstore/write_ahead_log.go:91-182 | any text written by `log` replays completely to the last-writer-wins fold |
| LogText.NextLineReplays | internal/kvstore/write_ahead_log.go:94-131 | behind any logged records, a line that is no record is an error, one whose checksum is not that of `op,key,value` ends the replay, any other takes its effect |
| LogText.AlteredRecordEndsReplay | internal/kvstore/write_ahead_log.go:107-122 | a logged record whose operation, key or value was altered is not replayed if the checksum tells the two texts apart |
| LogText.TornRecordReplays | internal/kvstore/write_ahead_log.go:91-182 | after a log call that got `n` characters far, and any acknowledged ones behind it, replay gives every acknowledged write if nothing or everything was written, with the failed write too in the latter case, and otherwise an error |
| Recovery.NewListAgrees | internal/kvstore/lsm_tree_store.go:188-204 | over a list that a flush or a compaction may install, the memtable and every log a crash may leave still show the map |
| Recovery.CommitKeeps | internal/kvstore/lsm_tree_store.go:163-171 | a logged write keeps recovery and memory in agreement, for the new map |
| Recovery.RenameKeeps | internal/kvstore/manifest.go:160-178 | after the rename, synced or not, every manifest that is not broken is whole and shows the map under every log that a crash may leave |
| Recovery.RemoveKeeps | internal/kvstore/lsm_tree_store.go:352-366 | removing a table that the manifest does not name keeps the map recoverable from every manifest that is not thereby broken |
| Recovery.StepKeeps | internal/kvstore/lsm_tree_store.go:101-208 | every step of the protocol keeps the invariant, for the map that the step makes |
| Recovery.RunKeeps | internal/kvstore/lsm_tree_store.go:49-337 | the invariant holds after every run |
| Refinement.RunRefinesMap | internal/kvstore/lsm_tree_store.go:101-337 | each step of any run is a step of the plain map or leaves it alone, and every read answers from that map |
| Refinement.ReadsLastWrite | internal/kvstore/lsm_tree_store.go:121-161 | a read finds a value exactly when the last logged write to the key put it |
| Refinement.NegativeCacheIsTransparent | internal/kvstore/lsm_tree_store.go:122-124 | in every reachable state a read gives the same result and error with and without the negative cache |
| Refinement.SettledIsKept | internal/kvstore/manifest.go:180-198 | after a directory sync a crash keeps manifest and tables, after an append the log |
| Refinement.UnsettledMayBeLost | internal/kvstore/sstable.go:82-124 | until then it may keep or undo truncation, rename, creation and removal, each on its own |
| Refinement.AnyCrashRecovers | internal/kvstore/lsm_tree_store.go:49-87 | after a crash anywhere whose manifest is not broken, that manifest names whole tables and the loaded store shows the map of the logged writes |
| Refinement.CrashDuringCall | internal/kvstore/lsm_tree_store.go:163-208 | a crash at any moment of a call, if the manifest it brings back is not broken, leaves the map of before the call or of after it |
| Refinement.ClientExpectsMap | internal/kvstore/lsm_tree_store.go:101-181 | no acknowledged write is lost, no write refused without leaving a record appears, and one cut short counts wholly or not at all |
| Refinement.TablesAreSafe | internal/kvstore/manifest.go:112-116 | the tables of the running store and of every manifest that is not broken are whole, and the next id is above that of every file |
| Refinement.CrashRecoversIff | internal/kvstore/lsm_tree_store.go:49-87 | the crashes that bring back a given manifest all recover the map exactly when the tables it names are on disk, whole and settled, which fails for the broken manifests only |
| Refinement.ReopeningIsSafeIff | internal/kvstore/lsm_tree_store.go:339-387 | whatever the clearing removes and wherever it is cut short, every crash recovers the map, exactly when every manifest whose rename is not settled names only tables that the present one names |
| Refinement.CarefulRunsAreSafe | internal/kvstore/manifest.go:180-211 | no manifest is ever broken if that condition held whenever the program ended |
| Refinement.CarefulIffAlwaysReopens | internal/kvstore/lsm_tree_store.go:339-387 | over a whole run, that condition holds at every end of the program exactly when every reopening in between is safe |
| Refinement.WhichRenamesCover | internal/kvstore/manifest.go:160-178 | the rename of a flush keeps that condition if memory and disk agree on the list; that of a compaction keeps it only if there was no table |
| Refinement.UnsyncedRenameHazard | internal/kvstore/lsm_tree_store.go:352-383 | a run after which the clearing of a reopening, and a crash, leave a manifest naming a missing table |
| World.World.TruncateLog | internal/kvstore/write_ahead_log.go:184-193 | the log is cut, then synced; the call fails if one of these does, with the log cut or not |
| World.World.CreateTable | internal/kvstore/sstable.go:82 | exclusive creation fails only by a fault or if the file exists |
| Manifests.ManifestFile.Save | internal/kvstore/manifest.go:127-211 | on success the list is in place, settled and adopted; on failure the memory keeps the old list and the disk has either |
| World.World.SaveTable | internal/kvstore/sstable.go:80-136 | on success the file is complete and settled; no other file changes |
| Store.LsmStore.Flush | internal/kvstore/lsm_tree_store.go:183-208 | a memtable that is not full is left alone, without I/O; a full one becomes the newest table under the next id, memtable and log become empty; a failure leaves that or the view unchanged, and the effects are those of the source in order |
| Store.LsmStore.MergeTables | internal/kvstore/lsm_tree_store.go:242-314 | the saved tables are the compaction of the merged ones, under new ids, with all older files untouched |
| Store.LsmStore.Compact | internal/kvstore/lsm_tree_store.go:210-337 | when due, the tables become their compaction under consecutive new ids, the old files are gone and the operations count from zero; otherwise nothing changes, without I/O; a failure leaves the old list or the compacted one, and the effects are those of the source in order |
| Store.LsmStore.Set | internal/kvstore/lsm_tree_store.go:163-181 | the map gains the pair unless logging fails; the call fails exactly if an effect does, which is the last one tried; on success memtable, tables and operation count are those that the write, the flush if full and the compaction if due make of them, on failure those of a part of this; of the negative cache only the key goes |
| Store.LsmStore.Delete | internal/kvstore/lsm_tree_store.go:101-119 | the map loses the key unless logging fails; the call fails exactly if an effect does, which is the last one tried; on success memtable, tables and operation count are those that the write, the flush if full and the compaction if due make of them, on failure those of a part of this; of the negative cache only the key goes |
| Store.LsmStore.Get | internal/kvstore/lsm_tree_store.go:121-161 | the answer fits the map and is the one that searching without the cache gives; a key in the cache or the memtable needs no I/O, any other opens the tables, newest first, up to the one that has it; only a table that cannot be read makes it fail |
| Store.LsmStore.ClearDangling | internal/kvstore/lsm_tree_store.go:339-387 | on success only the tables that the manifest names are left, unchanged; the directory is synced, so that nothing is unsettled or broken, exactly if a table was removed |
| Refinement.ClearedSurvives | internal/kvstore/lsm_tree_store.go:367-383 | after a clearing every crash recovers the map exactly if it removed a table or no manifest was broken |
| Store.LsmStore.Open | internal/kvstore/lsm_tree_store.go:49-87 | recovery replays the log, adopts the manifest with the next id above all, clears the dangling tables, shows the map of all logged writes and begins a session; it survives every crash exactly as `Refinement.ClearedSurvives` says, and fails exactly if an effect does |
| Sessions.WriteIsDeterministic | internal/kvstore/lsm_tree_store.go:163-337 | what a store holds after a write follows from what it held before; no map order and no heap shows |
| Sessions.CompactsWhenDue | internal/kvstore/lsm_tree_store.go:210-217 | a write leaves the memtable below its limit, and compacts exactly when the operations reach theirs |
| Sessions.LastCompactionCount | internal/kvstore/lsm_tree_store.go:275-320 | just after a compaction there are exactly as many tables as the entries left in them fill |
| Sessions.SessionTableBound | internal/kvstore/lsm_tree_store.go:183-217 | since the last compaction the new tables are paid for by the operations, M each, so at most ceil(O/M); with L entries left by it, at most ceil(L/M) + ceil(O/M) tables if the session began on none |
| Store.LsmStore.FewTables | internal/kvstore/lsm_tree_store.go:35-36 | the same of the real tables, after any writes without failure since the store was opened; five flushes with the shipped limits |

## Left out

- The HTTP handlers, the client, the server, the generator and the metrics: plumbing around the engine, which one caller uses at a time.
- JSON text and CRC-32: library code, taken as parameters; of the encoding it is asked that decoding undoes it, that a record is one plain line and, for torn records, that no part of a record is one, nor a part or the whole of one with another behind it; of the checksum nothing.
- LogText.TornRecordReplays: one call that is not whole, then acknowledged ones; what a second such call does behind the first is in `LogText.WriteAheadLog.Log` only.
- Refinement.ClientExpectsMap: a call of `log` that fails is taken to have left no record, although a failed sync leaves all of it (write_ahead_log.go:167-179) and the write then appears at the next opening; what a record left whole or in part does to the log is `LogText.TornRecordReplays`.
- Refinement.AnyCrashRecovers: the manifest that the crash brings back must not be broken, and the record being logged must be on disk whole or not at all, since the code does not recover otherwise (`Refinement.CrashRecoversIff`, `LogText.TornRecordReplays`).
- Store.LsmStore.FewTables: nothing is claimed after a call that failed behind its log record, until the store is opened again; such a call keeps the map but not the counts.
- Store.LsmStore.Get: whether a missing key is reported as deleted or as not found may change when a compaction drops its tombstone; only that both mean "no value" is kept.
- The disk of `Protocol` holds the log and the manifest as lists of operations and ids; that their texts carry exactly these lists is `LogText.LoggedTextReplaysWhole` and `ManifestText.ManifestRoundTrip`.
- `sort.Slice` is library code: `Memtables.Sort` is an insertion sort under the contract that fixes its result, whatever the algorithm.
- The heap is a sequence field that its methods reassign, since the Go slice grows by `append`; sharing of backing arrays is not modelled.
- The effects of `Effects`: opening and reading a table, opening and syncing a directory or a file count as one each, and so does a log append, whose three parts are in `LogText.WriteAheadLog.Log`; a log that cannot be decoded counts as one that cannot be read.
- The limit of `bufio.Scanner` on the length of a line, invalid UTF-8, and the overflow of the id counter in memory.
- The creation of the log and manifest files themselves, which is taken to be durable, and paths, permissions and log messages.
