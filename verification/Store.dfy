/** The store itself: the manifest, and `Set`, `Delete`, `Get`, flush,
    compaction and recovery on top of the memtable, the heap merge and the
    disk. */
module Store {
  import opened Tables
  import opened Memtables
  import opened Operations
  import opened Heap
  import opened Merging
  import opened Compaction
  import opened ManifestText
  import opened Protocol
  import opened Recovery
  import opened Refinement
  import opened World
  import opened Effects
  import opened Manifests
  import opened Sessions
  import opened Outputs

  datatype Outcome = Done | LogFailed | FlushFailed | CompactFailed

  class LsmStore {
    const maxEntries: nat
    const maxOperations: nat
    const world: World
    const mt: Memtable
    const manifest: ManifestFile
    var cache: set<string>
    var operations: nat

    /** What the store held when it was opened, and after each write since that
        did not fail. */
    ghost var session: seq<Image>
    ghost var writes: seq<Op>

    ghost function Memory(): Mem
      reads this, mt, manifest
    {
      Mem(mt.cells, manifest.tables, manifest.nextId, cache, operations)
    }

    ghost predicate Coupled()
      reads this, world`disk, world`mem, world`call, world`states, world`labels, mt, manifest
    {
      && maxEntries > 0 && maxOperations > 0
      && world.Valid() && manifest.world == world && world.mem == Some(Memory())
    }

    ghost predicate Valid()
      reads this, world, mt, manifest
    {
      Coupled() && world.call == NoCall
    }

    lemma Facts()
      requires Coupled()
      ensures Stored(world.disk, manifest.tables)
      ensures forall id :: id in world.disk.files ==> id < manifest.nextId
    {
      world.Running();
    }

    /** The tables that the store reads, newest first. */
    ghost function Sorted(): (ts: seq<Table>)
      ensures |ts| == |manifest.tables|
      reads world`disk, manifest`tables
    {
      Contents(world.disk.files, manifest.tables)
    }

    /** The memtable is exactly what replaying the log would give. */
    ghost predicate InStep()
      reads world, mt
    {
      mt.cells == Replay(world.disk.log)
    }

    /** What the store holds. */
    ghost function Held(): Image
      reads this, world`disk, mt, manifest
    {
      Image(mt.cells, Sorted(), operations)
    }

    /** The session is complete up to now, as it is until a write fails after
        it was logged. */
    ghost predicate InSession()
      reads this, world`disk, mt, manifest
    {
      && IsSession(session, writes, maxEntries, maxOperations)
      && session[|writes|] == Held()
    }

    constructor Attach(world: World, mt: Memtable, manifest: ManifestFile, maxEntries: nat, maxOperations: nat)
      ensures this.world == world && this.mt == mt && this.manifest == manifest
      ensures this.maxEntries == maxEntries && this.maxOperations == maxOperations
      ensures cache == {} && operations == |mt.cells|
      ensures InSession() && session == [Held()] && writes == []
    {
      this.world, this.mt, this.manifest := world, mt, manifest;
      this.maxEntries, this.maxOperations := maxEntries, maxOperations;
      cache, operations := {}, |mt.cells|;
      session := [Image(mt.cells, Contents(world.disk.files, manifest.tables), |mt.cells|)];
      writes := [];
    }

    /** While no write fails, the tables on disk never outnumber those that the
        last compaction left, or the store was opened on, by more than one for
        every `maxEntries` of `maxOperations`; a store opened on no tables has
        no more than that beyond what the entries of the last compaction fill. */
    lemma FewTables()
      requires Coupled() && InSession()
      ensures var last := session[LastCompaction(session)];
        && |manifest.tables| <= |last.tables| + CeilDiv(maxOperations, maxEntries)
        && (session[0].tables == [] ==>
              |manifest.tables| <= CeilDiv(Total(last.tables), maxEntries) + CeilDiv(maxOperations, maxEntries))
        && (maxEntries == 2000 && maxOperations == 10_000 ==> |manifest.tables| <= |last.tables| + 5)
    {
      SessionTableBound(session, writes, maxEntries, maxOperations);
    }

    /** Adds a write to the session. */
    ghost method Record(op: Op, before: Image)
      requires WriteStep(before, op, Held(), maxEntries, maxOperations)
      modifies this`session, this`writes
      ensures session == old(session) + [Held()] && writes == old(writes) + [op]
      ensures old(IsSession(session, writes, maxEntries, maxOperations) && session[|writes|] == before) ==> InSession()
    {
      session, writes := session + [Held()], writes + [op];
    }

    // ----- flush -----

    /** Turns a full memtable into the newest table. */
    method Flush() returns (ok: bool)
      requires Coupled() && world.call.Logged?
      modifies world, mt, manifest
      ensures Coupled() && Continues()
      ensures old(|mt.cells|) < maxEntries ==> ok && unchanged(world, mt, manifest)
      ensures old(|mt.cells|) >= maxEntries ==> manifest.nextId == old(manifest.nextId) + 1
      ensures ok && old(|mt.cells|) >= maxEntries ==>
                manifest.tables == [old(manifest.nextId)] + old(manifest.tables)
      ensures SameView() || Flushed(old(Held()), Held())
      ensures ok ==> FlushStep(old(Held()), Held(), maxEntries)
      ensures ok && old(|mt.cells|) >= maxEntries ==> world.disk.log == []
      ensures world.faults == old(world.faults) + if ok then 0 else 1
      ensures Performed(old(world.trace), world.trace,
                FlushPart(old(|mt.cells|) >= maxEntries, old(manifest.nextId)), ok)
    {
      hide IsRun, Inv, Committed;
      var n := mt.Len();
      if n < maxEntries {
        return true;
      }
      var id;
      ok, id := SaveMemtable();
      if ok {
        ok := AdoptTable(id);
      }
    }

    method SaveMemtable() returns (ok: bool, id: nat)
      requires Coupled() && world.call.Logged?
      modifies world, manifest`nextId
      ensures Coupled() && Continues()
      ensures Sorted() == old(Sorted()) && world.disk.log == old(world.disk.log)
      ensures id == old(manifest.nextId) && manifest.nextId == id + 1
      ensures ok ==> Stored(world.disk, [id] + manifest.tables)
      ensures ok ==> FlushList(world.disk, Memory(), [id] + manifest.tables)
      ensures world.faults == old(world.faults) + if ok then 0 else 1
      ensures Performed(old(world.trace), world.trace, TableSaves(id), ok)
    {
      hide IsRun, Inv, Committed;
      Facts();
      var sst := NewTable(mt);
      ghost var d, mem := world.disk, Memory();
      id := manifest.NextTableId();
      ok := world.SaveTable(id, sst);
      StoredOutside(d, world.disk, mem.tables, id);
      if ok {
        FlushReady(d, world.disk, mem, id, sst);
      }
    }

    /** Lists the new table, empties the memtable and cuts the log. */
    method AdoptTable(id: nat) returns (ok: bool)
      requires Coupled() && world.call.Logged?
      requires Stored(world.disk, [id] + manifest.tables) && FlushList(world.disk, Memory(), [id] + manifest.tables)
      modifies world, mt, manifest`tables
      ensures Coupled() && Continues()
      ensures SameView() || Flushed(old(Held()), Held())
      ensures ok ==> Flushed(old(Held()), Held()) && world.disk.log == []
      ensures ok ==> manifest.tables == [id] + old(manifest.tables)
      ensures world.faults == old(world.faults) + if ok then 0 else 1
      ensures Performed(old(world.trace), world.trace, ManifestSaves() + [LogCut, LogSync], ok)
    {
      hide IsRun, Inv, Committed, Contents, Represents, Stored, FlushList;
      ok := ListTable(id);
      if ok {
        ok := CutLog();
      }
    }

    method ListTable(id: nat) returns (ok: bool)
      requires Coupled() && world.call.Logged?
      requires Stored(world.disk, [id] + manifest.tables) && FlushList(world.disk, Memory(), [id] + manifest.tables)
      modifies world, mt, manifest`tables
      ensures Coupled() && Continues()
      ensures if ok then Flushed(old(Held()), Held()) else SameView()
      ensures ok ==> manifest.tables == [id] + old(manifest.tables)
      ensures ok ==> world.disk.manifest == manifest.tables && world.disk.olderManifests == {}
      ensures world.faults == old(world.faults) + if ok then 0 else 1
      ensures Performed(old(world.trace), world.trace, ManifestSaves(), ok)
    {
      hide IsRun, Inv, Committed, Contents, Represents, Distinct;
      FlushListContents(world.disk, Memory(), [id] + manifest.tables);
      ok := manifest.Add(id);
      if ok {
        mt.Clear();
        world.Note(AdoptFlush, Memory());
      }
    }

    method CutLog() returns (ok: bool)
      requires Coupled() && world.call.Logged? && mt.cells == map[]
      requires world.disk.manifest == manifest.tables && world.disk.olderManifests == {}
      modifies world
      ensures Coupled() && Continues() && world.disk.files == old(world.disk.files)
      ensures ok ==> world.disk.log == []
      ensures world.faults == old(world.faults) + if ok then 0 else 1
      ensures Performed(old(world.trace), world.trace, [LogCut, LogSync], ok)
    {
      hide IsRun, Inv, Committed;
      ok := world.TruncateLog();
    }

    // ----- compaction -----

    /** `newSSTableIterator` */
    method OpenTable(i: nat) returns (it: Option<Iterator>)
      requires i < |manifest.tables|
      requires manifest.tables[i] in world.disk.files && world.disk.files[manifest.tables[i]].Complete?
      modifies world`faults, world`trace
      ensures world.faults == old(world.faults) + if it.Some? then 0 else 1
      ensures it.Some? ==> fresh(it.value) && it.value.Valid() && !it.value.spent && it.value.Rest() == Sorted()[i]
      ensures world.trace == old(world.trace) + [TableRead(manifest.tables[i])]
    {
      hide StrictlySorted;
      var id := manifest.tables[i];
      var t := world.ReadTable(id);
      if t == None {
        return None;
      }
      assert t.value == Sorted()[i];
      var it' := new Iterator(t.value);
      return Some(it');
    }

    /** Opens an iterator on every table, newest first. */
    method OpenTables() returns (its: Option<seq<Iterator>>)
      requires Stored(world.disk, manifest.tables)
      modifies world`faults, world`trace
      ensures world.faults == old(world.faults) + if its.Some? then 0 else 1
      ensures its.Some? ==> fresh(its.value) && IteratorsOn(its.value, Sorted())
      ensures Performed(old(world.trace), world.trace, TableReads(manifest.tables), its.Some?)
    {
      hide StrictlySorted, Contents, IteratorsOn, TableReads;
      NoIterators();
      ghost var ts, before := Sorted(), world.trace;
      NoneYet(manifest.tables);
      var started: seq<Iterator> := [];
      while |started| < |manifest.tables|
        invariant |started| <= |manifest.tables| == |ts|
        invariant world.faults == old(world.faults)
        invariant world.trace == before + TableReads(manifest.tables[..|started|])
        invariant fresh(started) && IteratorsOn(started, ts[..|started|])
      {
        assert manifest.tables[|started|] in manifest.tables;
        ReadsNext(manifest.tables, |started|);
        var it := OpenTable(|started|);
        if it == None {
          ReadsSoFar(before, manifest.tables, |started|);
          return None;
        }
        IteratorsNext(started, ts[..|started|], it.value);
        assert ts[..|started| + 1] == ts[..|started|] + [ts[|started|]];
        started := started + [it.value];
      }
      assert ts[..|started|] == ts && manifest.tables[..|started|] == manifest.tables;
      return Some(started);
    }

    /** Saves one table of the output under the next id. */
    method SaveOutput(t: Table) returns (ok: bool, id: nat)
      requires Coupled() && world.call.Logged?
      modifies world, manifest`nextId
      ensures Coupled() && Continues()
      ensures id == old(manifest.nextId) && manifest.nextId == id + 1
      ensures OnlyTable(old(world.disk), world.disk, id) && id !in old(world.disk).files
      ensures ok ==> Look(world.disk.files, id) == Some(Complete(t)) && world.disk.unsettled == {}
      ensures world.faults == old(world.faults) + if ok then 0 else 1
      ensures Performed(old(world.trace), world.trace, TableSaves(id), ok)
    {
      hide IsRun, Inv, Committed;
      Facts();
      id := manifest.NextTableId();
      ok := world.SaveTable(id, t);
    }

    /** Saves the next table of the output; the tables before `lo` are left as
        they were in `d`. */
    method Emit(
      t: Table, ids: seq<nat>, ghost outs: seq<Table>, ghost lo: nat, ghost d: Disk, ghost before: seq<Effect>)
      returns (ok: bool, ids': seq<nat>)
      requires Coupled() && world.call.Logged? && lo <= manifest.nextId
      requires Above(d, world.disk, lo) && Written(world.disk, ids, outs, lo, manifest.nextId)
      requires Performed(before, world.trace, SavesUpTo(lo, manifest.nextId), true)
      modifies world, manifest`nextId
      ensures Coupled() && Continues() && lo <= manifest.nextId
      ensures Above(d, world.disk, lo)
      ensures ok ==> Written(world.disk, ids', outs + [t], lo, manifest.nextId)
      ensures Performed(before, world.trace, SavesUpTo(lo, manifest.nextId), ok)
      ensures world.faults == old(world.faults) + if ok then 0 else 1
    {
      hide IsRun, Inv, Committed, Performed, SavesUpTo, TableSaves;
      var id;
      ghost var e, m := world.disk, world.trace;
      ok, id := SaveOutput(t);
      SavedOneMore(before, m, world.trace, lo, id, ok);
      ids' := ids + [id];
      if ok {
        WrittenNext(e, world.disk, ids, outs, lo, id, t);
      }
    }

    /** The loop of `compact`: merge, drop the tombstones, and save a table
        whenever it is full, and the last one if it is not empty. */
    method MergeTables(merger: Merger) returns (ok: bool, ids: seq<nat>, ghost outs: seq<Table>)
      requires Coupled() && world.call.Logged? && merger.Valid()
      modifies world, manifest`nextId, merger`rest, merger.heap, merger.its
      ensures Coupled() && Continues()
      ensures Above(old(world.disk), world.disk, old(manifest.nextId))
      ensures ok ==> Written(world.disk, ids, outs, old(manifest.nextId), manifest.nextId)
      ensures ok ==> Compacted(outs, old(merger.rest), maxEntries)
      ensures world.faults == old(world.faults) + if ok then 0 else 1
      ensures manifest.nextId >= old(manifest.nextId)
      ensures Performed(old(world.trace), world.trace, SavesUpTo(old(manifest.nextId), manifest.nextId), ok)
    {
      hide IsRun, Inv, Committed, MergeState, IsMerge, Filling, Compacted, Written, Above, IsHeap, AllSorted, Heads;
      hide Performed, TableSaves, SavesUpTo;
      FillingStart(maxEntries);
      BeforeOutput(world.disk, manifest.nextId);
      ghost var all, lo, d, before := merger.rest, manifest.nextId, world.disk, world.trace;
      NoSaves(before, lo);
      ghost var done: Table := [];
      ok, ids, outs := true, [], [];
      var cur: Table := [];
      MergeStart(all);
      while |merger.heap.items| > 0
        invariant merger.Valid() && MergeState(all, done, merger.rest)
        invariant Coupled() && Continues() && manifest.nextId >= lo && world.faults == old(world.faults)
        invariant Above(d, world.disk, lo) && Written(world.disk, ids, outs, lo, manifest.nextId)
        invariant Performed(before, world.trace, SavesUpTo(lo, manifest.nextId), true)
        invariant Filling(done, outs, cur, maxEntries)
        decreases Total(merger.rest)
      {
        var e := merger.NextEntry(all, done);
        FillingNext(done, outs, cur, maxEntries, e);
        done := done + [e];
        if !e.cell.Tombstone? {
          cur := cur + [e];
        }
        if |cur| == maxEntries {
          ok, ids := Emit(cur, ids, outs, lo, d, before);
          if !ok { return; }
          outs, cur := outs + [cur], [];
        }
      }
      merger.NothingLeft(all, done);
      FillingDone(done, outs, cur, maxEntries, all);
      if |cur| > 0 {
        ok, ids := Emit(cur, ids, outs, lo, d, before);
        outs := outs + [cur];
      }
    }

    /** Merges all the tables and puts the result in their place. */
    method Compact() returns (ok: bool)
      requires Coupled() && world.call.Logged?
      modifies world, manifest, this`operations
      ensures Coupled() && Continues()
      ensures world.disk.log == old(world.disk.log)
      ensures old(operations) < maxOperations ==> ok && unchanged(world, manifest)
      ensures Sorted() == old(Sorted()) || Compacted(Reverse(Sorted()), old(Sorted()), maxEntries)
      ensures ok ==> CompactStep(old(Held()), Held(), maxEntries, maxOperations)
      ensures ok && old(operations) >= maxOperations ==>
                && CountsDown(manifest.tables, old(manifest.nextId), manifest.nextId)
                && forall id :: id in old(manifest.tables) ==> id !in world.disk.files
      ensures world.faults == old(world.faults) + if ok then 0 else 1
      ensures !ok ==> operations == old(operations)
      ensures Performed(old(world.trace), world.trace,
                if old(operations) < maxOperations then []
                else CompactEffects(old(manifest.tables), old(manifest.nextId), manifest.nextId), ok)
    {
      hide IsRun, Inv, Committed, Compacted, CompactionList, Contents, Reverse, CountsDown, Performed, CompactEffects;
      Facts();
      ghost var before, older, lo := world.trace, manifest.tables, manifest.nextId;
      NothingToDo(before);
      if operations < maxOperations {
        return true;
      }
      var ids;
      ok, ids := BuildOutput();
      if ok {
        ghost var m := world.trace;
        ok := ReplaceTables(ids);
        Compacts(before, m, world.trace, older, lo, manifest.nextId, ok);
      } else {
        BuildStops(before, world.trace, older, lo, manifest.nextId);
      }
    }

    /** Puts the output in the place of the old tables, and removes those. */
    method ReplaceTables(ids: seq<nat>) returns (ok: bool)
      requires Coupled() && world.call.Logged?
      requires Stored(world.disk, ids) && CompactionList(world.disk, manifest.tables, ids)
      requires Distinct(manifest.tables) && forall id :: id in manifest.tables ==> id in world.disk.files && id !in ids
      modifies world, manifest`tables, this`operations
      ensures Coupled() && Continues()
      ensures world.disk.log == old(world.disk.log)
      ensures Sorted() == old(Sorted()) || Sorted() == old(Contents(world.disk.files, ids))
      ensures ok ==> Sorted() == old(Contents(world.disk.files, ids)) && manifest.tables == ids
      ensures ok ==> forall id :: id in old(manifest.tables) ==> id !in world.disk.files
      ensures operations == if ok then 0 else old(operations)
      ensures world.faults == old(world.faults) + if ok then 0 else 1
      ensures Performed(old(world.trace), world.trace, ManifestSaves() + TableRemovals(old(manifest.tables)), ok)
    {
      hide IsRun, Inv, Committed, CompactionList, Contents, Stored, Performed, TableRemovals, ManifestSaves;
      var older := manifest.tables;
      ghost var before := world.trace;
      ok := AdoptOutput(ids);
      ghost var m := world.trace;
      if !ok {
        PerformedPart(before, m, ManifestSaves(), TableRemovals(older));
        return;
      }
      ok := RemoveTables(older);
      PerformedThen(before, m, world.trace, ManifestSaves(), TableRemovals(older), ok);
      if ok {
        operations := 0;
        world.Note(ResetCount, Memory());
      }
    }

    /** Writes the tables of the output and lists them newest first. */
    method BuildOutput() returns (ok: bool, ids: seq<nat>)
      requires Coupled() && world.call.Logged?
      modifies world, manifest`nextId
      ensures Coupled() && Continues()
      ensures world.disk.log == old(world.disk.log) && Sorted() == old(Sorted())
      ensures ok ==> Stored(world.disk, ids) && CompactionList(world.disk, manifest.tables, ids)
      ensures ok ==> Compacted(Reverse(Contents(world.disk.files, ids)), Sorted(), maxEntries)
      ensures ok ==> CountsDown(ids, old(manifest.nextId), manifest.nextId)
      ensures ok ==> forall id :: id in manifest.tables ==> id in world.disk.files && id !in ids
      ensures world.faults == old(world.faults) + if ok then 0 else 1
      ensures manifest.nextId >= old(manifest.nextId)
      ensures Performed(old(world.trace), world.trace,
                TableReads(manifest.tables) + SavesUpTo(old(manifest.nextId), manifest.nextId), ok)
    {
      hide IsRun, Inv, Committed, Written, Above, Compacted, CompactionList, Stored, Contents;
      hide Performed, CountsDown, Reverse;
      Facts();
      StoredSorted(world.disk, manifest.tables);
      ghost var d, mem, before := world.disk, Memory(), world.trace;
      var its := OpenTables();
      ghost var m := world.trace;
      if its == None {
        PerformedPart(before, m, TableReads(mem.tables), SavesUpTo(mem.nextId, mem.nextId));
        return false, [];
      }
      var merger := new Merger(its.value, Sorted());
      ghost var outs;
      ok, ids, outs := MergeTables(merger);
      PerformedThen(before, m, world.trace, TableReads(mem.tables), SavesUpTo(mem.nextId, manifest.nextId), ok);
      UntouchedBelow(d, world.disk, mem, mem.nextId);
      if ok {
        OutputReady(d, world.disk, mem, ids, outs, mem.nextId, manifest.nextId, maxEntries);
        ReverseTwice(outs);
        ids := NewestFirst(ids);
      }
    }

    method NewestFirst(ids: seq<nat>) returns (r: seq<nat>)
      ensures r == Reverse(ids)
    {
      var names := new nat[|ids|](i requires 0 <= i < |ids| => ids[i]);
      assert names[..] == ids;
      ReverseInPlace(names);
      r := names[..];
    }

    /** Saves the list of output tables as the manifest. */
    method AdoptOutput(ids: seq<nat>) returns (ok: bool)
      requires Coupled() && world.call.Logged?
      requires Stored(world.disk, ids) && CompactionList(world.disk, manifest.tables, ids)
      modifies world, manifest`tables
      ensures Coupled() && Continues()
      ensures world.disk.log == old(world.disk.log) && world.disk.files == old(world.disk.files)
      ensures manifest.tables == if ok then ids else old(manifest.tables)
      ensures ok ==> world.disk.manifest == ids && world.disk.olderManifests == {}
      ensures world.faults == old(world.faults) + if ok then 0 else 1
      ensures Performed(old(world.trace), world.trace, ManifestSaves(), ok)
    {
      hide IsRun, Inv, Committed;
      ok := manifest.Save(ids);
      if ok {
        world.Note(AdoptCompaction, Memory());
      }
    }

    /** Removes the files of tables that are no longer listed. */
    method RemoveTables(ids: seq<nat>) returns (ok: bool)
      requires Coupled() && world.call.Logged?
      requires world.disk.manifest == manifest.tables && world.disk.olderManifests == {}
      requires Distinct(ids) && forall id :: id in ids ==> id in world.disk.files && id !in manifest.tables
      modifies world
      ensures Coupled() && Continues()
      ensures world.disk.log == old(world.disk.log) && Sorted() == old(Sorted())
      ensures ok ==> forall id :: id in ids ==> id !in world.disk.files
      ensures world.faults == old(world.faults) + if ok then 0 else 1
      ensures Performed(old(world.trace), world.trace, TableRemovals(ids), ok)
    {
      hide IsRun, Inv, Committed;
      var i := 0;
      ghost var files, before := world.disk.files, world.trace;
      NoneYet(ids);
      while i < |ids|
        invariant 0 <= i <= |ids| && Coupled() && Continues() && world.faults == old(world.faults)
        invariant world.disk.log == old(world.disk.log) && world.trace == before + TableRemovals(ids[..i])
        invariant world.disk.manifest == manifest.tables && world.disk.olderManifests == {}
        invariant forall id :: Look(world.disk.files, id) == if id in ids[..i] then None else Look(files, id)
      {
        assert ids[i] in ids && ids[i] !in ids[..i];
        RemovalsNext(ids, i);
        ok := world.RemoveTable(ids[i]);
        if !ok {
          RemovalsSoFar(before, ids, i);
          KeptContents(files, world.disk.files, manifest.tables);
          return;
        }
        assert ids[..i + 1] == ids[..i] + [ids[i]];
        i := i + 1;
      }
      ok := true;
      assert ids[..i] == ids;
      KeptContents(files, world.disk.files, manifest.tables);
    }

    // ----- writes -----

    /** `Set` */
    method Set(k: string, v: string) returns (r: Outcome)
      requires Valid()
      modifies this, world, mt, manifest
      ensures Valid() && world.faults >= old(world.faults) && old(world.labels) <= world.labels
      ensures Committed(world.labels) == old(Committed(world.labels)) + if r == LogFailed then [] else [Put(k, v)]
      ensures world.Map() == if r == LogFailed then old(world.Map()) else old(world.Map())[k := v]
      ensures world.faults == old(world.faults) + if r == Done then 0 else 1
      ensures r == LogFailed ==> Held() == old(Held()) && world.disk == old(world.disk)
      ensures cache == old(cache) - if r == LogFailed then {} else {k}
      ensures r == Done ==> WriteStep(old(Held()), Put(k, v), Held(), maxEntries, maxOperations)
      ensures r == FlushFailed ==> FailedFlush(old(Held()).Write(Put(k, v)), Held(), maxEntries)
      ensures r == CompactFailed ==> FailedCompaction(old(Held()).Write(Put(k, v)), Held(), maxEntries, maxOperations)
      ensures r == Done ==> |mt.cells| < maxEntries && operations < maxOperations
      ensures r == Done && old(InStep()) ==> InStep()
      ensures session == old(session) + if r == Done then [Held()] else []
      ensures writes == old(writes) + if r == Done then [Put(k, v)] else []
      ensures r in {Done, LogFailed} && old(InSession()) ==> InSession()
      ensures r == LogFailed ==> world.trace == old(world.trace) + [LogAppend(Put(k, v))]
      ensures r != LogFailed ==>
                var was := old(Held()).Write(Put(k, v));
                Performed(old(world.trace) + [LogAppend(Put(k, v))], world.trace,
                  WriteEffects(|was.cells| >= maxEntries, was.operations >= maxOperations,
                    old(manifest.tables), old(manifest.nextId), manifest.nextId), r == Done)
    {
      hide IsRun, Inv, Committed, IsSession, WriteStep, FailedFlush, FailedCompaction, Contents, Replay, Fold;
      hide Performed, WriteEffects;
      var op := Put(k, v);
      var ok := LogWrite(op);
      if !ok {
        return LogFailed;
      }
      ghost var before, mem := Held(), Memory();
      operations := operations + 1;
      mt.Set(k, v);
      cache := cache - {k};
      assert Held() == before.Write(op) && Memory() == mem.Write(op);
      r := FlushAndCompact(op, before);
      if r == Done {
        Record(op, before);
      }
    }

    /** `Delete` */
    method Delete(k: string) returns (r: Outcome)
      requires Valid()
      modifies this, world, mt, manifest
      ensures Valid() && world.faults >= old(world.faults) && old(world.labels) <= world.labels
      ensures Committed(world.labels) == old(Committed(world.labels)) + if r == LogFailed then [] else [Op.Delete(k)]
      ensures world.Map() == if r == LogFailed then old(world.Map()) else old(world.Map()) - {k}
      ensures world.faults == old(world.faults) + if r == Done then 0 else 1
      ensures r == LogFailed ==> Held() == old(Held()) && world.disk == old(world.disk)
      ensures cache == old(cache) - if r == LogFailed then {} else {k}
      ensures r == Done ==> WriteStep(old(Held()), Op.Delete(k), Held(), maxEntries, maxOperations)
      ensures r == FlushFailed ==> FailedFlush(old(Held()).Write(Op.Delete(k)), Held(), maxEntries)
      ensures r == CompactFailed ==>
                FailedCompaction(old(Held()).Write(Op.Delete(k)), Held(), maxEntries, maxOperations)
      ensures r == Done ==> |mt.cells| < maxEntries && operations < maxOperations
      ensures r == Done && old(InStep()) ==> InStep()
      ensures session == old(session) + if r == Done then [Held()] else []
      ensures writes == old(writes) + if r == Done then [Op.Delete(k)] else []
      ensures r in {Done, LogFailed} && old(InSession()) ==> InSession()
      ensures r == LogFailed ==> world.trace == old(world.trace) + [LogAppend(Op.Delete(k))]
      ensures r != LogFailed ==>
                var was := old(Held()).Write(Op.Delete(k));
                Performed(old(world.trace) + [LogAppend(Op.Delete(k))], world.trace,
                  WriteEffects(|was.cells| >= maxEntries, was.operations >= maxOperations,
                    old(manifest.tables), old(manifest.nextId), manifest.nextId), r == Done)
    {
      hide IsRun, Inv, Committed, IsSession, WriteStep, FailedFlush, FailedCompaction, Contents, Replay, Fold;
      hide Performed, WriteEffects;
      var op := Op.Delete(k);
      var ok := LogWrite(op);
      if !ok {
        return LogFailed;
      }
      ghost var before, mem := Held(), Memory();
      operations := operations + 1;
      mt.Delete(k);
      cache := cache - {k};
      assert Held() == before.Write(op) && Memory() == mem.Write(op);
      r := FlushAndCompact(op, before);
      if r == Done {
        Record(op, before);
      }
    }

    /** Logs a write. From here on it counts, whatever fails later. */
    method LogWrite(op: Op) returns (ok: bool)
      requires Valid()
      modifies world
      ensures world.Valid() && world.faults >= old(world.faults) && old(world.labels) <= world.labels
      ensures Committed(world.labels) == old(Committed(world.labels)) + if ok then [op] else []
      ensures world.Map() == if ok then Write(old(world.Map()), op) else old(world.Map())
      ensures ok ==> world.mem == Some(Memory().Write(op)) && world.call == Logged(op)
      ensures world.disk == if ok then old(world.disk).Append(op) else old(world.disk)
      ensures ok ==> Replay(world.disk.log) == WriteCells(Replay(old(world.disk).log), op)
      ensures !ok ==> Valid()
      ensures world.faults == old(world.faults) + if ok then 0 else 1
      ensures Held() == old(Held())
      ensures world.trace == old(world.trace) + [LogAppend(op)]
    {
      hide IsRun, Inv, Committed, Replay, Fold, WriteCells, Operations.Write, Contents;
      ReplaySnoc(Committed(world.labels), op);
      ReplaySnoc(world.disk.log, op);
      assert Committed(world.labels) + [] == Committed(world.labels);
      world.Begin(op);
      ok := world.AppendLog(op);
    }

    /** The end of `Set` and `Delete`. */
    method FlushAndCompact(ghost op: Op, ghost before: Image) returns (r: Outcome)
      requires Coupled() && world.call == Logged(op) && Held() == before.Write(op)
      modifies this`operations, world, mt, manifest
      ensures Valid() && r != LogFailed && world.faults >= old(world.faults)
      ensures old(world.labels) <= world.labels && Committed(world.labels) == old(Committed(world.labels))
      ensures world.faults == old(world.faults) + if r == Done then 0 else 1
      ensures r == Done ==> WriteStep(before, op, Held(), maxEntries, maxOperations)
      ensures r == FlushFailed ==> FailedFlush(before.Write(op), Held(), maxEntries)
      ensures r == CompactFailed ==> FailedCompaction(before.Write(op), Held(), maxEntries, maxOperations)
      ensures r == Done ==> |mt.cells| < maxEntries && operations < maxOperations
      ensures r == Done && old(InStep()) ==> InStep()
      ensures Performed(old(world.trace), world.trace,
                WriteEffects(old(|mt.cells|) >= maxEntries, old(operations) >= maxOperations,
                  old(manifest.tables), old(manifest.nextId), manifest.nextId), r == Done)
    {
      hide IsRun, Inv, Committed, Compacted, Represents, Contents, Reverse, Performed, CompactEffects, FlushEffects;
      ghost var was, full, due := world.trace, |mt.cells| >= maxEntries, operations >= maxOperations;
      ghost var ids, id := manifest.tables, manifest.nextId;
      var ok := Flush();
      r := if ok then Done else FlushFailed;
      if ok {
        ghost var flushed, m := Held(), world.trace;
        ok := Compact();
        r := if ok then Done else CompactFailed;
        PerformedThen(was, m, world.trace, FlushPart(full, id), CompactPart(full, due, ids, id, manifest.nextId), ok);
        assert ok ==> FlushStep(before.Write(op), flushed, maxEntries);
      } else {
        PerformedPart(was, world.trace, FlushPart(full, id), CompactPart(full, due, ids, id, manifest.nextId));
      }
      world.End(op);
    }

    // ----- reads -----

    /** `Get`: the answer fits the map, and is the one that looking in the
        memtable and then in every table gives. */
    method Get(k: string) returns (r: Option<Answer>)
      requires Valid()
      modifies this`cache, world
      ensures Valid() && world.faults >= old(world.faults) && old(world.labels) <= world.labels
      ensures Committed(world.labels) == old(Committed(world.labels)) && world.disk == old(world.disk)
      ensures r.Some? ==> r.value == AnswerOf(Lookup(mt.cells, Sorted(), k)) && Fits(world.Map(), k, r.value)
      ensures world.faults == old(world.faults) + if r.Some? then 0 else 1
      ensures old(k in cache || k in mt.cells) ==> r.Some? && world.trace == old(world.trace)
      ensures old(k !in cache && k !in mt.cells) ==> Scanned(k, old(world.trace), r.Some?)
      ensures cache == old(cache) + if r == Some(KeyNotFound) then {k} else {}
      ensures Held() == old(Held()) && (old(InSession()) ==> InSession())
    {
      hide IsRun, Inv, Committed, IsSession, Scanned, Contents;
      world.Running();
      AnswersFit(world.disk, Memory(), k, world.Map());
      var a := KeyNotFound;
      if k !in cache {
        a := mt.Get(k);
        if a == KeyNotFound {
          r := Search(k);
          if r == None {
            return;
          }
          a := r.value;
          if a == KeyNotFound {
            cache := cache + {k};
          }
        }
      } else {
        assert cache + {k} == cache;
      }
      world.Answered(k, a);
      r := Some(a);
    }

    /** The tables opened since `before` are the newest ones, in order, and all
        of them but the last do not have `k`. A search that ends well has come
        to a table that has it, or to the end. */
    ghost predicate Scanned(k: string, before: seq<Effect>, ok: bool)
      reads world`disk, world`trace, manifest`tables
    {
      exists n: nat :: n <= |manifest.tables| && ScannedTo(k, before, ok, n)
    }

    ghost predicate ScannedTo(k: string, before: seq<Effect>, ok: bool, n: nat)
      requires n <= |manifest.tables|
      reads world`disk, world`trace, manifest`tables
    {
      && world.trace == before + TableReads(manifest.tables[..n])
      && (forall i :: 0 <= i < n - 1 ==> Find(Sorted()[i], k) == None)
      && (ok ==> n == |manifest.tables| || (n > 0 && Find(Sorted()[n - 1], k).Some?))
    }

    /** The loop of `Get` over the tables, newest first. */
    method Search(k: string) returns (r: Option<Answer>)
      requires Stored(world.disk, manifest.tables)
      modifies world`faults, world`trace
      ensures world.faults == old(world.faults) + if r.Some? then 0 else 1
      ensures r.Some? ==> r.value == AnswerOf(Newest(Sorted(), k))
      ensures Scanned(k, old(world.trace), r.Some?)
    {
      var i := 0;
      while i < |manifest.tables|
        invariant 0 <= i <= |manifest.tables| && world.faults == old(world.faults)
        invariant ScannedTo(k, old(world.trace), false, i)
        invariant forall j :: 0 <= j < i ==> Find(Sorted()[j], k) == None
        invariant Newest(Sorted(), k) == Newest(Sorted()[i..], k)
      {
        assert manifest.tables[i] in manifest.tables;
        var t := world.ReadTable(manifest.tables[i]);
        assert ScannedTo(k, old(world.trace), false, i + 1);
        if t == None {
          return None;
        }
        var a := Tables.Get(t.value, k);
        if a != KeyNotFound {
          assert ScannedTo(k, old(world.trace), true, i + 1);
          return Some(a);
        }
        i := i + 1;
      }
      assert ScannedTo(k, old(world.trace), true, i);
      return Some(KeyNotFound);
    }

    // ----- the life of a store -----

    /** `Close` */
    method Close()
      requires Valid()
      modifies world
      ensures world.Valid() && world.mem == None && world.disk == old(world.disk)
      ensures Committed(world.labels) == old(Committed(world.labels))
    {
      world.Exit();
    }

    /** `newLSMTreeStore`: recovery shows the map of every logged write, with
        nothing cached and only the manifest's tables left on disk. */
    static method Open(world: World, maxEntries: nat, maxOperations: nat)
      returns (s: LsmStore?, ghost removed: seq<nat>)
      requires world.Valid() && world.mem == None && maxEntries > 0 && maxOperations > 0
      modifies world
      ensures world.Valid() && world.faults == old(world.faults) + if s == null then 1 else 0
      ensures old(world.labels) <= world.labels && Committed(world.labels) == old(Committed(world.labels))
      ensures world.disk.log == old(world.disk.log) && world.disk.manifest == old(world.disk.manifest)
      ensures s == null ==> world.mem == None
      ensures s != null ==> Cleared(old(world.disk), world.disk)
      ensures s != null ==>
                (SurvivesCrashes(world.disk, world.Map()) <==> Dangles(old(world.disk)) || old(world.disk).broken == {})
      ensures s != null ==> fresh(s) && fresh(s.mt) && fresh(s.manifest) && s.world == world && s.Valid()
      ensures s != null ==> s.maxEntries == maxEntries && s.maxOperations == maxOperations
      ensures s != null ==> s.InStep() && s.cache == {} && s.operations == |s.mt.cells|
      ensures s != null ==> s.Memory() == Load(world.disk)
      ensures s != null ==> s.InSession() && s.session == [s.Held()] && s.writes == []
      ensures Performed(old(world.trace), world.trace,
                [LogRead, LogOpened, ManifestRead] + ClearEffects(removed), s != null)
      ensures DanglingOnly(old(world.disk), removed)
    {
      hide IsRun, Inv, Committed, Recoverable, Replay, Greatest, IsSession, Contents, SurvivesCrashes;
      hide Performed, ClearEffects, Cleared, Dangles, DanglingOnly;
      ghost var before := world.trace;
      world.Idle();
      var mt := new Memtable();
      var manifest := LoadFiles(world, mt);
      if manifest == null {
        removed := [];
        NoneDangling(world.disk);
        PerformedPart(before, world.trace, [LogRead, LogOpened, ManifestRead], ClearEffects([]));
        return null, removed;
      }
      ghost var m := world.trace;
      var ok;
      ok, removed := ClearDangling(world);
      PerformedThen(before, m, world.trace, [LogRead, LogOpened, ManifestRead], ClearEffects(removed), ok);
      if !ok { return null, removed; }
      s := new LsmStore.Attach(world, mt, manifest, maxEntries, maxOperations);
      assert s.Memory() == Load(world.disk);
      ClearedLists(old(world.disk), world.disk);
      world.Open();
      world.Running();
      ClearedSurvives(old(world.disk), world.disk, world.Map());
    }

    /** Replays the log, opens it and reads the manifest. */
    static method LoadFiles(world: World, mt: Memtable) returns (manifest: ManifestFile?)
      requires mt.cells == map[]
      modifies world`faults, world`trace, mt
      ensures manifest != null ==> mt.cells == Replay(world.disk.log)
      ensures manifest != null ==> fresh(manifest) && manifest.world == world && manifest.tables == world.disk.manifest
      ensures manifest != null ==> manifest.nextId == Greatest(world.disk.manifest) + 1
      ensures world.faults == old(world.faults) + if manifest == null then 1 else 0
      ensures Performed(old(world.trace), world.trace, [LogRead, LogOpened, ManifestRead], manifest != null)
    {
      hide Replay, Greatest;
      var ok := ReplayInto(world, mt);
      if !ok { return null; }
      ok := world.Try(LogOpened);
      if !ok { return null; }
      ok := world.Try(ManifestRead);
      if !ok { return null; }
      manifest := new ManifestFile(world, Greatest(world.disk.manifest) + 1, world.disk.manifest);
    }

    static method ReplayInto(world: World, mt: Memtable) returns (ok: bool)
      requires mt.cells == map[]
      modifies world`faults, world`trace, mt
      ensures ok ==> mt.cells == Replay(world.disk.log) && world.faults == old(world.faults)
      ensures world.faults == old(world.faults) + if ok then 0 else 1
      ensures world.trace == old(world.trace) + [LogRead]
    {
      ok := world.Try(LogRead);
      if ok {
        var i := 0;
        while i < |world.disk.log|
          invariant 0 <= i <= |world.disk.log| && world.faults == old(world.faults)
          invariant world.trace == old(world.trace) + [LogRead]
          invariant mt.cells == Replay(world.disk.log[..i])
        {
          ReplaySnoc(world.disk.log[..i], world.disk.log[i]);
          assert world.disk.log[..i + 1] == world.disk.log[..i] + [world.disk.log[i]];
          match world.disk.log[i] {
            case Delete(k) => mt.Delete(k);
            case Put(k, v) => mt.Set(k, v);
          }
          i := i + 1;
        }
        assert world.disk.log[..i] == world.disk.log;
      }
    }

    /** `clearDanglingSSTables`: removes the tables that the manifest does not
        name, in whatever order they are found, and syncs the directory if it
        removed any; `removed` are those it tried to. */
    static method ClearDangling(world: World) returns (ok: bool, ghost removed: seq<nat>)
      requires world.Valid() && world.mem == None
      modifies world
      ensures world.Valid() && world.Quiet()
      ensures world.disk.log == old(world.disk.log) && world.disk.manifest == old(world.disk.manifest)
      ensures ok ==> Cleared(old(world.disk), world.disk)
      ensures DanglingOnly(old(world.disk), removed)
      ensures world.faults == old(world.faults) + if ok then 0 else 1
      ensures Performed(old(world.trace), world.trace, ClearEffects(removed), ok)
    {
      hide IsRun, Inv, Committed, Clearing, Cleared, DanglingOnly, TableRemovals, Disk.SyncDirectory;
      var removedAny;
      ok, removedAny, removed := RemoveDangling(world);
      if ok {
        ClearingEnds(old(world.disk), world.disk, removed);
        if removedAny {
          ok := world.SyncDirectory();
        }
      }
    }

    static method RemoveDangling(world: World) returns (ok: bool, removedAny: bool, ghost removed: seq<nat>)
      requires world.Valid() && world.mem == None
      modifies world
      ensures world.Valid() && world.Quiet()
      ensures world.disk.log == old(world.disk.log) && world.disk.manifest == old(world.disk.manifest)
      ensures ok ==> Clearing(old(world.disk), world.disk, {}, removed) && (removedAny <==> removed != [])
      ensures DanglingOnly(old(world.disk), removed)
      ensures world.faults == old(world.faults) + if ok then 0 else 1
      ensures world.trace == old(world.trace) + [DirectoryRead] + TableRemovals(removed)
    {
      hide IsRun, Inv, Committed, Clearing, DanglingOnly, TableRemovals, Disk.Remove, Disk.Manifests;
      ghost var d := world.disk;
      removed, removedAny := [], false;
      NoneYet([]);
      ok := world.Try(DirectoryRead);
      ClearingStarts(d);
      if !ok { return; }
      var found := world.disk.files.Keys;
      while found != {}
        invariant world.Valid() && world.Quiet() && world.faults == old(world.faults)
        invariant world.disk.log == d.log && world.disk.manifest == d.manifest
        invariant Clearing(d, world.disk, found, removed) && DanglingOnly(d, removed)
        invariant removedAny <==> removed != []
        invariant world.trace == old(world.trace) + [DirectoryRead] + TableRemovals(removed)
        decreases |found|
      {
        var id :| id in found;
        ClearingSkips(d, world.disk, found, removed, id);
        found := found - {id};
        if id !in world.disk.manifest {
          RemovalsSnoc(removed, id);
          ok := world.RemoveTable(id);
          removed := removed + [id];
          if !ok { return; }
          removedAny := true;
        }
      }
    }

    /** The same call goes on: nothing was logged or answered. */
    twostate predicate Continues()
      reads world
    {
      && world.call == old(world.call) && world.faults >= old(world.faults)
      && old(world.labels) <= world.labels && Committed(world.labels) == old(Committed(world.labels))
    }

    /** The memtable, the tables and the log are as they were. */
    twostate predicate SameView()
      reads this, world, mt, manifest
    {
      Held() == old(Held()) && world.disk.log == old(world.disk.log)
    }
  }

  /** Separate iterators, each at the start of its table. */
  ghost predicate IteratorsOn(its: seq<Iterator>, ts: seq<Table>)
    reads its
  {
    && |its| == |ts|
    && (forall i, j :: 0 <= i < j < |its| ==> its[i] != its[j])
    && (forall i :: 0 <= i < |its| ==> its[i].Valid() && !its[i].spent && its[i].Rest() == ts[i])
  }

  lemma NoIterators()
    ensures IteratorsOn([], [])
  {}

  lemma IteratorsNext(its: seq<Iterator>, ts: seq<Table>, it: Iterator)
    requires IteratorsOn(its, ts) && it !in its && it.Valid() && !it.spent
    ensures IteratorsOn(its + [it], ts + [it.Rest()])
  {}
}
