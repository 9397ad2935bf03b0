/** The manifest in memory and how it is saved. */
module Manifests {
  import opened Tables
  import opened Protocol
  import opened Recovery
  import opened World
  import opened Effects

  class ManifestFile {
    const world: World
    var nextId: nat
    var tables: seq<nat>

    constructor (world: World, nextId: nat, tables: seq<nat>)
      ensures this.world == world && this.nextId == nextId && this.tables == tables
    {
      this.world, this.nextId, this.tables := world, nextId, tables;
    }

    /** `nextSSTableFilename` */
    method NextTableId() returns (id: nat)
      requires world.Valid() && world.mem.Some? && world.mem.value.nextId == nextId
      modifies this`nextId, world
      ensures id == old(nextId) && nextId == id + 1
      ensures world.Valid() && world.mem == Some(old(world.mem).value.(nextId := nextId))
      ensures world.disk == old(world.disk) && world.call == old(world.call) && world.faults == old(world.faults)
      ensures world.trace == old(world.trace)
      ensures old(world.labels) <= world.labels && Committed(world.labels) == old(Committed(world.labels))
    {
      hide IsRun, Inv, Committed;
      id := nextId;
      nextId := nextId + 1;
      world.Note(TakeId, world.mem.value.(nextId := nextId));
    }

    /** `addSSTable` */
    method Add(id: nat) returns (ok: bool)
      requires world.Valid() && world.mem.Some? && world.mem.value.tables == tables
      requires Stored(world.disk, [id] + tables) && FlushList(world.disk, world.mem.value, [id] + tables)
      modifies this`tables, world
      ensures world.Valid() && world.Quiet()
      ensures SavedOrNot(old(world.disk), world.disk, [id] + old(tables), ok)
      ensures tables == if ok then [id] + old(tables) else old(tables)
      ensures world.faults == old(world.faults) + if ok then 0 else 1
      ensures Performed(old(world.trace), world.trace, ManifestSaves(), ok)
    {
      hide IsRun, Inv, Committed;
      ok := Save([id] + tables);
    }

    /** `save`: write the list aside, rename it into place, sync the directory,
        and only then adopt it. */
    method Save(ids: seq<nat>) returns (ok: bool)
      requires world.Valid() && world.mem.Some? && Stored(world.disk, ids)
      requires FlushList(world.disk, world.mem.value, ids) || CompactionList(world.disk, world.mem.value.tables, ids)
      modifies this`tables, world
      ensures world.Valid() && world.Quiet()
      ensures SavedOrNot(old(world.disk), world.disk, ids, ok)
      ensures tables == if ok then ids else old(tables)
      ensures world.faults == old(world.faults) + if ok then 0 else 1
      ensures Performed(old(world.trace), world.trace, ManifestSaves(), ok)
    {
      hide IsRun, Inv, Committed;
      ok := world.WriteTemp(ids);
      if !ok { return; }
      ok := world.ReplaceManifest();
      if !ok { return; }
      ok := world.SyncDirectory();
      if !ok { return; }
      tables := ids;
    }
  }

  /** What a manifest save does to the disk. On success the list is in place
      for good; on failure it may or may not have been renamed into place. */
  ghost predicate SavedOrNot(d: Disk, e: Disk, ids: seq<nat>, ok: bool) {
    && e.log == d.log && e.olderLogs == d.olderLogs && e.files == d.files
    && (if ok then e.manifest == ids && e.olderManifests == {} && e.unsettled == {}
        else
          && e.unsettled == d.unsettled
          && ((e.manifest == ids && e.olderManifests == d.olderManifests + {d.manifest}) ||
              (e.manifest == d.manifest && e.olderManifests == d.olderManifests)))
  }
}
