/** The disk as the store's code drives it. Every effect may fail, and is a
    step of the protocol: the rule of that step is what the effect requires.
    The ghost run records every state that the system has been in, so that a
    crash may be taken to fall at any of them. */
module World {
  import opened Tables
  import opened Operations
  import opened Effects
  import opened Protocol
  import opened Recovery

  class World {
    var disk: Disk
    /** What the memory of the running store holds, if one is running. */
    ghost var mem: Option<Mem>
    ghost var call: Call
    ghost var states: seq<Sys>
    ghost var labels: seq<Label>
    /** How many times the environment has made an effect fail. */
    ghost var faults: nat
    /** Every effect that was tried. */
    ghost var trace: seq<Effect>

    ghost function Now(): Sys
      reads `disk, `mem, `call
    {
      Sys(disk, mem, call)
    }

    /** The map of the logged writes. */
    ghost function Map(): Model
      reads `labels
    {
      MapOf(labels)
    }

    ghost predicate Valid()
      reads `disk, `mem, `call, `states, `labels
    {
      IsRun(states, labels) && states[|labels|] == Now() && Inv(Now(), Map())
    }

    /** Only internal steps have been taken, and the memory is as it was. */
    twostate predicate Quiet()
      reads this
    {
      && mem == old(mem) && call == old(call)
      && old(labels) <= labels && Committed(labels) == old(Committed(labels))
      && faults >= old(faults)
    }

    constructor ()
      ensures Valid() && Now() == FRESH && labels == [] && faults == 0 && trace == []
    {
      disk := FRESH.disk;
      mem, call := FRESH.mem, FRESH.call;
      states, labels, faults, trace := [FRESH], [], 0, [];
      new;
      FreshInv();
    }

    /** What the invariant says while a store runs. */
    lemma Running()
      requires Valid() && mem.Some?
      ensures Recoverable(disk, Map()) && Loaded(disk, mem.value, Map())
    {}

    /** ... and while none does. */
    lemma Idle()
      requires Valid() && mem == None
      ensures Recoverable(disk, Map()) && call == NoCall
    {}

    ghost method Advance(l: Label, s: Sys)
      requires IsRun(states, labels) && states[|labels|] == s && Inv(s, Map()) && Step(l, s, Now())
      modifies this`states, this`labels
      ensures Valid() && labels == old(labels) + [l]
      ensures Committed(labels) == old(Committed(labels)) + if l.Commit? then [l.op] else []
    {
      StepKeeps(l, s, Now(), Map());
      CommittedSnoc(labels, l);
      states, labels := states + [Now()], labels + [l];
    }

    /** An internal step of the memory alone. */
    ghost method Note(w: Work, mem': Mem)
      requires Valid() && mem.Some? && WorkStep(w, disk, mem.value, disk, mem')
      modifies this`mem, this`states, this`labels
      ensures Valid() && mem == Some(mem') && labels == old(labels) + [Internal(w)]
      ensures Committed(labels) == old(Committed(labels))
    {
      hide IsRun, Inv, Committed;
      var s := Now();
      mem := Some(mem');
      Advance(Internal(w), s);
    }

    /** Whether the environment lets the next effect happen. */
    method Try(ghost e: Effect) returns (ok: bool)
      modifies this`faults, this`trace
      ensures trace == old(trace) + [e]
      ensures faults == old(faults) + if ok then 0 else 1
    {
      trace := trace + [e];
      ok := *;
      if !ok {
        faults := faults + 1;
      }
    }

    // ----- the log -----

    ghost method Begin(op: Op)
      requires Valid() && mem.Some? && call == NoCall
      modifies this`call, this`states, this`labels
      ensures Valid() && call == Pending(op) && labels == old(labels) + [Call(op)]
      ensures Committed(labels) == old(Committed(labels))
    {
      hide IsRun, Inv, Committed;
      var s := Now();
      call := Pending(op);
      Advance(Call(op), s);
    }

    ghost method End(op: Op)
      requires Valid() && call == Logged(op)
      modifies this`call, this`states, this`labels
      ensures Valid() && call == NoCall && labels == old(labels) + [Return(op)]
      ensures Committed(labels) == old(Committed(labels))
    {
      hide IsRun, Inv, Committed;
      var s := Now();
      call := NoCall;
      Advance(Return(op), s);
    }

    /** A read is answered, and a miss is cached. */
    ghost method Answered(k: string, a: Answer)
      requires Valid() && mem.Some? && call == NoCall && a == Answers(disk, mem.value, k)
      modifies this`mem, this`states, this`labels
      ensures Valid() && labels == old(labels) + [Read(k, a)]
      ensures a != KeyNotFound ==> mem == old(mem)
      ensures a == KeyNotFound ==> mem == Some(old(mem).value.(cache := old(mem).value.cache + {k}))
      ensures Committed(labels) == old(Committed(labels))
    {
      hide IsRun, Inv, Committed;
      var s := Now();
      if a == KeyNotFound {
        mem := Some(mem.value.(cache := mem.value.cache + {k}));
      }
      Advance(Read(k, a), s);
    }

    /** One record is appended whole and synced, or the write is refused. A
        refused write is taken to have left nothing behind; see
        `LogText.TornRecordReplays` for what it may leave. */
    method AppendLog(op: Op) returns (ok: bool)
      requires Valid() && mem.Some? && call == Pending(op)
      modifies this
      ensures Valid() && old(labels) <= labels && faults >= old(faults)
      ensures Committed(labels) == old(Committed(labels)) + if ok then [op] else []
      ensures ok ==> disk == old(disk).Append(op) && mem == Some(old(mem).value.Write(op)) && call == Logged(op)
      ensures !ok ==> disk == old(disk) && mem == old(mem) && call == NoCall
      ensures faults == old(faults) + if ok then 0 else 1
      ensures trace == old(trace) + [LogAppend(op)]
    {
      hide IsRun, Inv, Committed;
      ok := Try(LogAppend(op));
      ghost var s := Now();
      if ok {
        disk := disk.Append(op);
        mem, call := Some(mem.value.Write(op)), Logged(op);
        Advance(Commit(op), s);
      } else {
        call := NoCall;
        Advance(Reject(op), s);
      }
    }

    /** `truncate`: the file is cut, then synced; the sync may fail after the
        cut. */
    method TruncateLog() returns (ok: bool)
      requires Valid() && mem.Some? && WorkStep(Work.Truncate, disk, mem.value, disk.Truncate(), mem.value)
      modifies this
      ensures Valid() && Quiet()
      ensures disk == old(disk).Truncate() || (!ok && disk == old(disk))
      ensures faults == old(faults) + if ok then 0 else 1
      ensures Performed(old(trace), trace, [LogCut, LogSync], ok)
    {
      hide IsRun, Inv, Committed;
      ok := Try(LogCut);
      if ok {
        ghost var s := Now();
        disk := disk.Truncate();
        Advance(Internal(Work.Truncate), s);
        ok := Try(LogSync);
      }
    }

    // ----- table files -----

    /** Opens and decodes a table file. */
    method ReadTable(id: nat) returns (t: Option<Table>)
      modifies this`faults, this`trace
      ensures trace == old(trace) + [TableRead(id)]
      ensures t.Some? ==> Look(disk.files, id) == Some(Complete(t.value)) && faults == old(faults)
      ensures id in disk.files && disk.files[id].Complete? ==> faults == old(faults) + if t.Some? then 0 else 1
    {
      var ok := Try(TableRead(id));
      if ok && id in disk.files && disk.files[id].Complete? {
        return Some(disk.files[id].table);
      }
      return None;
    }

    /** Creates a file that must not exist. */
    method CreateTable(id: nat) returns (ok: bool)
      requires Valid() && mem.Some? && id < mem.value.nextId
      modifies this
      ensures Valid() && Quiet()
      ensures ok ==> id !in old(disk).files && disk == old(disk).Create(id)
      ensures !ok ==> disk == old(disk)
      ensures id !in old(disk).files ==> faults == old(faults) + if ok then 0 else 1
      ensures trace == old(trace) + [TableCreated(id)]
    {
      hide IsRun, Inv, Committed;
      ok := Try(TableCreated(id));
      if ok && id in disk.files {
        ok := false;
      }
      if ok {
        ghost var s := Now();
        disk := disk.Create(id);
        Advance(Internal(Work.Create(id)), s);
      }
    }

    /** Writes and syncs the contents of a file just created. */
    method FillTable(id: nat, t: Table) returns (ok: bool)
      requires Valid() && mem.Some? && Look(disk.files, id) == Some(Partial)
      modifies this
      ensures Valid() && Quiet()
      ensures disk == if ok then old(disk).Fill(id, t) else old(disk)
      ensures faults == old(faults) + if ok then 0 else 1
      ensures trace == old(trace) + [TableWritten(id)]
    {
      hide IsRun, Inv, Committed;
      ok := Try(TableWritten(id));
      if ok {
        ghost var s := Now();
        disk := disk.Fill(id, t);
        Advance(Internal(Work.Fill(id, t)), s);
      }
    }

    method SyncDirectory() returns (ok: bool)
      requires Valid()
      modifies this
      ensures Valid() && Quiet()
      ensures disk == if ok then old(disk).SyncDirectory() else old(disk)
      ensures faults == old(faults) + if ok then 0 else 1
      ensures trace == old(trace) + [DirectorySync]
    {
      hide IsRun, Inv, Committed;
      ok := Try(DirectorySync);
      if ok {
        ghost var s := Now();
        disk := disk.SyncDirectory();
        Advance(Internal(Work.SyncDirectory), s);
      }
    }

    /** `sstable.Save`: create, write and sync a table, then sync the
        directory. */
    method SaveTable(id: nat, t: Table) returns (ok: bool)
      requires Valid() && mem.Some? && id < mem.value.nextId
      modifies this
      ensures Valid() && Quiet()
      ensures OnlyTable(old(disk), disk, id)
      ensures ok ==> Look(disk.files, id) == Some(Complete(t)) && id !in old(disk).files
      ensures ok ==> disk.unsettled == {} && disk.olderManifests == {}
      ensures id !in old(disk).files ==> faults == old(faults) + if ok then 0 else 1
      ensures Performed(old(trace), trace, TableSaves(id), ok)
    {
      hide IsRun, Inv, Committed;
      ok := CreateTable(id);
      if !ok { return; }
      ok := FillTable(id, t);
      if !ok { return; }
      ok := SyncDirectory();
    }

    method RemoveTable(id: nat) returns (ok: bool)
      requires Valid()
      requires mem == None ==> id !in disk.manifest
      requires mem.Some? ==> id !in mem.value.tables && forall c :: c in disk.Manifests() ==> id !in c
      modifies this
      ensures Valid() && Quiet()
      ensures ok ==> id in old(disk).files && disk == old(disk).Remove(id)
      ensures !ok ==> disk == old(disk)
      ensures id in old(disk).files ==> faults == old(faults) + if ok then 0 else 1
      ensures trace == old(trace) + [TableRemoved(id)]
    {
      hide IsRun, Inv, Committed;
      ok := Try(TableRemoved(id));
      if ok && id !in disk.files {
        ok := false;
      }
      if ok {
        ghost var s := Now();
        disk := disk.Remove(id);
        Advance(Internal(Work.Remove(id)), s);
      }
    }

    // ----- the manifest -----

    /** Opens the temporary manifest, empty, and then writes the list to it. */
    method WriteTemp(ids: seq<nat>) returns (ok: bool)
      requires Valid() && mem.Some?
      modifies this
      ensures Valid() && Quiet()
      ensures disk == old(disk).(temp := disk.temp) && (ok ==> disk.temp == FullTemp(ids))
      ensures faults == old(faults) + if ok then 0 else 1
      ensures Performed(old(trace), trace, [TempOpened, TempWritten], ok)
    {
      hide IsRun, Inv, Committed;
      ok := Try(TempOpened);
      if !ok { return; }
      ghost var s := Now();
      disk := disk.(temp := HalfTemp);
      Advance(Internal(Work.TouchTemp), s);
      ok := Try(TempWritten);
      if !ok { return; }
      s := Now();
      disk := disk.(temp := FullTemp(ids));
      Advance(Internal(Work.FillTemp(ids)), s);
    }

    /** Renames the temporary manifest over the manifest, then reopens and
        syncs it; that may fail after the rename. */
    method ReplaceManifest() returns (ok: bool)
      requires Valid() && mem.Some? && disk.temp.FullTemp?
      requires WorkStep(Work.Rename, disk, mem.value, disk.Rename(), mem.value)
      modifies this
      ensures Valid() && Quiet()
      ensures disk == old(disk).Rename() || (!ok && disk == old(disk))
      ensures faults == old(faults) + if ok then 0 else 1
      ensures Performed(old(trace), trace, [ManifestRenamed, ManifestSync], ok)
    {
      hide IsRun, Inv, Committed;
      ok := Try(ManifestRenamed);
      if ok {
        ghost var s := Now();
        disk := disk.Rename();
        Advance(Internal(Work.Rename), s);
        ok := Try(ManifestSync);
      }
    }

    // ----- the life of the store -----

    ghost method Open()
      requires Valid() && mem == None && forall id :: id in disk.files ==> id in disk.manifest
      modifies this`mem, this`states, this`labels
      ensures Valid() && mem == Some(Load(disk)) && labels == old(labels) + [Start]
      ensures Committed(labels) == old(Committed(labels))
    {
      hide IsRun, Inv, Committed;
      var s := Now();
      mem := Some(Load(disk));
      Advance(Start, s);
    }

    /** The program ends, closed or killed. */
    method Exit()
      requires Valid()
      modifies this`disk, this`mem, this`call, this`states, this`labels
      ensures Valid() && mem == None && disk == old(disk)
      ensures old(labels) <= labels && Committed(labels) == old(Committed(labels))
    {
      hide IsRun, Inv, Committed;
      ghost var s := Now();
      mem, call := None, NoCall;
      Advance(Stop, s);
    }

    /** The machine fails and leaves the disk `image`, whose manifest must not
        be broken (see `Refinement.CrashRecoversIff`). */
    method Fail(image: Disk)
      requires Valid() && CrashImage(disk, image) && image.manifest !in disk.broken
      modifies this`disk, this`mem, this`call, this`states, this`labels
      ensures Valid() && mem == None && disk == image
      ensures old(labels) <= labels && Committed(labels) == old(Committed(labels))
    {
      hide IsRun, Inv, Committed;
      ghost var s := Now();
      disk := image;
      mem, call := None, NoCall;
      Advance(Crash, s);
    }
  }

  /** The only table file that differs is `id`. */
  ghost predicate OnlyTable(d: Disk, e: Disk, id: nat) {
    && e.log == d.log && e.olderLogs == d.olderLogs && e.temp == d.temp
    && e.manifest == d.manifest && e.olderManifests <= d.olderManifests
    && e.unsettled <= d.unsettled + {id}
    && (forall i :: i != id ==> Look(e.files, i) == Look(d.files, i))
    && (id in d.files ==> e.files == d.files)
  }
}
