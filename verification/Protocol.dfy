/** The store as a step relation: every disk effect, every change of the
    memory and every crash is one step, with the rule that allows it. */
module Protocol {
  import opened Tables
  import opened Memtables
  import opened Operations
  import opened Compaction
  import opened ManifestText

  // ----- the disk -----

  datatype File = Partial | Complete(table: Table)

  datatype Temp = NoTemp | HalfTemp | FullTemp(ids: seq<nat>)

  /** The files as a running program sees them, and what a crash may undo:
      the log before a truncation that no later append has settled, the
      manifests before renames that no directory sync has settled, and the
      table files whose directory entries changed since the last such sync.
      Those of the older manifests that name a table removed since then are
      `broken`. */
  datatype Disk = Disk(
    log: seq<Op>,
    olderLogs: set<seq<Op>>,
    files: map<nat, File>,
    unsettled: set<nat>,
    manifest: seq<nat>,
    olderManifests: set<seq<nat>>,
    broken: set<seq<nat>>,
    temp: Temp)
  {
    function Append(op: Op): Disk {
      this.(log := log + [op], olderLogs := {})
    }

    function Truncate(): Disk {
      this.(log := [], olderLogs := olderLogs + {log})
    }

    function Create(id: nat): Disk {
      this.(files := files[id := Partial], unsettled := unsettled + {id})
    }

    function Fill(id: nat, t: Table): Disk {
      this.(files := files[id := Complete(t)])
    }

    /** The older manifests that name table `id`. */
    function Naming(id: nat): set<seq<nat>> {
      set c | c in olderManifests && id in c
    }

    function Remove(id: nat): Disk {
      this.(
        files := files - {id},
        unsettled := unsettled + {id},
        olderManifests := olderManifests - Naming(id),
        broken := broken + Naming(id))
    }

    function SyncDirectory(): Disk {
      this.(unsettled := {}, olderManifests := {}, broken := {})
    }

    function Rename(): Disk
      requires temp.FullTemp?
    {
      this.(manifest := temp.ids, olderManifests := olderManifests + {manifest}, temp := NoTemp)
    }

    function Manifests(): set<seq<nat>> {
      {manifest} + olderManifests
    }

    function Logs(): set<seq<Op>> {
      {log} + olderLogs
    }
  }

  /** `e` is a disk that a crash of the machine may leave of `d`. Each thing
      not yet settled is kept or lost on its own; of an unsettled table entry
      nothing at all is assumed. */
  ghost predicate CrashImage(d: Disk, e: Disk) {
    && e.log in d.Logs() && e.olderLogs == {}
    && e.manifest in d.Manifests() + d.broken && e.olderManifests == {} && e.broken == {}
    && e.unsettled == {}
    && (forall id :: id !in d.unsettled ==> Look(e.files, id) == Look(d.files, id))
  }

  function TableAt(files: map<nat, File>, id: nat): Table {
    if id in files && files[id].Complete? then files[id].table else []
  }

  /** The tables that a list of ids names. */
  function Contents(files: map<nat, File>, ids: seq<nat>): seq<Table> {
    seq(|ids|, i requires 0 <= i < |ids| => TableAt(files, ids[i]))
  }

  ghost predicate Distinct(ids: seq<nat>) {
    forall i, j :: 0 <= i < j < |ids| ==> ids[i] != ids[j]
  }

  /** Every named table is on disk, whole, and will survive a crash; none is
      named twice. */
  ghost predicate Stored(d: Disk, ids: seq<nat>) {
    && Distinct(ids)
    && forall id :: id in ids ==>
         && id in d.files && d.files[id].Complete? && id !in d.unsettled
         && StrictlySorted(d.files[id].table)
  }

  // ----- the program -----

  datatype Mem = Mem(cells: Cells, tables: seq<nat>, nextId: nat, cache: set<string>, operations: nat)
  {
    function Write(op: Op): Mem {
      this.(cells := WriteCells(cells, op), cache := cache - {op.key}, operations := operations + 1)
    }
  }

  /** The client's write in progress, and whether it has been logged. */
  datatype Call = NoCall | Pending(op: Op) | Logged(op: Op)

  datatype Sys = Sys(disk: Disk, mem: Option<Mem>, call: Call)

  const FRESH := Sys(Disk([], {}, map[], {}, [], {}, {}, NoTemp), None, NoCall)

  /** What `newLSMTreeStore` builds of a disk. */
  function Load(d: Disk): Mem {
    Mem(Replay(d.log), d.manifest, Greatest(d.manifest) + 1, {}, |Replay(d.log)|)
  }

  function Answers(d: Disk, mem: Mem, k: string): Answer {
    if k in mem.cache then KeyNotFound else AnswerOf(Lookup(mem.cells, Contents(d.files, mem.tables), k))
  }

  // ----- the steps -----

  datatype Work =
    | TakeId | Create(id: nat) | Fill(id: nat, table: Table) | SyncDirectory
    | TouchTemp | FillTemp(ids: seq<nat>) | Rename
    | AdoptFlush | AdoptCompaction | Truncate | Remove(id: nat) | ResetCount

  /** `Stop` is the end of the program alone, closed or killed; `Crash` that of
      the whole machine, which is left out here only if the manifest that it
      brings back is broken (see `Refinement.CrashRecoversIff`). `Return` ends
      a logged write, with or without an error. */
  datatype Label =
    | Call(op: Op) | Commit(op: Op) | Reject(op: Op) | Return(op: Op)
    | Read(key: string, answer: Answer)
    | Crash | Stop | Start | Internal(work: Work)

  /** `ids` adds one table to the front, made of the whole memtable. */
  ghost predicate FlushList(d: Disk, mem: Mem, ids: seq<nat>) {
    && ids != [] && ids[1..] == mem.tables
    && ids[0] in d.files && d.files[ids[0]].Complete?
    && Represents(d.files[ids[0]].table, mem.cells)
  }

  /** `ids` shows the same live values as `tables`. */
  ghost predicate CompactionList(d: Disk, tables: seq<nat>, ids: seq<nat>) {
    SameLive(Contents(d.files, ids), Contents(d.files, tables))
  }

  /** The rules of the internal steps that need the program to run. */
  ghost predicate WorkStep(w: Work, d: Disk, mem: Mem, e: Disk, mem': Mem) {
    match w
    case TakeId => e == d && mem' == mem.(nextId := mem.nextId + 1)
    case Create(id) => id < mem.nextId && id !in d.files && e == d.Create(id) && mem' == mem
    case Fill(id, t) => Look(d.files, id) == Some(Partial) && e == d.Fill(id, t) && mem' == mem
    case SyncDirectory => e == d.SyncDirectory() && mem' == mem
    case TouchTemp => e == d.(temp := HalfTemp) && mem' == mem
    case FillTemp(ids) => d.temp == HalfTemp && e == d.(temp := FullTemp(ids)) && mem' == mem
    case Rename =>
      && d.temp.FullTemp? && Stored(d, d.temp.ids)
      && (FlushList(d, mem, d.temp.ids) || CompactionList(d, mem.tables, d.temp.ids))
      && e == d.Rename() && mem' == mem
    case AdoptFlush =>
      && d.olderManifests == {} && FlushList(d, mem, d.manifest)
      && e == d && mem' == mem.(tables := d.manifest, cells := map[])
    case AdoptCompaction =>
      && d.olderManifests == {} && CompactionList(d, mem.tables, d.manifest)
      && e == d && mem' == mem.(tables := d.manifest)
    case Truncate =>
      && mem.cells == map[] && d.olderManifests == {} && d.manifest == mem.tables
      && e == d.Truncate() && mem' == mem
    case Remove(id) =>
      && id in d.files && id !in mem.tables && (forall c :: c in d.Manifests() ==> id !in c)
      && e == d.Remove(id) && mem' == mem
    case ResetCount => e == d && mem' == mem.(operations := 0)
  }

  /** The rules of recovery, before there is a store. */
  ghost predicate RecoveryStep(w: Work, d: Disk, e: Disk) {
    match w
    case SyncDirectory => e == d.SyncDirectory()
    case Remove(id) => id in d.files && id !in d.manifest && e == d.Remove(id)
    case _ => false
  }

  ghost predicate Step(l: Label, s: Sys, t: Sys) {
    match l
    case Call(op) => s.mem.Some? && s.call == NoCall && t == s.(call := Pending(op))
    case Commit(op) =>
      && s.mem.Some? && s.call == Pending(op)
      && t == Sys(s.disk.Append(op), Some(s.mem.value.Write(op)), Logged(op))
    case Reject(op) => s.call == Pending(op) && t == s.(call := NoCall)
    case Return(op) => s.call == Logged(op) && t == s.(call := NoCall)
    case Read(k, a) =>
      && s.mem.Some? && s.call == NoCall && a == Answers(s.disk, s.mem.value, k)
      && t == s.(mem := Some(if a == KeyNotFound then s.mem.value.(cache := s.mem.value.cache + {k}) else s.mem.value))
    case Crash =>
      && CrashImage(s.disk, t.disk) && t.disk.manifest !in s.disk.broken
      && t.mem == None && t.call == NoCall
    case Stop => t == Sys(s.disk, None, NoCall)
    case Start =>
      && s.mem == None && (forall id :: id in s.disk.files ==> id in s.disk.manifest)
      && t == s.(mem := Some(Load(s.disk)))
    case Internal(w) =>
      && t.call == s.call
      && match s.mem
         case None => t.mem == None && RecoveryStep(w, s.disk, t.disk)
         case Some(mem) => t.mem.Some? && WorkStep(w, s.disk, mem, t.disk, t.mem.value)
  }

  // ----- the invariant -----

  /** Whatever a crash leaves, its manifest names whole tables, and the log it
      leaves over those tables shows the map `m`; broken manifests apart, of
      which some table is not settled. */
  ghost predicate Recoverable(d: Disk, m: Model) {
    && (forall c :: c in d.Manifests() ==> Stored(d, c))
    && (forall c, l :: c in d.Manifests() && l in d.Logs() ==> Agrees(Replay(l), Contents(d.files, c), m))
    && (d.olderLogs != {} ==> d.log == [])
    && (forall c :: c in d.broken ==> exists id :: id in c && id in d.unsettled)
  }

  /** The program's view shows `m`; every key of its memtable is in the log;
      its next id is free; and its negative cache is right. */
  ghost predicate Loaded(d: Disk, mem: Mem, m: Model) {
    && Stored(d, mem.tables)
    && Agrees(mem.cells, Contents(d.files, mem.tables), m)
    && (forall l :: l in d.Logs() ==> mem.cells.Keys <= Replay(l).Keys)
    && (forall id :: id in d.files ==> id < mem.nextId)
    && (forall k :: k in mem.cache ==> Lookup(mem.cells, Contents(d.files, mem.tables), k) == None)
  }

  ghost predicate Inv(s: Sys, m: Model) {
    && Recoverable(s.disk, m)
    && match s.mem
       case None => s.call == NoCall
       case Some(mem) => Loaded(s.disk, mem, m)
  }
}
