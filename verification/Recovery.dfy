/** The invariant of the protocol, and what it gives over whole runs. */
module Recovery {
  import opened Tables
  import opened Operations
  import opened ManifestText
  import opened Protocol

  // ----- frames -----

  /** Lists whose files are the same have the same contents. */
  lemma SameContents(d: Disk, e: Disk, ids: seq<nat>)
    requires Stored(d, ids)
    requires forall id :: id in ids ==> Look(e.files, id) == Look(d.files, id)
    ensures Contents(e.files, ids) == Contents(d.files, ids)
  {
    forall i | 0 <= i < |ids| ensures TableAt(e.files, ids[i]) == TableAt(d.files, ids[i]) {
      assert ids[i] in ids;
      assert Look(e.files, ids[i]) == Look(d.files, ids[i]);
    }
  }

  /** A step that touches no manifest, no log and no stored table. */
  ghost predicate Apart(d: Disk, e: Disk) {
    && e.log == d.log && e.olderLogs == d.olderLogs
    && e.manifest == d.manifest && e.olderManifests <= d.olderManifests
    && (forall c, id :: c in d.Manifests() && id in c ==> Look(e.files, id) == Look(d.files, id))
    && (forall c, id :: c in d.Manifests() && id in c && id in e.unsettled ==> id in d.unsettled)
    && e.broken <= d.broken && (e.broken != {} ==> d.unsettled <= e.unsettled)
  }

  lemma ApartRecoverable(d: Disk, e: Disk, m: Model)
    requires Recoverable(d, m) && Apart(d, e)
    ensures Recoverable(e, m)
  {
    forall c | c in e.Manifests()
      ensures Stored(e, c) && Contents(e.files, c) == Contents(d.files, c)
    {
      assert c in d.Manifests();
      StoredFrame(d, e, c);
    }
    assert e.Logs() == d.Logs();
  }

  lemma StoredFrame(d: Disk, e: Disk, c: seq<nat>)
    requires Stored(d, c)
    requires forall id :: id in c ==> Look(e.files, id) == Look(d.files, id)
    requires forall id :: id in c && id in e.unsettled ==> id in d.unsettled
    ensures Stored(e, c) && Contents(e.files, c) == Contents(d.files, c)
  {
    forall id | id in c
      ensures id in e.files && e.files[id].Complete? && id !in e.unsettled && StrictlySorted(e.files[id].table)
    {
      assert Look(e.files, id) == Look(d.files, id);
    }
    SameContents(d, e, c);
  }

  lemma LoadedFrame(d: Disk, e: Disk, mem: Mem, m: Model)
    requires Loaded(d, mem, m)
    requires forall id :: id in mem.tables ==> Look(e.files, id) == Look(d.files, id)
    requires forall id :: id in mem.tables && id in e.unsettled ==> id in d.unsettled
    requires e.Logs() == d.Logs()
    requires forall id :: id in e.files ==> id < mem.nextId
    ensures Loaded(e, mem, m)
  {
    StoredFrame(d, e, mem.tables);
  }

  // ----- what a table list may become -----

  lemma WriteAgrees(cells: Cells, ts: seq<Table>, m: Model, op: Op)
    requires Agrees(cells, ts, m)
    ensures Agrees(WriteCells(cells, op), ts, Write(m, op))
  {
    forall k ensures View(WriteCells(cells, op), ts, k) == Look(Write(m, op), k) {
      assert View(cells, ts, k) == Look(m, k);
    }
  }

  /** Over any list that the rules of `Rename` allow, both the memtable and
      every log that a crash may leave still show `m`. In particular replaying
      a log over a table already built from it changes nothing. */
  lemma NewListAgrees(d: Disk, mem: Mem, ids: seq<nat>, m: Model, l: seq<Op>)
    requires Recoverable(d, m) && Loaded(d, mem, m) && l in d.Logs()
    requires FlushList(d, mem, ids) || CompactionList(d, mem.tables, ids)
    ensures Agrees(Replay(l), Contents(d.files, ids), m)
    ensures Agrees(mem.cells, Contents(d.files, ids), m)
  {
    var was, now := Contents(d.files, mem.tables), Contents(d.files, ids);
    assert FlushList(d, mem, ids) ==> now[1..] == was;
    assert d.manifest in d.Manifests();
    forall k
      ensures View(Replay(l), now, k) == Look(m, k)
      ensures View(mem.cells, now, k) == Look(m, k)
    {
      assert View(mem.cells, was, k) == Look(m, k);
      assert View(Replay(l), Contents(d.files, d.manifest), k) == Look(m, k);
      assert mem.cells.Keys <= Replay(l).Keys;
      if !CompactionList(d, mem.tables, ids) {
        assert Find(now[0], k) == Look(mem.cells, k);
      }
    }
  }

  /** Once a flush is adopted, its table shows what the memtable did. */
  lemma FlushedAgrees(d: Disk, mem: Mem, ids: seq<nat>, m: Model)
    requires Loaded(d, mem, m) && FlushList(d, mem, ids)
    ensures Agrees(map[], Contents(d.files, ids), m)
    ensures forall k :: Lookup(mem.cells, Contents(d.files, mem.tables), k) == Newest(Contents(d.files, ids), k)
  {
    var was, now := Contents(d.files, mem.tables), Contents(d.files, ids);
    assert now[1..] == was;
    forall k
      ensures Lookup(mem.cells, was, k) == Newest(now, k)
      ensures View(map[], now, k) == Look(m, k)
    {
      assert Find(now[0], k) == Look(mem.cells, k);
      assert View(mem.cells, was, k) == Look(m, k);
    }
  }

  // ----- every step keeps the invariant -----

  lemma CommitKeeps(d: Disk, mem: Mem, op: Op, m: Model)
    requires Recoverable(d, m) && Loaded(d, mem, m)
    ensures Recoverable(d.Append(op), Write(m, op))
    ensures Loaded(d.Append(op), mem.Write(op), Write(m, op))
  {
    var e := d.Append(op);
    ReplaySnoc(d.log, op);
    forall c | c in e.Manifests()
      ensures Stored(e, c) && Agrees(Replay(e.log), Contents(e.files, c), Write(m, op))
    {
      assert c in d.Manifests();
      StoredFrame(d, e, c);
      WriteAgrees(Replay(d.log), Contents(d.files, c), m, op);
    }
    StoredFrame(d, e, mem.tables);
    WriteAgrees(mem.cells, Contents(d.files, mem.tables), m, op);
    assert mem.cells.Keys <= Replay(d.log).Keys;
    forall k | k in mem.Write(op).cache ensures Lookup(mem.Write(op).cells, Contents(e.files, mem.tables), k) == None {
      assert Lookup(mem.cells, Contents(d.files, mem.tables), k) == None;
    }
  }

  /** After the rename, synced or not, every manifest that is not broken is
      whole, and shows the map under every log that a crash may leave. */
  lemma RenameKeeps(d: Disk, mem: Mem, m: Model)
    requires Recoverable(d, m) && Loaded(d, mem, m)
    requires d.temp.FullTemp? && Stored(d, d.temp.ids)
    requires FlushList(d, mem, d.temp.ids) || CompactionList(d, mem.tables, d.temp.ids)
    ensures Recoverable(d.Rename(), m) && Loaded(d.Rename(), mem, m)
  {
    var e := d.Rename();
    forall c | c in e.Manifests() ensures Stored(e, c) {
      assert c == d.temp.ids || c in d.Manifests();
      assert Stored(d, c);
    }
    forall c, l | c in e.Manifests() && l in e.Logs() ensures Agrees(Replay(l), Contents(e.files, c), m) {
      if c == d.temp.ids {
        NewListAgrees(d, mem, c, m, l);
      } else {
        assert c in d.Manifests() && l in d.Logs();
      }
    }
    LoadedFrame(d, e, mem, m);
  }

  lemma AdoptFlushKeeps(d: Disk, mem: Mem, m: Model)
    requires Recoverable(d, m) && Loaded(d, mem, m) && FlushList(d, mem, d.manifest)
    ensures Loaded(d, mem.(tables := d.manifest, cells := map[]), m)
  {
    FlushedAgrees(d, mem, d.manifest, m);
    assert d.manifest in d.Manifests();
  }

  lemma AdoptCompactionKeeps(d: Disk, mem: Mem, m: Model)
    requires Recoverable(d, m) && Loaded(d, mem, m) && CompactionList(d, mem.tables, d.manifest)
    ensures Loaded(d, mem.(tables := d.manifest), m)
  {
    NewListAgrees(d, mem, d.manifest, m, d.log);
    assert d.manifest in d.Manifests();
    forall k | k in mem.cache ensures Lookup(mem.cells, Contents(d.files, d.manifest), k) == None {
      assert Lookup(mem.cells, Contents(d.files, mem.tables), k) == None;
    }
  }

  lemma TruncateKeeps(d: Disk, mem: Mem, m: Model)
    requires Recoverable(d, m) && Loaded(d, mem, m)
    requires mem.cells == map[] && d.olderManifests == {} && d.manifest == mem.tables
    ensures Recoverable(d.Truncate(), m) && Loaded(d.Truncate(), mem, m)
  {
    var e := d.Truncate();
    forall c | c in e.Manifests() ensures c in d.Manifests() && Stored(e, c) {
      StoredFrame(d, e, c);
    }
    forall c, l | c in e.Manifests() && l in e.Logs() ensures Agrees(Replay(l), Contents(e.files, c), m) {
      assert l == [] || l in d.Logs();
    }
    StoredFrame(d, e, mem.tables);
  }

  lemma CrashKeeps(d: Disk, e: Disk, m: Model)
    requires Recoverable(d, m) && CrashImage(d, e) && e.manifest !in d.broken
    ensures Recoverable(e, m)
  {
    assert e.manifest in d.Manifests();
    StoredFrame(d, e, e.manifest);
    assert e.Manifests() == {e.manifest};
    assert e.Logs() == {e.log};
  }

  lemma StartKeeps(d: Disk, m: Model)
    requires Recoverable(d, m) && forall id :: id in d.files ==> id in d.manifest
    ensures Loaded(d, Load(d), m)
  {
    assert d.manifest in d.Manifests() && d.log in d.Logs();
    GreatestBounds(d.manifest);
    forall l | l in d.Logs() ensures Replay(d.log).Keys <= Replay(l).Keys {}
  }

  /** Removing a table keeps the map recoverable from the manifests that do
      not name it; those that do are broken. */
  lemma RemoveKeeps(d: Disk, id: nat, m: Model)
    requires Recoverable(d, m) && id !in d.manifest
    ensures Recoverable(d.Remove(id), m)
  {
    var e := d.Remove(id);
    forall c | c in e.Manifests()
      ensures c in d.Manifests() && Stored(e, c) && Contents(e.files, c) == Contents(d.files, c)
    {
      StoredFrame(d, e, c);
    }
    assert e.Logs() == d.Logs();
    forall c | c in e.broken ensures exists i :: i in c && i in e.unsettled {
      if c !in d.broken {
        assert id in c && id in e.unsettled;
      } else {
        var i :| i in c && i in d.unsettled;
        assert i in e.unsettled;
      }
    }
  }

  lemma NotStored(d: Disk, m: Model, id: nat)
    requires Recoverable(d, m)
    requires Look(d.files, id) == None || Look(d.files, id) == Some(Partial)
    ensures forall c :: c in d.Manifests() ==> id !in c
  {
    forall c | c in d.Manifests() ensures id !in c {
      assert Stored(d, c);
    }
  }

  lemma WorkKeeps(w: Work, d: Disk, mem: Mem, e: Disk, mem': Mem, m: Model)
    requires Recoverable(d, m) && Loaded(d, mem, m) && WorkStep(w, d, mem, e, mem')
    ensures Recoverable(e, m) && Loaded(e, mem', m)
  {
    match w
    case TakeId =>
    case Create(id) =>
      NotStored(d, m, id);
      ApartRecoverable(d, e, m);
      LoadedFrame(d, e, mem, m);
    case Fill(id, t) =>
      NotStored(d, m, id);
      ApartRecoverable(d, e, m);
      LoadedFrame(d, e, mem, m);
    case SyncDirectory =>
      ApartRecoverable(d, e, m);
      LoadedFrame(d, e, mem, m);
    case TouchTemp =>
      ApartRecoverable(d, e, m);
      LoadedFrame(d, e, mem, m);
    case FillTemp(ids) =>
      ApartRecoverable(d, e, m);
      LoadedFrame(d, e, mem, m);
    case Rename => RenameKeeps(d, mem, m);
    case AdoptFlush => AdoptFlushKeeps(d, mem, m);
    case AdoptCompaction => AdoptCompactionKeeps(d, mem, m);
    case Truncate => TruncateKeeps(d, mem, m);
    case Remove(id) =>
      RemoveKeeps(d, id, m);
      LoadedFrame(d, e, mem, m);
    case ResetCount =>
  }

  // ----- whole runs -----

  /** The operations that reached the log. */
  function Committed(ls: seq<Label>): seq<Op> {
    if ls == [] then []
    else
      var l := ls[|ls| - 1];
      Committed(ls[..|ls| - 1]) + if l.Commit? then [l.op] else []
  }

  /** The map that the run up to here has built. */
  function MapOf(ls: seq<Label>): Model {
    Fold(Committed(ls))
  }

  ghost predicate IsRun(ss: seq<Sys>, ls: seq<Label>) {
    && |ss| == |ls| + 1 && ss[0] == FRESH
    && forall i :: 0 <= i < |ls| ==> Step(ls[i], ss[i], ss[i + 1])
  }

  lemma CommittedSnoc(ls: seq<Label>, l: Label)
    ensures Committed(ls + [l]) == Committed(ls) + if l.Commit? then [l.op] else []
    ensures MapOf(ls + [l]) == if l.Commit? then Write(MapOf(ls), l.op) else MapOf(ls)
  {
    assert (ls + [l])[..|ls|] == ls;
    assert Committed(ls) + [] == Committed(ls);
    if l.Commit? {
      ReplaySnoc(Committed(ls), l.op);
    }
  }

  /** One step keeps the invariant, for the map that its label makes. */
  lemma StepKeeps(l: Label, s: Sys, t: Sys, m: Model)
    requires Inv(s, m) && Step(l, s, t)
    ensures Inv(t, if l.Commit? then Write(m, l.op) else m)
  {
    match l
    case Call(op) =>
    case Commit(op) => CommitKeeps(s.disk, s.mem.value, op, m);
    case Reject(op) =>
    case Return(op) =>
    case Read(k, a) =>
    case Crash => CrashKeeps(s.disk, t.disk, m);
    case Stop =>
    case Start => StartKeeps(s.disk, m);
    case Internal(w) =>
      if s.mem.Some? {
        WorkKeeps(w, s.disk, s.mem.value, t.disk, t.mem.value, m);
      } else if w.Remove? {
        RemoveKeeps(s.disk, w.id, m);
      } else {
        ApartRecoverable(s.disk, t.disk, m);
      }
  }

  lemma FreshInv()
    ensures Inv(FRESH, map[])
  {
    assert FRESH.disk.Manifests() == {[]} && FRESH.disk.Logs() == {[]};
  }

  /** The invariant holds after every run. */
  lemma {:induction false} RunKeeps(ss: seq<Sys>, ls: seq<Label>)
    requires IsRun(ss, ls)
    ensures Inv(ss[|ls|], MapOf(ls))
  {
    if ls == [] {
      FreshInv();
    } else {
      var n := |ls| - 1;
      RunKeeps(ss[..n + 1], ls[..n]);
      StepKeeps(ls[n], ss[n], ss[n + 1], MapOf(ls[..n]));
      CommittedSnoc(ls[..n], ls[n]);
      assert ls == ls[..n] + [ls[n]];
    }
  }

  lemma PrefixRun(ss: seq<Sys>, ls: seq<Label>, i: nat)
    requires IsRun(ss, ls) && i <= |ls|
    ensures IsRun(ss[..i + 1], ls[..i])
    ensures Inv(ss[i], MapOf(ls[..i]))
  {
    RunKeeps(ss[..i + 1], ls[..i]);
  }
}
