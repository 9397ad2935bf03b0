/** What a client can rely on: every run of the protocol, with crashes
    anywhere, is a run of a plain map. */
module Refinement {
  import opened Tables
  import opened Memtables
  import opened Operations
  import opened Protocol
  import opened Recovery

  // ----- the plain map -----

  datatype SimpleMap = SimpleMap(m: Model, call: Call)

  /** `a` tells what `m` holds for `k`; "deleted" and "not found" both say that
      it holds nothing. */
  predicate Fits(m: Model, k: string, a: Answer) {
    match a
    case Found(v) => Look(m, k) == Some(v)
    case _ => Look(m, k) == None
  }

  /** The specification: a map whose writes take effect at once. */
  ghost predicate MapStep(l: Label, a: SimpleMap, b: SimpleMap) {
    match l
    case Call(op) => a.call == NoCall && b == a.(call := Pending(op))
    case Commit(op) => a.call == Pending(op) && b == SimpleMap(Write(a.m, op), Logged(op))
    case Reject(op) => a.call == Pending(op) && b == a.(call := NoCall)
    case Return(op) => a.call == Logged(op) && b == a.(call := NoCall)
    case Read(k, r) => a.call == NoCall && Fits(a.m, k, r) && b == a
    case Crash => b == a.(call := NoCall)
    case Stop => b == a.(call := NoCall)
    case Start => b == a
    case Internal(_) => b == a
  }

  lemma AnswersFit(d: Disk, mem: Mem, k: string, m: Model)
    requires Loaded(d, mem, m)
    ensures Fits(m, k, Answers(d, mem, k))
    ensures Answers(d, mem, k) == Answers(d, mem.(cache := {}), k)
  {
    assert View(mem.cells, Contents(d.files, mem.tables), k) == Look(m, k);
  }

  /** Crash refinement: each step of any run, whatever flush, compaction,
      failure or crash it belongs to, is a step of the plain map or leaves it
      alone, and every read answers from that map. */
  lemma RunRefinesMap(ss: seq<Sys>, ls: seq<Label>, i: nat)
    requires IsRun(ss, ls) && i < |ls|
    ensures MapStep(ls[i], SimpleMap(MapOf(ls[..i]), ss[i].call), SimpleMap(MapOf(ls[..i + 1]), ss[i + 1].call))
  {
    PrefixRun(ss, ls, i);
    assert Step(ls[i], ss[i], ss[i + 1]);
    CommittedSnoc(ls[..i], ls[i]);
    assert ls[..i + 1] == ls[..i] + [ls[i]];
    if ls[i].Read? {
      AnswersFit(ss[i].disk, ss[i].mem.value, ls[i].key, MapOf(ls[..i]));
    }
  }

  /** A read finds `v` exactly when the last logged write to the key put it. */
  lemma ReadsLastWrite(ss: seq<Sys>, ls: seq<Label>, i: nat, v: string)
    requires IsRun(ss, ls) && i < |ls| && ls[i].Read?
    ensures ls[i].answer == Found(v) <==> LastPut(Committed(ls[..i]), ls[i].key, v)
  {
    RunRefinesMap(ss, ls, i);
    LastWriteWins(Committed(ls[..i]), ls[i].key, v);
  }

  /** The negative cache never shows: every read is answered, result and error
      kind, as a store without the cache would. */
  lemma NegativeCacheIsTransparent(ss: seq<Sys>, ls: seq<Label>, i: nat, k: string)
    requires IsRun(ss, ls) && i <= |ls| && ss[i].mem.Some?
    ensures Answers(ss[i].disk, ss[i].mem.value, k) == Answers(ss[i].disk, ss[i].mem.value.(cache := {}), k)
  {
    PrefixRun(ss, ls, i);
    AnswersFit(ss[i].disk, ss[i].mem.value, k, MapOf(ls[..i]));
  }

  // ----- crashes -----

  /** A crash after a directory sync leaves the manifest and the tables as they
      are, and one after an append the log. */
  lemma SettledIsKept(d: Disk, op: Op, e: Disk)
    ensures CrashImage(d.SyncDirectory(), e) ==> e.manifest == d.manifest && e.files == d.files
    ensures CrashImage(d.Append(op), e) ==> e.log == d.log + [op]
  {
    if CrashImage(d.SyncDirectory(), e) {
      forall id ensures Look(e.files, id) == Look(d.files, id) {}
      assert forall id :: id in e.files <==> Look(e.files, id).Some?;
      assert forall id :: id in d.files <==> Look(d.files, id).Some?;
    }
  }

  /** Until then a crash may undo each step or leave it, whatever it does to the
      others: the truncation of the log, the rename of a manifest, the creation
      and the removal of a table. */
  lemma UnsettledMayBeLost(d: Disk, id: nat, log: seq<Op>, manifest: seq<nat>, files: map<nat, File>)
    requires d.temp.FullTemp? && log in {[], d.log} && manifest in {d.temp.ids, d.manifest}
    requires forall i :: i != id ==> Look(files, i) == Look(d.files, i)
    ensures var e := Disk(log, {}, files, {}, manifest, {}, {}, NoTemp);
      && CrashImage(d.Truncate().Rename().Create(id), e)
      && CrashImage(d.Truncate().Rename().Remove(id), e)
  {
    var r := d.Truncate().Rename().Remove(id);
    assert d.manifest in r.olderManifests + r.broken;
  }

  /** The manifest of `e` names whole tables only, and the store loaded from
      `e` shows exactly the map `m`. */
  ghost predicate Recovers(e: Disk, m: Model) {
    && Stored(e, e.manifest)
    && Agrees(Load(e).cells, Contents(e.files, Load(e).tables), m)
  }

  lemma ImageRecovers(d: Disk, e: Disk, m: Model)
    requires Recoverable(d, m) && CrashImage(d, e) && e.manifest !in d.broken
    ensures Recovers(e, m)
  {
    CrashKeeps(d, e, m);
    assert e.manifest in e.Manifests() && e.log in e.Logs();
  }

  /** Crash safety: whenever the machine fails in a run, and whatever the disk
      keeps, the disk recovers the map of the logged writes, unless the manifest
      that the crash brings back is broken. */
  lemma AnyCrashRecovers(ss: seq<Sys>, ls: seq<Label>, e: Disk)
    requires IsRun(ss, ls) && CrashImage(ss[|ls|].disk, e) && e.manifest !in ss[|ls|].disk.broken
    ensures Recovers(e, MapOf(ls))
  {
    RunKeeps(ss, ls);
    ImageRecovers(ss[|ls|].disk, e, MapOf(ls));
  }

  /** The tables that a running store names, and those that any manifest that
      is not broken names, are whole; the next id is that of no file. */
  lemma TablesAreSafe(ss: seq<Sys>, ls: seq<Label>)
    requires IsRun(ss, ls)
    ensures var s := ss[|ls|];
      && (forall c :: c in s.disk.Manifests() ==> Stored(s.disk, c))
      && (s.mem.Some? ==>
            && Stored(s.disk, s.mem.value.tables)
            && forall id :: id in s.disk.files ==> id < s.mem.value.nextId)
  {
    RunKeeps(ss, ls);
  }

  lemma {:induction false} CommittedGrows(ls: seq<Label>, i: nat)
    requires i <= |ls|
    ensures Committed(ls[..i]) <= Committed(ls)
  {
    if i < |ls| {
      var p := ls[..|ls| - 1];
      assert p[..i] == ls[..i];
      CommittedGrows(p, i);
    } else {
      assert ls[..i] == ls;
    }
  }

  /** A crash at any moment of a call that logs at most `op` leaves the map of
      before the call or the map of after it, and nothing between. */
  lemma CrashDuringCall(ss: seq<Sys>, ls: seq<Label>, from: nat, op: Op, i: nat, e: Disk)
    requires IsRun(ss, ls) && from <= i <= |ls|
    requires Committed(ls) == Committed(ls[..from]) || Committed(ls) == Committed(ls[..from]) + [op]
    requires CrashImage(ss[i].disk, e) && e.manifest !in ss[i].disk.broken
    ensures Recovers(e, MapOf(ls[..from])) || Recovers(e, MapOf(ls))
  {
    PrefixRun(ss, ls, i);
    AnyCrashRecovers(ss[..i + 1], ls[..i], e);
    CommittedGrows(ls, i);
    CommittedGrows(ls[..i], from);
    assert ls[..i][..from] == ls[..from];
    var a, b, c := Committed(ls[..from]), Committed(ls[..i]), Committed(ls);
    assert |b| == |a| ==> b == a;
    assert |b| == |c| ==> b == c;
  }

  // ----- what the client knows -----

  /** `m` is a map that a client who sees only its own calls, their returns
      and the crashes may expect, `flight` being its unfinished write. A write
      cut short by a crash or a kill may have happened or not; every other write counts
      exactly as it was answered. */
  ghost predicate Expected(ls: seq<Label>, m: Model, flight: Option<Op>)
    decreases |ls|, 0
  {
    if ls == [] then m == map[] && flight == None
    else
      var p := ls[..|ls| - 1];
      match ls[|ls| - 1]
      case Call(op) => flight == Some(op) && Expected(p, m, None)
      case Return(op) => flight == None && exists m0 :: Expected(p, m0, Some(op)) && m == Write(m0, op)
      case Reject(op) => flight == None && Expected(p, m, Some(op))
      case Crash => flight == None && CutShort(p, m)
      case Stop => flight == None && CutShort(p, m)
      case _ => Expected(p, m, flight)
  }

  ghost predicate CutShort(p: seq<Label>, m: Model)
    decreases |p|, 1
  {
    Expected(p, m, None) || exists m0, op :: Expected(p, m0, Some(op)) && (m == m0 || m == Write(m0, op))
  }

  function Flight(c: Call): Option<Op> {
    match c
    case NoCall => None
    case Pending(op) => Some(op)
    case Logged(op) => Some(op)
  }

  /** No acknowledged write is lost and no refused one appears. */
  lemma {:induction false} ClientExpectsMap(ss: seq<Sys>, ls: seq<Label>) returns (m: Model)
    requires IsRun(ss, ls)
    ensures Expected(ls, m, Flight(ss[|ls|].call))
    ensures MapOf(ls) == if ss[|ls|].call.Logged? then Write(m, ss[|ls|].call.op) else m
  {
    if ls == [] {
      m := map[];
    } else {
      var n := |ls| - 1;
      var p, l := ls[..n], ls[n];
      var m0 := ClientExpectsMap(ss[..n + 1], p);
      CommittedSnoc(p, l);
      assert ls == p + [l];
      assert Step(l, ss[n], ss[n + 1]);
      m := if l.Return? || l.Crash? || l.Stop? then MapOf(ls) else m0;
    }
  }

  // ----- a limit: reopening while a rename is unsettled -----

  /** The disk whose crash loses everything that is not settled, and brings
      back the manifest `c`. */
  function Worst(d: Disk, c: seq<nat>): Disk {
    Disk(d.log, {}, d.files - d.unsettled, {}, c, {}, {}, NoTemp)
  }

  /** Which crashes a disk survives, manifest by manifest: those that bring
      back `c` all recover exactly when the tables that `c` names are on disk,
      whole and settled; and only the broken manifests are not so. */
  lemma CrashRecoversIff(d: Disk, m: Model, c: seq<nat>)
    requires Recoverable(d, m) && c in d.Manifests() + d.broken
    ensures Stored(d, c) <==> forall e :: CrashImage(d, e) && e.manifest == c ==> Recovers(e, m)
    ensures Stored(d, c) <==> c !in d.broken
  {
    if c in d.broken {
      var id :| id in c && id in d.unsettled;
      assert CrashImage(d, Worst(d, c)) && !Stored(Worst(d, c), c);
    } else {
      assert c in d.Manifests();
      forall e | CrashImage(d, e) && e.manifest == c ensures Recovers(e, m) {
        ImageRecovers(d, e, m);
      }
    }
  }

  ghost predicate SurvivesCrashes(d: Disk, m: Model) {
    forall e :: CrashImage(d, e) ==> Recovers(e, m)
  }

  lemma SurvivesIff(d: Disk, m: Model)
    requires Recoverable(d, m)
    ensures SurvivesCrashes(d, m) <==> d.broken == {}
  {
    if d.broken == {} {
      forall e | CrashImage(d, e) ensures Recovers(e, m) { ImageRecovers(d, e, m); }
    } else {
      var c :| c in d.broken;
      CrashRecoversIff(d, m, c);
    }
  }

  /** Every table named by a manifest whose rename a crash may undo is named
      by the present manifest too. */
  ghost predicate Covers(d: Disk) {
    forall c, id :: c in d.olderManifests && id in c ==> id in d.manifest
  }

  /** The run goes on with internal steps only; if no store is running these
      are the removals and directory syncs of a reopening, in any order and
      cut short anywhere. */
  ghost predicate Reopening(ss: seq<Sys>, ls: seq<Label>, ss': seq<Sys>, ls': seq<Label>) {
    && IsRun(ss', ls') && ss <= ss' && ls <= ls'
    && forall i :: |ls| <= i < |ls'| ==> ls'[i].Internal?
  }

  lemma {:induction false} ReopeningKeepsCover(ss: seq<Sys>, ls: seq<Label>, ss': seq<Sys>, ls': seq<Label>)
    requires IsRun(ss, ls) && Reopening(ss, ls, ss', ls')
    requires ss[|ls|].mem == None && ss[|ls|].disk.broken == {} && Covers(ss[|ls|].disk)
    ensures var t := ss'[|ls'|]; t.mem == None && t.disk.broken == {} && Covers(t.disk)
    ensures MapOf(ls') == MapOf(ls)
    decreases |ls'|
  {
    if |ls'| == |ls| {
      assert ls' == ls;
    } else {
      var n := |ls'| - 1;
      ReopeningKeepsCover(ss, ls, ss'[..n + 1], ls'[..n]);
      assert ls' == ls'[..n] + [ls'[n]];
      CommittedSnoc(ls'[..n], ls'[n]);
      assert Step(ls'[n], ss'[n], ss'[n + 1]);
    }
  }

  lemma CoveredSurvives(ss: seq<Sys>, ls: seq<Label>, ss': seq<Sys>, ls': seq<Label>)
    requires IsRun(ss, ls) && Reopening(ss, ls, ss', ls')
    requires ss[|ls|].mem == None && ss[|ls|].disk.broken == {} && Covers(ss[|ls|].disk)
    ensures SurvivesCrashes(ss'[|ls'|].disk, MapOf(ls))
  {
    ReopeningKeepsCover(ss, ls, ss', ls');
    RunKeeps(ss', ls');
    SurvivesIff(ss'[|ls'|].disk, MapOf(ls));
  }

  /** Removing an uncovered table leaves a disk that some crash spoils. */
  lemma UncoveredSpoils(ss: seq<Sys>, ls: seq<Label>) returns (ss': seq<Sys>, ls': seq<Label>)
    requires IsRun(ss, ls) && ss[|ls|].mem == None && !Covers(ss[|ls|].disk)
    ensures Reopening(ss, ls, ss', ls') && !SurvivesCrashes(ss'[|ls'|].disk, MapOf(ls))
  {
    hide SurvivesCrashes, MapOf;
    var s := ss[|ls|];
    var c, id :| c in s.disk.olderManifests && id in c && id !in s.disk.manifest;
    RunKeeps(ss, ls);
    assert c in s.disk.Manifests() && Stored(s.disk, c);
    var l, t := Internal(Remove(id)), s.(disk := s.disk.Remove(id));
    RemoveKeeps(s.disk, id, MapOf(ls));
    SurvivesIff(t.disk, MapOf(ls));
    assert c in t.disk.broken;
    ss', ls' := Grow(ss, ls, l, t);
  }

  /** A store may be reopened on a disk, whatever the clearing removes and
      wherever it is cut short, and the machine fail at any moment of it,
      exactly when every manifest whose rename is not settled names only tables
      that the present manifest names. */
  lemma ReopeningIsSafeIff(ss: seq<Sys>, ls: seq<Label>)
    requires IsRun(ss, ls) && ss[|ls|].mem == None && ss[|ls|].disk.broken == {}
    ensures Covers(ss[|ls|].disk) <==>
              forall ss': seq<Sys>, ls': seq<Label> ::
                Reopening(ss, ls, ss', ls') ==> SurvivesCrashes(ss'[|ls'|].disk, MapOf(ls))
  {
    hide Step, Covers, SurvivesCrashes;
    if Covers(ss[|ls|].disk) {
      forall ss': seq<Sys>, ls': seq<Label> | Reopening(ss, ls, ss', ls')
        ensures SurvivesCrashes(ss'[|ls'|].disk, MapOf(ls))
      {
        CoveredSurvives(ss, ls, ss', ls');
      }
    } else {
      var ss', ls' := UncoveredSpoils(ss, ls);
    }
  }

  /** Whenever the program ended, the present manifest named every table of the
      manifests whose rename was not settled. */
  ghost predicate Careful(ss: seq<Sys>, ls: seq<Label>) {
    |ss| == |ls| + 1 && forall i :: 0 <= i < |ls| && ls[i].Stop? ==> Covers(ss[i].disk)
  }

  lemma {:induction false} CarefulRunsAreSafe(ss: seq<Sys>, ls: seq<Label>)
    requires IsRun(ss, ls) && Careful(ss, ls)
    ensures ss[|ls|].disk.broken == {}
    ensures ss[|ls|].mem == None ==> Covers(ss[|ls|].disk)
  {
    if ls != [] {
      var n := |ls| - 1;
      assert Careful(ss[..n + 1], ls[..n]) by {
        assert forall i :: 0 <= i < n ==> ls[..n][i] == ls[i] && ss[..n + 1][i] == ss[i];
      }
      CarefulRunsAreSafe(ss[..n + 1], ls[..n]);
      assert Step(ls[n], ss[n], ss[n + 1]);
    }
  }

  /** Whenever in the run there is no store, it may be reopened, whatever the
      machine does meanwhile. */
  ghost predicate AlwaysReopens(ss: seq<Sys>, ls: seq<Label>)
    requires |ss| == |ls| + 1
  {
    forall i, ss': seq<Sys>, ls': seq<Label> ::
      0 <= i <= |ls| && ss[i].mem == None && Reopening(ss[..i + 1], ls[..i], ss', ls') ==>
        SurvivesCrashes(ss'[|ls'|].disk, MapOf(ls[..i]))
  }

  lemma StopsAreCovered(ss: seq<Sys>, ls: seq<Label>, i: nat)
    requires IsRun(ss, ls) && AlwaysReopens(ss, ls) && i < |ls| && ls[i].Stop?
    ensures Covers(ss[i].disk)
  {
    hide SurvivesCrashes, Covers;
    assert Step(ls[i], ss[i], ss[i + 1]);
    var a, b := ss[..i + 2], ls[..i + 1];
    PrefixRun(ss, ls, i + 1);
    assert Reopening(a, b, a, b);
    SurvivesIff(a[i + 1].disk, MapOf(b));
    ReopeningIsSafeIff(a, b);
  }

  lemma CarefulReopens(ss: seq<Sys>, ls: seq<Label>, i: nat, ss': seq<Sys>, ls': seq<Label>)
    requires IsRun(ss, ls) && Careful(ss, ls) && i <= |ls| && ss[i].mem == None
    requires Reopening(ss[..i + 1], ls[..i], ss', ls')
    ensures SurvivesCrashes(ss'[|ls'|].disk, MapOf(ls[..i]))
  {
    hide SurvivesCrashes, Covers, Step;
    PrefixRun(ss, ls, i);
    CarefulRunsAreSafe(ss[..i + 1], ls[..i]);
    CoveredSurvives(ss[..i + 1], ls[..i], ss', ls');
  }

  /** The exact condition over whole runs. */
  lemma CarefulIffAlwaysReopens(ss: seq<Sys>, ls: seq<Label>)
    requires IsRun(ss, ls)
    ensures Careful(ss, ls) <==> AlwaysReopens(ss, ls)
  {
    hide SurvivesCrashes, Covers, Step;
    if Careful(ss, ls) {
      forall i, ss': seq<Sys>, ls': seq<Label> |
        0 <= i <= |ls| && ss[i].mem == None && Reopening(ss[..i + 1], ls[..i], ss', ls')
        ensures SurvivesCrashes(ss'[|ls'|].disk, MapOf(ls[..i]))
      {
        CarefulReopens(ss, ls, i, ss', ls');
      }
    }
    if AlwaysReopens(ss, ls) {
      forall i | 0 <= i < |ls| && ls[i].Stop? ensures Covers(ss[i].disk) {
        StopsAreCovered(ss, ls, i);
      }
    }
  }

  /** A table is on disk that the manifest does not name. */
  ghost predicate Dangles(d: Disk) {
    exists id :: id in d.files && id !in d.manifest
  }

  /** `e` is `d` after a clearing that succeeded: the tables that the manifest
      names are left as they were, and only they; if any other was removed,
      nothing awaits a sync, and if none was, nothing has changed. */
  ghost predicate Cleared(d: Disk, e: Disk) {
    && (forall id :: id in e.files ==> id in d.manifest)
    && (forall id :: id in d.manifest ==> Look(e.files, id) == Look(d.files, id))
    && (if Dangles(d) then e.unsettled == {} && e.olderManifests == {} && e.broken == {} else e == d)
  }

  /** The tables `removed`, one after the other, are dangling ones. */
  ghost predicate DanglingOnly(d: Disk, removed: seq<nat>) {
    Distinct(removed) && forall id :: id in removed ==> id in d.files && id !in d.manifest
  }

  lemma NoneDangling(d: Disk)
    ensures DanglingOnly(d, [])
  {}

  /** Midway through a clearing of `d`: the tables `found` are still to be looked
      at, and of the others `removed` are gone and nothing else. */
  ghost predicate Clearing(d: Disk, e: Disk, found: set<nat>, removed: seq<nat>) {
    && e.log == d.log && e.manifest == d.manifest && found <= e.files.Keys
    && (forall id :: Look(e.files, id) == if id in removed then None else Look(d.files, id))
    && (forall id :: id in e.files ==> id in found || id in d.manifest)
    && DanglingOnly(d, removed) && (removed == [] ==> e == d)
  }

  lemma ClearingStarts(d: Disk)
    ensures Clearing(d, d, d.files.Keys, []) && DanglingOnly(d, [])
  {}

  lemma ClearingSkips(d: Disk, e: Disk, found: set<nat>, removed: seq<nat>, id: nat)
    requires Clearing(d, e, found, removed) && id in found
    ensures id in e.files && e.manifest == d.manifest
    ensures id in e.manifest ==> Clearing(d, e, found - {id}, removed)
    ensures id !in e.manifest ==> Clearing(d, e.Remove(id), found - {id}, removed + [id])
    ensures id !in e.manifest ==> DanglingOnly(d, removed + [id])
    ensures e.Remove(id).log == d.log && e.Remove(id).manifest == d.manifest
  {
    var r := removed + [id];
    assert Look(e.files, id).Some?;
    assert id in e.files && id !in removed && id in d.files;
    forall i ensures i in r <==> i in removed || i == id {}
  }

  lemma ClearingEnds(d: Disk, e: Disk, removed: seq<nat>)
    requires Clearing(d, e, {}, removed)
    ensures DanglingOnly(d, removed)
    ensures Cleared(d, if removed == [] then e else e.SyncDirectory())
    ensures e.SyncDirectory().log == d.log && e.SyncDirectory().manifest == d.manifest
  {
    if removed != [] {
      assert removed[0] in removed;
    }
    forall id | id in e.files ensures id in d.manifest {}
    forall id | id in d.files && id !in d.manifest ensures id in removed {
      assert Look(e.files, id) == None || id in e.files;
    }
  }

  lemma ClearedLists(d: Disk, e: Disk)
    requires Cleared(d, e)
    ensures forall id :: id in e.files ==> id in e.manifest || id in d.manifest
  {}

  /** A store opened on a cleared disk survives every crash, exactly if the
      clearing removed a table, and so synced, or nothing was broken before. */
  lemma ClearedSurvives(d: Disk, e: Disk, m: Model)
    requires Recoverable(e, m) && Cleared(d, e)
    ensures SurvivesCrashes(e, m) <==> Dangles(d) || d.broken == {}
  {
    SurvivesIff(e, m);
  }

  /** The rename of a flush keeps every older manifest covered, if the list in
      memory is the one on disk; that of a compaction, whose ids are all new,
      leaves the manifest that it replaces uncovered unless that was empty. */
  lemma WhichRenamesCover(d: Disk, mem: Mem)
    requires d.temp.FullTemp? && Covers(d)
    ensures FlushList(d, mem, d.temp.ids) && d.manifest == mem.tables ==> Covers(d.Rename())
    ensures (forall id :: id in d.manifest ==> id !in d.temp.ids) ==> (Covers(d.Rename()) <==> d.manifest == [])
  {
    var e := d.Rename();
    if FlushList(d, mem, d.temp.ids) && d.manifest == mem.tables {
      assert e.manifest == [e.manifest[0]] + d.manifest;
    }
    if d.manifest != [] && forall id :: id in d.manifest ==> id !in d.temp.ids {
      assert d.manifest in e.olderManifests && d.manifest[0] in d.manifest;
    }
  }

  lemma OneEntryTable(op: Op, t: Table)
    requires op.Put? && t == [Entry(op.key, Value(op.value))]
    ensures Represents(t, WriteCells(map[], op))
  {
    forall k ensures Find(t, k) == Look(WriteCells(map[], op), k) {
      assert t[1..] == [];
    }
  }

  const SET := Put("a", "x")
  const ONE := [Entry("a", Value("x"))]

  /** A store whose first `Set` has been logged, flushed to table 1 and is
      about to be compacted. */
  const FLUSHED := Sys(
    Disk([], {[SET]}, map[1 := Complete(ONE)], {}, [1], {}, {}, NoTemp),
    Some(Mem(map[], [1], 2, {}, 1)),
    Logged(SET))

  lemma ReachFlushed() returns (ss: seq<Sys>, ls: seq<Label>)
    ensures IsRun(ss, ls) && ss[|ls|] == FLUSHED
  {
    var s, logged := ReachLogged();
    ss, ls := logged.0, logged.1;
    ss, ls, s := GrowTable(ss, ls, s, ONE);
    OneEntryTable(SET, ONE);
    ss, ls, s := GrowRename(ss, ls, s, [1]);
    s := s.(disk := s.disk.SyncDirectory());
    ss, ls := Grow(ss, ls, Internal(SyncDirectory), s);
    s := s.(mem := Some(s.mem.value.(tables := [1], cells := map[])));
    ss, ls := Grow(ss, ls, Internal(AdoptFlush), s);
    s := s.(disk := s.disk.Truncate());
    ss, ls := Grow(ss, ls, Internal(Truncate), s);
  }

  lemma ReachLogged() returns (s: Sys, run: (seq<Sys>, seq<Label>))
    ensures IsRun(run.0, run.1) && run.0[|run.1|] == s
    ensures s == Sys(FRESH.disk.(log := [SET]), Some(Mem(WriteCells(map[], SET), [], 1, {}, 1)), Logged(SET))
  {
    s := FRESH;
    var ss, ls := [s], [];
    s := s.(mem := Some(Load(s.disk)));
    ss, ls := Grow(ss, ls, Start, s);
    s := s.(call := Pending(SET));
    ss, ls := Grow(ss, ls, Call(SET), s);
    s := Sys(s.disk.Append(SET), Some(s.mem.value.Write(SET)), Logged(SET));
    ss, ls := Grow(ss, ls, Commit(SET), s);
    assert s.disk.log == [SET] && s.mem.value.cache == {};
    run := (ss, ls);
  }

  /** A run that is not safe: with a limit of one entry and one operation, the
      first `Set` flushes table 1 and compacts it into table 2; the program is
      killed after that rename but before the directory sync; reopening then
      removes table 1. A crash that keeps the removal but not the rename leaves
      a manifest that names a missing table. */
  lemma UnsyncedRenameHazard() returns (ss: seq<Sys>, ls: seq<Label>, e: Disk)
    ensures IsRun(ss, ls)
    ensures var d := ss[|ls|].disk;
      d.broken == {[1]} && CrashImage(d, e) && e.manifest == [1] && 1 !in e.files
  {
    ss, ls := ReachFlushed();
    var s;
    ss, ls, s := GrowTable(ss, ls, FLUSHED, ONE);
    assert Contents(s.disk.files, [2]) == [ONE] == Contents(s.disk.files, [1]);
    ss, ls, s := GrowRename(ss, ls, s, [2]);
    s := Sys(s.disk, None, NoCall);
    ss, ls := Grow(ss, ls, Stop, s);
    s := s.(disk := s.disk.Remove(1));
    ss, ls := Grow(ss, ls, Internal(Remove(1)), s);
    assert s.disk.broken == {[1]};
    e := Worst(s.disk, [1]);
  }

  lemma Grow(ss: seq<Sys>, ls: seq<Label>, l: Label, t: Sys) returns (ss': seq<Sys>, ls': seq<Label>)
    requires IsRun(ss, ls) && Step(l, ss[|ls|], t)
    ensures IsRun(ss', ls') && ss'[|ls'|] == t
    ensures ss' == ss + [t] && ls' == ls + [l]
  {
    ss', ls' := ss + [t], ls + [l];
  }

  /** The steps of saving a table under the next id. */
  lemma GrowTable(ss: seq<Sys>, ls: seq<Label>, s: Sys, t: Table) returns (ss': seq<Sys>, ls': seq<Label>, s': Sys)
    requires IsRun(ss, ls) && ss[|ls|] == s && s.mem.Some? && s.mem.value.nextId !in s.disk.files
    ensures IsRun(ss', ls') && ss'[|ls'|] == s'
    ensures var id := s.mem.value.nextId;
      s' == Sys(s.disk.Create(id).Fill(id, t).SyncDirectory(), Some(s.mem.value.(nextId := id + 1)), s.call)
  {
    var id := s.mem.value.nextId;
    s' := s.(mem := Some(s.mem.value.(nextId := id + 1)));
    ss', ls' := Grow(ss, ls, Internal(TakeId), s');
    s' := s'.(disk := s'.disk.Create(id));
    ss', ls' := Grow(ss', ls', Internal(Create(id)), s');
    s' := s'.(disk := s'.disk.Fill(id, t));
    ss', ls' := Grow(ss', ls', Internal(Fill(id, t)), s');
    s' := s'.(disk := s'.disk.SyncDirectory());
    ss', ls' := Grow(ss', ls', Internal(SyncDirectory), s');
  }

  /** The steps of a manifest save up to its rename. */
  lemma GrowRename(ss: seq<Sys>, ls: seq<Label>, s: Sys, ids: seq<nat>)
    returns (ss': seq<Sys>, ls': seq<Label>, s': Sys)
    requires IsRun(ss, ls) && ss[|ls|] == s && s.mem.Some? && Stored(s.disk, ids)
    requires FlushList(s.disk, s.mem.value, ids) || CompactionList(s.disk, s.mem.value.tables, ids)
    ensures IsRun(ss', ls') && ss'[|ls'|] == s'
    ensures s' == s.(disk := s.disk.(temp := FullTemp(ids)).Rename())
  {
    s' := s.(disk := s.disk.(temp := HalfTemp));
    ss', ls' := Grow(ss, ls, Internal(TouchTemp), s');
    s' := s'.(disk := s'.disk.(temp := FullTemp(ids)));
    ss', ls' := Grow(ss', ls', Internal(FillTemp(ids)), s');
    s' := s'.(disk := s'.disk.Rename());
    ss', ls' := Grow(ss', ls', Internal(Rename), s');
  }
}
