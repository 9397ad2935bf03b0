/** What the code asks of the disk, effect by effect. The trace of a store
    lists every effect that was tried, the ones that failed too. */
module Effects {
  import opened Operations

  datatype Effect =
    | LogRead | LogOpened | LogAppend(op: Op) | LogCut | LogSync
    | ManifestRead | TempOpened | TempWritten | ManifestRenamed | ManifestSync
    | TableRead(id: nat) | TableCreated(id: nat) | TableWritten(id: nat) | TableRemoved(id: nat)
    | DirectoryRead | DirectorySync

  function TableReads(ids: seq<nat>): seq<Effect> {
    seq(|ids|, i requires 0 <= i < |ids| => TableRead(ids[i]))
  }

  function TableRemovals(ids: seq<nat>): seq<Effect> {
    seq(|ids|, i requires 0 <= i < |ids| => TableRemoved(ids[i]))
  }

  function TableSaves(id: nat): seq<Effect> {
    [TableCreated(id), TableWritten(id), DirectorySync]
  }

  /** Saving the tables from `lo` up to `hi`, one after the other. */
  function SavesUpTo(lo: nat, hi: nat): seq<Effect> {
    if hi <= lo then [] else SavesUpTo(lo, hi - 1) + TableSaves(hi - 1)
  }

  function ManifestSaves(): seq<Effect> {
    [TempOpened, TempWritten, ManifestRenamed, ManifestSync, DirectorySync]
  }

  function FlushEffects(id: nat): seq<Effect> {
    TableSaves(id) + ManifestSaves() + [LogCut, LogSync]
  }

  function CompactEffects(ids: seq<nat>, lo: nat, hi: nat): seq<Effect> {
    TableReads(ids) + SavesUpTo(lo, hi) + ManifestSaves() + TableRemovals(ids)
  }

  function FlushPart(full: bool, id: nat): seq<Effect> {
    if full then FlushEffects(id) else []
  }

  function CompactPart(full: bool, due: bool, ids: seq<nat>, id: nat, hi: nat): seq<Effect> {
    if !due then []
    else if full then CompactEffects([id] + ids, id + 1, hi)
    else CompactEffects(ids, id, hi)
  }

  /** What follows the logging of a write, over the tables `ids` with the next
      id `id`; `hi` is the next id after it. */
  function WriteEffects(full: bool, due: bool, ids: seq<nat>, id: nat, hi: nat): seq<Effect> {
    FlushPart(full, id) + CompactPart(full, due, ids, id, hi)
  }

  /** The removals of a clearing, and the sync that follows any. */
  function ClearEffects(removed: seq<nat>): seq<Effect> {
    [DirectoryRead] + TableRemovals(removed) + if removed == [] then [] else [DirectorySync]
  }

  /** From the trace `a` to the trace `b` the effects `es` were tried in order:
      all of them, or those up to one that failed. */
  ghost predicate Performed(a: seq<Effect>, b: seq<Effect>, es: seq<Effect>, ok: bool) {
    a <= b && b <= a + es && if ok then b == a + es else b != a
  }

  lemma PerformedThen(a: seq<Effect>, m: seq<Effect>, b: seq<Effect>, es: seq<Effect>, fs: seq<Effect>, ok: bool)
    requires Performed(a, m, es, true) && Performed(m, b, fs, ok)
    ensures Performed(a, b, es + fs, ok)
  {
    assert a + es + fs == a + (es + fs);
  }

  lemma PerformedPart(a: seq<Effect>, b: seq<Effect>, es: seq<Effect>, fs: seq<Effect>)
    requires Performed(a, b, es, false)
    ensures Performed(a, b, es + fs, false)
  {
    assert a + es + fs == a + (es + fs);
  }

  lemma SavedOneMore(a: seq<Effect>, m: seq<Effect>, b: seq<Effect>, lo: nat, id: nat, ok: bool)
    requires lo <= id && Performed(a, m, SavesUpTo(lo, id), true) && Performed(m, b, TableSaves(id), ok)
    ensures Performed(a, b, SavesUpTo(lo, id + 1), ok)
  {
    PerformedThen(a, m, b, SavesUpTo(lo, id), TableSaves(id), ok);
  }

  lemma Compacts(
    a: seq<Effect>, m: seq<Effect>, b: seq<Effect>, ids: seq<nat>, lo: nat, hi: nat, ok: bool)
    requires Performed(a, m, TableReads(ids) + SavesUpTo(lo, hi), true)
    requires Performed(m, b, ManifestSaves() + TableRemovals(ids), ok)
    ensures Performed(a, b, CompactEffects(ids, lo, hi), ok)
  {
    hide SavesUpTo, ManifestSaves;
    var es, fs := TableReads(ids) + SavesUpTo(lo, hi), ManifestSaves() + TableRemovals(ids);
    PerformedThen(a, m, b, es, fs, ok);
    assert es + fs == CompactEffects(ids, lo, hi);
  }

  lemma BuildStops(a: seq<Effect>, b: seq<Effect>, ids: seq<nat>, lo: nat, hi: nat)
    requires Performed(a, b, TableReads(ids) + SavesUpTo(lo, hi), false)
    ensures Performed(a, b, CompactEffects(ids, lo, hi), false)
  {
    hide SavesUpTo, ManifestSaves;
    var es, fs := TableReads(ids) + SavesUpTo(lo, hi), ManifestSaves() + TableRemovals(ids);
    PerformedPart(a, b, es, fs);
    assert es + fs == CompactEffects(ids, lo, hi);
  }

  lemma NoSaves(a: seq<Effect>, lo: nat)
    ensures Performed(a, a, SavesUpTo(lo, lo), true)
  {
    NothingToDo(a);
  }

  lemma NothingToDo(a: seq<Effect>)
    ensures Performed(a, a, [], true)
  {
    assert a + [] == a;
  }

  lemma RemovalsSnoc(ids: seq<nat>, id: nat)
    ensures TableRemovals(ids + [id]) == TableRemovals(ids) + [TableRemoved(id)]
  {}

  lemma NoneYet(ids: seq<nat>)
    ensures TableReads(ids[..0]) == TableRemovals(ids[..0]) == []
  {}

  /** Some of the reads, the last of which may have failed. */
  lemma ReadsSoFar(a: seq<Effect>, ids: seq<nat>, i: nat)
    requires i < |ids|
    ensures Performed(a, a + TableReads(ids[..i]) + [TableRead(ids[i])], TableReads(ids), false)
  {
    ReadsNext(ids, i);
  }

  lemma RemovalsSoFar(a: seq<Effect>, ids: seq<nat>, i: nat)
    requires i < |ids|
    ensures Performed(a, a + TableRemovals(ids[..i]) + [TableRemoved(ids[i])], TableRemovals(ids), false)
  {
    RemovalsNext(ids, i);
  }

  lemma ReadsNext(ids: seq<nat>, i: nat)
    requires i < |ids|
    ensures TableReads(ids[..i + 1]) == TableReads(ids[..i]) + [TableRead(ids[i])]
    ensures TableReads(ids[..i + 1]) <= TableReads(ids)
  {}

  lemma RemovalsNext(ids: seq<nat>, i: nat)
    requires i < |ids|
    ensures TableRemovals(ids[..i + 1]) == TableRemovals(ids[..i]) + [TableRemoved(ids[i])]
    ensures TableRemovals(ids[..i + 1]) <= TableRemovals(ids)
  {}
}
