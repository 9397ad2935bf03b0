/** What the tables that a flush or a compaction has written are good for. */
module Outputs {
  import opened Tables
  import opened Memtables
  import opened Merging
  import opened Compaction
  import opened ManifestText
  import opened Protocol
  import opened Recovery
  import opened World

  /** The output tables so far, by id and contents. */
  ghost predicate Written(d: Disk, ids: seq<nat>, outs: seq<Table>, lo: nat, hi: nat) {
    && |ids| == |outs| == hi - lo
    && (forall i :: 0 <= i < |ids| ==> ids[i] == lo + i)
    && (forall i :: 0 <= i < |ids| ==> ids[i] !in d.unsettled && Look(d.files, ids[i]) == Some(Complete(outs[i])))
  }

  /** `ids` are the ids from `lo` up to `hi`, newest first. */
  ghost predicate CountsDown(ids: seq<nat>, lo: nat, hi: nat) {
    |ids| == hi - lo && forall i :: 0 <= i < |ids| ==> ids[i] == hi - 1 - i
  }

  /** Only tables from `lo` on have been touched. */
  ghost predicate Above(d: Disk, e: Disk, lo: nat) {
    && e.log == d.log && e.olderLogs == d.olderLogs && e.manifest == d.manifest
    && (forall i: nat :: i < lo ==> Look(e.files, i) == Look(d.files, i))
    && (forall i: nat :: i < lo && i in e.unsettled ==> i in d.unsettled)
  }

  lemma KeptContents(files: map<nat, File>, kept: map<nat, File>, ids: seq<nat>)
    requires forall id :: id in ids ==> Look(kept, id) == Look(files, id)
    ensures Contents(kept, ids) == Contents(files, ids)
  {
    forall i | 0 <= i < |ids| ensures TableAt(kept, ids[i]) == TableAt(files, ids[i]) {
      assert ids[i] in ids;
    }
  }

  /** The output tables, listed newest first, may take the place of the list
      they were merged from. */
  lemma OutputReady(d: Disk, e: Disk, mem: Mem, ids: seq<nat>, outs: seq<Table>, lo: nat, hi: nat, m: nat)
    requires Stored(d, mem.tables) && (forall id :: id in mem.tables ==> id < lo) && Above(d, e, lo)
    requires Written(e, ids, outs, lo, hi)
    requires Compacted(outs, Contents(d.files, mem.tables), m)
    ensures Contents(e.files, Reverse(ids)) == Reverse(outs) && CountsDown(Reverse(ids), lo, hi)
    ensures Contents(e.files, mem.tables) == Contents(d.files, mem.tables)
    ensures Stored(e, Reverse(ids)) && CompactionList(e, mem.tables, Reverse(ids))
    ensures forall id :: id in mem.tables ==> id in e.files && id !in Reverse(ids)
  {
    var all := Contents(d.files, mem.tables);
    CompactionPreservesMeaning(outs, all, m);
    StoredFrame(d, e, mem.tables);
    ReverseNames(ids);
    ReverseContents(e.files, ids, outs);
    ReverseDistinct(ids);
    forall i | 0 <= i < |ids| ensures Reverse(ids)[i] == hi - 1 - i { ReverseAt(ids, i); }
  }

  lemma StoredSorted(d: Disk, ids: seq<nat>)
    requires Stored(d, ids)
    ensures AllSorted(Contents(d.files, ids))
    ensures Distinct(ids)
  {}

  lemma UntouchedBelow(d: Disk, e: Disk, mem: Mem, lo: nat)
    requires Stored(d, mem.tables) && (forall id :: id in mem.tables ==> id < lo) && Above(d, e, lo)
    ensures Contents(e.files, mem.tables) == Contents(d.files, mem.tables) && e.log == d.log
  {
    StoredFrame(d, e, mem.tables);
  }

  lemma {:induction false} ReverseContents(files: map<nat, File>, ids: seq<nat>, outs: seq<Table>)
    requires |ids| == |outs| && forall i :: 0 <= i < |ids| ==> TableAt(files, ids[i]) == outs[i]
    ensures Contents(files, Reverse(ids)) == Reverse(outs)
  {
    if ids != [] {
      var n := |ids| - 1;
      ReverseContents(files, ids[..n], outs[..n]);
      var r := Reverse(ids[..n]);
      assert Contents(files, [ids[n]] + r) == [TableAt(files, ids[n])] + Contents(files, r);
    }
  }

  lemma {:induction false} ReverseDistinct(ids: seq<nat>)
    requires Distinct(ids)
    ensures Distinct(Reverse(ids))
  {
    if ids != [] {
      var n := |ids| - 1;
      ReverseDistinct(ids[..n]);
      ReverseNames(ids[..n]);
      var r := Reverse(ids[..n]);
      forall i | 0 <= i < |r| ensures r[i] != ids[n] {
        assert r[i] in r;
        var j :| 0 <= j < n && ids[j] == r[i];
      }
    }
  }

  lemma BeforeOutput(d: Disk, lo: nat)
    ensures Above(d, d, lo) && Written(d, [], [], lo, lo)
  {}

  lemma WrittenNext(d: Disk, e: Disk, ids: seq<nat>, outs: seq<Table>, lo: nat, id: nat, t: Table)
    requires Written(d, ids, outs, lo, id) && lo <= id
    requires OnlyTable(d, e, id) && e.unsettled == {} && Look(e.files, id) == Some(Complete(t))
    ensures Written(e, ids + [id], outs + [t], lo, id + 1)
  {}

  /** Where the outer loop of the merge stands: the entries kept so far are in
      the output tables, all full, and in the table being filled. */
  ghost predicate Filling(done: Table, outs: seq<Table>, cur: Table, m: nat) {
    && LiveOf(done) == Flatten(outs) + cur && |cur| < m
    && forall i :: 0 <= i < |outs| ==> |outs[i]| == m
  }

  lemma FillingNext(done: Table, outs: seq<Table>, cur: Table, m: nat, e: Entry)
    requires Filling(done, outs, cur, m)
    ensures var cur' := if e.cell.Value? then cur + [e] else cur;
      && (|cur'| == m ==> Filling(done + [e], outs + [cur'], [], m))
      && (|cur'| != m ==> Filling(done + [e], outs, cur', m))
  {
    var cur' := if e.cell.Value? then cur + [e] else cur;
    assert (done + [e])[..|done|] == done;
    assert LiveOf(done + [e]) == Flatten(outs) + cur';
    assert (outs + [cur'])[..|outs|] == outs;
  }

  lemma FillingStart(m: nat)
    requires m > 0
    ensures Filling([], [], [], m)
  {}

  lemma FillingDone(done: Table, outs: seq<Table>, cur: Table, m: nat, all: seq<Table>)
    requires Filling(done, outs, cur, m) && IsMerge(done, all)
    ensures Compacted(if cur == [] then outs else outs + [cur], all, m)
  {
    assert (outs + [cur])[..|outs|] == outs;
    assert cur == [] ==> Flatten(outs) + cur == Flatten(outs);
    assert Chunks(if cur == [] then outs else outs + [cur], LiveOf(done), m);
  }

  lemma FlushListContents(d: Disk, mem: Mem, ids: seq<nat>)
    requires FlushList(d, mem, ids)
    ensures var ts := Contents(d.files, ids);
      ts != [] && Represents(ts[0], mem.cells) && ts[1..] == Contents(d.files, mem.tables)
  {}

  lemma StoredOutside(d: Disk, e: Disk, ids: seq<nat>, id: nat)
    requires Stored(d, ids) && id !in d.files && OnlyTable(d, e, id)
    ensures Stored(e, ids) && Contents(e.files, ids) == Contents(d.files, ids)
  {
    StoredFrame(d, e, ids);
  }

  /** A new table made of the memtable may go in front of the list. */
  lemma FlushReady(d: Disk, e: Disk, mem: Mem, id: nat, t: Table)
    requires Stored(d, mem.tables) && id !in d.files && OnlyTable(d, e, id) && e.unsettled == {}
    requires Look(e.files, id) == Some(Complete(t)) && Represents(t, mem.cells)
    ensures Stored(e, [id] + mem.tables) && FlushList(e, mem, [id] + mem.tables)
    ensures Contents(e.files, [id] + mem.tables) == [t] + Contents(d.files, mem.tables)
  {
    var ids := [id] + mem.tables;
    assert ids[1..] == mem.tables;
    StoredFrame(d, e, mem.tables);
    assert forall i :: 0 < i < |ids| ==> ids[i] == mem.tables[i - 1];
  }
}
