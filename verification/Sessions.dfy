/** A session in which nothing fails, call by call: what every write does to
    the memtable, the tables and the operation count, and so how many tables
    there may be. */
module Sessions {
  import opened Tables
  import opened Memtables
  import opened Operations
  import opened Merging
  import opened Compaction

  /** What a store holds: its memtable, its tables newest first, and how many
      operations it counts. */
  datatype Image = Image(cells: Cells, tables: seq<Table>, operations: nat)
  {
    function Write(op: Op): Image {
      this.(cells := WriteCells(cells, op), operations := operations + 1)
    }
  }

  /** The memtable has become the newest table, and is empty. */
  ghost predicate Flushed(a: Image, b: Image) {
    && b.tables != [] && Represents(b.tables[0], a.cells) && b.tables[1..] == a.tables
    && b.cells == map[] && b.operations == a.operations
  }

  ghost predicate FlushStep(a: Image, b: Image, m: nat) {
    if |a.cells| < m then b == a else Flushed(a, b)
  }

  /** The tables have become their compaction, and counting starts again. */
  ghost predicate CompactStep(a: Image, b: Image, m: nat, o: nat) {
    if a.operations < o then b == a
    else Compacted(Reverse(b.tables), a.tables, m) && b == Image(a.cells, b.tables, 0)
  }

  /** A write: it enters the memtable, a full memtable is flushed, and the
      tables are compacted if that is due. */
  ghost predicate WriteStep(a: Image, op: Op, b: Image, m: nat, o: nat) {
    exists mid :: FlushStep(a.Write(op), mid, m) && CompactStep(mid, b, m, o)
  }

  /** What a flush that fails may leave: all as it was, or the new table listed
      and the memtable empty, the log alone not being cut. */
  ghost predicate FailedFlush(a: Image, b: Image, m: nat) {
    |a.cells| >= m && (b == a || Flushed(a, b))
  }

  /** ... and a compaction that fails, after the flush that precedes it. */
  ghost predicate FailedCompaction(a: Image, b: Image, m: nat, o: nat) {
    exists mid :: FlushStep(a, mid, m) && mid.operations >= o &&
      b == mid.(tables := b.tables) && (b.tables == mid.tables || Compacted(Reverse(b.tables), mid.tables, m))
  }

  /** `ss` are the images of a store before the writes `ops` and after each. */
  ghost predicate IsSession(ss: seq<Image>, ops: seq<Op>, m: nat, o: nat) {
    && |ss| == |ops| + 1
    && forall i :: 0 <= i < |ops| ==> WriteStep(ss[i], ops[i], ss[i + 1], m, o)
  }

  /** The image just after the last compaction, or the first of the session:
      only a compaction ends a write with no operation counted. */
  function LastCompaction(ss: seq<Image>): (j: nat)
    requires ss != []
    ensures j < |ss|
  {
    var n := |ss| - 1;
    if n == 0 || ss[n].operations == 0 then n else LastCompaction(ss[..n])
  }

  // ----- a write is a function -----

  lemma FlushStepIsDeterministic(a: Image, b: Image, c: Image, m: nat)
    requires FlushStep(a, b, m) && FlushStep(a, c, m)
    ensures b == c
  {
    if |a.cells| >= m {
      TableOfCellsIsUnique(b.tables[0], c.tables[0], a.cells);
      assert b.tables == [b.tables[0]] + b.tables[1..] && c.tables == [c.tables[0]] + c.tables[1..];
    }
  }

  /** What a store holds after a write follows from what it held before, and
      neither the map order of the flush nor the heap of the merge shows. */
  lemma WriteIsDeterministic(a: Image, op: Op, b: Image, c: Image, m: nat, o: nat)
    requires WriteStep(a, op, b, m, o) && WriteStep(a, op, c, m, o) && m > 0
    ensures b == c
  {
    var x :| FlushStep(a.Write(op), x, m) && CompactStep(x, b, m, o);
    var y :| FlushStep(a.Write(op), y, m) && CompactStep(y, c, m, o);
    FlushStepIsDeterministic(a.Write(op), x, y, m);
    if x.operations >= o {
      CompactionIsDeterministic(Reverse(b.tables), Reverse(c.tables), x.tables, m);
      ReverseTwice(b.tables);
      ReverseTwice(c.tables);
    }
  }

  /** A write compacts exactly when the operations have reached their limit;
      only then does it end with none counted. */
  lemma CompactsWhenDue(a: Image, op: Op, b: Image, m: nat, o: nat)
    requires WriteStep(a, op, b, m, o) && m > 0
    ensures |b.cells| < m
    ensures a.operations + 1 < o ==> b.operations == a.operations + 1
    ensures a.operations + 1 >= o ==>
              && b.operations == 0
              && exists mid :: FlushStep(a.Write(op), mid, m) && Compacted(Reverse(b.tables), mid.tables, m)
  {
    var mid :| FlushStep(a.Write(op), mid, m) && CompactStep(mid, b, m, o);
  }

  // ----- how many tables -----

  function Min(a: nat, b: nat): nat {
    if a <= b then a else b
  }

  /** `f` flushes, and `size` entries in the memtable towards the next, are
      paid for by the `carried` entries that it started with and `operations`. */
  ghost predicate Paid(m: nat, f: int, size: nat, carried: nat, operations: nat) {
    f >= 0 && m * f + Min(size, m) <= Min(carried, m) + operations
  }

  lemma StartPaid(m: nat, size: nat, operations: nat)
    ensures Paid(m, 0, size, size, operations)
  {
    assert m * 0 == 0;
  }

  lemma WritePaid(m: nat, f: int, a: Image, op: Op, carried: nat)
    requires Paid(m, f, |a.cells|, carried, a.operations)
    ensures Paid(m, f, |a.Write(op).cells|, carried, a.Write(op).operations)
  {
    assert a.Write(op).cells.Keys == a.cells.Keys + {op.key};
    assert |a.Write(op).cells| <= |a.cells| + 1;
  }

  lemma FlushPaid(m: nat, f: int, a: Image, b: Image, carried: nat)
    requires FlushStep(a, b, m) && Paid(m, f, |a.cells|, carried, a.operations)
    ensures Paid(m, f + |b.tables| - |a.tables|, |b.cells|, carried, b.operations)
  {
    assert m * (f + 1) == m * f + m;
  }

  /** The last image of the session is paid for from the one at `j`. */
  ghost predicate Settled(ss: seq<Image>, j: nat, m: nat)
    requires j < |ss|
  {
    var a, b := ss[j], ss[|ss| - 1];
    Paid(m, |b.tables| - |a.tables|, |b.cells|, |a.cells|, b.operations)
  }

  /** A write after which no compaction was due. */
  lemma StepPaid(m: nat, f: int, a: Image, op: Op, b: Image, carried: nat, o: nat)
    requires WriteStep(a, op, b, m, o) && b.operations != 0 && Paid(m, f, |a.cells|, carried, a.operations)
    ensures Paid(m, f + |b.tables| - |a.tables|, |b.cells|, carried, b.operations)
  {
    hide FlushStep, Paid;
    var mid :| FlushStep(a.Write(op), mid, m) && CompactStep(mid, b, m, o);
    WritePaid(m, f, a, op, carried);
    FlushPaid(m, f, a.Write(op), mid, carried);
  }

  lemma {:induction false} SessionSettles(ss: seq<Image>, ops: seq<Op>, m: nat, o: nat)
    requires IsSession(ss, ops, m, o) && m > 0 && o > 0
    ensures Settled(ss, LastCompaction(ss), m)
    ensures ops != [] ==> |ss[|ops|].cells| < m && ss[|ops|].operations < o
  {
    hide Paid, WriteStep;
    var n := |ops|;
    StartPaid(m, |ss[n].cells|, ss[n].operations);
    if n > 0 {
      var p := ss[..n];
      SessionSettles(p, ops[..n - 1], m, o);
      var a, b, op, j := ss[n - 1], ss[n], ops[n - 1], LastCompaction(p);
      assert a == p[|p| - 1] && p[j] == ss[j];
      assert WriteStep(ss[n - 1], ops[n - 1], ss[n - 1 + 1], m, o);
      CompactsWhenDue(a, op, b, m, o);
      if b.operations != 0 {
        StepPaid(m, |a.tables| - |ss[j].tables|, a, op, b, |ss[j].cells|, o);
      }
    }
  }

  lemma {:induction false} TotalReversed(outs: seq<Table>)
    ensures Total(Reverse(outs)) == |Flatten(outs)|
  {
    if outs != [] {
      TotalReversed(outs[..|outs| - 1]);
      assert Reverse(outs)[1..] == Reverse(outs[..|outs| - 1]);
    }
  }

  /** A compaction leaves just as many tables as its entries fill. */
  lemma CompactionCount(now: seq<Table>, was: seq<Table>, m: nat)
    requires Compacted(Reverse(now), was, m) && m > 0
    ensures |now| == CeilDiv(Total(now), m)
  {
    CompactionShape(Reverse(now), was, m);
    ReverseTwice(now);
    TotalReversed(Reverse(now));
  }

  lemma {:induction false} LastCompactionCount(ss: seq<Image>, ops: seq<Op>, m: nat, o: nat)
    requires IsSession(ss, ops, m, o) && m > 0
    ensures var j := LastCompaction(ss); j > 0 ==> |ss[j].tables| == CeilDiv(Total(ss[j].tables), m)
  {
    var n := |ops|;
    if n > 0 {
      if ss[n].operations == 0 {
        assert WriteStep(ss[n - 1], ops[n - 1], ss[n - 1 + 1], m, o);
        var mid :| FlushStep(ss[n - 1].Write(ops[n - 1]), mid, m) && CompactStep(mid, ss[n], m, o);
        CompactionCount(ss[n].tables, mid.tables, m);
      } else {
        LastCompactionCount(ss[..n], ops[..n - 1], m, o);
      }
    }
  }

  lemma CeilCovers(o: nat, m: nat)
    requires m > 0
    ensures CeilDiv(o, m) * m >= o
  {
    var x := o + m - 1;
    assert x == x / m * m + x % m;
  }

  lemma PaidFlushes(m: nat, f: int, size: nat, carried: nat, operations: nat, o: nat)
    requires m > 0 && Paid(m, f, size, carried, operations) && operations < o
    ensures f <= CeilDiv(o, m)
  {
    hide CeilDiv;
    CeilCovers(o, m);
    var c := CeilDiv(o, m);
    if f > c {
      assert (c + 1) * m == c * m + m;
      MulMonotone(c + 1, f, m);
    }
  }

  /** The amortised bound of a session without failures. Since the last
      compaction there was at most one flush, and with it one new table, for
      every `m` of the operations counted, and one for the entries that the
      memtable held then; at most ceil(o / m) in all. If the session started on
      no tables, these come to no more than the tables that the entries left by
      that compaction fill. */
  lemma SessionTableBound(ss: seq<Image>, ops: seq<Op>, m: nat, o: nat)
    requires IsSession(ss, ops, m, o) && m > 0 && o > 0
    ensures var j, n := LastCompaction(ss), |ops|;
      && m * (|ss[n].tables| - |ss[j].tables|) + Min(|ss[n].cells|, m) <= Min(|ss[j].cells|, m) + ss[n].operations
      && 0 <= |ss[n].tables| - |ss[j].tables| <= CeilDiv(o, m)
      && (ss[0].tables == [] ==> |ss[n].tables| <= CeilDiv(Total(ss[j].tables), m) + CeilDiv(o, m))
  {
    var j, n := LastCompaction(ss), |ops|;
    SessionSettles(ss, ops, m, o);
    LastCompactionCount(ss, ops, m, o);
    if n > 0 {
      PaidFlushes(m, |ss[n].tables| - |ss[j].tables|, |ss[n].cells|, |ss[j].cells|, ss[n].operations, o);
    }
  }
}
