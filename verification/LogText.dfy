/** The text of the write-ahead log: one checksummed record a line. The JSON
    encoding and the CRC-32 are library code, so they are parameters. */
module LogText {
  import opened Tables
  import opened Memtables
  import opened Operations
  import opened Lines

  datatype LogEntry = LogEntry(operation: string, key: string, value: string, checksum: nat)

  datatype Codec = Codec(
    encode: LogEntry -> string,
    decode: string -> Option<LogEntry>,
    checksum: string -> nat)
  {
    /** What is asked of the encoding; nothing is asked of the checksum. */
    ghost predicate Sound() {
      forall e :: decode(encode(e)) == Some(e) && Plain(encode(e))
    }

    /** ... and, for the exact results on torn records: that no part of a record
        is one, nor a part or the whole of one with another behind it. */
    ghost predicate Strict() {
      && (forall e, n :: 0 < n < |encode(e)| ==> decode(DropCR(encode(e)[..n])) == None)
      && (forall e, f, n :: 0 < n <= |encode(e)| ==> decode(encode(e)[..n] + encode(f)) == None)
    }

    /** The text that the checksum covers. */
    function Sum(operation: string, key: string, value: string): nat {
      checksum(operation + "," + key + "," + value)
    }

    predicate Intact(e: LogEntry) {
      Sum(e.operation, e.key, e.value) == e.checksum
    }

    function Entry(op: Op): LogEntry {
      match op
      case Put(k, v) => LogEntry("put", k, v, Sum("put", k, v))
      case Delete(k) => LogEntry("delete", k, "", Sum("delete", k, ""))
    }

    function Record(op: Op): string {
      encode(Entry(op)) + "\n"
    }

    function Lines(ops: seq<Op>): seq<string> {
      seq(|ops|, i requires 0 <= i < |ops| => encode(Entry(ops[i])))
    }
  }

  /** The effect of one intact record; an unknown operation has none. */
  function ReplayEntry(cells: Cells, e: LogEntry): Cells {
    if e.operation == "delete" then WriteCells(cells, Delete(e.key))
    else if e.operation == "put" then WriteCells(cells, Put(e.key, e.value))
    else cells
  }

  datatype Replayed = Unreadable(cells: Cells) | Ok(cells: Cells)

  /** Replaying stops for good at a failed checksum, and with an error at a
      line that is no record. */
  function ReplayLines(c: Codec, lines: seq<string>, cells: Cells): Replayed {
    if lines == [] then Ok(cells)
    else
      match c.decode(lines[0])
      case None => Unreadable(cells)
      case Some(e) => if c.Intact(e) then ReplayLines(c, lines[1..], ReplayEntry(cells, e)) else Ok(cells)
  }

  /** What the environment has in store for a call of `log`. */
  datatype Fate = WriteFails(written: nat) | NewlineFails | SyncFails | AllWell

  /** How much of the record and its newline is written. */
  function Reached(c: Codec, op: Op, fate: Fate): (n: nat)
    ensures n <= |c.Record(op)|
  {
    match fate
    case WriteFails(n) => if n < |c.Record(op)| then n else |c.Record(op)| - 1
    case NewlineFails => |c.Record(op)| - 1
    case _ => |c.Record(op)|
  }

  class WriteAheadLog {
    const codec: Codec
    var text: string
    /** The operations logged since the last truncation, up to the first record
        that was left torn, and the text from there on. */
    ghost var ops: seq<Op>
    ghost var torn: string

    ghost predicate Valid()
      reads this
    {
      codec.Sound() && text == Join(codec.Lines(ops)) + torn
    }

    constructor (codec: Codec)
      requires codec.Sound()
      ensures Valid() && ops == [] && torn == ""
    {
      this.codec, text, ops, torn := codec, "", [], "";
    }

    /** `log`: write the record, write its newline, sync. A call that fails
        leaves any part of this, the whole too if the sync failed. */
    method Log(op: Op, fate: Fate) returns (ok: bool)
      requires Valid()
      modifies this
      ensures Valid() && (ok <==> fate == AllWell)
      ensures var n, whole := Reached(codec, op, fate), |codec.Record(op)|;
        && text == old(text) + codec.Record(op)[..n]
        && (old(torn) == "" && n == whole ==> ops == old(ops) + [op] && torn == "")
        && (old(torn) == "" && n < whole ==> ops == old(ops) && torn == codec.Record(op)[..n])
        && (old(torn) != "" ==> ops == old(ops) && torn == old(torn) + codec.Record(op)[..n])
    {
      var line := codec.encode(codec.Entry(op));
      ghost var n := Reached(codec, op, fate);
      if fate.WriteFails? {
        text := text + line[..if fate.written <= |line| then fate.written else |line|];
        Extend(op, n);
        return false;
      }
      text := text + line;
      if fate == NewlineFails {
        Extend(op, n);
        return false;
      }
      text := text + "\n";
      Extend(op, n);
      ok := fate != SyncFails;
    }

    ghost method Extend(op: Op, n: nat)
      requires n <= |codec.Record(op)| && codec.Sound()
      requires text == Join(codec.Lines(ops)) + torn + codec.Record(op)[..n]
      modifies this`ops, this`torn
      ensures Valid()
      ensures old(torn) == "" && n == |codec.Record(op)| ==> ops == old(ops) + [op] && torn == ""
      ensures old(torn) == "" && n < |codec.Record(op)| ==> ops == old(ops) && torn == codec.Record(op)[..n]
      ensures old(torn) != "" ==> ops == old(ops) && torn == old(torn) + codec.Record(op)[..n]
    {
      if torn == "" && n == |codec.Record(op)| {
        JoinRecord(codec, ops, op);
        ops := ops + [op];
      } else {
        torn := torn + codec.Record(op)[..n];
      }
    }

    method Truncate()
      requires Valid()
      modifies this
      ensures Valid() && ops == [] && torn == ""
    {
      text, ops, torn := "", [], "";
    }

    /** Reopening a log that was only ever written by `Log` and `Truncate`, no
        record being torn, yields the last-writer-wins fold of what was logged. */
    method Reopen(mt: Memtable) returns (r: Replayed)
      requires Valid() && torn == "" && mt.cells == map[]
      modifies mt
      ensures r == Ok(Replay(ops)) && mt.cells == Replay(ops)
    {
      r := ReplayLog(codec, text, mt);
      LoggedTextReplaysWhole(codec, ops);
      assert Join(codec.Lines(ops)) + "" == Join(codec.Lines(ops));
    }
  }

  lemma JoinRecord(c: Codec, ops: seq<Op>, op: Op)
    ensures Join(c.Lines(ops + [op])) == Join(c.Lines(ops)) + c.Record(op)
  {
    var line := c.encode(c.Entry(op));
    JoinAppend(c.Lines(ops), [line]);
    assert c.Lines(ops + [op]) == c.Lines(ops) + [line];
    assert Join([line]) == line + "\n" + Join([]);
  }

  /** `replayWriteAheadLog` on the text of the file. */
  method ReplayLog(c: Codec, text: string, mt: Memtable) returns (r: Replayed)
    modifies mt
    ensures r == ReplayLines(c, Scan(text), old(mt.cells)) && mt.cells == r.cells
  {
    var lines := Scan(text);
    var i := 0;
    while i < |lines|
      invariant 0 <= i <= |lines|
      invariant ReplayLines(c, lines[i..], mt.cells) == ReplayLines(c, lines, old(mt.cells))
    {
      var entry := c.decode(lines[i]);
      if entry.None? {
        return Unreadable(mt.cells);
      }
      if !c.Intact(entry.value) {
        break;
      }
      if entry.value.operation == "delete" {
        mt.Delete(entry.value.key);
      } else if entry.value.operation == "put" {
        mt.Set(entry.value.key, entry.value.value);
      }
      i := i + 1;
    }
    r := Ok(mt.cells);
  }

  /** Replaying what was logged, and then `rest`. */
  lemma {:induction false} ReplayLogged(c: Codec, ops: seq<Op>, rest: seq<string>)
    requires c.Sound()
    ensures ReplayLines(c, c.Lines(ops) + rest, map[]) == ReplayLines(c, rest, Replay(ops))
  {
    if ops == [] {
      assert c.Lines(ops) + rest == rest;
    } else {
      var n := |ops| - 1;
      var line := c.encode(c.Entry(ops[n]));
      assert c.Lines(ops) + rest == c.Lines(ops[..n]) + ([line] + rest);
      ReplayLogged(c, ops[..n], [line] + rest);
      assert ([line] + rest)[1..] == rest;
    }
  }

  lemma LoggedLinesArePlain(c: Codec, ops: seq<Op>)
    requires c.Sound()
    ensures forall i :: 0 <= i < |c.Lines(ops)| ==> Plain(c.Lines(ops)[i])
  {
    forall i | 0 <= i < |c.Lines(ops)| ensures Plain(c.Lines(ops)[i]) {
      assert c.Lines(ops)[i] == c.encode(c.Entry(ops[i]));
    }
  }

  /** Every log that `log` calls wrote replays completely. */
  lemma LoggedTextReplaysWhole(c: Codec, ops: seq<Op>)
    requires c.Sound()
    ensures ReplayLines(c, Scan(Join(c.Lines(ops))), map[]) == Ok(Replay(ops))
  {
    LoggedLinesArePlain(c, ops);
    ScanJoin(c.Lines(ops));
    ReplayLogged(c, ops, []);
    assert c.Lines(ops) + [] == c.Lines(ops);
  }

  /** What replaying makes of a line behind the records of `ops`, whatever
      follows it: a line that is no record is an error; a record whose checksum
      is not that of its operation, key and value ends the replay; any other
      takes effect. */
  lemma NextLineReplays(c: Codec, ops: seq<Op>, line: string, rest: string)
    requires c.Sound() && Plain(line)
    ensures ReplayLines(c, Scan(Join(c.Lines(ops) + [line]) + rest), map[]) ==
              match c.decode(line)
              case None => Unreadable(Replay(ops))
              case Some(e) =>
                if c.checksum(e.operation + "," + e.key + "," + e.value) != e.checksum then Ok(Replay(ops))
                else if e.operation == "put" then ReplayLines(c, Scan(rest), Replay(ops)[e.key := Value(e.value)])
                else if e.operation == "delete" then ReplayLines(c, Scan(rest), Replay(ops)[e.key := Tombstone])
                else ReplayLines(c, Scan(rest), Replay(ops))
  {
    hide Join, Scan, Replay;
    var lines := c.Lines(ops) + [line];
    LoggedLinesArePlain(c, ops);
    ScanJoinThen(lines, rest);
    ReplayLogged(c, ops, [line] + Scan(rest));
    assert lines + Scan(rest) == c.Lines(ops) + ([line] + Scan(rest));
    assert ([line] + Scan(rest))[1..] == Scan(rest);
  }

  /** The text whose checksum the record of an operation carries. */
  function Covered(op: Op): string {
    match op
    case Put(k, v) => "put," + k + "," + v
    case Delete(k) => "delete," + k + ","
  }

  /** Corruption is detected: a logged record whose operation, key or value was
      altered is not replayed, nor anything behind it, if the checksum tells the
      two texts apart. */
  lemma AlteredRecordEndsReplay(c: Codec, ops: seq<Op>, op: Op, altered: string, rest: string)
    requires c.Sound() && Plain(altered) && c.decode(altered).Some?
    requires var e, was := c.decode(altered).value, c.decode(c.encode(c.Entry(op))).value;
      e.checksum == was.checksum && c.checksum(e.operation + "," + e.key + "," + e.value) != c.checksum(Covered(op))
    ensures ReplayLines(c, Scan(Join(c.Lines(ops) + [altered]) + rest), map[]) == Ok(Replay(ops))
  {
    hide Join, Scan, Replay;
    NextLineReplays(c, ops, altered, rest);
    EntryCovers(c, op);
  }

  lemma EntryCovers(c: Codec, op: Op)
    ensures c.Entry(op).checksum == c.checksum(Covered(op))
  {
    var e := c.Entry(op);
    assert e.operation + "," + e.key + "," + e.value == Covered(op);
  }

  // ----- a log call that failed, or that a crash cut short -----

  /** The text when a call of `log` for `op` got `n` characters far, and the
      calls for `more` were then acknowledged. */
  function TornText(c: Codec, ops: seq<Op>, op: Op, n: nat, more: seq<Op>): string
    requires n <= |c.Record(op)|
  {
    Join(c.Lines(ops)) + c.Record(op)[..n] + Join(c.Lines(more))
  }

  lemma WholeOrNothingReplays(c: Codec, ops: seq<Op>, op: Op, n: nat, more: seq<Op>)
    requires c.Sound() && (n == 0 || n == |c.Record(op)|)
    ensures ReplayLines(c, Scan(TornText(c, ops, op, n, more)), map[]) ==
              Ok(Replay(if n == 0 then ops + more else ops + [op] + more))
  {
    hide Join, Scan, ReplayLines, Replay;
    var all := if n == 0 then ops else ops + [op];
    JoinRecord(c, ops, op);
    assert Join(c.Lines(ops)) + c.Record(op)[..n] == Join(c.Lines(all));
    assert c.Lines(all + more) == c.Lines(all) + c.Lines(more);
    JoinAppend(c.Lines(all), c.Lines(more));
    LoggedTextReplaysWhole(c, all + more);
  }

  /** The line that a torn record ends up in. */
  function TornLine(c: Codec, op: Op, n: nat, more: seq<Op>): string
    requires n < |c.Record(op)|
  {
    var part := c.encode(c.Entry(op))[..n];
    if more == [] then DropCR(part) else part + c.encode(c.Entry(more[0]))
  }

  lemma TornScan(c: Codec, ops: seq<Op>, op: Op, n: nat, more: seq<Op>)
    requires c.Sound() && 0 < n < |c.Record(op)|
    requires more != [] ==> c.encode(c.Entry(more[0])) != ""
    ensures Scan(TornText(c, ops, op, n, more)) ==
              c.Lines(ops) + [TornLine(c, op, n, more)] + if more == [] then [] else Scan(Join(c.Lines(more[1..])))
  {
    hide Join, Scan;
    var part := c.encode(c.Entry(op))[..n];
    assert c.Record(op)[..n] == part;
    LoggedLinesArePlain(c, ops);
    ScanJoinThen(c.Lines(ops), part + Join(c.Lines(more)));
    assert TornText(c, ops, op, n, more) == Join(c.Lines(ops)) + (part + Join(c.Lines(more)));
    assert '\n' !in part;
    if more == [] {
      ScanUnended(part);
      assert c.Lines(more) == [];
      assert c.Lines(ops) + [DropCR(part)] + [] == c.Lines(ops) + [DropCR(part)];
    } else {
      var next, rest := c.encode(c.Entry(more[0])), Join(c.Lines(more[1..]));
      JoinFirst(c.Lines(more));
      assert c.Lines(more)[1..] == c.Lines(more[1..]);
      assert part + (next + "\n" + rest) == part + next + "\n" + rest;
      ScanLine(part + next, rest);
    }
  }

  lemma ScanUnended(part: string)
    requires part != "" && '\n' !in part
    ensures Scan(part + Join([])) == [DropCR(part)]
  {
    assert part + Join([]) == part;
  }

  lemma TornDecodes(c: Codec, op: Op, n: nat, more: seq<Op>)
    requires c.Sound() && c.Strict() && 0 < n < |c.Record(op)|
    ensures more != [] ==> c.encode(c.Entry(more[0])) != ""
    ensures c.decode(TornLine(c, op, n, more)) ==
              if n == |c.Record(op)| - 1 && more == [] then Some(c.Entry(op)) else None
  {
    var line := c.encode(c.Entry(op));
    assert |line| == |c.Record(op)| - 1 && Plain(line);
    if more != [] {
      NoRecordIsEmpty(c, c.Entry(op), c.Entry(more[0]));
    } else if n == |line| {
      assert line[..n] == line;
    }
  }

  lemma NoRecordIsEmpty(c: Codec, e: LogEntry, f: LogEntry)
    requires c.Sound() && c.Strict() && c.encode(e) != ""
    ensures c.encode(f) != ""
  {
    var a := c.encode(e);
    assert c.decode(a[..|a|] + c.encode(f)) == None && c.decode(a) == Some(e);
    assert a[..|a|] == a == a + "";
  }

  /** A failed or interrupted `log`, exactly. If it left nothing, or the whole
      record, every acknowledged write replays; the record counts if it is whole,
      although the call failed. If it left a part of the record, replaying is an
      error, and nothing acknowledged later can be read back. Only the missing
      newline does no harm, so long as nothing is written behind it. */
  lemma TornRecordReplays(c: Codec, ops: seq<Op>, op: Op, n: nat, more: seq<Op>)
    requires c.Sound() && c.Strict() && n <= |c.Record(op)|
    ensures ReplayLines(c, Scan(TornText(c, ops, op, n, more)), map[]) ==
              if n == 0 then Ok(Replay(ops + more))
              else if n == |c.Record(op)| || (n == |c.Record(op)| - 1 && more == []) then Ok(Replay(ops + [op] + more))
              else Unreadable(Replay(ops))
  {
    hide Join, Scan, Replay, TornLine, TornText, Codec.Strict;
    if n == 0 || n == |c.Record(op)| {
      WholeOrNothingReplays(c, ops, op, n, more);
    } else {
      var bad, rest := TornLine(c, op, n, more), if more == [] then [] else Scan(Join(c.Lines(more[1..])));
      TornDecodes(c, op, n, more);
      TornScan(c, ops, op, n, more);
      assert c.Lines(ops) + [bad] + rest == c.Lines(ops) + ([bad] + rest);
      ReplayLogged(c, ops, [bad] + rest);
      assert ([bad] + rest)[1..] == rest;
      if more == [] {
        ReplaySnoc(ops, op);
        assert ops + [op] + more == ops + [op];
      }
    }
  }
}
