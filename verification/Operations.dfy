/** Writes, the simple map they are meant to act on, and the memtable that
    replaying them builds. */
module Operations {
  import opened Tables

  datatype Op = Put(key: string, value: string) | Delete(key: string)

  /** The plain map that the store must behave like. */
  type Model = map<string, string>

  function Write(m: Model, op: Op): Model {
    match op
    case Put(k, v) => m[k := v]
    case Delete(k) => m - {k}
  }

  function WriteCells(cells: Cells, op: Op): Cells {
    match op
    case Put(k, v) => cells[k := Value(v)]
    case Delete(k) => cells[k := Tombstone]
  }

  /** The map after `ops`. */
  function Fold(ops: seq<Op>): Model {
    if ops == [] then map[] else Write(Fold(ops[..|ops| - 1]), ops[|ops| - 1])
  }

  /** The memtable after replaying `ops` into an empty one. */
  function Replay(ops: seq<Op>): Cells {
    if ops == [] then map[] else WriteCells(Replay(ops[..|ops| - 1]), ops[|ops| - 1])
  }

  /** A memtable over a list of tables shows the map `m`. */
  ghost predicate Agrees(cells: Cells, ts: seq<Table>, m: Model) {
    forall k :: View(cells, ts, k) == Look(m, k)
  }

  lemma ReplaySnoc(ops: seq<Op>, op: Op)
    ensures Replay(ops + [op]) == WriteCells(Replay(ops), op)
    ensures Fold(ops + [op]) == Write(Fold(ops), op)
  {
    assert (ops + [op])[..|ops|] == ops;
  }

  /** `i` is the last write to `k` among `ops`. */
  ghost predicate LastWrite(ops: seq<Op>, k: string, i: int) {
    0 <= i < |ops| && ops[i].key == k && forall j :: i < j < |ops| ==> ops[j].key != k
  }

  ghost predicate LastPut(ops: seq<Op>, k: string, v: string) {
    exists i :: LastWrite(ops, k, i) && ops[i] == Put(k, v)
  }

  /** The map holds `v` for `k` exactly when the last write to `k` put it. */
  lemma {:induction false} LastWriteWins(ops: seq<Op>, k: string, v: string)
    ensures Look(Fold(ops), k) == Some(v) <==> LastPut(ops, k, v)
  {
    if ops != [] {
      var n := |ops| - 1;
      var p := ops[..n];
      LastWriteWins(p, k, v);
      if ops[n].key == k {
        assert LastWrite(ops, k, n);
      } else {
        assert forall i :: 0 <= i < n ==> (LastWrite(ops, k, i) <==> LastWrite(p, k, i));
      }
    }
  }
}
