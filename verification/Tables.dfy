/** Sorted tables and the meaning of a lookup. A `Table` is the slice of
    entries that one `sst-<n>.json` file holds; a store reads a list of them,
    newest first. */
module Tables {
  import opened Order

  datatype Option<+T> = None | Some(value: T)

  /** What is stored for a key: a value, or the mark left by a delete. */
  datatype Cell = Value(text: string) | Tombstone

  datatype Entry = Entry(key: string, cell: Cell)

  type Table = seq<Entry>
  type Cells = map<string, Cell>

  /** What a `get` answers: a value, or one of the two error kinds. */
  datatype Answer = Found(text: string) | KeyDeleted | KeyNotFound

  function AnswerOf(c: Option<Cell>): Answer {
    match c
    case None => KeyNotFound
    case Some(Tombstone) => KeyDeleted
    case Some(Value(text)) => Found(text)
  }

  /** The live view, in which "deleted" and "never written" are the same. */
  function Live(c: Option<Cell>): Option<string> {
    if c.Some? && c.value.Value? then Some(c.value.text) else None
  }

  function Look<K, T>(m: map<K, T>, k: K): Option<T> {
    if k in m then Some(m[k]) else None
  }

  ghost predicate StrictlySorted(t: Table) {
    forall i, j :: 0 <= i < j < |t| ==> Less(t[i].key, t[j].key)
  }

  /** The first entry for `k`, as a linear scan meets it. */
  function Find(t: Table, k: string): Option<Cell> {
    if t == [] then None
    else if t[0].key == k then Some(t[0].cell)
    else Find(t[1..], k)
  }

  /** The entry for `k` in the newest table that has one. */
  function Newest(ts: seq<Table>, k: string): Option<Cell> {
    if ts == [] then None
    else if Find(ts[0], k).Some? then Find(ts[0], k)
    else Newest(ts[1..], k)
  }

  /** What a reader sees for `k`: the memtable first, then the tables. */
  function Lookup(cells: Cells, ts: seq<Table>, k: string): Option<Cell> {
    if k in cells then Some(cells[k]) else Newest(ts, k)
  }

  function View(cells: Cells, ts: seq<Table>, k: string): Option<string> {
    Live(Lookup(cells, ts, k))
  }

  /** `sstable.Get`: the scan loop over one table. */
  method Get(t: Table, k: string) returns (r: Answer)
    ensures r == AnswerOf(Find(t, k))
  {
    for i := 0 to |t|
      invariant Find(t, k) == Find(t[i..], k)
    {
      if t[i].key == k {
        return if t[i].cell.Tombstone? then KeyDeleted else Found(t[i].cell.text);
      }
    }
    return KeyNotFound;
  }

  // ----- facts about Find -----

  lemma {:induction false} FindNone(t: Table, k: string)
    ensures Find(t, k) == None <==> forall i :: 0 <= i < |t| ==> t[i].key != k
  {
    if t != [] {
      FindNone(t[1..], k);
      assert forall i :: 0 < i < |t| ==> t[i] == t[1..][i - 1];
      assert forall i :: 0 <= i < |t| - 1 ==> t[1..][i] == t[i + 1];
    }
  }

  lemma {:induction false} FindWhere(t: Table, k: string) returns (i: nat)
    requires Find(t, k).Some?
    ensures i < |t| && t[i].key == k && Find(t, k) == Some(t[i].cell)
  {
    if t[0].key == k {
      i := 0;
    } else {
      i := FindWhere(t[1..], k);
      i := i + 1;
    }
  }

  /** In a strictly sorted table a key has one entry, which `Find` finds. */
  lemma FindAt(t: Table, i: nat)
    requires StrictlySorted(t) && i < |t|
    ensures Find(t, t[i].key) == Some(t[i].cell)
  {
    FindNone(t, t[i].key);
    var j := FindWhere(t, t[i].key);
    Trichotomy(t[i].key, t[j].key);
  }

  lemma {:induction false} FindAppend(a: Table, b: Table, k: string)
    ensures Find(a + b, k) == if Find(a, k).Some? then Find(a, k) else Find(b, k)
  {
    if a == [] {
      assert a + b == b;
    } else {
      assert (a + b)[1..] == a[1..] + b;
      FindAppend(a[1..], b, k);
    }
  }

  lemma SortedSuffix(t: Table, n: nat)
    requires StrictlySorted(t) && n <= |t|
    ensures StrictlySorted(t[n..])
  {}

  lemma HeadIsLeast(t: Table, i: nat)
    requires StrictlySorted(t) && i < |t|
    ensures t[i].key == t[0].key ==> i == 0
    ensures !Less(t[i].key, t[0].key)
  {
    Trichotomy(t[0].key, t[i].key);
  }

  /** A strictly sorted table is determined by its lookups. */
  lemma {:induction false} SortedUnique(a: Table, b: Table)
    requires StrictlySorted(a) && StrictlySorted(b)
    requires forall k :: Find(a, k) == Find(b, k)
    ensures a == b
  {
    assert a != [] ==> Find(a, a[0].key).Some?;
    assert b != [] ==> Find(b, b[0].key).Some?;
    if a != [] {
      var i := FindWhere(b, a[0].key);
      var j := FindWhere(a, b[0].key);
      Trichotomy(a[0].key, b[0].key);
      HeadIsLeast(a, j);
      HeadIsLeast(b, i);
      FindAt(a, 0);
      FindAt(b, 0);
      assert a[0] == b[0];
      forall k ensures Find(a[1..], k) == Find(b[1..], k) {
        assert Find(a, k) == Find(b, k);
        if k == a[0].key {
          FindNone(a[1..], k);
          FindNone(b[1..], k);
          forall p | 0 < p < |a| ensures a[p].key != k { Trichotomy(a[0].key, a[p].key); }
          forall p | 0 < p < |b| ensures b[p].key != k { Trichotomy(b[0].key, b[p].key); }
        }
      }
      SortedUnique(a[1..], b[1..]);
      assert a == [a[0]] + a[1..] && b == [b[0]] + b[1..];
    }
  }

  // ----- facts about Newest -----

  lemma {:induction false} NewestNone(ts: seq<Table>, k: string)
    ensures Newest(ts, k) == None <==> forall i :: 0 <= i < |ts| ==> Find(ts[i], k) == None
  {
    if ts != [] {
      NewestNone(ts[1..], k);
      assert forall i :: 0 < i < |ts| ==> ts[i] == ts[1..][i - 1];
      assert forall i :: 0 <= i < |ts| - 1 ==> ts[1..][i] == ts[i + 1];
    }
  }

  /** `Newest` really is the table of least index that has the key. */
  lemma {:induction false} NewestAt(ts: seq<Table>, k: string, i: nat)
    requires i < |ts| && Find(ts[i], k).Some?
    requires forall j :: 0 <= j < i ==> Find(ts[j], k) == None
    ensures Newest(ts, k) == Find(ts[i], k)
  {
    if i > 0 {
      assert forall j :: 0 <= j < i - 1 ==> ts[1..][j] == ts[j + 1];
      NewestAt(ts[1..], k, i - 1);
    }
  }

  lemma {:induction false} NewestWhere(ts: seq<Table>, k: string) returns (i: nat)
    requires Newest(ts, k).Some?
    ensures i < |ts| && Newest(ts, k) == Find(ts[i], k)
    ensures forall j :: 0 <= j < i ==> Find(ts[j], k) == None
  {
    if Find(ts[0], k).Some? {
      i := 0;
    } else {
      var n := NewestWhere(ts[1..], k);
      i := n + 1;
      assert forall j :: 0 < j < i ==> ts[j] == ts[1..][j - 1];
    }
  }
}
