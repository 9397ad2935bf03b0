/** What compaction means: the merge without its tombstones, cut into tables
    of at most `m` entries and listed newest first. */
module Compaction {
  import opened Order
  import opened Tables
  import opened Merging

  /** The entries that compaction keeps of a merged table. */
  function LiveOf(t: Table): Table {
    if t == [] then []
    else
      var e := t[|t| - 1];
      LiveOf(t[..|t| - 1]) + if e.cell.Value? then [e] else []
  }

  function Flatten(ts: seq<Table>): Table {
    if ts == [] then [] else Flatten(ts[..|ts| - 1]) + ts[|ts| - 1]
  }

  function Reverse<T>(s: seq<T>): seq<T> {
    if s == [] then [] else [s[|s| - 1]] + Reverse(s[..|s| - 1])
  }

  function CeilDiv(n: nat, m: nat): nat
    requires m > 0
  {
    (n + m - 1) / m
  }

  /** Two lists of tables show the same live values, and the first mentions no
      key that the second does not. */
  ghost predicate SameLive(after: seq<Table>, before: seq<Table>) {
    forall k ::
      && Live(Newest(after, k)) == Live(Newest(before, k))
      && (Newest(after, k).Some? ==> Newest(before, k).Some?)
  }

  /** `outs` are `t` cut, in order, into full tables and a shorter last one. */
  ghost predicate Chunks(outs: seq<Table>, t: Table, m: nat) {
    && Flatten(outs) == t
    && (forall i :: 0 <= i < |outs| - 1 ==> |outs[i]| == m)
    && (outs != [] ==> 0 < |outs[|outs| - 1]| <= m)
  }

  /** `outs`, in creation order, are the output of compacting `all`. */
  ghost predicate Compacted(outs: seq<Table>, all: seq<Table>, m: nat) {
    exists t :: IsMerge(t, all) && Chunks(outs, LiveOf(t), m)
  }

  // ----- LiveOf -----

  lemma {:induction false} LiveOfKeeps(t: Table)
    ensures forall e :: e in LiveOf(t) <==> e in t && e.cell.Value?
  {
    if t != [] {
      var p, e := t[..|t| - 1], t[|t| - 1];
      assert t == p + [e];
      LiveOfKeeps(p);
    }
  }

  lemma {:induction false} LiveOfSorted(t: Table)
    requires StrictlySorted(t)
    ensures StrictlySorted(LiveOf(t))
  {
    if t != [] {
      var p, e := t[..|t| - 1], t[|t| - 1];
      LiveOfSorted(p);
      LiveOfKeeps(p);
      forall x | x in LiveOf(p) ensures Less(x.key, e.key) {
        var i :| 0 <= i < |p| && p[i] == x;
        assert t[i] == x;
      }
    }
  }

  lemma {:induction false} FindLiveOf(t: Table, k: string)
    requires StrictlySorted(t)
    ensures Find(LiveOf(t), k) == if Live(Find(t, k)).Some? then Find(t, k) else None
  {
    if t != [] {
      var p, e := t[..|t| - 1], t[|t| - 1];
      assert t == p + [e];
      FindLiveOf(p, k);
      FindAppend(p, [e], k);
      FindAppend(LiveOf(p), if e.cell.Value? then [e] else [], k);
      assert Find([e], k) == if e.key == k then Some(e.cell) else None;
      assert Find([], k) == None;
      if Find(p, k).Some? {
        var i := FindWhere(p, k);
        Trichotomy(t[i].key, e.key);
      }
    }
  }

  // ----- reversal -----

  lemma {:induction false} ReverseAt<T>(s: seq<T>, k: nat)
    requires k < |s|
    ensures |Reverse(s)| == |s| && Reverse(s)[k] == s[|s| - 1 - k]
  {
    if |s| > 1 {
      ReverseAt(s[..|s| - 1], if k > 0 then k - 1 else 0);
    }
  }

  lemma ReverseTwice<T>(s: seq<T>)
    ensures Reverse(Reverse(s)) == s && |Reverse(s)| == |s|
  {
    if s != [] {
      forall k | 0 <= k < |s| ensures |Reverse(Reverse(s))| == |s| && Reverse(Reverse(s))[k] == s[k] {
        ReverseAt(s, |s| - 1 - k);
        ReverseAt(Reverse(s), k);
      }
      ReverseAt(s, 0);
    }
  }

  // ----- cutting -----

  lemma {:induction false} ChunkCount(outs: seq<Table>, m: nat)
    requires m > 0
    requires forall i :: 0 <= i < |outs| - 1 ==> |outs[i]| == m
    requires outs != [] ==> 0 < |outs[|outs| - 1]| <= m
    ensures |outs| == CeilDiv(|Flatten(outs)|, m)
  {
    if outs == [] {
    } else {
      var n := |outs| - 1;
      FullCount(outs[..n], m);
      CeilOf(n, |outs[n]|, m);
    }
  }

  lemma {:induction false} FullCount(outs: seq<Table>, m: nat)
    requires forall i :: 0 <= i < |outs| ==> |outs[i]| == m
    ensures |Flatten(outs)| == |outs| * m
  {
    if outs != [] {
      var n := |outs| - 1;
      FullCount(outs[..n], m);
      assert (n + 1) * m == n * m + m;
    }
  }

  lemma CeilOf(n: nat, r: nat, m: nat)
    requires 0 < r <= m
    ensures CeilDiv(n * m + r, m) == n + 1
  {
    var x := n * m + r + m - 1;
    assert (n + 1) * m <= x < (n + 2) * m;
    DivBetween(x, n + 1, m);
  }

  lemma MulMonotone(a: nat, b: nat, m: nat)
    requires a <= b
    ensures a * m <= b * m
  {}

  lemma DivBetween(x: nat, q: nat, m: nat)
    requires m > 0 && q * m <= x < (q + 1) * m
    ensures x / m == q
  {
    var d := x / m;
    assert d * m <= x < (d + 1) * m;
    if d < q {
      MulMonotone(d + 1, q, m);
    } else if d > q {
      MulMonotone(q + 1, d, m);
    }
  }

  lemma SortedPieces(a: Table, b: Table)
    requires StrictlySorted(a + b)
    ensures StrictlySorted(a) && StrictlySorted(b)
    ensures forall d, e :: d in a && e in b ==> Less(d.key, e.key)
  {
    hide Less;
    var c := a + b;
    assert a == c[..|a|] && b == c[|a|..];
    forall d, e | d in a && e in b ensures Less(d.key, e.key) {
      var i :| 0 <= i < |a| && a[i] == d;
      var j :| 0 <= j < |b| && b[j] == e;
      assert c[i] == d && c[|a| + j] == e;
    }
  }

  lemma {:induction false} FlattenHas(outs: seq<Table>, i: nat, d: Entry)
    requires i < |outs| && d in outs[i]
    ensures d in Flatten(outs)
  {
    var n := |outs| - 1;
    if i < n {
      FlattenHas(outs[..n], i, d);
    }
  }

  lemma {:induction false} FlattenSorted(outs: seq<Table>)
    requires StrictlySorted(Flatten(outs))
    ensures AllSorted(outs)
    ensures forall i, j, d, e :: 0 <= i < j < |outs| && d in outs[i] && e in outs[j] ==> Less(d.key, e.key)
  {
    hide Less, StrictlySorted;
    if outs != [] {
      var n := |outs| - 1;
      var p, l := outs[..n], outs[n];
      SortedPieces(Flatten(p), l);
      FlattenSorted(p);
      forall i | 0 <= i < |outs| ensures StrictlySorted(outs[i]) {
        assert i < n ==> outs[i] == p[i];
      }
      forall i, j, d, e | 0 <= i < j < |outs| && d in outs[i] && e in outs[j] ensures Less(d.key, e.key) {
        FlattenHas(p, i, d);
        assert p[i] == outs[i] && (j < n ==> p[j] == outs[j]);
      }
    }
  }

  /** With disjoint keys, newest-first lookup over the reversed pieces is
      lookup in the whole. */
  lemma {:induction false} NewestReversed(outs: seq<Table>, k: string)
    requires StrictlySorted(Flatten(outs))
    ensures Newest(Reverse(outs), k) == Find(Flatten(outs), k)
  {
    if outs != [] {
      var n := |outs| - 1;
      var p, l := outs[..n], outs[n];
      var f := Flatten(p);
      assert f == Flatten(outs)[..|f|];
      NewestReversed(p, k);
      FindAppend(f, l, k);
      assert Reverse(outs)[1..] == Reverse(p);
      if Find(f, k).Some? && Find(l, k).Some? {
        var a := FindWhere(f, k);
        var b := FindWhere(l, k);
        Trichotomy(Flatten(outs)[a].key, Flatten(outs)[|f| + b].key);
      }
    }
  }

  // ----- the theorems -----

  /** Compaction preserves meaning, for any tables whatever. */
  lemma CompactionPreservesMeaning(outs: seq<Table>, all: seq<Table>, m: nat)
    requires Compacted(outs, all, m)
    ensures SameLive(Reverse(outs), all)
    ensures AllSorted(outs)
  {
    var t :| IsMerge(t, all) && Chunks(outs, LiveOf(t), m);
    LiveOfSorted(t);
    FlattenSorted(outs);
    forall k
      ensures Live(Newest(Reverse(outs), k)) == Live(Newest(all, k))
      ensures Newest(Reverse(outs), k).Some? ==> Newest(all, k).Some?
    {
      NewestReversed(outs, k);
      FindLiveOf(t, k);
    }
  }

  /** The shape of the output: strictly increasing keys across the tables in
      creation order, no tombstone, full tables but the last, and just as many
      as that takes. */
  lemma CompactionShape(outs: seq<Table>, all: seq<Table>, m: nat)
    requires Compacted(outs, all, m) && m > 0
    ensures StrictlySorted(Flatten(outs))
    ensures forall i, e :: 0 <= i < |outs| && e in outs[i] ==> e.cell.Value?
    ensures forall i, j, d, e :: 0 <= i < j < |outs| && d in outs[i] && e in outs[j] ==> Less(d.key, e.key)
    ensures forall i :: 0 <= i < |outs| ==> 0 < |outs[i]| <= m && (i < |outs| - 1 ==> |outs[i]| == m)
    ensures |outs| == CeilDiv(|Flatten(outs)|, m)
  {
    var t :| IsMerge(t, all) && Chunks(outs, LiveOf(t), m);
    LiveOfSorted(t);
    LiveOfKeeps(t);
    FlattenSorted(outs);
    forall i, e | 0 <= i < |outs| && e in outs[i] ensures e.cell.Value? { FlattenHas(outs, i, e); }
    ChunkCount(outs, m);
  }

  ghost predicate Shadowed(all: seq<Table>, i: nat, k: string)
    requires i <= |all|
  {
    exists n :: 0 <= n < i && Find(all[n], k).Some?
  }

  /** Conservation: an entry is emitted exactly when it is an entry of the
      input that no newer table shadows and that is not a tombstone. */
  lemma CompactionConserves(outs: seq<Table>, all: seq<Table>, m: nat, e: Entry)
    requires AllSorted(all) && Compacted(outs, all, m)
    ensures e in Flatten(outs) <==>
              e.cell.Value? && exists i :: 0 <= i < |all| && e in all[i] && !Shadowed(all, i, e.key)
  {
    var t :| IsMerge(t, all) && Chunks(outs, LiveOf(t), m);
    LiveOfKeeps(t);
    if e in t {
      var p :| 0 <= p < |t| && t[p] == e;
      FindAt(t, p);
      var i := NewestWhere(all, e.key);
      var q := FindWhere(all[i], e.key);
      assert e in all[i] && !Shadowed(all, i, e.key);
    }
    if i: nat :| i < |all| && e in all[i] && !Shadowed(all, i, e.key) {
      var q :| 0 <= q < |all[i]| && all[i][q] == e;
      FindAt(all[i], q);
      NewestAt(all, e.key, i);
      var p := FindWhere(t, e.key);
    }
  }

  /** The output is a function of the input: no choice of the heap shows. */
  lemma CompactionIsDeterministic(a: seq<Table>, b: seq<Table>, all: seq<Table>, m: nat)
    requires Compacted(a, all, m) && Compacted(b, all, m) && m > 0
    ensures a == b
  {
    var t :| IsMerge(t, all) && Chunks(a, LiveOf(t), m);
    var u :| IsMerge(u, all) && Chunks(b, LiveOf(u), m);
    SortedUnique(t, u);
    ChunksUnique(a, b, LiveOf(t), m);
  }

  lemma {:induction false} ChunksUnique(a: seq<Table>, b: seq<Table>, t: Table, m: nat)
    requires Chunks(a, t, m) && Chunks(b, t, m) && m > 0
    ensures a == b
  {
    ChunkCount(a, m);
    ChunkCount(b, m);
    if a != [] {
      var n := |a| - 1;
      FullCount(a[..n], m);
      FullCount(b[..n], m);
      assert Flatten(a[..n]) == t[..n * m] == Flatten(b[..n]);
      assert a[n] == t[n * m..] == b[n];
      ChunksUniqueFull(a[..n], b[..n], m);
      assert a == a[..n] + [a[n]] && b == b[..n] + [b[n]];
    }
  }

  lemma {:induction false} ChunksUniqueFull(a: seq<Table>, b: seq<Table>, m: nat)
    requires |a| == |b| && Flatten(a) == Flatten(b)
    requires forall i :: 0 <= i < |a| ==> |a[i]| == |b[i]| == m
    ensures a == b
  {
    if a != [] {
      var n := |a| - 1;
      FullCount(a[..n], m);
      FullCount(b[..n], m);
      assert Flatten(a[..n]) == Flatten(a)[..n * m] == Flatten(b[..n]);
      assert a[n] == Flatten(a)[n * m..] == b[n];
      ChunksUniqueFull(a[..n], b[..n], m);
      assert a == a[..n] + [a[n]] && b == b[..n] + [b[n]];
    }
  }
}
