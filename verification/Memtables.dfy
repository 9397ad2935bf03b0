/** The memtable and the sorted table that a flush makes of it. */
module Memtables {
  import opened Order
  import opened Tables

  class Memtable {
    var cells: Cells

    constructor ()
      ensures cells == map[]
    {
      cells := map[];
    }

    method Set(k: string, v: string)
      modifies this
      ensures cells == old(cells)[k := Value(v)]
    {
      cells := cells[k := Value(v)];
    }

    method Delete(k: string)
      modifies this
      ensures cells == old(cells)[k := Tombstone]
    {
      cells := cells[k := Tombstone];
    }

    method Get(k: string) returns (r: Answer)
      ensures r == AnswerOf(Look(cells, k))
    {
      if k in cells {
        return if cells[k].Tombstone? then KeyDeleted else Found(cells[k].text);
      }
      return KeyNotFound;
    }

    method Len() returns (n: nat)
      ensures n == |cells|
    {
      n := |cells|;
    }

    method Clear()
      modifies this
      ensures cells == map[]
    {
      cells := map[];
    }
  }

  /** `t` is a strictly sorted table that answers every key as `cells` does,
      tombstones included. */
  ghost predicate Represents(t: Table, cells: Cells) {
    StrictlySorted(t) && forall k :: Find(t, k) == Look(cells, k)
  }

  /** Whatever order the map was walked in, only one table represents it. */
  lemma TableOfCellsIsUnique(a: Table, b: Table, cells: Cells)
    requires Represents(a, cells) && Represents(b, cells)
    ensures a == b
  {
    SortedUnique(a, b);
  }

  ghost predicate DistinctKeys(t: Table) {
    forall i, j :: 0 <= i < j < |t| ==> t[i].key != t[j].key
  }

  /** `s` lists the entries of `cells`, in some order. */
  ghost predicate Lists(s: Table, cells: Cells) {
    && (forall e :: e in s ==> e.key in cells && cells[e.key] == e.cell)
    && (forall k :: k in cells ==> Entry(k, cells[k]) in s)
  }

  lemma SortedListingRepresents(s: Table, t: Table, cells: Cells)
    requires Lists(s, cells) && StrictlySorted(t) && multiset(t) == multiset(s)
    ensures Represents(t, cells) && |t| == |s|
  {
    assert |multiset(t)| == |multiset(s)|;
    forall p | 0 <= p < |t| ensures t[p] in s { assert t[p] in multiset(t); }
    forall k ensures Find(t, k) == Look(cells, k) {
      FindNone(t, k);
      if k in cells {
        assert Entry(k, cells[k]) in multiset(s);
        var p :| 0 <= p < |t| && t[p] == Entry(k, cells[k]);
        FindAt(t, p);
      }
    }
  }

  /** `newSSTable`: fill a slice in whatever order the map yields its keys,
      then sort it in place. */
  method NewTable(mt: Memtable) returns (t: Table)
    ensures Represents(t, mt.cells)
    ensures |t| == |mt.cells|
  {
    var sst := new Entry[|mt.cells|];
    Fill(mt, sst);
    ghost var filled := sst[..];
    Sort(sst);
    t := sst[..];
    SortedListingRepresents(filled, t, mt.cells);
  }

  method Fill(mt: Memtable, sst: array<Entry>)
    requires sst.Length == |mt.cells|
    modifies sst
    ensures Lists(sst[..], mt.cells) && DistinctKeys(sst[..])
  {
    var todo, i := mt.cells.Keys, 0;
    while todo != {}
      invariant todo <= mt.cells.Keys && i + |todo| == sst.Length
      invariant forall j :: 0 <= j < i ==> sst[j].key in mt.cells.Keys - todo && sst[j].cell == mt.cells[sst[j].key]
      invariant forall k :: k in mt.cells.Keys - todo ==> Entry(k, mt.cells[k]) in sst[..i]
      invariant forall p, q :: 0 <= p < q < i ==> sst[p].key != sst[q].key
      decreases |todo|
    {
      var k :| k in todo;
      ghost var before := sst[..i];
      sst[i] := Entry(k, mt.cells[k]);
      assert sst[..i + 1] == before + [Entry(k, mt.cells[k])];
      todo, i := todo - {k}, i + 1;
    }
    assert sst[..i] == sst[..];
  }

  /** Sorting by key in place, standing for `sort.Slice`: the contract fixes
      the result whatever the algorithm. */
  method Sort(a: array<Entry>)
    requires DistinctKeys(a[..])
    modifies a
    ensures StrictlySorted(a[..])
    ensures multiset(a[..]) == multiset(old(a[..]))
  {
    hide Less;
    var i := 0;
    while i < a.Length
      invariant 0 <= i <= a.Length
      invariant StrictlySorted(a[..i])
      invariant DistinctKeys(a[..])
      invariant multiset(a[..]) == multiset(old(a[..]))
    {
      SiftIntoPrefix(a, i);
      i := i + 1;
    }
    assert a[..i] == a[..];
  }

  /** The first `i + 1` entries are in order, but for those before `j` being
      compared with entry `j`. */
  ghost predicate SortedBut(s: Table, i: nat, j: nat)
    requires i < |s|
  {
    forall p, q :: 0 <= p < q <= i && q != j ==> Less(s[p].key, s[q].key)
  }

  lemma SwapDown(s: Table, i: nat, j: nat)
    requires 0 < j <= i < |s| && SortedBut(s, i, j) && DistinctKeys(s) && Less(s[j].key, s[j - 1].key)
    ensures var t := s[j := s[j - 1]][j - 1 := s[j]];
      SortedBut(t, i, j - 1) && DistinctKeys(t) && multiset(t) == multiset(s)
  {
    hide Less;
  }

  lemma SiftDone(s: Table, i: nat, j: nat)
    requires j <= i < |s| && SortedBut(s, i, j) && DistinctKeys(s)
    requires j > 0 ==> !Less(s[j].key, s[j - 1].key)
    ensures StrictlySorted(s[..i + 1])
  {
    hide Less;
    if j > 0 {
      Trichotomy(s[j - 1].key, s[j].key);
      forall p | 0 <= p < j ensures Less(s[p].key, s[j].key) {
        if p < j - 1 { Transitive(s[p].key, s[j - 1].key, s[j].key); }
      }
    }
  }

  /** Moves `a[i]` down into the sorted prefix before it. */
  method SiftIntoPrefix(a: array<Entry>, i: nat)
    requires i < a.Length && StrictlySorted(a[..i]) && DistinctKeys(a[..])
    modifies a
    ensures StrictlySorted(a[..i + 1]) && DistinctKeys(a[..])
    ensures multiset(a[..]) == multiset(old(a[..]))
  {
    hide Less;
    assert SortedBut(a[..], i, i) by {
      assert forall p :: 0 <= p < i ==> a[..][p] == a[..i][p];
    }
    var j := i;
    while j > 0 && Less(a[j].key, a[j - 1].key)
      invariant 0 <= j <= i
      invariant SortedBut(a[..], i, j) && DistinctKeys(a[..])
      invariant multiset(a[..]) == multiset(old(a[..]))
    {
      ghost var s := a[..];
      SwapDown(s, i, j);
      a[j], a[j - 1] := a[j - 1], a[j];
      assert a[..] == s[j := s[j - 1]][j - 1 := s[j]];
      j := j - 1;
    }
    SiftDone(a[..], i, j);
    assert a[..][..i + 1] == a[..i + 1];
  }
}
