/** The k-way merge at the heart of compaction: iterators over the sorted
    tables feed a heap that holds the next entry of each of them. */
module Merging {
  import opened Order
  import opened Tables
  import opened Heap

  function Head(t: Table): Option<Entry> {
    if t == [] then None else Some(t[0])
  }

  class Iterator {
    const table: Table
    var index: nat
    /** `Next` leaves `index` on the last entry when it refuses, so the index
        alone does not say whether that entry has been handed over. */
    ghost var spent: bool

    ghost predicate Valid()
      reads this
    {
      && (if table == [] then index == 0 else index < |table|)
      && (spent ==> index + 1 >= |table|)
    }

    /** The entries not yet handed over. */
    ghost function Rest(): Table
      requires Valid()
      reads this
    {
      if spent then [] else table[index..]
    }

    constructor (t: Table)
      ensures Valid() && table == t && !spent && Rest() == t
    {
      table, index, spent := t, 0, false;
    }

    method Current() returns (r: Option<Entry>)
      requires Valid()
      ensures r == if table == [] then None else Some(table[index])
      ensures !spent ==> r == Head(Rest())
    {
      if index < |table| {
        return Some(table[index]);
      }
      return None;
    }

    method Next() returns (r: Option<Entry>)
      requires Valid()
      modifies this
      ensures Valid()
      ensures Rest() == if old(Rest()) == [] then [] else old(Rest())[1..]
      ensures r == Head(Rest())
      ensures index == old(index) + if r.Some? then 1 else 0
    {
      if index < |table| - 1 {
        index := index + 1;
        return Some(table[index]);
      }
      spent := true;
      return None;
    }
  }

  function HeadItem(ts: seq<Table>, i: nat): Item
    requires i < |ts| && ts[i] != []
  {
    Item(i, ts[i][0].key, ts[i][0].cell)
  }

  /** The next entry of every table that still has one. */
  ghost function Heads(ts: seq<Table>): set<Item> {
    set i | 0 <= i < |ts| && ts[i] != [] :: HeadItem(ts, i)
  }

  ghost function HeadsBelow(ts: seq<Table>, n: nat): set<Item> {
    set x | x in Heads(ts) && x.index < n
  }

  lemma AllBelow(ts: seq<Table>)
    ensures HeadsBelow(ts, 0) == {} && HeadsBelow(ts, |ts|) == Heads(ts)
  {}

  lemma HeadsBelowNext(ts: seq<Table>, n: nat)
    requires n < |ts|
    ensures HeadsBelow(ts, n + 1) == HeadsBelow(ts, n) + (if ts[n] == [] then {} else {HeadItem(ts, n)})
    ensures ts[n] != [] ==> HeadItem(ts, n) !in HeadsBelow(ts, n)
  {
    if ts[n] != [] {
      assert HeadItem(ts, n) in Heads(ts);
    }
  }

  ghost predicate AllSorted(ts: seq<Table>) {
    forall i :: 0 <= i < |ts| ==> StrictlySorted(ts[i])
  }

  /** How many entries the tables hold. */
  ghost function Total(ts: seq<Table>): nat {
    if ts == [] then 0 else |ts[0]| + Total(ts[1..])
  }

  lemma {:induction false} TotalDrop(ts: seq<Table>, i: nat)
    requires i < |ts| && ts[i] != []
    ensures Total(ts[i := ts[i][1..]]) == Total(ts) - 1
  {
    var us := ts[i := ts[i][1..]];
    if i == 0 {
      assert us[1..] == ts[1..];
    } else {
      assert us[1..] == ts[1..][i - 1 := ts[i][1..]];
      TotalDrop(ts[1..], i - 1);
    }
  }

  /** Taking the head of table `i` changes the heads only there. */
  lemma HeadsDrop(ts: seq<Table>, i: nat)
    requires i < |ts| && ts[i] != [] && StrictlySorted(ts[i])
    ensures var us := ts[i := ts[i][1..]];
      && HeadItem(ts, i) in Heads(ts)
      && Heads(us) == Heads(ts) - {HeadItem(ts, i)} + (if us[i] == [] then {} else {HeadItem(us, i)})
      && (us[i] != [] ==> HeadItem(us, i) !in Heads(ts))
  {
    var us := ts[i := ts[i][1..]];
    var want := Heads(ts) - {HeadItem(ts, i)} + (if us[i] == [] then {} else {HeadItem(us, i)});
    if us[i] != [] {
      Trichotomy(ts[i][0].key, ts[i][1].key);
    }
    forall x | x in Heads(us) ensures x in want {
      assert x.index != i ==> x == HeadItem(ts, x.index);
    }
    forall x | x in want ensures x in Heads(us) {
      assert x.index != i ==> x == HeadItem(us, x.index);
    }
  }

  /** The heap without the head of table `i`, once that table has moved on,
      lacks only the new head of that table. */
  lemma HeapFollows(ts: seq<Table>, i: nat, heap: multiset<Item>)
    requires i < |ts| && ts[i] != [] && StrictlySorted(ts[i])
    requires heap == multiset(Heads(ts)) - multiset{HeadItem(ts, i)}
    ensures var us := ts[i := ts[i][1..]];
      multiset(Heads(us)) == if us[i] == [] then heap else heap + multiset{HeadItem(us, i)}
  {
    hide StrictlySorted, Heads;
    HeadsDrop(ts, i);
  }

  // ----- what one round of the merge does, on values -----

  /** Every table of `b` is that of `a` without the entry for `k` if that
      stood at its head. */
  ghost predicate Dropped(a: seq<Table>, b: seq<Table>, k: string) {
    && |b| == |a|
    && forall i :: 0 <= i < |a| ==> b[i] == if a[i] != [] && a[i][0].key == k then a[i][1..] else a[i]
  }

  /** No table still holds a key below `k`. */
  ghost predicate NoneBelow(ts: seq<Table>, k: string) {
    forall i :: 0 <= i < |ts| && ts[i] != [] ==> !Less(ts[i][0].key, k)
  }

  lemma DropFind(t: Table, k: string, k': string)
    requires StrictlySorted(t) && (t != [] ==> !Less(t[0].key, k))
    ensures var u := if t != [] && t[0].key == k then t[1..] else t;
      && StrictlySorted(u)
      && (forall e :: e in u ==> Less(k, e.key))
      && Find(u, k') == if k' == k then None else Find(t, k')
  {
    var u := if t != [] && t[0].key == k then t[1..] else t;
    forall e | e in u ensures Less(k, e.key) {
      var i :| 0 <= i < |t| && t[i] == e && (t[0].key == k ==> i > 0);
      Trichotomy(t[0].key, k);
      if i > 0 && t[0].key != k { Transitive(k, t[0].key, e.key); }
    }
    Trichotomy(k, k);
    FindNone(u, k);
    assert t != [] && t[0].key == k && k' != k ==> Find(t, k') == Find(u, k');
  }

  lemma {:induction false} NewestPointwise(a: seq<Table>, b: seq<Table>, k: string)
    requires |a| == |b| && forall i :: 0 <= i < |a| ==> Find(a[i], k) == Find(b[i], k)
    ensures Newest(a, k) == Newest(b, k)
  {
    if a != [] {
      NewestPointwise(a[1..], b[1..], k);
    }
  }

  lemma DropLookups(a: seq<Table>, b: seq<Table>, k: string, k': string)
    requires AllSorted(a) && NoneBelow(a, k) && Dropped(a, b, k)
    ensures AllSorted(b)
    ensures forall i, e :: 0 <= i < |b| && e in b[i] ==> Less(k, e.key)
    ensures Newest(b, k') == if k' == k then None else Newest(a, k')
  {
    forall i | 0 <= i < |a|
      ensures StrictlySorted(b[i]) && forall e :: e in b[i] ==> Less(k, e.key)
      ensures Find(b[i], k') == if k' == k then None else Find(a[i], k')
    {
      DropFind(a[i], k, k');
    }
    if k' == k {
      NewestNone(b, k);
    } else {
      NewestPointwise(a, b, k');
    }
  }

  /** A head that no other head precedes is the newest entry for its key. */
  lemma FirstHeadIsNewest(ts: seq<Table>, j: nat)
    requires AllSorted(ts) && j < |ts| && ts[j] != []
    requires forall y :: y in Heads(ts) ==> NotAfter(HeadItem(ts, j), y)
    ensures NoneBelow(ts, ts[j][0].key)
    ensures Newest(ts, ts[j][0].key) == Some(ts[j][0].cell)
  {
    var k := ts[j][0].key;
    forall i | 0 <= i < |ts| && ts[i] != []
      ensures !Less(ts[i][0].key, k) && (i < j ==> Find(ts[i], k) == None)
    {
      assert HeadItem(ts, i) in Heads(ts);
      Trichotomy(ts[i][0].key, k);
      FindNone(ts[i], k);
      if i < j {
        forall p | 0 <= p < |ts[i]| ensures ts[i][p].key != k {
          if p > 0 { Transitive(k, ts[i][0].key, ts[i][p].key); }
          Trichotomy(ts[i][p].key, k);
        }
      }
    }
    NewestAt(ts, k, j);
  }

  /** The state of a merge of `all`: `done` holds the newest entry of every
      key gone by, in order, and the other keys are still in `rest`. */
  ghost predicate MergeState(all: seq<Table>, done: Table, rest: seq<Table>) {
    && StrictlySorted(done)
    && AllSorted(rest)
    && (forall d, i, e :: d in done && 0 <= i < |rest| && e in rest[i] ==> Less(d.key, e.key))
    && (forall k :: Newest(all, k) == if Find(done, k).Some? then Find(done, k) else Newest(rest, k))
  }

  /** `t` is the merge of `all`: one strictly sorted table with the newest
      entry of every key. There is only one such table (`SortedUnique`). */
  ghost predicate IsMerge(t: Table, all: seq<Table>) {
    StrictlySorted(t) && forall k :: Find(t, k) == Newest(all, k)
  }

  lemma FindSnoc(t: Table, e: Entry, k: string)
    ensures Find(t + [e], k) == if Find(t, k).Some? then Find(t, k) else if k == e.key then Some(e.cell) else None
  {
    FindAppend(t, [e], k);
    assert Find([], k) == None;
  }

  lemma MergeRound(all: seq<Table>, done: Table, rest: seq<Table>, j: nat, rest': seq<Table>)
    requires MergeState(all, done, rest)
    requires j < |rest| && rest[j] != []
    requires forall y :: y in Heads(rest) ==> NotAfter(HeadItem(rest, j), y)
    requires Dropped(rest, rest', rest[j][0].key)
    ensures MergeState(all, done + [rest[j][0]], rest')
  {
    hide Less, Find, Newest;
    var e := rest[j][0];
    var done' := done + [e];
    FirstHeadIsNewest(rest, j);
    DropLookups(rest, rest', e.key, e.key);
    assert e in rest[j];
    forall i, x | 0 <= i < |rest'| && x in rest'[i] ensures x in rest[i] {}
    forall k ensures Newest(all, k) == if Find(done', k).Some? then Find(done', k) else Newest(rest', k) {
      FindSnoc(done, e, k);
      DropLookups(rest, rest', e.key, k);
    }
  }

  lemma NoHeads(ts: seq<Table>)
    ensures Heads(ts) == {} <==> forall i :: 0 <= i < |ts| ==> ts[i] == []
  {
    if i: nat :| i < |ts| && ts[i] != [] {
      assert HeadItem(ts, i) in Heads(ts);
    }
  }

  lemma MergeDone(all: seq<Table>, done: Table, rest: seq<Table>)
    requires MergeState(all, done, rest) && forall i :: 0 <= i < |rest| ==> rest[i] == []
    ensures IsMerge(done, all)
  {
    forall k ensures Find(done, k) == Newest(all, k) {
      NewestNone(rest, k);
    }
  }

  lemma MergeStart(all: seq<Table>)
    requires AllSorted(all)
    ensures MergeState(all, [], all)
  {}

  /** Halfway through a drain: some tables have given up their entry for `k`. */
  ghost predicate Draining(was: seq<Table>, now: seq<Table>, k: string) {
    && AllSorted(was) && NoneBelow(was, k) && |now| == |was|
    && forall i :: 0 <= i < |was| ==>
         now[i] == was[i] || (was[i] != [] && was[i][0].key == k && now[i] == was[i][1..])
  }

  lemma DrainStep(was: seq<Table>, now: seq<Table>, k: string, i: nat)
    requires Draining(was, now, k)
    requires i < |now| && now[i] != [] && now[i][0].key == k
    ensures Draining(was, now[i := now[i][1..]], k)
  {
    Trichotomy(k, k);
    assert now[i] == was[i];
  }

  /** The drain is over once the first waiting item has another key. */
  lemma DrainDone(was: seq<Table>, now: seq<Table>, k: string)
    requires Draining(was, now, k)
    requires Heads(now) == {} ||
             exists x :: x in Heads(now) && x.key != k && forall y :: y in Heads(now) ==> NotAfter(x, y)
    ensures Dropped(was, now, k)
  {
    forall i | 0 <= i < |was| && now[i] != [] ensures now[i][0].key != k {
      assert HeadItem(now, i) in Heads(now);
      var x :| x in Heads(now) && x.key != k && forall y :: y in Heads(now) ==> NotAfter(x, y);
      Trichotomy(x.key, k);
      DropFind(was[x.index], k, k);
    }
  }

  // ----- the merge in place -----

  class Merger {
    const its: seq<Iterator>
    const heap: ItemHeap
    /** The entries that have not yet been popped, table by table. */
    ghost var rest: seq<Table>

    ghost predicate Linked()
      reads this, its
    {
      && |rest| == |its|
      && (forall i, j :: 0 <= i < j < |its| ==> its[i] != its[j])
      && (forall i :: 0 <= i < |its| ==> its[i].Valid() && its[i].Rest() == rest[i])
      && AllSorted(rest)
    }

    /** The heap holds exactly the next entry of every table that has one,
        and so at most one per table. */
    ghost predicate Valid()
      reads this, its, heap
    {
      && Linked()
      && IsHeap(heap.items, |heap.items|)
      && multiset(heap.items) == multiset(Heads(rest))
    }

    constructor (its: seq<Iterator>, ghost tables: seq<Table>)
      requires |tables| == |its| && AllSorted(tables)
      requires forall i, j :: 0 <= i < j < |its| ==> its[i] != its[j]
      requires forall i :: 0 <= i < |its| ==> its[i].Valid() && !its[i].spent && its[i].Rest() == tables[i]
      ensures Valid() && rest == tables && this.its == its && fresh(heap)
    {
      this.its := its;
      this.heap := new ItemHeap();
      this.rest := tables;
      new;
      FillHeap();
    }

    /** Pushes the first entry of every table that is not empty. */
    method FillHeap()
      requires Linked() && heap.items == [] && forall j :: 0 <= j < |its| ==> !its[j].spent
      modifies heap
      ensures Valid()
    {
      hide StrictlySorted, HeadsBelow, Heads;
      AllBelow(rest);
      var i := 0;
      while i < |its|
        invariant 0 <= i <= |its|
        invariant IsHeap(heap.items, |heap.items|)
        invariant multiset(heap.items) == multiset(HeadsBelow(rest, i))
      {
        var item := its[i].Current();
        HeadsBelowNext(rest, i);
        if item.Some? {
          heap.Push(Item(i, item.value.key, item.value.cell));
        }
        i := i + 1;
      }
      AllBelow(rest);
    }

    lemma FirstWaiting()
      requires Valid()
      ensures heap.items == [] ==> Heads(rest) == {}
      ensures heap.items != [] ==> heap.items[0] in Heads(rest)
      ensures heap.items != [] ==> forall y :: y in Heads(rest) ==> NotAfter(heap.items[0], y)
    {
      assert forall y :: y in Heads(rest) <==> y in multiset(heap.items);
      forall j | 0 <= j < |heap.items| ensures NotAfter(heap.items[0], heap.items[j]) {
        RootIsLeast(heap.items, j);
      }
      assert heap.items != [] ==> heap.items[0] in multiset(heap.items);
    }

    /** Pops the first item and pushes the next entry of its table. Exactly
        one entry is consumed, and no waiting entry comes before it. */
    method TakeItem() returns (x: Item)
      requires Valid() && heap.items != []
      modifies this`rest, heap, its
      ensures Valid()
      ensures x.index < |old(rest)| && old(rest)[x.index] != [] && x == HeadItem(old(rest), x.index)
      ensures x == old(heap.items)[0]
      ensures rest == old(rest)[x.index := old(rest)[x.index][1..]]
      ensures forall y :: y in Heads(old(rest)) ==> NotAfter(x, y)
    {
      hide Heads, IsHeap, NotAfter;
      x := PopFirst();
      HeapFollows(rest, x.index, multiset(heap.items));
      var next := Advance(x.index);
      if next.Some? {
        heap.Push(Item(x.index, next.value.key, next.value.cell));
      }
    }

    method PopFirst() returns (x: Item)
      requires Valid() && heap.items != []
      modifies heap
      ensures Linked() && IsHeap(heap.items, |heap.items|)
      ensures x == old(heap.items)[0]
      ensures x.index < |rest| && rest[x.index] != [] && x == HeadItem(rest, x.index)
      ensures x in Heads(rest) && multiset(heap.items) == multiset(Heads(rest)) - multiset{x}
      ensures forall y :: y in Heads(rest) ==> NotAfter(x, y)
    {
      FirstWaiting();
      x := heap.Pop();
    }

    method Advance(i: nat) returns (next: Option<Entry>)
      requires Linked() && i < |its| && rest[i] != []
      modifies this`rest, its[i]
      ensures Linked() && rest == old(rest)[i := old(rest)[i][1..]]
      ensures next == Head(rest[i])
    {
      SortedSuffix(rest[i], 1);
      next := its[i].Next();
      rest := rest[i := rest[i][1..]];
    }

    /** One round: take the first item, then drain the older entries for the
        same key. */
    method NextKey() returns (item: Item)
      requires Valid() && heap.items != []
      modifies this`rest, heap, its
      ensures Valid()
      ensures item.index < |old(rest)| && old(rest)[item.index] != [] && item == HeadItem(old(rest), item.index)
      ensures forall y :: y in Heads(old(rest)) ==> NotAfter(item, y)
      ensures Dropped(old(rest), rest, item.key)
      ensures Total(rest) < Total(old(rest))
    {
      hide IsHeap, StrictlySorted;
      item := TakeItem();
      ghost var was := old(rest);
      TotalDrop(was, item.index);
      FirstHeadIsNewest(was, item.index);
      DrainStep(was, was, item.key, item.index);
      if |heap.items| > 0 {
        while item.key == heap.items[0].key
          invariant Valid() && heap.items != []
          invariant Draining(was, rest, item.key)
          invariant Total(rest) < Total(was)
          decreases Total(rest)
        {
          ghost var before := rest;
          var x := TakeItem();
          TotalDrop(before, x.index);
          DrainStep(was, before, item.key, x.index);
          if |heap.items| == 0 {
            break;
          }
        }
      }
      FirstWaiting();
      DrainDone(was, rest, item.key);
    }
  
    /** One round, as the next entry of the merge of `all`. */
    method NextEntry(ghost all: seq<Table>, ghost done: Table) returns (e: Entry)
      requires Valid() && heap.items != [] && MergeState(all, done, rest)
      modifies this`rest, heap, its
      ensures Valid() && MergeState(all, done + [e], rest)
      ensures Total(rest) < Total(old(rest))
    {
      var item := NextKey();
      e := Entry(item.key, item.cell);
      MergeRound(all, done, old(rest), item.index, rest);
    }

    lemma NothingLeft(all: seq<Table>, done: Table)
      requires Valid() && heap.items == [] && MergeState(all, done, rest)
      ensures IsMerge(done, all)
    {
      FirstWaiting();
      NoHeads(rest);
      MergeDone(all, done, rest);
    }
  }
}
