/** The heap of the compaction: `sstableItemHeap` under the discipline of
    Go's `container/heap`. */
module Heap {
  import opened Order
  import opened Tables

  /** An entry of table number `index`; table 0 is the newest. */
  datatype Item = Item(index: nat, key: string, cell: Cell)

  /** `Less`: by key, and among equal keys the newest table first. */
  predicate Before(a: Item, b: Item) {
    if a.key == b.key then a.index < b.index else Less(a.key, b.key)
  }

  predicate NotAfter(a: Item, b: Item) {
    !Before(b, a)
  }

  /** `Before` is a strict total order on items with distinct (key, index). */
  lemma BeforeIsStrictTotalOrder(a: Item, b: Item, c: Item)
    ensures !Before(a, a)
    ensures Before(a, b) ==> !Before(b, a)
    ensures Before(a, b) && Before(b, c) ==> Before(a, c)
    ensures (a.key, a.index) != (b.key, b.index) ==> Before(a, b) || Before(b, a)
    ensures NotAfter(a, b) && NotAfter(b, c) ==> NotAfter(a, c)
  {
    Trichotomy(a.key, a.key);
    Trichotomy(a.key, b.key);
    Trichotomy(b.key, c.key);
    Trichotomy(a.key, c.key);
    if Less(a.key, b.key) && Less(b.key, c.key) { Transitive(a.key, b.key, c.key); }
    if Less(c.key, b.key) && Less(b.key, a.key) { Transitive(c.key, b.key, a.key); }
  }

  function Parent(j: nat): nat
    requires j > 0
  {
    (j - 1) / 2
  }

  /** Heap order on the first `n` items. */
  ghost predicate IsHeap(s: seq<Item>, n: nat)
    requires n <= |s|
  {
    forall j :: 0 < j < n ==> NotAfter(s[Parent(j)], s[j])
  }

  /** Heap order on the first `n` items except between `i` and its parent;
      the children of `i` are in order with that parent. */
  ghost predicate HeapButAbove(s: seq<Item>, n: nat, i: nat)
    requires n <= |s|
  {
    && (forall j :: 0 < j < n && j != i ==> NotAfter(s[Parent(j)], s[j]))
    && (forall j :: 0 < j < n && i > 0 && Parent(j) == i ==> NotAfter(s[Parent(i)], s[j]))
  }

  /** Heap order on the first `n` items except between `i` and its children;
      those are in order with the parent of `i`. */
  ghost predicate HeapButBelow(s: seq<Item>, n: nat, i: nat)
    requires n <= |s|
  {
    && (forall j :: 0 < j < n && Parent(j) != i ==> NotAfter(s[Parent(j)], s[j]))
    && (forall j :: 0 < j < n && i > 0 && Parent(j) == i ==> NotAfter(s[Parent(i)], s[j]))
  }

  function Swapped(s: seq<Item>, i: nat, j: nat): seq<Item>
    requires i < |s| && j < |s|
  {
    s[i := s[j]][j := s[i]]
  }

  /** One step of `down`: swapping with the least child moves the gap there. */
  lemma DownStep(s: seq<Item>, n: nat, i: nat, j: nat)
    requires n <= |s| && HeapButBelow(s, n, i)
    requires 0 < j < n && Parent(j) == i && Before(s[j], s[i])
    requires forall c :: 0 < c < n && Parent(c) == i ==> NotAfter(s[j], s[c])
    ensures HeapButBelow(Swapped(s, i, j), n, j)
  {
    var t := Swapped(s, i, j);
    BeforeIsStrictTotalOrder(s[j], s[i], s[i]);
    forall c | 0 < c < n && Parent(c) != j ensures NotAfter(t[Parent(c)], t[c]) {
      if c == i {
        assert NotAfter(s[Parent(i)], s[j]);
      }
    }
  }

  /** Of the two children of `i`, `j` is the one to compare with. */
  lemma LeastChild(s: seq<Item>, n: nat, i: nat, j: nat)
    requires n <= |s| && HeapButBelow(s, n, i)
    requires i < j < n && Parent(j) == i
    requires j == 2 * i + 2 ==> Before(s[j], s[j - 1])
    requires j == 2 * i + 1 && j + 1 < n ==> NotAfter(s[j], s[j + 1])
    ensures forall c :: 0 < c < n && Parent(c) == i ==> NotAfter(s[j], s[c])
    ensures NotAfter(s[i], s[j]) ==> IsHeap(s, n)
  {
    hide Before;
    forall c | 0 < c < n && Parent(c) == i
      ensures NotAfter(s[j], s[c]) && (NotAfter(s[i], s[j]) ==> NotAfter(s[i], s[c]))
    {
      assert c == 2 * i + 1 || c == 2 * i + 2;
      BeforeIsStrictTotalOrder(s[j], s[c], s[j]);
      BeforeIsStrictTotalOrder(s[i], s[j], s[c]);
    }
  }

  /** A round of `down`, at `i` with the child `j` chosen by the two guards. */
  lemma DownRound(s: seq<Item>, n: nat, i: nat, j: nat)
    requires n <= |s| && HeapButBelow(s, n, i) && 2 * i + 1 < n
    requires j == if 2 * i + 2 < n && Before(s[2 * i + 2], s[2 * i + 1]) then 2 * i + 2 else 2 * i + 1
    ensures if Before(s[j], s[i]) then HeapButBelow(Swapped(s, i, j), n, j) else IsHeap(s, n)
  {
    hide Before, IsHeap, HeapButBelow;
    LeastChild(s, n, i, j);
    if Before(s[j], s[i]) {
      DownStep(s, n, i, j);
    }
  }

  lemma DownDone(s: seq<Item>, n: nat, i: nat)
    requires n <= |s| && HeapButBelow(s, n, i) && 2 * i + 1 >= n
    ensures IsHeap(s, n)
  {}

  lemma SwapFrame(s: seq<Item>, n: nat, i: nat, j: nat)
    requires i < n <= |s| && j < n
    ensures |Swapped(s, i, j)| == |s| && Swapped(s, i, j)[n..] == s[n..]
  {}

  /** One step of `up`: swapping with the parent moves the gap there. */
  lemma UpStep(s: seq<Item>, n: nat, i: nat)
    requires n <= |s| && HeapButAbove(s, n, i) && 0 < i < n && Before(s[i], s[Parent(i)])
    ensures HeapButAbove(Swapped(s, Parent(i), i), n, Parent(i))
  {
    hide Before;
    var t, p := Swapped(s, Parent(i), i), Parent(i);
    BeforeIsStrictTotalOrder(s[i], s[p], s[p]);
    forall j | 0 < j < n && j != p ensures NotAfter(t[Parent(j)], t[j]) {
      if j != i && Parent(j) == p {
        BeforeIsStrictTotalOrder(s[i], s[p], s[j]);
      }
    }
    forall j | 0 < j < n && p > 0 && Parent(j) == p ensures NotAfter(t[Parent(p)], t[j]) {
      if j != i {
        BeforeIsStrictTotalOrder(s[Parent(p)], s[p], s[j]);
      }
    }
  }

  lemma {:induction false} RootIsLeast(s: seq<Item>, j: nat)
    requires j < |s| && IsHeap(s, |s|)
    ensures NotAfter(s[0], s[j])
  {
    if j == 0 {
      BeforeIsStrictTotalOrder(s[0], s[0], s[0]);
    } else {
      RootIsLeast(s, Parent(j));
      BeforeIsStrictTotalOrder(s[0], s[Parent(j)], s[j]);
    }
  }

  class ItemHeap {
    var items: seq<Item>

    constructor ()
      ensures items == []
    {
      items := [];
    }

    method Swap(i: nat, j: nat)
      requires i < |items| && j < |items|
      modifies this
      ensures items == Swapped(old(items), i, j)
      ensures multiset(items) == multiset(old(items))
    {
      items := items[i := items[j]][j := items[i]];
    }

    /** `heap.up` */
    method Up(start: nat)
      requires start < |items| && HeapButAbove(items, |items|, start)
      modifies this
      ensures |items| == |old(items)| && IsHeap(items, |items|)
      ensures multiset(items) == multiset(old(items))
    {
      hide Before;
      var j := start;
      while j > 0 && Before(items[j], items[Parent(j)])
        invariant 0 <= j < |items| == |old(items)| && HeapButAbove(items, |items|, j)
        invariant multiset(items) == multiset(old(items))
      {
        UpStep(items, |items|, j);
        Swap(Parent(j), j);
        j := Parent(j);
      }
    }

    /** `heap.down` from the root, on the first `n` items */
    method Down(n: nat)
      requires n <= |items| && HeapButBelow(items, n, 0)
      modifies this
      ensures |items| == |old(items)| && items[n..] == old(items[n..]) && IsHeap(items, n)
      ensures multiset(items) == multiset(old(items))
    {
      hide Before, IsHeap, HeapButBelow, Swapped;
      var i := 0;
      while 2 * i + 1 < n
        invariant 0 <= i && n <= |items| == |old(items)| && items[n..] == old(items[n..])
        invariant HeapButBelow(items, n, i)
        invariant multiset(items) == multiset(old(items))
        decreases n - i
      {
        var j := 2 * i + 1;
        if j + 1 < n && Before(items[j + 1], items[j]) {
          j := j + 1;
        }
        DownRound(items, n, i, j);
        if !Before(items[j], items[i]) {
          return;
        }
        SwapFrame(items, n, i, j);
        Swap(i, j);
        i := j;
      }
      DownDone(items, n, i);
    }

    /** `heap.Push` */
    method Push(x: Item)
      requires IsHeap(items, |items|)
      modifies this
      ensures IsHeap(items, |items|)
      ensures multiset(items) == multiset(old(items)) + multiset{x}
    {
      items := items + [x];
      Up(|items| - 1);
    }

    /** `heap.Pop`: no item comes before the one removed, and it comes before
        every item that differs from it in key or table. */
    method Pop() returns (x: Item)
      requires items != [] && IsHeap(items, |items|)
      modifies this
      ensures x == old(items)[0]
      ensures IsHeap(items, |items|)
      ensures multiset(old(items)) == multiset(items) + multiset{x}
      ensures forall y :: y in old(items) ==> NotAfter(x, y)
      ensures forall y :: y in old(items) && (y.key, y.index) != (x.key, x.index) ==> Before(x, y)
    {
      hide Before;
      forall j | 0 <= j < |items|
        ensures NotAfter(items[0], items[j])
        ensures (items[j].key, items[j].index) != (items[0].key, items[0].index) ==> Before(items[0], items[j])
      {
        RootIsLeast(items, j);
        BeforeIsStrictTotalOrder(items[0], items[j], items[0]);
      }
      var n := |items| - 1;
      Swap(0, n);
      Down(n);
      x := items[n];
      assert items == items[..n] + [x];
      assert x == items[n..][0] == old(items)[0];
      items := items[..n];
    }
  }
}
