/** The price heaps of an order book: Go's `container/heap` algorithms run over the repository's
    `Less`, `Swap`, `Push` and `Pop` on a slice of orders. */
module OrderHeap {
  import opened Orders

  /** The repository's comparison: the first element tells which side the heap belongs to. */
  predicate Less(h: seq<Order>, i: int, j: int)
    requires 0 <= i < |h| && 0 <= j < |h|
  {
    if |h| > 0 && h[0].isBuy then h[i].price > h[j].price else h[i].price < h[j].price
  }

  /** All orders of a heap are on one side of the book. */
  predicate OneSided(h: seq<Order>, isBuy: bool) {
    forall i :: 0 <= i < |h| ==> h[i].isBuy == isBuy
  }

  /** How far an order is from the front of its side. */
  function Rank(o: Order): real {
    if o.isBuy then -o.price else o.price
  }

  function Parent(i: int): int {
    (i - 1) / 2
  }

  /** Heap order among the first `n` elements, for the nodes whose parent is at or after `k`. */
  ghost predicate OrderedFrom(h: seq<Order>, n: int, k: int)
    requires n <= |h|
  {
    forall c :: 0 < c < n && k <= Parent(c) ==> Rank(h[Parent(c)]) <= Rank(h[c])
  }

  ghost predicate HeapOrdered(h: seq<Order>) {
    OrderedFrom(h, |h|, 0)
  }

  ghost predicate Valid(h: seq<Order>, isBuy: bool) {
    OneSided(h, isBuy) && HeapOrdered(h)
  }

  function Swap(h: seq<Order>, i: int, j: int): (r: seq<Order>)
    requires 0 <= i < |h| && 0 <= j < |h|
    ensures multiset(r) == multiset(h)
    ensures |r| == |h| && r[i] == h[j] && r[j] == h[i]
    ensures forall k :: 0 <= k < |h| && k != i && k != j ==> r[k] == h[k]
  {
    h[i := h[j]][j := h[i]]
  }

  lemma OneSidedMultiset(h: seq<Order>, g: seq<Order>, isBuy: bool)
    requires OneSided(h, isBuy) && multiset(g) <= multiset(h)
    ensures OneSided(g, isBuy)
  {
    forall i | 0 <= i < |g|
      ensures g[i].isBuy == isBuy
    {
      assert g[i] in multiset(g);
      assert g[i] in multiset(h);
    }
  }

  lemma LessIsRank(h: seq<Order>, isBuy: bool, i: int, j: int)
    requires OneSided(h, isBuy) && 0 <= i < |h| && 0 <= j < |h|
    ensures Less(h, i, j) <==> Rank(h[i]) < Rank(h[j])
  {
  }

  /** Heap order everywhere but between `j` and its parent, which its children may skip. */
  ghost predicate OrderedBut(h: seq<Order>, j: int)
    requires 0 <= j < |h|
  {
    && (forall c :: 0 < c < |h| && c != j ==> Rank(h[Parent(c)]) <= Rank(h[c]))
    && (0 < j ==> forall c :: 0 < c < |h| && Parent(c) == j ==> Rank(h[Parent(j)]) <= Rank(h[c]))
  }

  lemma UpStep(h: seq<Order>, i: int, j: int)
    requires 0 < j < |h| && i == Parent(j)
    requires OrderedBut(h, j) && Rank(h[j]) < Rank(h[i])
    ensures OrderedBut(Swap(h, i, j), i)
  {
    hide Rank;
    var r := Swap(h, i, j);
    forall c | 0 < c < |r| && c != i
      ensures Rank(r[Parent(c)]) <= Rank(r[c])
    {
    }
    if 0 < i {
      assert Rank(h[Parent(i)]) <= Rank(h[i]);
      forall c | 0 < c < |r| && Parent(c) == i
        ensures Rank(r[Parent(i)]) <= Rank(r[c])
      {
      }
    }
  }

  /** `up` of container/heap: moves the element at `start` towards the root. */
  method Up(a: seq<Order>, start: nat, ghost isBuy: bool) returns (h: seq<Order>)
    requires OneSided(a, isBuy) && start < |a| && OrderedBut(a, start)
    ensures Valid(h, isBuy) && multiset(h) == multiset(a)
  {
    hide Rank, Less, OneSided;
    h := a;
    var j := start;
    while true
      invariant 0 <= j < |h| && OneSided(h, isBuy) && multiset(h) == multiset(a)
      invariant OrderedBut(h, j)
      decreases j
    {
      var i := if j == 0 then 0 else Parent(j);
      LessIsRank(h, isBuy, j, i);
      if i == j || !Less(h, j, i) {
        break;
      }
      UpStep(h, i, j);
      OneSidedMultiset(h, Swap(h, i, j), isBuy);
      h := Swap(h, i, j);
      j := i;
    }
  }

  /** Heap order in `h[..n]` below `start`, except between `i` and its children, which are still
      ordered after the parent of `i`. */
  ghost predicate OrderedBelowBut(h: seq<Order>, start: int, n: int, i: int)
    requires n <= |h| && 0 <= start <= i
  {
    && (forall c :: 0 < c < n && start <= Parent(c) && Parent(c) != i ==> Rank(h[Parent(c)]) <= Rank(h[c]))
    && (start < i < n ==>
          start <= Parent(i) && forall c :: 0 < c < n && Parent(c) == i ==> Rank(h[Parent(i)]) <= Rank(h[c]))
  }

  /** `j` is a child of `i` that no other child of `i` comes before. */
  ghost predicate FirstChild(h: seq<Order>, n: int, i: int, j: int)
    requires n <= |h|
  {
    && 0 < j < n && Parent(j) == i
    && forall c :: 0 < c < n && Parent(c) == i ==> Rank(h[j]) <= Rank(h[c])
  }

  lemma DownStep(h: seq<Order>, start: int, n: int, i: int, j: int)
    requires 0 <= start <= i < j < n <= |h|
    requires OrderedBelowBut(h, start, n, i)
    requires FirstChild(h, n, i, j)
    requires Rank(h[j]) < Rank(h[i])
    ensures OrderedBelowBut(Swap(h, i, j), start, n, j)
  {
    hide Rank;
    var r := Swap(h, i, j);
    forall c | 0 < c < n && start <= Parent(c) && Parent(c) != j
      ensures Rank(r[Parent(c)]) <= Rank(r[c])
    {
      if c == i {
        assert Rank(h[Parent(i)]) <= Rank(h[j]);
      }
    }
    forall c | 0 < c < n && Parent(c) == j
      ensures Rank(r[Parent(j)]) <= Rank(r[c])
    {
    }
  }

  lemma DownStart(h: seq<Order>, start: nat, n: nat)
    requires n <= |h| && OrderedFrom(h, n, start + 1)
    ensures OrderedBelowBut(h, start, n, start)
  {
    hide Rank;
  }

  lemma DownDone(h: seq<Order>, start: nat, n: nat, i: int, j: int)
    requires n <= |h| && start <= i && OrderedBelowBut(h, start, n, i)
    requires n <= 2 * i + 1 || (FirstChild(h, n, i, j) && Rank(h[i]) <= Rank(h[j]))
    ensures OrderedFrom(h, n, start)
  {
    hide Rank;
  }

  /** The child `down` compares with: the right one only if it comes before the left one. */
  method PickChild(h: seq<Order>, n: nat, i: nat, ghost isBuy: bool) returns (j: nat)
    requires OneSided(h, isBuy) && 2 * i + 1 < n <= |h|
    ensures FirstChild(h, n, i, j)
  {
    hide Rank, Less, OneSided;
    j := 2 * i + 1;
    assert forall c :: 0 < c < n && Parent(c) == i ==> c == j || c == j + 1;
    if j + 1 < n {
      LessIsRank(h, isBuy, j + 1, j);
      if Less(h, j + 1, j) {
        j := j + 1;
      }
    }
  }

  /** `down` of container/heap: moves the element at `start` towards the leaves of `a[..n]`. */
  method Down(a: seq<Order>, start: nat, n: nat, ghost isBuy: bool) returns (h: seq<Order>)
    requires OneSided(a, isBuy) && n <= |a|
    requires OrderedFrom(a, n, start + 1)
    ensures OneSided(h, isBuy) && multiset(h) == multiset(a)
    ensures |h| == |a| && (forall k :: n <= k < |a| ==> h[k] == a[k])
    ensures OrderedFrom(h, n, start)
  {
    hide Rank, Less, OneSided, OrderedFrom, OrderedBelowBut;
    h := a;
    var i := start;
    DownStart(h, start, n);
    while 2 * i + 1 < n
      invariant start <= i && |h| == |a|
      invariant OneSided(h, isBuy) && multiset(h) == multiset(a)
      invariant forall k :: n <= k < |a| ==> h[k] == a[k]
      invariant OrderedBelowBut(h, start, n, i)
    {
      var j := PickChild(h, n, i, isBuy);
      LessIsRank(h, isBuy, j, i);
      if !Less(h, j, i) {
        DownDone(h, start, n, i, j);
        return;
      }
      DownStep(h, start, n, i, j);
      OneSidedMultiset(h, Swap(h, i, j), isBuy);
      h := Swap(h, i, j);
      i := j;
    }
    DownDone(h, start, n, i, 0);
  }

  /** `heap.Init`: any one-sided slice becomes a heap of the same orders. */
  method Init(a: seq<Order>, ghost isBuy: bool) returns (h: seq<Order>)
    requires OneSided(a, isBuy)
    ensures Valid(h, isBuy) && multiset(h) == multiset(a)
  {
    h := a;
    var n := |h|;
    var i := n / 2 - 1;
    while i >= 0
      invariant -1 <= i && i < n / 2 && |h| == n
      invariant OneSided(h, isBuy) && multiset(h) == multiset(a)
      invariant OrderedFrom(h, n, i + 1)
    {
      h := Down(h, i, n, isBuy);
      i := i - 1;
    }
  }

  /** `heap.Push`: adds exactly one order. */
  method Push(a: seq<Order>, o: Order) returns (h: seq<Order>)
    requires Valid(a, o.isBuy)
    ensures Valid(h, o.isBuy) && multiset(h) == multiset(a) + multiset{o}
  {
    h := a + [o];
    assert forall c :: 0 < c < |a| ==> h[Parent(c)] == a[Parent(c)];
    h := Up(h, |a|, o.isBuy);
  }

  /** The root of a heap comes before every other element. */
  lemma {:induction false} RootIsBest(h: seq<Order>, i: nat)
    requires HeapOrdered(h) && i < |h|
    ensures Rank(h[0]) <= Rank(h[i])
  {
    if i > 0 {
      RootIsBest(h, Parent(i));
    }
  }

  /** No order of `s` comes before `o`. */
  ghost predicate Best(s: multiset<Order>, o: Order) {
    o in s && forall x :: x in s ==> Rank(o) <= Rank(x)
  }

  /** After the root and the last element change places, only the root is out of order. */
  lemma RootSwapped(a: seq<Order>, n: int)
    requires HeapOrdered(a) && n == |a| - 1 && 0 <= n
    ensures OrderedFrom(Swap(a, 0, n), n, 1)
  {
    hide Rank;
  }

  lemma PrefixOrdered(h: seq<Order>, n: nat)
    requires n <= |h| && OrderedFrom(h, n, 0)
    ensures HeapOrdered(h[..n])
  {
    hide Rank;
    forall c | 0 < c < n
      ensures Rank(h[..n][Parent(c)]) <= Rank(h[..n][c])
    {
      assert Rank(h[Parent(c)]) <= Rank(h[c]);
    }
  }

  lemma RootIsBestOfAll(a: seq<Order>)
    requires HeapOrdered(a) && a != []
    ensures Best(multiset(a), a[0])
  {
    hide Rank, OrderedFrom;
    forall x | x in multiset(a)
      ensures Rank(a[0]) <= Rank(x)
    {
      var i :| 0 <= i < |a| && a[i] == x;
      RootIsBest(a, i);
    }
  }

  /** `heap.Pop`: takes out exactly one order, and none that remains is better priced. */
  method Pop(a: seq<Order>, ghost isBuy: bool) returns (h: seq<Order>, o: Order)
    requires Valid(a, isBuy) && a != []
    ensures Valid(h, isBuy) && |h| == |a| - 1
    ensures Best(multiset(a), o) && multiset(h) == multiset(a) - multiset{o}
  {
    hide Rank, OneSided, OrderedFrom, Best;
    var n := |a| - 1;
    h := Swap(a, 0, n);
    RootSwapped(a, n);
    OneSidedMultiset(a, h, isBuy);
    h := Down(h, 0, n, isBuy);
    o := h[n];
    RootIsBestOfAll(a);
    PrefixOrdered(h, n);
    assert h == h[..n] + [o];
    OneSidedMultiset(h, h[..n], isBuy);
    h := h[..n];
  }
}
