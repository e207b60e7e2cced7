/** `PriorityQueue<T>`: a binary heap in an array, with a min and a max variant.

    The items are `heap[..count]`; the parent of slot `i > 0` is
    `(i + 1) / 2 - 1` and the children of slot `i` are `2i + 1` and `2i + 2`.
    The variant fixes which way the heap property points: parent at most its
    children (min) or at least (max). Slots from `count` on hold `default(T)`.
    The abstract view is the multiset `Contents(q)` with `Peek` returning an
    extremal element of it. */
module PriorityQueue {
  import opened Common
  import opened ComparerUtility
  import opened ObjectUtility

  /** `MinPriorityQueue` or `MaxPriorityQueue`. */
  datatype Kind = Min | Max

  /** `IsHeapPropertySatisfied(comparer, parent, child)` of the two variants. */
  function HeapPropertySatisfied<T>(kind: Kind, comparer: (T, T) -> int, parent: T, child: T): (b: bool)
    ensures b <==> Sign(comparer(parent, child)) != (if kind == Min then 1 else -1)
  {
    match kind
    case Min => Is(comparer, parent).LessThanOrEqualTo(child)
    case Max => Is(comparer, parent).GreaterThanOrEqualTo(child)
  }

  /** With a valid comparer the heap property orders every value before itself. */
  lemma HeapPropertyReflexive<T(!new)>(kind: Kind, comparer: (T, T) -> int, a: T)
    requires ValidComparer(comparer)
    ensures HeapPropertySatisfied(kind, comparer, a, a)
  {
    assert Sign(comparer(a, a)) == -Sign(comparer(a, a));
  }

  /** With a valid comparer, of two values one can be the parent of the other. */
  lemma HeapPropertyTotal<T(!new)>(kind: Kind, comparer: (T, T) -> int, a: T, b: T)
    requires ValidComparer(comparer)
    ensures HeapPropertySatisfied(kind, comparer, a, b) || HeapPropertySatisfied(kind, comparer, b, a)
  {
    Total(comparer, a, b);
  }

  /** With a valid comparer the heap property is transitive. */
  lemma HeapPropertyTransitive<T(!new)>(kind: Kind, comparer: (T, T) -> int, a: T, b: T, c: T)
    requires ValidComparer(comparer)
    requires HeapPropertySatisfied(kind, comparer, a, b) && HeapPropertySatisfied(kind, comparer, b, c)
    ensures HeapPropertySatisfied(kind, comparer, a, c)
  {
    Transitive(comparer, a, b, c);
  }

  // ---------------------------------------------------------------------
  // Index arithmetic
  // ---------------------------------------------------------------------

  /** `parentIndex = (currentIndex + 1) / 2 - 1`. */
  function Parent(i: nat): (p: nat)
    requires i > 0
    ensures p < i
  {
    (i + 1) / 2 - 1
  }

  /** `leftChild = currentIndex * 2 + 1`. */
  function LeftChild(i: nat): nat
  {
    i * 2 + 1
  }

  /** The two children of `i` are exactly the slots whose parent is `i`. */
  lemma ChildrenOfParent(i: nat, j: nat)
    requires j > 0
    ensures Parent(j) == i <==> j == LeftChild(i) || j == LeftChild(i) + 1
  {
  }

  // ---------------------------------------------------------------------
  // Heap shape
  // ---------------------------------------------------------------------

  /** The heap property over the first `n` slots. */
  predicate IsHeap<T>(kind: Kind, comparer: (T, T) -> int, h: seq<T>, n: nat)
    requires n <= |h|
  {
    forall j :: 0 < j < n ==> HeapPropertySatisfied(kind, comparer, h[Parent(j)], h[j])
  }

  /** The state `BubbleUp` works in: the heap property holds except between
      slot `i` and its parent, and `i`'s parent may be the parent of `i`'s children. */
  predicate HeapExceptUp<T>(kind: Kind, comparer: (T, T) -> int, h: seq<T>, n: nat, i: nat)
    requires i < n <= |h|
  {
    && (forall j :: 0 < j < n && j != i ==> HeapPropertySatisfied(kind, comparer, h[Parent(j)], h[j]))
    && (forall j :: 0 < j < n && i > 0 && Parent(j) == i ==> HeapPropertySatisfied(kind, comparer, h[Parent(i)], h[j]))
  }

  /** The state `BubbleDown` works in: the heap property holds except between
      slot `i` and its children, and `i`'s parent may be the parent of `i`'s children. */
  predicate HeapExceptDown<T>(kind: Kind, comparer: (T, T) -> int, h: seq<T>, n: nat, i: nat)
    requires n <= |h| && (i < n || n == 0)
  {
    && (forall j :: 0 < j < n && Parent(j) != i ==> HeapPropertySatisfied(kind, comparer, h[Parent(j)], h[j]))
    && (forall j :: 0 < j < n && i > 0 && Parent(j) == i ==> HeapPropertySatisfied(kind, comparer, h[Parent(i)], h[j]))
  }

  /** The root of a heap is extremal: it may be the parent of every item. */
  lemma {:induction false} RootExtremal<T(!new)>(kind: Kind, comparer: (T, T) -> int, h: seq<T>, n: nat, j: nat)
    requires ValidComparer(comparer) && n <= |h| && IsHeap(kind, comparer, h, n) && j < n
    ensures HeapPropertySatisfied(kind, comparer, h[0], h[j])
    decreases j
  {
    if j == 0 {
      HeapPropertyReflexive(kind, comparer, h[0]);
    } else {
      RootExtremal(kind, comparer, h, n, Parent(j));
      HeapPropertyTransitive(kind, comparer, h[0], h[Parent(j)], h[j]);
    }
  }

  /** One swap of `BubbleUp`: exchanging slot `i` with the parent it should not
      be under moves the exception one level up. */
  lemma BubbleUpStep<T(!new)>(kind: Kind, comparer: (T, T) -> int, h: seq<T>, n: nat, i: nat)
    requires ValidComparer(comparer) && 0 < i < n <= |h|
    requires HeapExceptUp(kind, comparer, h, n, i)
    requires !HeapPropertySatisfied(kind, comparer, h[Parent(i)], h[i])
    ensures HeapExceptUp(kind, comparer, SwapAt(h, i, Parent(i)), n, Parent(i))
  {
    var p := Parent(i);
    var s := SwapAt(h, i, p);
    HeapPropertyTotal(kind, comparer, h[p], h[i]);
    forall j | 0 < j < n && j != p
      ensures HeapPropertySatisfied(kind, comparer, s[Parent(j)], s[j])
    {
      if j != i && Parent(j) == p {
        HeapPropertyTransitive(kind, comparer, h[i], h[p], h[j]);
      }
    }
    forall j | 0 < j < n && p > 0 && Parent(j) == p
      ensures HeapPropertySatisfied(kind, comparer, s[Parent(p)], s[j])
    {
      if j != i {
        HeapPropertyTransitive(kind, comparer, h[Parent(p)], h[p], h[j]);
      }
    }
  }

  /** One swap of `BubbleDown`: exchanging slot `i` with its better child `c`,
      which it should not be above, moves the exception one level down. */
  lemma BubbleDownStep<T(!new)>(kind: Kind, comparer: (T, T) -> int, h: seq<T>, n: nat, i: nat, c: nat)
    requires ValidComparer(comparer) && i < n <= |h| && PickedChild(kind, comparer, h, n, i, c)
    requires HeapExceptDown(kind, comparer, h, n, i)
    requires !HeapPropertySatisfied(kind, comparer, h[i], h[c])
    ensures i < c < n && Parent(c) == i
    ensures HeapExceptDown(kind, comparer, SwapAt(h, i, c), n, c)
    ensures multiset(SwapAt(h, i, c)[..n]) == multiset(h[..n]) && SwapAt(h, i, c)[n..] == h[n..]
  {
    BetterChild(kind, comparer, h, n, i, c);
    HeapPropertyTotal(kind, comparer, h[i], h[c]);
    SwapAtPermutes(h, i, c, n);
  }

  /** `BubbleDown` may stop at slot `i` once it may be the parent of the child the loop picked. */
  lemma BubbleDownStop<T(!new)>(kind: Kind, comparer: (T, T) -> int, h: seq<T>, n: nat, i: nat, c: nat)
    requires ValidComparer(comparer) && i < n <= |h| && PickedChild(kind, comparer, h, n, i, c)
    requires HeapExceptDown(kind, comparer, h, n, i)
    requires HeapPropertySatisfied(kind, comparer, h[i], h[c])
    ensures IsHeap(kind, comparer, h, n)
  {
    BetterChild(kind, comparer, h, n, i, c);
    forall j | 0 < j < n && Parent(j) == i
      ensures HeapPropertySatisfied(kind, comparer, h[i], h[j])
    {
      HeapPropertyTransitive(kind, comparer, h[i], h[c], h[j]);
    }
  }

  // ---------------------------------------------------------------------
  // BubbleUp and BubbleDown
  // ---------------------------------------------------------------------

  /** `BubbleUp(i)`: swap the item at `i` with its parent until the heap
      property holds. The first `n` slots end up a heap holding the same items. */
  method BubbleUp<T(!new)>(kind: Kind, comparer: (T, T) -> int, h: seq<T>, n: nat, i: nat) returns (r: seq<T>)
    requires ValidComparer(comparer) && i < n <= |h|
    requires HeapExceptUp(kind, comparer, h, n, i)
    ensures |r| == |h| && r[n..] == h[n..]
    ensures multiset(r[..n]) == multiset(h[..n])
    ensures IsHeap(kind, comparer, r, n)
  {
    r := h;
    var current: nat := i;
    while current > 0
      invariant current < n && |r| == |h| && r[n..] == h[n..]
      invariant multiset(r[..n]) == multiset(h[..n])
      invariant HeapExceptUp(kind, comparer, r, n, current)
      decreases current
    {
      var parent := (current + 1) / 2 - 1;
      if HeapPropertySatisfied(kind, comparer, r[parent], r[current]) {
        return;
      }
      BubbleUpStep(kind, comparer, r, n, current);
      SwapAtPermutes(r, current, parent, n);
      r := SwapAt(r, current, parent);
      current := parent;
    }
  }

  /** `BubbleDown(i)`: swap the item at `i` with its better child until the
      heap property holds. The first `n` slots end up a heap holding the same items. */
  method BubbleDown<T(!new)>(kind: Kind, comparer: (T, T) -> int, h: seq<T>, n: nat, i: nat) returns (r: seq<T>)
    requires ValidComparer(comparer) && n <= |h| && (i < n || n == 0)
    requires HeapExceptDown(kind, comparer, h, n, i)
    ensures |r| == |h| && r[n..] == h[n..]
    ensures multiset(r[..n]) == multiset(h[..n])
    ensures IsHeap(kind, comparer, r, n)
  {
    r := h;
    var current: nat := i;
    var leftChild := current * 2 + 1;
    while leftChild < n
      invariant leftChild == LeftChild(current)
      invariant SameItems(r, h, n) && (current < n || n == 0)
      invariant HeapExceptDown(kind, comparer, r, n, current)
      decreases n - current
    {
      var next, child, stop := BubbleDownOnce(kind, comparer, r, n, current);
      if stop {
        return next;
      }
      r, current := next, child;
      leftChild := current * 2 + 1;
    }
    LeafHeap(kind, comparer, r, n, current);
  }

  /** One pass of the `BubbleDown` loop at slot `i`, which has a child: pick
      the child, then either stop (the heap property holds) or swap with it. */
  method BubbleDownOnce<T(!new)>(kind: Kind, comparer: (T, T) -> int, r: seq<T>, n: nat, i: nat)
    returns (next: seq<T>, child: nat, stop: bool)
    requires ValidComparer(comparer) && i < n <= |r| && LeftChild(i) < n
    requires HeapExceptDown(kind, comparer, r, n, i)
    ensures SameItems(next, r, n)
    ensures stop ==> IsHeap(kind, comparer, next, n)
    ensures !stop ==> i < child < n && HeapExceptDown(kind, comparer, next, n, child)
  {
    var leftChild := i * 2 + 1;
    var swappableChild := leftChild;
    var rightChild := leftChild + 1;
    if rightChild < n && HeapPropertySatisfied(kind, comparer, r[rightChild], r[leftChild]) {
      swappableChild := rightChild;
    }
    assert PickedChild(kind, comparer, r, n, i, swappableChild);
    if HeapPropertySatisfied(kind, comparer, r[i], r[swappableChild]) {
      BubbleDownStop(kind, comparer, r, n, i, swappableChild);
      return r, swappableChild, true;
    }
    BubbleDownStep(kind, comparer, r, n, i, swappableChild);
    next, child, stop := SwapAt(r, i, swappableChild), swappableChild, false;
  }

  /** `r` holds the items of `h` below `n`, possibly rearranged, and the same slots from `n` on. */
  predicate SameItems<T(==)>(r: seq<T>, h: seq<T>, n: nat)
  {
    n <= |h| && |r| == |h| && r[n..] == h[n..] && multiset(r[..n]) == multiset(h[..n])
  }

  /** Once slot `i` has no children, nothing is left to repair. */
  lemma LeafHeap<T>(kind: Kind, comparer: (T, T) -> int, h: seq<T>, n: nat, i: nat)
    requires n <= |h| && (i < n || n == 0) && LeftChild(i) >= n
    requires HeapExceptDown(kind, comparer, h, n, i)
    ensures IsHeap(kind, comparer, h, n)
  {
    forall j | 0 < j < n
      ensures HeapPropertySatisfied(kind, comparer, h[Parent(j)], h[j])
    {
      ChildrenOfParent(i, j);
    }
  }

  /** The child `BubbleDown` picks: the right child when there is one and it
      may be the left one's parent, else the left child. */
  predicate PickedChild<T>(kind: Kind, comparer: (T, T) -> int, h: seq<T>, n: nat, i: nat, c: nat)
    requires n <= |h|
  {
    var left := LeftChild(i);
    && left < n
    && if left + 1 < n && HeapPropertySatisfied(kind, comparer, h[left + 1], h[left]) then c == left + 1 else c == left
  }

  /** The child `BubbleDown` picks may be the parent of its sibling: the right
      child when it may be the left one's parent, else the left child. */
  lemma BetterChild<T(!new)>(kind: Kind, comparer: (T, T) -> int, h: seq<T>, n: nat, i: nat, c: nat)
    requires ValidComparer(comparer) && n <= |h| && PickedChild(kind, comparer, h, n, i, c)
    ensures c < n && Parent(c) == i
    ensures forall j :: 0 < j < n && Parent(j) == i ==> HeapPropertySatisfied(kind, comparer, h[c], h[j])
  {
    var l := LeftChild(i);
    HeapPropertyReflexive(kind, comparer, h[c]);
    if l + 1 < n {
      HeapPropertyTotal(kind, comparer, h[l + 1], h[l]);
    }
    forall j | 0 < j < n && Parent(j) == i
      ensures HeapPropertySatisfied(kind, comparer, h[c], h[j])
    {
      ChildrenOfParent(i, j);
    }
  }

  // ---------------------------------------------------------------------
  // Resize
  // ---------------------------------------------------------------------

  /** 2 to the power `k`. */
  function Pow2(k: nat): (p: nat)
    ensures p >= 1
  {
    if k == 0 then 1 else 2 * Pow2(k - 1)
  }

  /** `Math.Ceiling(Math.Log(n, 2))` on exact numbers: the least `k` with `2^k >= n`. */
  function CeilLog2(n: nat): (k: nat)
    requires n >= 1
    ensures Pow2(k) >= n
    ensures k > 0 ==> Pow2(k - 1) < n
  {
    if n == 1 then 0 else 1 + CeilLog2((n + 1) / 2)
  }

  /** The size `Resize` picks: `2^(ceil(log2(length)) + 1)`, twice the least
      power of two not below the current length. */
  function NewCapacity(length: nat): (size: nat)
    requires length >= 1
    ensures length < size <= 4 * length - 2 || (length == 1 && size == 2)
  {
    var currentPower := CeilLog2(length) + 1;
    Pow2(currentPower)
  }

  /** A full heap whose length is a power of two doubles. */
  lemma NewCapacityOfPower(k: nat)
    ensures NewCapacity(Pow2(k)) == 2 * Pow2(k)
  {
    CeilLog2Exact(k);
  }

  lemma {:induction false} CeilLog2Exact(k: nat)
    ensures CeilLog2(Pow2(k)) == k
  {
    var n := Pow2(k);
    var c := CeilLog2(n);
    if c < k {
      Pow2Monotone(c, k - 1);
    } else if c > k {
      Pow2Monotone(k, c - 1);
    }
  }

  lemma {:induction false} Pow2Monotone(a: nat, b: nat)
    requires a <= b
    ensures Pow2(a) <= Pow2(b)
    decreases b
  {
    if a < b {
      Pow2Monotone(a, b - 1);
    }
  }

  /** `Resize()`: a larger array with the old items first and `default(T)` after them. */
  function Resize<T>(heap: seq<T>, default: T): (r: seq<T>)
    requires |heap| >= 1
    ensures |r| == NewCapacity(|heap|) && |r| > |heap|
    ensures r[..|heap|] == heap
    ensures forall k :: |heap| <= k < |r| ==> r[k] == default
  {
    heap + seq(NewCapacity(|heap|) - |heap|, _ => default)
  }

  // ---------------------------------------------------------------------
  // The queue
  // ---------------------------------------------------------------------

  /** A priority queue: its variant, comparer, array, item count, and the
      `default(T)` that fills unused slots. */
  datatype Queue<!T(!new)> = Queue(kind: Kind, comparer: (T, T) -> int, heap: seq<T>, count: nat, default: T)
  {
    /** What every operation keeps. */
    ghost predicate Valid()
    {
      && ValidComparer(comparer)
      && 1 <= |heap|
      && count <= |heap|
      && IsHeap(kind, comparer, heap, count)
      && (forall k :: count <= k < |heap| ==> heap[k] == default)
    }
  }

  /** The items of the queue, as a multiset. */
  function Contents<T(==,!new)>(q: Queue<T>): multiset<T>
    requires q.count <= |q.heap|
  {
    multiset(q.heap[..q.count])
  }

  /** `CreateMinPriorityQueue` / `CreateMaxPriorityQueue`: a null comparer
      means `Comparer<T>.Default`, a null capacity means 8, and a negative
      capacity makes the array allocation throw. */
  function Create<T(!new)>(kind: Kind, comparer: Option<(T, T) -> int>, initialCapacity: Option<int>,
                           defaultComparer: (T, T) -> int, default: T): (r: Result<Queue<T>>)
    requires initialCapacity != Some(0)
    ensures r.Err? <==> initialCapacity.Some? && initialCapacity.value < 0
    ensures r.Err? ==> r.error == Overflow
    ensures r.Ok? ==> r.value.kind == kind && r.value.count == 0 && Contents(r.value) == multiset{}
    ensures r.Ok? ==> |r.value.heap| == (if initialCapacity.Some? then initialCapacity.value else 8)
    ensures r.Ok? ==> r.value.comparer == (if comparer.Some? then comparer.value else defaultComparer)
    ensures r.Ok? && ValidComparer(r.value.comparer) ==> r.value.Valid()
  {
    var capacity := if initialCapacity.Some? then initialCapacity.value else 8;
    if capacity < 0 then Err(Overflow)
    else
      var chosen := if comparer.Some? then comparer.value else defaultComparer;
      Ok(Queue(kind, chosen, seq(capacity, _ => default), 0, default))
  }

  /** `Peek()`: the root, an extremal item, or an exception when empty. */
  function Peek<T(==,!new)>(q: Queue<T>): (r: Result<T>)
    requires q.Valid()
    ensures r.Err? <==> q.count == 0
    ensures r.Err? ==> r.error == InvalidOperation
    ensures r.Ok? ==> r.value in Contents(q)
    ensures r.Ok? ==> forall x :: x in Contents(q) ==> HeapPropertySatisfied(q.kind, q.comparer, r.value, x)
  {
    if q.count == 0 then Err(InvalidOperation)
    else
      assert forall x :: x in Contents(q) ==> HeapPropertySatisfied(q.kind, q.comparer, q.heap[0], x) by {
        forall x | x in Contents(q)
          ensures HeapPropertySatisfied(q.kind, q.comparer, q.heap[0], x)
        {
          var j :| 0 <= j < q.count && q.heap[..q.count][j] == x;
          RootExtremal(q.kind, q.comparer, q.heap, q.count, j);
        }
      }
      assert q.heap[..q.count][0] == q.heap[0];
      Ok(q.heap[0])
  }

  /** `Enqueue(item)`: grow when full, put the item in the first free slot and bubble it up. */
  method Enqueue<T(==,!new)>(q: Queue<T>, item: T) returns (r: Queue<T>)
    requires q.Valid()
    ensures r.Valid()
    ensures r.kind == q.kind && r.comparer == q.comparer && r.default == q.default
    ensures r.count == q.count + 1
    ensures Contents(r) == Contents(q) + multiset{item}
    ensures q.count < |q.heap| ==> |r.heap| == |q.heap|
    ensures q.count == |q.heap| ==> |r.heap| == NewCapacity(|q.heap|)
  {
    var heap := q.heap;
    if q.count == |heap| {
      heap := Resize(heap, q.default);
    }
    var placed := heap[q.count := item];
    PlaceItem(q, heap, item);
    heap := BubbleUp(q.kind, q.comparer, placed, q.count + 1, q.count);
    SameTail(heap, placed, q.count + 1);
    r := Queue(q.kind, q.comparer, heap, q.count + 1, q.default);
  }

  /** Writing the item into the first free slot of an array that holds the
      queue's items (grown or not) leaves only the new slot to bubble up. */
  lemma PlaceItem<T(!new)>(q: Queue<T>, heap: seq<T>, item: T)
    requires q.Valid() && q.count < |heap| && heap[..q.count] == q.heap[..q.count]
    requires forall k :: q.count <= k < |heap| ==> heap[k] == q.default
    ensures HeapExceptUp(q.kind, q.comparer, heap[q.count := item], q.count + 1, q.count)
    ensures multiset(heap[q.count := item][..q.count + 1]) == Contents(q) + multiset{item}
  {
    var placed := heap[q.count := item];
    assert placed[..q.count + 1] == q.heap[..q.count] + [item];
    forall j | 0 < j < q.count
      ensures HeapPropertySatisfied(q.kind, q.comparer, placed[Parent(j)], placed[j])
    {
      assert placed[j] == q.heap[..q.count][j] && placed[Parent(j)] == q.heap[..q.count][Parent(j)];
    }
  }

  /** Arrays with the same tail from `n` on agree at every index from `n` on. */
  lemma SameTail<T>(a: seq<T>, b: seq<T>, n: nat)
    requires n <= |a| && |a| == |b| && a[n..] == b[n..]
    ensures forall k :: n <= k < |a| ==> a[k] == b[k]
  {
    forall k | n <= k < |a|
      ensures a[k] == b[k]
    {
      assert a[k] == a[n..][k - n];
    }
  }

  /** `Dequeue()`: take the root out (leaving `default(T)`), move the last
      item to the root and bubble it down. Returns what `Peek` returns. */
  method Dequeue<T(==,!new)>(q: Queue<T>) returns (r: Queue<T>, result: Result<T>)
    requires q.Valid()
    ensures result == Peek(q)
    ensures q.count == 0 ==> r == q
    ensures r.Valid()
    ensures r.kind == q.kind && r.comparer == q.comparer && r.default == q.default && |r.heap| == |q.heap|
    ensures q.count > 0 ==> r.count == q.count - 1 && Contents(r) == Contents(q) - multiset{result.value}
    ensures q.count > 0 ==> r.heap[r.count] == q.default
  {
    if q.count == 0 {
      return q, Err(InvalidOperation);
    }
    var heap := q.heap;
    var taken := Swap(heap[0], q.default);
    heap := heap[0 := taken.0];
    var count := q.count - 1;
    heap := SwapAt(heap, 0, count);
    DequeueItems(q, heap, count, taken.1);
    DequeueShape(q, heap, count);
    var settled := BubbleDown(q.kind, q.comparer, heap, count, 0);
    SameTail(settled, heap, count);
    r := Queue(q.kind, q.comparer, settled, count, q.default);
    result := Ok(taken.1);
  }

  /** After the two swaps of `Dequeue` the first `count` slots hold the old
      items less the root, and slot `count` holds `default(T)`. */
  lemma DequeueItems<T(!new)>(q: Queue<T>, heap: seq<T>, count: nat, top: T)
    requires q.Valid() && q.count > 0 && count == q.count - 1 && top == q.heap[0]
    requires heap == SwapAt(q.heap[0 := q.default], 0, count)
    ensures multiset(heap[..count]) == Contents(q) - multiset{top}
    ensures heap[count] == q.default
    ensures heap[q.count..] == q.heap[q.count..]
  {
    var cleared := q.heap[0 := q.default];
    SwapAtPermutes(cleared, 0, count, q.count);
    assert heap[..q.count] == heap[..count] + [q.default];
    assert cleared[..q.count] == [q.default] + q.heap[1..q.count];
    assert q.heap[..q.count] == [top] + q.heap[1..q.count];
  }

  /** After the two swaps of `Dequeue` only the edges from the root may break the heap property. */
  lemma DequeueShape<T(!new)>(q: Queue<T>, heap: seq<T>, count: nat)
    requires q.Valid() && q.count > 0 && count == q.count - 1
    requires heap == SwapAt(q.heap[0 := q.default], 0, count)
    ensures HeapExceptDown(q.kind, q.comparer, heap, count, 0)
  {
    forall j | 0 < j < count && Parent(j) != 0
      ensures HeapPropertySatisfied(q.kind, q.comparer, heap[Parent(j)], heap[j])
    {
      assert heap[j] == q.heap[j] && heap[Parent(j)] == q.heap[Parent(j)];
    }
  }
}
