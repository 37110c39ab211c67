/** The three frontier structures of Strucure.py: a list-backed LIFO stack, a
    circular-buffer FIFO queue that doubles its capacity when full, and a
    1-indexed binary min-heap of (priority, insertion counter, item) entries,
    with the thin priority-queue wrapper around it. An empty pop, which raises
    IndexError in the source, returns None here and changes nothing. */
module Structures {
  import opened Base

  // ---------------------------------------------------------------- Stack

  /** LIFO stack over a growable list (Strucure.py:1-8). */
  class Stack<T> {
    var a: seq<T>

    constructor ()
      ensures a == []
    {
      a := [];
    }

    method Push(x: T)
      modifies this
      ensures a == old(a) + [x]
    {
      a := a + [x];
    }

    /** Removes and returns the most recently pushed element; the earlier
        elements stay, in order. */
    method Pop() returns (r: Option<T>)
      modifies this
      ensures old(a) == [] ==> r == None && a == old(a)
      ensures old(a) != [] ==> r == Some(old(a)[|old(a)| - 1]) && a == old(a)[..|old(a)| - 1]
    {
      if a == [] {
        return None;
      }
      r := Some(a[|a| - 1]);
      a := a[..|a| - 1];
    }

    function IsEmpty(): (b: bool)
      reads this
      ensures b <==> Len() == 0
    {
      a == []
    }

    function Len(): nat
      reads this
    {
      |a|
    }
  }

  // ---------------------------------------------------------------- Queue

  /** `x % n` for `0 <= x < 2n`, written without the division, which keeps the
      ring-index reasoning linear. */
  function Wrap(x: nat, n: nat): (r: nat)
    requires 0 < n && x < 2 * n
    ensures r < n
  {
    if x < n then x else x - n
  }

  lemma ModIsWrap(x: nat, n: nat)
    requires 0 < n && x < 2 * n
    ensures x % n == Wrap(x, n)
  {
    if x < n {
      assert x == n * 0 + x;
    } else {
      assert x == n * 1 + (x - n);
    }
  }

  /** Circular-buffer FIFO queue with head, tail and an explicit size
      (Strucure.py:10-37). Free slots hold None, as in the source. */
  class Queue<T> {
    var a: array<Option<T>>
    var head: nat
    var tail: nat
    var size: nat
    /** The queued elements, oldest first. */
    ghost var Contents: seq<T>

    /** The i-th oldest element sits in slot `(head + i) % len(a)`, and the
        tail is the slot after the newest one. */
    ghost predicate Valid()
      reads this, a
    {
      && 0 < a.Length
      && head < a.Length
      && size <= a.Length
      && tail == (head + size) % a.Length
      && |Contents| == size
      && forall i :: 0 <= i < size ==> a[Wrap(head + i, a.Length)] == Some(Contents[i])
    }

    /** A capacity of 0 is excluded: the source's `_grow` would keep it at 0
        and the following store would raise IndexError. */
    constructor (capacity: nat := 16)
      requires capacity > 0
      ensures Valid() && fresh(a) && a.Length == capacity
      ensures Contents == [] && head == 0 && tail == 0
    {
      a := new Option<T>[capacity](_ => None);
      head, tail, size := 0, 0, 0;
      Contents := [];
    }

    /** `_grow`: a buffer twice as large holding the live elements in logical
        order from slot 0, with head 0 and tail at the size. */
    method Grow()
      requires Valid()
      modifies this
      ensures Valid() && fresh(a) && a.Length == 2 * old(a.Length)
      ensures head == 0 && tail == size && size == old(size) && Contents == old(Contents)
      ensures forall i :: 0 <= i < size ==> a[i] == Some(Contents[i])
    {
      var old_a, h, n := a, head, a.Length;
      var b := new Option<T>[2 * n](_ => None);
      for i := 0 to size
        modifies b
        invariant forall k :: 0 <= k < i ==> b[k] == Some(Contents[k])
      {
        ModIsWrap(h + i, n);
        b[i] := old_a[(h + i) % n];
      }
      ModIsWrap(size, 2 * n);
      a, head, tail := b, 0, size;
    }

    method Enqueue(x: T)
      requires Valid()
      modifies this, a
      ensures Valid() && Contents == old(Contents) + [x]
      ensures old(size) == old(a.Length) ==> fresh(a) && a.Length == 2 * old(a.Length)
      ensures old(size) < old(a.Length) ==> a == old(a)
    {
      if size == a.Length {
        Grow();
      }
      ModIsWrap(head + size, a.Length);
      a[tail] := Some(x);
      ModIsWrap(tail + 1, a.Length);
      ModIsWrap(head + size + 1, a.Length);
      tail := (tail + 1) % a.Length;
      size := size + 1;
      Contents := Contents + [x];
    }

    /** Removes and returns the oldest element, clearing its slot. */
    method Dequeue() returns (r: Option<T>)
      requires Valid()
      modifies this, a
      ensures Valid() && a == old(a)
      ensures old(size) == 0 ==> r == None && unchanged(this) && unchanged(a)
      ensures old(size) > 0 ==> r == Some(old(Contents)[0]) && Contents == old(Contents)[1..]
    {
      if size == 0 {
        return None;
      }
      var n := a.Length;
      assert a[Wrap(head + 0, n)] == Some(Contents[0]);
      var x := a[head].value;
      a[head] := None;
      ModIsWrap(head + 1, n);
      ModIsWrap(head + size, n);
      ModIsWrap(Wrap(head + 1, n) + size - 1, n);
      head := (head + 1) % a.Length;
      size := size - 1;
      Contents := Contents[1..];
      r := Some(x);
    }

    /** `push` is an alias of `enqueue`. */
    method Push(x: T)
      requires Valid()
      modifies this, a
      ensures Valid() && Contents == old(Contents) + [x]
      ensures old(size) == old(a.Length) ==> fresh(a) && a.Length == 2 * old(a.Length)
      ensures old(size) < old(a.Length) ==> a == old(a)
    {
      Enqueue(x);
    }

    /** `pop` is an alias of `dequeue`. */
    method Pop() returns (r: Option<T>)
      requires Valid()
      modifies this, a
      ensures Valid() && a == old(a)
      ensures old(size) == 0 ==> r == None && unchanged(this) && unchanged(a)
      ensures old(size) > 0 ==> r == Some(old(Contents)[0]) && Contents == old(Contents)[1..]
    {
      r := Dequeue();
    }

    function IsEmpty(): (b: bool)
      reads this, a
      requires Valid()
      ensures b <==> Contents == []
    {
      size == 0
    }

    function Len(): (n: nat)
      reads this, a
      requires Valid()
      ensures n == |Contents|
    {
      size
    }
  }

  // ---------------------------------------------------------------- MinHeap

  /** A heap slot: slot 0 of the 1-indexed list is the unused sentinel (None in
      the source), every other slot a (priority, counter, item) entry. */
  datatype Slot<T> = Sentinel | Entry(priority: int, counter: nat, item: T)

  /** The source's `<=` on entry tuples. Counters are pairwise distinct, so the
      comparison is decided by priority and counter and never reaches the
      items. */
  predicate Le<T>(x: Slot<T>, y: Slot<T>)
  {
    x.Entry? && y.Entry? &&
    (x.priority < y.priority || (x.priority == y.priority && x.counter <= y.counter))
  }

  /** Slot 0 is the sentinel and every other slot an entry. */
  ghost predicate Entries<T>(a: seq<Slot<T>>)
  {
    |a| >= 1 && a[0] == Sentinel && forall i :: 1 <= i < |a| ==> a[i].Entry?
  }

  /** Every entry is no greater than its children `2i` and `2i+1`. */
  ghost predicate IsHeap<T>(a: seq<Slot<T>>)
  {
    forall k :: 2 <= k < |a| ==> Le(a[k / 2], a[k])
  }

  ghost predicate IsMinimum<T>(e: Slot<T>, c: multiset<Slot<T>>)
  {
    e in c && forall f :: f in c ==> Le(e, f)
  }

  /** Each entry occurs once, with a counter in 1..counter of its own. */
  ghost predicate UniqueCounters<T>(c: multiset<Slot<T>>, counter: nat)
  {
    && (forall e :: e in c ==> e.Entry? && 1 <= e.counter <= counter && c[e] == 1)
    && (forall e, f :: e in c && f in c && e.Entry? && f.Entry? && e != f ==> e.counter != f.counter)
  }

  /** The root of a heap is no greater than any entry. */
  lemma {:induction false} RootIsMinimum<T>(a: seq<Slot<T>>, k: nat)
    requires Entries(a) && IsHeap(a) && 1 <= k < |a|
    ensures Le(a[1], a[k])
    decreases k
  {
    if k > 1 {
      RootIsMinimum(a, k / 2);
    }
  }

  /** Heap order holds everywhere except, possibly, between `i` and its parent. */
  ghost predicate HeapExceptAbove<T>(a: seq<Slot<T>>, i: nat)
  {
    forall k :: 2 <= k < |a| && k != i ==> Le(a[k / 2], a[k])
  }

  /** Heap order holds everywhere except, possibly, between `i` and its children. */
  ghost predicate HeapExceptBelow<T>(a: seq<Slot<T>>, i: nat)
  {
    forall k :: 2 <= k < |a| && k / 2 != i ==> Le(a[k / 2], a[k])
  }

  /** The parent of `i` is no greater than the children of `i`. */
  ghost predicate ParentBoundsChildren<T>(a: seq<Slot<T>>, i: nat)
  {
    i >= 2 ==> forall c :: 2 <= c < |a| && c / 2 == i ==> Le(a[i / 2], a[c])
  }

  /** One round of `_sift_up`: swapping `i` with a larger parent moves the
      possible violation one level up. */
  lemma SiftUpStep<T>(a: seq<Slot<T>>, i: nat)
    requires Entries(a) && 2 <= i < |a|
    requires HeapExceptAbove(a, i) && ParentBoundsChildren(a, i) && !Le(a[i / 2], a[i])
    ensures var b := a[i / 2 := a[i]][i := a[i / 2]];
      Entries(b) && HeapExceptAbove(b, i / 2) && ParentBoundsChildren(b, i / 2)
  {
    var p := i / 2;
    var b := a[p := a[i]][i := a[p]];
    forall k | 2 <= k < |b| && k != p ensures Le(b[k / 2], b[k]) {
      if k == i {
      } else if k / 2 == i {
        assert Le(a[p], a[k]);
      } else if k / 2 == p {
        assert Le(a[p], a[k]);
      } else {
        assert b[k / 2] == a[k / 2] && b[k] == a[k];
      }
    }
    if p >= 2 {
      forall c | 2 <= c < |b| && c / 2 == p ensures Le(b[p / 2], b[c]) {
        assert Le(a[p / 2], a[p]);
        if c != i {
          assert Le(a[p], a[c]);
        }
      }
    }
  }

  /** One round of `_sift_down`: swapping `i` with its smaller child `m`, when
      that child is smaller, moves the possible violation down to `m`. */
  lemma SiftDownStep<T>(a: seq<Slot<T>>, i: nat, m: nat)
    requires Entries(a) && 1 <= i && (m == 2 * i || m == 2 * i + 1) && m < |a|
    requires Le(a[m], a[2 * i]) && (2 * i + 1 < |a| ==> Le(a[m], a[2 * i + 1]))
    requires HeapExceptBelow(a, i) && ParentBoundsChildren(a, i) && !Le(a[i], a[m])
    ensures var b := a[i := a[m]][m := a[i]];
      Entries(b) && HeapExceptBelow(b, m) && ParentBoundsChildren(b, m)
  {
    var b := a[i := a[m]][m := a[i]];
    forall k | 2 <= k < |b| && k / 2 != m ensures Le(b[k / 2], b[k]) {
      if k == m {
      } else if k / 2 == i {
        assert k == 2 * i || k == 2 * i + 1;
      } else if k == i {
        assert Le(a[i / 2], a[m]);
      } else {
        assert b[k / 2] == a[k / 2] && b[k] == a[k];
      }
    }
    forall c | 2 <= c < |b| && c / 2 == m ensures Le(b[m / 2], b[c]) {
      assert Le(a[m], a[c]);
    }
  }

  /** The child `_sift_down` compares with: the right one only when it exists
      and is strictly smaller than the left one. */
  function SmallerChild<T>(a: seq<Slot<T>>, i: nat): (m: nat)
    requires Entries(a) && 1 <= i && 2 * i < |a|
    ensures (m == 2 * i || m == 2 * i + 1) && m < |a|
    ensures Le(a[m], a[2 * i]) && (2 * i + 1 < |a| ==> Le(a[m], a[2 * i + 1]))
  {
    if 2 * i + 1 >= |a| || Le(a[2 * i], a[2 * i + 1]) then 2 * i else 2 * i + 1
  }

  /** `_sift_down` stops when `i` has no child or its smaller child `m` is no
      smaller than it; the heap order then holds everywhere. */
  lemma SiftDownDone<T>(a: seq<Slot<T>>, i: nat, m: nat)
    requires Entries(a) && 1 <= i < |a| && HeapExceptBelow(a, i)
    requires 2 * i < |a| ==>
      && (m == 2 * i || m == 2 * i + 1) && m < |a| && Le(a[i], a[m])
      && Le(a[m], a[2 * i]) && (2 * i + 1 < |a| ==> Le(a[m], a[2 * i + 1]))
    ensures IsHeap(a)
  {
    forall k | 2 <= k < |a| ensures Le(a[k / 2], a[k]) {
      if k / 2 == i {
        assert k == 2 * i || k == 2 * i + 1;
      }
    }
  }

  /** The root of a non-empty heap is a minimum of its entries. */
  lemma RootIsMinimumOf<T>(a: seq<Slot<T>>)
    requires Entries(a) && IsHeap(a) && |a| > 1
    ensures IsMinimum(a[1], multiset(a[1..]))
  {
    assert a[1] == a[1..][0];
    forall f | f in multiset(a[1..]) ensures Le(a[1], f) {
      var j :| 0 <= j < |a[1..]| && a[1..][j] == f;
      RootIsMinimum(a, j + 1);
    }
  }

  /** With pairwise distinct counters the order is total on the entries, so a
      heap's minimum is unique: the pop order is fully determined. */
  lemma MinimumIsUnique<T>(c: multiset<Slot<T>>, counter: nat, m1: Slot<T>, m2: Slot<T>)
    requires UniqueCounters(c, counter) && IsMinimum(m1, c) && IsMinimum(m2, c)
    ensures m1 == m2
  {
    assert Le(m1, m2) && Le(m2, m1);
  }

  /** Removing entries keeps the counters unique. */
  lemma UniqueCountersSubset<T>(c: multiset<Slot<T>>, d: multiset<Slot<T>>, counter: nat)
    requires UniqueCounters(c, counter) && d <= c
    ensures UniqueCounters(d, counter)
  {
  }

  /** Moving the last entry into the root slot drops exactly the root and
      leaves the heap order intact below the root's children. */
  lemma MoveLastToRoot<T>(a: seq<Slot<T>>)
    requires Entries(a) && IsHeap(a) && |a| > 2
    ensures var b := a[..|a| - 1][1 := a[|a| - 1]];
      && Entries(b) && HeapExceptBelow(b, 1) && ParentBoundsChildren(b, 1)
      && multiset(b[1..]) == multiset(a[1..]) - multiset{a[1]}
  {
    var b := a[..|a| - 1][1 := a[|a| - 1]];
    var rest := a[2..|a| - 1];
    assert a[1..] == [a[1]] + rest + [a[|a| - 1]];
    assert b[1..] == [a[|a| - 1]] + rest;
    forall k | 2 <= k < |b| && k / 2 != 1 ensures Le(b[k / 2], b[k]) {
      assert b[k / 2] == a[k / 2] && b[k] == a[k];
    }
  }

  lemma SwapMultiset<T>(a: seq<Slot<T>>, i: nat, j: nat)
    requires 1 <= i < |a| && 1 <= j < |a|
    ensures multiset(a[i := a[j]][j := a[i]][1..]) == multiset(a[1..])
  {
    var b := a[i := a[j]][j := a[i]];
    assert b[1..] == a[1..][i - 1 := a[j]][j - 1 := a[i]];
  }

  /** Binary min-heap, 1-indexed, ordered by (priority, insertion counter)
      (Strucure.py:39-79). */
  class MinHeap<T> {
    var a: seq<Slot<T>>
    var counter: nat

    ghost function Contents(): multiset<Slot<T>>
      reads this
      requires |a| >= 1
    {
      multiset(a[1..])
    }

    ghost predicate Valid()
      reads this
    {
      Entries(a) && IsHeap(a) && UniqueCounters(Contents(), counter)
    }

    constructor ()
      ensures Valid() && Contents() == multiset{} && counter == 0
    {
      a := [Sentinel];
      counter := 0;
    }

    function Len(): (n: int)
      reads this
      requires |a| >= 1
      ensures n == |Contents()|
    {
      |a| - 1
    }

    function IsEmpty(): (b: bool)
      reads this
      requires |a| >= 1
      ensures b <==> Contents() == multiset{}
    {
      Len() == 0
    }

    /** Appends a fresh entry whose counter exceeds every earlier one. */
    method Push(item: T, priority: int)
      requires Valid()
      modifies this
      ensures Valid() && counter == old(counter) + 1
      ensures Contents() == old(Contents()) + multiset{Entry(priority, counter, item)}
    {
      counter := counter + 1;
      var entry := Entry(priority, counter, item);
      assert entry !in Contents();
      a := a + [entry];
      assert a[1..] == old(a[1..]) + [entry];
      SiftUp(|a| - 1);
    }

    /** Removes the root, the entry with the smallest priority and, among equal
        priorities, the earliest push; returns its priority and item. */
    method Pop() returns (r: Option<(int, T)>)
      requires Valid()
      modifies this
      ensures Valid() && counter == old(counter)
      ensures old(|a|) == 1 ==> r == None && a == old(a)
      ensures old(|a|) > 1 ==>
        && IsMinimum(old(a[1]), old(Contents()))
        && r == Some((old(a[1]).priority, old(a[1]).item))
        && Contents() == old(Contents()) - multiset{old(a[1])}
    {
      if IsEmpty() {
        return None;
      }
      RootIsMinimumOf(a);
      ghost var before := Contents();
      var root := a[1];
      DropRoot();
      if !IsEmpty() {
        SiftDown(1);
      }
      UniqueCountersSubset(before, Contents(), counter);
      r := Some((root.priority, root.item));
    }

    /** The first half of `pop`: the last entry replaces the root and the
        array shrinks by one; only the new root may be out of order. */
    method DropRoot()
      requires Valid() && |a| > 1
      modifies this
      ensures Entries(a) && |a| == old(|a|) - 1 && counter == old(counter)
      ensures HeapExceptBelow(a, 1) && ParentBoundsChildren(a, 1)
      ensures Contents() == old(Contents()) - multiset{old(a[1])}
    {
      if |a| > 2 {
        MoveLastToRoot(a);
        a := a[..|a| - 1][1 := a[|a| - 1]];
      } else {
        assert a[1..] == [a[1]];
        a := a[..1];
      }
    }

    /** `_sift_up`: moves the entry at `i` towards the root while it is
        smaller than its parent. */
    method SiftUp(i0: nat)
      requires Entries(a) && 1 <= i0 < |a|
      requires HeapExceptAbove(a, i0) && ParentBoundsChildren(a, i0)
      modifies this
      ensures Entries(a) && IsHeap(a) && |a| == old(|a|) && counter == old(counter)
      ensures multiset(a[1..]) == old(multiset(a[1..]))
    {
      var i := i0;
      while i > 1
        invariant 1 <= i < |a| && Entries(a) && |a| == old(|a|) && counter == old(counter)
        invariant HeapExceptAbove(a, i) && ParentBoundsChildren(a, i)
        invariant multiset(a[1..]) == old(multiset(a[1..]))
      {
        var p := i / 2;
        if Le(a[p], a[i]) {
          break;
        }
        SiftUpStep(a, i);
        SwapMultiset(a, p, i);
        a := a[p := a[i]][i := a[p]];
        i := p;
      }
    }

    /** `_sift_down`: moves the entry at `i` towards the leaves while a child
        is smaller, swapping with the smaller child (the left one on a tie). */
    method SiftDown(i0: nat)
      requires Entries(a) && 1 <= i0 < |a|
      requires HeapExceptBelow(a, i0) && ParentBoundsChildren(a, i0)
      modifies this
      ensures Entries(a) && IsHeap(a) && |a| == old(|a|) && counter == old(counter)
      ensures multiset(a[1..]) == old(multiset(a[1..]))
    {
      var n := |a| - 1;
      var i := i0;
      while 2 * i <= n
        invariant 1 <= i < |a| && Entries(a) && |a| == n + 1 == old(|a|) && counter == old(counter)
        invariant HeapExceptBelow(a, i) && ParentBoundsChildren(a, i)
        invariant multiset(a[1..]) == old(multiset(a[1..]))
        decreases |a| - i
      {
        var m := SmallerChild(a, i);
        if Le(a[i], a[m]) {
          SiftDownDone(a, i, m);
          return;
        }
        SiftDownStep(a, i, m);
        SwapMultiset(a, i, m);
        a := a[i := a[m]][m := a[i]];
        i := m;
      }
      SiftDownDone(a, i, 0);
    }
  }

  // ---------------------------------------------------------------- PriorityQueue

  /** `push(priority, item)` / `pop() -> item` over a MinHeap (Strucure.py:81-94). */
  class PriorityQueue<T> {
    const h: MinHeap<T>

    ghost predicate Valid()
      reads this, h
    {
      h.Valid()
    }

    constructor ()
      ensures Valid() && fresh(h) && h.Contents() == multiset{}
    {
      h := new MinHeap<T>();
    }

    method Push(priority: int, item: T)
      requires Valid()
      modifies h
      ensures Valid() && h.counter == old(h.counter) + 1
      ensures h.Contents() == old(h.Contents()) + multiset{Entry(priority, h.counter, item)}
    {
      h.Push(item, priority);
    }

    /** The item of the heap's minimum entry, its priority dropped. */
    method Pop() returns (r: Option<T>)
      requires Valid()
      modifies h
      ensures Valid() && h.counter == old(h.counter)
      ensures old(|h.a|) == 1 ==> r == None && h.a == old(h.a)
      ensures old(|h.a|) > 1 ==>
        && IsMinimum(old(h.a[1]), old(h.Contents()))
        && r == Some(old(h.a[1]).item)
        && h.Contents() == old(h.Contents()) - multiset{old(h.a[1])}
    {
      var p := h.Pop();
      if p == None {
        return None;
      }
      r := Some(p.value.1);
    }

    function IsEmpty(): (b: bool)
      reads this, h
      requires Valid()
      ensures b <==> h.Contents() == multiset{}
    {
      h.IsEmpty()
    }

    function Len(): (n: int)
      reads this, h
      requires Valid()
      ensures n == |h.Contents()|
    {
      h.Len()
    }
  }

  // ---------------------------------------------------------------- self-tests

  /** The quick test of Strucure.py:98-100: 0, 1, 2 pushed come back 2, 1, 0. */
  method StackSelfTest() returns (popped: seq<Option<int>>)
    ensures popped == [Some(2), Some(1), Some(0), None]
  {
    var s := new Stack<int>();
    for i := 0 to 3
      invariant s.a == seq(i, k => k)
    {
      s.Push(i);
    }
    var x := s.Pop();
    var y := s.Pop();
    var z := s.Pop();
    var w := s.Pop();
    popped := [x, y, z, w];
  }

  /** The quick test of Strucure.py:101-103: 0, 1, 2 enqueued come back 0, 1, 2. */
  method QueueSelfTest() returns (dequeued: seq<Option<int>>)
    ensures dequeued == [Some(0), Some(1), Some(2), None]
  {
    var q := new Queue<int>();
    for i := 0 to 3
      invariant fresh(q) && fresh(q.a) && q.Valid() && q.Contents == seq(i, k => k)
    {
      q.Enqueue(i);
    }
    var x := q.Dequeue();
    var y := q.Dequeue();
    var z := q.Dequeue();
    var w := q.Dequeue();
    dequeued := [x, y, z, w];
  }

  /** Order survives growth: `n` elements pushed through a queue of capacity 1,
      which doubles whenever full, leave in the order they came. */
  method QueueGrowthFifo(n: nat) returns (dequeued: seq<int>)
    ensures dequeued == seq(n, k => k)
  {
    var q := new Queue<int>(1);
    for i := 0 to n
      invariant fresh(q) && fresh(q.a) && q.Valid() && q.Contents == seq(i, k => k)
    {
      q.Enqueue(i);
    }
    dequeued := [];
    while !q.IsEmpty()
      invariant fresh(q) && fresh(q.a) && q.Valid()
      invariant dequeued + q.Contents == seq(n, k => k)
      decreases |q.Contents|
    {
      var x := q.Dequeue();
      dequeued := dequeued + [x.value];
    }
  }

  /** The entries a fresh heap holds after pushing `pairs` of (item,
      priority): counters 1, 2, ... in push order. */
  function Pushed<T>(pairs: seq<(T, int)>): (r: seq<Slot<T>>)
    ensures |r| == |pairs|
  {
    seq(|pairs|, k requires 0 <= k < |pairs| => Entry(pairs[k].1, k + 1, pairs[k].0))
  }

  /** The quick test of Strucure.py:104-111: items 5, 1, 4, 2, 3 pushed with
      priorities 3, 1, 2, 4, 5 come out as 1, 4, 5, 2, 3. */
  method HeapSelfTest() returns (items: seq<int>)
    ensures items == [1, 4, 5, 2, 3]
  {
    var pairs := [(5, 3), (1, 1), (4, 2), (2, 4), (3, 5)];
    var h := Fill(pairs);
    ghost var order := [Entry(1, 2, 1), Entry(2, 3, 4), Entry(3, 1, 5), Entry(4, 4, 2), Entry(5, 5, 3)];
    QuickTestPushed(pairs);
    QuickTestPermutation(order);
    QuickTestAscending(order);
    QuickTestItems(order);
    items := Drain(h, order);
  }

  /** A fresh heap with `pairs` of (item, priority) pushed in order. */
  method Fill<T>(pairs: seq<(T, int)>) returns (h: MinHeap<T>)
    ensures fresh(h) && h.Valid() && h.Contents() == multiset(Pushed(pairs[..|pairs|]))
  {
    h := new MinHeap<T>();
    for i := 0 to |pairs|
      invariant fresh(h) && h.Valid() && h.counter == i
      invariant h.Contents() == multiset(Pushed(pairs[..i]))
    {
      PushedSnoc(pairs, i);
      h.Push(pairs[i].0, pairs[i].1);
    }
  }

  /** Pushing one more pair adds one entry, with the next counter. */
  lemma PushedSnoc<T>(pairs: seq<(T, int)>, i: nat)
    requires i < |pairs|
    ensures multiset(Pushed(pairs[..i + 1])) == multiset(Pushed(pairs[..i])) + multiset{Entry(pairs[i].1, i + 1, pairs[i].0)}
  {
    assert Pushed(pairs[..i + 1]) == Pushed(pairs[..i]) + [Entry(pairs[i].1, i + 1, pairs[i].0)];
  }

  /** The quick test's entries, pushed with counters 1..5. */
  lemma QuickTestPushed(pairs: seq<(int, int)>)
    requires pairs == [(5, 3), (1, 1), (4, 2), (2, 4), (3, 5)]
    ensures Pushed(pairs[..|pairs|]) == [Entry(3, 1, 5), Entry(1, 2, 1), Entry(2, 3, 4), Entry(4, 4, 2), Entry(5, 5, 3)]
  {
    assert pairs[..|pairs|] == pairs;
  }

  /** The same entries listed in ascending order. */
  lemma QuickTestPermutation(order: seq<Slot<int>>)
    requires order == [Entry(1, 2, 1), Entry(2, 3, 4), Entry(3, 1, 5), Entry(4, 4, 2), Entry(5, 5, 3)]
    ensures multiset(order) == multiset([Entry(3, 1, 5), Entry(1, 2, 1), Entry(2, 3, 4), Entry(4, 4, 2), Entry(5, 5, 3)])
  {
    var e1, e2, e3, e4, e5 := order[2], order[0], order[1], order[3], order[4];
    assert [e1, e2, e3, e4, e5] == [e1] + [e2, e3] + [e4, e5];
    assert order == [e2, e3] + [e1] + [e4, e5];
  }

  lemma QuickTestAscending(order: seq<Slot<int>>)
    requires order == [Entry(1, 2, 1), Entry(2, 3, 4), Entry(3, 1, 5), Entry(4, 4, 2), Entry(5, 5, 3)]
    ensures Ascending(order)
  {
    forall i, j | 0 <= i < j < 5 ensures Le(order[i], order[j]) {
      assert order[i].priority == i + 1 && order[j].priority == j + 1;
    }
  }

  lemma QuickTestItems(order: seq<Slot<int>>)
    requires order == [Entry(1, 2, 1), Entry(2, 3, 4), Entry(3, 1, 5), Entry(4, 4, 2), Entry(5, 5, 3)]
    ensures Items(order) == [1, 4, 5, 2, 3]
  {
  }

  /** The order in which a heap gives up its entries: listing them in
      ascending (priority, counter) order. */
  ghost predicate Ascending<T>(es: seq<Slot<T>>)
  {
    forall i, j :: 0 <= i < j < |es| ==> Le(es[i], es[j])
  }

  function Items<T>(es: seq<Slot<T>>): (r: seq<T>)
    requires forall k :: 0 <= k < |es| ==> es[k].Entry?
    ensures |r| == |es| && forall k :: 0 <= k < |es| ==> r[k] == es[k].item
  {
    seq(|es|, k requires 0 <= k < |es| => es[k].item)
  }

  /** The first of an ascending listing is the minimum of what it lists. */
  lemma AscendingHeadIsMinimum<T>(es: seq<Slot<T>>)
    requires Ascending(es) && es != [] && es[0].Entry?
    ensures IsMinimum(es[0], multiset(es))
  {
    forall f | f in multiset(es) ensures Le(es[0], f) {
      var j :| 0 <= j < |es| && es[j] == f;
    }
  }

  lemma DrainStep<T>(es: seq<Slot<T>>, i: nat)
    requires Ascending(es) && i < |es| && forall k :: 0 <= k < |es| ==> es[k].Entry?
    ensures Ascending(es[i..]) && es[i..] != [] && es[i..][0] == es[i] && es[i..][1..] == es[i + 1..]
    ensures Items(es[..i + 1]) == Items(es[..i]) + [es[i].item]
  {
    assert es[..i + 1] == es[..i] + [es[i]];
  }

  /** One pop of a heap whose entries, listed in ascending order, are known:
      the first of them comes out and the rest stay. */
  method PopFirst<T>(h: MinHeap<T>, ghost es: seq<Slot<T>>) returns (item: T)
    requires h.Valid() && h.Contents() == multiset(es) && Ascending(es) && es != []
    modifies h
    ensures h.Valid() && h.Contents() == multiset(es[1..])
    ensures item == es[0].item
  {
    assert es[0] in h.Contents();
    assert es == [es[0]] + es[1..];
    AscendingHeadIsMinimum(es);
    ghost var c, root := h.Contents(), h.a[1];
    var r := h.Pop();
    MinimumIsUnique(c, h.counter, root, es[0]);
    item := r.value.1;
  }

  /** Popping a heap until it is empty yields its items in ascending
      (priority, insertion order) order: the frontier order every search
      algorithm built on the heap relies on. */
  method Drain<T>(h: MinHeap<T>, ghost es: seq<Slot<T>>) returns (items: seq<T>)
    requires h.Valid() && h.Contents() == multiset(es) && Ascending(es)
    modifies h
    ensures h.Valid() && h.Contents() == multiset{}
    ensures forall k :: 0 <= k < |es| ==> es[k].Entry?
    ensures items == Items(es)
  {
    assert forall k :: 0 <= k < |es| ==> es[k] in h.Contents();
    assert es[0..] == es && es[..0] == [];
    items := [];
    ghost var i := 0;
    while !h.IsEmpty()
      invariant 0 <= i <= |es| && h.Valid()
      invariant h.Contents() == multiset(es[i..])
      invariant forall k :: 0 <= k < |es| ==> es[k].Entry?
      invariant items == Items(es[..i])
      decreases |es| - i
    {
      if i == |es| {
        assert false;
      }
      DrainStep(es, i);
      var x := PopFirst(h, es[i..]);
      items := items + [x];
      i := i + 1;
    }
    assert es[i..] == [] ==> i == |es|;
    assert es[..i] == es;
  }
}
