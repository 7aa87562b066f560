/** The parallel sort: `src/executor/parallel_sort.cpp`. The input is cut into slices, each is
  sorted, and a heap over the heads of the slices merges them. `std::sort` and the heap
  functions are used through their contracts: a sorted permutation, and a minimum first.
 */
module ParallelSort {
  import opened Bags
  import opened Basics
  import opened SortOrder
  import opened Values

  // -------------------------------------------------------------------- slices

  /** `chunk = (all.size() + n - 1) / n`. */
  function Chunk(size: nat, n: nat): nat
    requires n >= 1
  {
    (size + n - 1) / n
  }

  /** Slice `i` starts within the input, so that its bounds are in order. */
  ghost predicate SliceOk(size: nat, n: nat, i: nat)
    requires n >= 1
  {
    i * Chunk(size, n) <= Min(i * Chunk(size, n) + Chunk(size, n), size)
  }

  /** The last slice starts within the input. */
  predicate LastSliceInRange(size: nat, n: nat)
    requires n >= 1
  {
    (n - 1) * Chunk(size, n) <= size
  }

  function Slice<T>(all: seq<T>, n: nat, i: nat): seq<T>
    requires n >= 1 && i * Chunk(|all|, n) <= |all|
  {
    all[i * Chunk(|all|, n)..Min(i * Chunk(|all|, n) + Chunk(|all|, n), |all|)]
  }

  lemma ChunkBounds(size: nat, n: nat)
    requires n >= 1
    ensures size <= n * Chunk(size, n) <= size + n - 1
  {
    assert size + n - 1 == n * Chunk(size, n) + (size + n - 1) % n;
  }

  /** All slices have their bounds in order exactly when the last one does. */
  lemma SlicesOkIff(size: nat, n: nat)
    requires n >= 1
    ensures (forall i: nat :: i < n ==> SliceOk(size, n, i)) <==> LastSliceInRange(size, n)
  {
    var c := Chunk(size, n);
    if (n - 1) * c <= size {
      forall i: nat | i < n ensures SliceOk(size, n, i) {
        MulMono(i, n - 1, c);
      }
    } else {
      assert !SliceOk(size, n, n - 1);
    }
  }

  /** Enough rows for the threads: (n-1)^2 of them suffice. */
  lemma EnoughRows(size: nat, n: nat)
    requires n >= 1 && size >= (n - 1) * (n - 1)
    ensures LastSliceInRange(size, n)
  {
    var c := Chunk(size, n);
    ChunkBounds(size, n);
    assert n * c == (n - 1) * c + c;
    assert n * c == c * n && (n - 2) * n == (n - 1) * (n - 1) - 1;
    if c < n - 1 {
      MulMono(c, n - 2, n);
    }
  }

  /** Five rows and four threads: the last slice starts at 6, past the end. */
  lemma FiveRowsFourThreads()
    ensures !SliceOk(5, 4, 3)
  {
  }

  function Slices<T>(all: seq<T>, n: nat, k: nat): (r: seq<seq<T>>)
    requires n >= 1 && k <= n && LastSliceInRange(|all|, n)
    ensures |r| == k
  {
    if k == 0 then []
    else
      MulMono(k - 1, n - 1, Chunk(|all|, n));
      Slices(all, n, k - 1) + [Slice(all, n, k - 1)]
  }

  /** The slices are disjoint, in order, and cover the input exactly. */
  lemma {:induction false} SlicesCover<T>(all: seq<T>, n: nat, k: nat)
    requires n >= 1 && k <= n && LastSliceInRange(|all|, n)
    ensures Concat(Slices(all, n, k)) == all[..Min(k * Chunk(|all|, n), |all|)]
  {
    if k > 0 {
      var c := Chunk(|all|, n);
      SlicesCover(all, n, k - 1);
      MulMono(k - 1, n - 1, c);
      assert k * c == (k - 1) * c + c;
      ConcatAppend(Slices(all, n, k - 1), Slice(all, n, k - 1));
    }
  }

  /** What `std::sort` promises. */
  ghost predicate SortedPermutation<T>(less: (T, T) -> bool, from: seq<T>, to: seq<T>) {
    Sorted(less, to) && multiset(to) == multiset(from)
  }

  // --------------------------------------------------------------------- merge

  /** An entry of the heap: a partition and the position of its next row. */
  datatype Entry = Entry(partition: nat, index: nat)

  /** The rows of partition `p` not merged yet. */
  function Left<T>(parts: seq<seq<T>>, at: seq<nat>, p: nat): seq<T>
    requires p < |parts| == |at|
  {
    parts[p][Min(at[p], |parts[p]|)..]
  }

  ghost function Rest<T>(parts: seq<seq<T>>, at: seq<nat>): (r: seq<multiset<T>>)
    requires |parts| == |at|
    ensures |r| == |parts| && forall p :: 0 <= p < |parts| ==> r[p] == multiset(Left(parts, at, p))
  {
    seq(|parts|, p requires 0 <= p < |parts| => multiset(Left(parts, at, p)))
  }

  /** The heap has one entry for every partition that is not exhausted, at its cursor. */
  ghost predicate HeapOk<T>(parts: seq<seq<T>>, at: seq<nat>, heap: seq<Entry>) {
    && |parts| == |at|
    && (forall p :: 0 <= p < |at| ==> at[p] <= |parts[p]|)
    && (forall k :: 0 <= k < |heap| ==> EntryOk(parts, at, heap[k]))
    && (forall p: nat :: p < |at| ==> Listed(parts, at, heap, p))
    && OnePerPartition(heap)
  }

  ghost predicate Listed<T>(parts: seq<seq<T>>, at: seq<nat>, heap: seq<Entry>, p: nat)
    requires p < |parts| == |at|
  {
    at[p] < |parts[p]| ==> Entry(p, at[p]) in heap
  }

  ghost predicate EntryOk<T>(parts: seq<seq<T>>, at: seq<nat>, e: Entry)
    requires |parts| == |at|
  {
    e.partition < |at| && e.index == at[e.partition] < |parts[e.partition]|
  }

  ghost predicate OnePerPartition(heap: seq<Entry>) {
    forall j, k :: 0 <= j < k < |heap| ==> heap[j].partition != heap[k].partition
  }

  /** Nothing left comes before anything emitted. */
  ghost predicate AboveAll<T>(less: (T, T) -> bool, emitted: seq<T>, parts: seq<seq<T>>, at: seq<nat>)
    requires |parts| == |at|
  {
    forall i, p, q :: 0 <= i < |emitted| && 0 <= p < |parts| && at[p] <= q < |parts[p]| ==> !less(parts[p][q], emitted[i])
  }

  predicate InParts<T>(parts: seq<seq<T>>, heap: seq<Entry>) {
    forall j :: 0 <= j < |heap| ==> heap[j].partition < |parts| && heap[j].index < |parts[heap[j].partition]|
  }

  /** The row an entry points to. */
  function RowAt<T>(parts: seq<seq<T>>, e: Entry): T
    requires e.partition < |parts| && e.index < |parts[e.partition]|
  {
    parts[e.partition][e.index]
  }

  /** Entry `k` of the heap points to a least row. */
  predicate IsMin<T>(less: (T, T) -> bool, parts: seq<seq<T>>, heap: seq<Entry>, k: nat)
    requires InParts(parts, heap) && k < |heap|
  {
    forall j :: 0 <= j < |heap| ==> !less(RowAt(parts, heap[j]), RowAt(parts, heap[k]))
  }

  lemma NotLessTrans<T(!new)>(less: (T, T) -> bool, z: T, y: T, x: T)
    requires StrictWeak(less) && !less(z, y) && !less(y, x)
    ensures !less(z, x)
  {
  }

  /** A least heap entry is a least row of everything that is left. */
  lemma MinOfRest<T(!new)>(less: (T, T) -> bool, parts: seq<seq<T>>, at: seq<nat>, heap: seq<Entry>, k: nat, p: nat, q: nat)
    requires StrictWeak(less) && HeapOk(parts, at, heap) && k < |heap| && IsMin(less, parts, heap, k)
    requires p < |parts| && at[p] <= q < |parts[p]| && Sorted(less, parts[p])
    ensures !less(parts[p][q], RowAt(parts, heap[k]))
  {
    assert Listed(parts, at, heap, p);
    var j :| 0 <= j < |heap| && heap[j] == Entry(p, at[p]);
    NotLessTrans(less, parts[p][q], parts[p][at[p]], RowAt(parts, heap[k]));
  }

  /** The heap after the top entry `k` is popped and its successor, if any, pushed. */
  function Popped<T>(parts: seq<seq<T>>, heap: seq<Entry>, k: nat): seq<Entry>
    requires k < |heap| && heap[k].partition < |parts|
  {
    var e := heap[k];
    Without(heap, k)
    + if e.index + 1 < |parts[e.partition]| then [Entry(e.partition, e.index + 1)] else []
  }

  function Without(heap: seq<Entry>, k: nat): seq<Entry>
    requires k < |heap|
  {
    heap[..k] + heap[k + 1..]
  }

  lemma WithoutOk(heap: seq<Entry>, k: nat)
    requires k < |heap| && OnePerPartition(heap)
    ensures OnePerPartition(Without(heap, k))
    ensures forall e :: e in Without(heap, k) <==> e in heap && e.partition != heap[k].partition
  {
    var kept := Without(heap, k);
    forall i, j | 0 <= i < j < |kept| ensures kept[i].partition != kept[j].partition {
      assert kept[i] == heap[if i < k then i else i + 1] && kept[j] == heap[if j < k then j else j + 1];
    }
    forall e ensures e in kept <==> e in heap && e.partition != heap[k].partition {
      if e in kept {
        var i :| 0 <= i < |kept| && kept[i] == e;
        assert kept[i] == heap[if i < k then i else i + 1];
      }
      if e in heap && e.partition != heap[k].partition {
        var j :| 0 <= j < |heap| && heap[j] == e;
        assert kept[if j < k then j else j - 1] == e;
      }
    }
  }

  lemma PoppedOk<T>(parts: seq<seq<T>>, at: seq<nat>, heap: seq<Entry>, k: nat)
    requires HeapOk(parts, at, heap) && k < |heap|
    ensures var p := heap[k].partition;
            EntryOk(parts, at, heap[k]) && HeapOk(parts, at[p := at[p] + 1], Popped(parts, heap, k))
  {
    assert EntryOk(parts, at, heap[k]);
    var p := heap[k].partition;
    var at', kept := at[p := at[p] + 1], Without(heap, k);
    WithoutOk(heap, k);
    var heap' := Popped(parts, heap, k);
    assert heap' == kept || (heap' == kept + [Entry(p, at[p] + 1)] && at[p] + 1 < |parts[p]|);
    forall i | 0 <= i < |heap'| ensures EntryOk(parts, at', heap'[i]) {
      if i < |kept| { KeptOk(parts, at, heap, k, at', kept[i]); }
    }
    PushedDistinct(kept, heap', p, at[p] + 1);
    forall r: nat | r < |at'| ensures Listed(parts, at', heap', r) {
      assert Listed(parts, at, heap, r);
      if r == p {
        assert at[p] + 1 < |parts[p]| ==> heap'[|kept|] == Entry(p, at[p] + 1);
      } else {
        assert at[r] < |parts[r]| ==> Entry(r, at[r]) in kept;
      }
    }
  }

  lemma KeptOk<T>(parts: seq<seq<T>>, at: seq<nat>, heap: seq<Entry>, k: nat, at': seq<nat>, e: Entry)
    requires HeapOk(parts, at, heap) && k < |heap| && EntryOk(parts, at, heap[k])
    requires at' == at[heap[k].partition := at[heap[k].partition] + 1] && e in heap && e.partition != heap[k].partition
    ensures EntryOk(parts, at', e)
  {
    assert EntryOk(parts, at, e);
  }

  lemma PushedDistinct(kept: seq<Entry>, heap: seq<Entry>, p: nat, q: nat)
    requires heap == kept || heap == kept + [Entry(p, q)]
    requires OnePerPartition(kept) && forall e :: e in kept ==> e.partition != p
    ensures OnePerPartition(heap)
  {
  }

  /** One row moves from what is left to what is emitted. */
  lemma RestShrinks<T>(parts: seq<seq<T>>, at: seq<nat>, p: nat)
    requires |parts| == |at| && p < |parts| && at[p] < |parts[p]|
    ensures Sum(Rest(parts, at)) == Sum(Rest(parts, at[p := at[p] + 1])) + multiset{parts[p][at[p]]}
  {
    var at' := at[p := at[p] + 1];
    assert Left(parts, at, p) == [parts[p][at[p]]] + Left(parts, at', p);
    assert Rest(parts, at') == Rest(parts, at)[p := multiset(Left(parts, at', p))];
    SumUpdate(Rest(parts, at), p, multiset(Left(parts, at', p)));
    Balance(Sum(Rest(parts, at')), Sum(Rest(parts, at)), multiset(Left(parts, at', p)), multiset(Left(parts, at, p)), multiset{parts[p][at[p]]});
  }

  lemma EmitSorted<T(!new)>(less: (T, T) -> bool, emitted: seq<T>, parts: seq<seq<T>>, at: seq<nat>, heap: seq<Entry>, k: nat)
    requires StrictWeak(less) && HeapOk(parts, at, heap) && k < |heap| && IsMin(less, parts, heap, k)
    requires Sorted(less, emitted) && AboveAll(less, emitted, parts, at)
    requires forall p :: 0 <= p < |parts| ==> Sorted(less, parts[p])
    ensures var row, p := RowAt(parts, heap[k]), heap[k].partition;
            Sorted(less, emitted + [row]) && AboveAll(less, emitted + [row], parts, at[p := at[p] + 1])
  {
    var row, p0 := RowAt(parts, heap[k]), heap[k].partition;
    var at' := at[p0 := at[p0] + 1];
    forall i, p, q | 0 <= i < |emitted + [row]| && 0 <= p < |parts| && at'[p] <= q < |parts[p]|
      ensures !less(parts[p][q], (emitted + [row])[i])
    {
      if i == |emitted| { MinOfRest(less, parts, at, heap, k, p, q); }
    }
  }

  /** What the merge keeps: the heap lists the head of every partition that has rows left, and
      what was emitted is sorted, is below everything left, and with it makes up the input. */
  ghost predicate Merging<T(!new)>(less: (T, T) -> bool, parts: seq<seq<T>>, at: seq<nat>, heap: seq<Entry>, all: seq<T>, emitted: seq<T>) {
    && StrictWeak(less)
    && HeapOk(parts, at, heap)
    && (forall p :: 0 <= p < |parts| ==> Sorted(less, parts[p]))
    && multiset(emitted) + Sum(Rest(parts, at)) == multiset(all)
    && Sorted(less, emitted) && AboveAll(less, emitted, parts, at)
  }

  lemma MergeStep<T(!new)>(less: (T, T) -> bool, parts: seq<seq<T>>, at: seq<nat>, heap: seq<Entry>, all: seq<T>, emitted: seq<T>, k: nat)
    requires Merging(less, parts, at, heap, all, emitted) && k < |heap| && IsMin(less, parts, heap, k)
    ensures var e := heap[k];
            && e.partition < |parts| == |at| && e.index == at[e.partition] < |parts[e.partition]|
            && Merging(less, parts, at[e.partition := e.index + 1], Popped(parts, heap, k), all, emitted + [parts[e.partition][e.index]])
            && |emitted| < |all|
  {
    var e := heap[k];
    PoppedOk(parts, at, heap, k);
    EmitSorted(less, emitted, parts, at, heap, k);
    RestShrinks(parts, at, e.partition);
    EmitBag(emitted, parts[e.partition][e.index], Sum(Rest(parts, at)), Sum(Rest(parts, at[e.partition := e.index + 1])), all);
  }

  /** When the heap is empty everything has been emitted. */
  lemma MergeDone<T(!new)>(less: (T, T) -> bool, parts: seq<seq<T>>, at: seq<nat>, heap: seq<Entry>, all: seq<T>, emitted: seq<T>)
    requires Merging(less, parts, at, heap, all, emitted) && heap == []
    ensures multiset(emitted) == multiset(all) && |emitted| == |all|
  {
    NothingLeft(parts, at, heap);
    assert |multiset(emitted)| == |emitted| && |multiset(all)| == |all|;
  }

  /** The heap of the heads of the first `i` partitions. */
  ghost predicate Heads<T>(parts: seq<seq<T>>, heap: seq<Entry>, i: nat)
    requires i <= |parts|
  {
    && (forall k :: 0 <= k < |heap| ==> HeadOk(parts, heap[k], i))
    && (forall p: nat :: p < i ==> HeadListed(parts, heap, p))
    && OnePerPartition(heap)
  }

  ghost predicate HeadOk<T>(parts: seq<seq<T>>, e: Entry, i: nat)
    requires i <= |parts|
  {
    e.partition < i && e.index == 0 < |parts[e.partition]|
  }

  ghost predicate HeadListed<T>(parts: seq<seq<T>>, heap: seq<Entry>, p: nat)
    requires p < |parts|
  {
    0 < |parts[p]| ==> Entry(p, 0) in heap
  }

  lemma HeadsStep<T>(parts: seq<seq<T>>, heap: seq<Entry>, i: nat)
    requires i < |parts| && Heads(parts, heap, i)
    ensures Heads(parts, if parts[i] != [] then heap + [Entry(i, 0)] else heap, i + 1)
  {
    var heap' := if parts[i] != [] then heap + [Entry(i, 0)] else heap;
    forall k | 0 <= k < |heap'| ensures HeadOk(parts, heap'[k], i + 1) {
      assert k < |heap| ==> HeadOk(parts, heap[k], i);
    }
    forall p: nat | p < i + 1 ensures HeadListed(parts, heap', p) {
      assert p < i ==> HeadListed(parts, heap, p);
      assert p == i && parts[i] != [] ==> heap'[|heap|] == Entry(i, 0);
    }
    assert OnePerPartition(heap') by {
      forall j, k | 0 <= j < k < |heap'| ensures heap'[j].partition != heap'[k].partition {
        assert HeadOk(parts, heap[j], i);
      }
    }
  }

  lemma MergeStart<T(!new)>(less: (T, T) -> bool, all: seq<T>, n: nat, parts: seq<seq<T>>, heap: seq<Entry>)
    requires StrictWeak(less) && SlicesSorted(less, all, n, parts) && Heads(parts, heap, |parts|)
    ensures Merging(less, parts, seq(|parts|, _ => 0), heap, all, [])
  {
    var at := seq(|parts|, _ => 0);
    InitBag(all, n, parts, at, less);
    forall k | 0 <= k < |heap| ensures EntryOk(parts, at, heap[k]) {
      assert HeadOk(parts, heap[k], |parts|);
    }
    forall p: nat | p < |at| ensures Listed(parts, at, heap, p) {
      assert HeadListed(parts, heap, p);
    }
    forall p | 0 <= p < |parts| ensures Sorted(less, parts[p]) {
      assert SortedPermutation(less, Slices(all, n, n)[p], parts[p]);
    }
  }

  /** What the thread pool leaves in `partitions_`: slice `i` of the input, sorted. */
  ghost predicate SlicesSorted<T>(less: (T, T) -> bool, all: seq<T>, n: nat, parts: seq<seq<T>>) {
    && n >= 1 && LastSliceInRange(|all|, n) && |parts| == n
    && forall i :: 0 <= i < n ==> SortedPermutation(less, Slices(all, n, n)[i], parts[i])
  }

  lemma EmitBag<T>(emitted: seq<T>, row: T, rest: multiset<T>, rest': multiset<T>, all: seq<T>)
    requires multiset(emitted) + rest == multiset(all) && rest == rest' + multiset{row}
    ensures multiset(emitted + [row]) + rest' == multiset(all) && |emitted| < |all|
  {
    assert |multiset(emitted) + rest| == |emitted| + |rest'| + 1;
    assert |multiset(all)| == |all|;
  }

  lemma NothingLeft<T>(parts: seq<seq<T>>, at: seq<nat>, heap: seq<Entry>)
    requires HeapOk(parts, at, heap) && heap == []
    ensures Sum(Rest(parts, at)) == multiset{}
  {
    forall p | 0 <= p < |parts| ensures Left(parts, at, p) == [] {
      assert Listed(parts, at, heap, p);
    }
    SumEmpty(Rest(parts, at));
  }

  lemma {:induction false} MinExists<T(!new)>(less: (T, T) -> bool, parts: seq<seq<T>>, at: seq<nat>, heap: seq<Entry>)
    requires StrictWeak(less) && HeapOk(parts, at, heap) && heap != []
    ensures exists k :: 0 <= k < |heap| && IsMin(less, parts, heap, k)
  {
    var k := 0;
    for i := 1 to |heap|
      invariant 0 <= k < i
      invariant forall j :: 0 <= j < i ==> !less(RowAt(parts, heap[j]), RowAt(parts, heap[k]))
    {
      if less(RowAt(parts, heap[i]), RowAt(parts, heap[k])) { k := i; }
    }
    assert IsMin(less, parts, heap, k);
  }

  /** The sorted slices together hold the input. */
  lemma InitBag<T>(rows: seq<T>, n: nat, sorted: seq<seq<T>>, at: seq<nat>, less: (T, T) -> bool)
    requires n >= 1 && LastSliceInRange(|rows|, n) && |sorted| == n == |at|
    requires forall i :: 0 <= i < n ==> SortedPermutation(less, Slices(rows, n, n)[i], sorted[i])
    requires forall i :: 0 <= i < n ==> at[i] == 0
    ensures Sum(Rest(sorted, at)) == multiset(rows)
  {
    ChunkBounds(|rows|, n);
    SlicesCover(rows, n, n);
    assert rows[..|rows|] == rows;
    forall i | 0 <= i < n ensures Rest(sorted, at)[i] == multiset(Slices(rows, n, n)[i]) {
      assert Left(sorted, at, i) == sorted[i];
    }
    ConcatBag(Slices(rows, n, n), Rest(sorted, at));
  }

  class ParallelSorter<T(!new)> {
    const less: (T, T) -> bool
    var partitions: seq<seq<T>>
    var heap: seq<Entry>
    var heapReady: bool
    ghost var at: seq<nat>
    ghost var all: seq<T>
    ghost var emitted: seq<T>

    ghost predicate Valid()
      reads this
    {
      Merging(less, partitions, at, heap, all, emitted) && (!heapReady ==> heap == [])
    }

    constructor (cmp: (T, T) -> bool)
      requires StrictWeak(cmp)
      ensures Valid() && less == cmp && all == [] && emitted == []
    {
      less := cmp;
      partitions, heap, heapReady := [], [], false;
      at, all, emitted := [], [], [];
    }

    /** Loads the input: cuts it into one slice per thread, sorts each with `sort`, and builds
        the heap. The slice bounds are in order exactly when the last slice starts in range. */
    method Init(rows: seq<T>, threads: nat, sort: seq<T> -> seq<T>)
      requires StrictWeak(less) && threads >= 1 && Sorts(sort, less)
      requires rows != [] ==> LastSliceInRange(|rows|, Min(threads, |rows|))
      modifies this
      ensures Valid() && all == rows && emitted == []
    {
      partitions, heap, heapReady := [], [], false;
      at, all, emitted := [], rows, [];
      if rows == [] { return; }
      var n := Min(threads, |rows|);
      var sorted := SortSlices(rows, n, sort, less);
      var initial := InitialHeap(sorted);
      MergeStart(less, rows, n, sorted, initial);
      partitions, heap, heapReady := sorted, initial, true;
      at := seq(|sorted|, _ => 0);
    }

    /** Emits a least remaining row, if any is left. */
    method Next() returns (out: seq<T>)
      requires Valid()
      modifies this`heap, this`at, this`emitted
      ensures Valid() && emitted == old(emitted) + out
      ensures |out| == if |old(emitted)| < |all| then 1 else 0
    {
      if !heapReady || heap == [] {
        MergeDone(less, partitions, at, heap, all, emitted);
        return [];
      }
      var row, rest;
      ghost var moved;
      row, rest, moved := Pop(less, partitions, at, heap, all, emitted);
      out := [row];
      heap, at, emitted := rest, moved, emitted + [row];
    }

    /** Draining gives a sorted permutation of the input. */
    method Drain() returns (out: seq<T>)
      requires Valid() && emitted == []
      modifies this`heap, this`at, this`emitted
      ensures Valid() && Sorted(less, out) && multiset(out) == multiset(all)
    {
      out := [];
      while true
        invariant Valid() && emitted == out && |out| <= |all|
        decreases |all| - |out|
      {
        var row := Next();
        if row == [] { break; }
        out := out + row;
      }
      assert multiset(out) == multiset(all) by { EmittedAll(less, partitions, at, heap, all, emitted); }
    }
  }

  lemma EmittedAll<T(!new)>(less: (T, T) -> bool, parts: seq<seq<T>>, at: seq<nat>, heap: seq<Entry>, all: seq<T>, emitted: seq<T>)
    requires Merging(less, parts, at, heap, all, emitted) && |emitted| >= |all|
    ensures multiset(emitted) == multiset(all)
  {
    assert |multiset(emitted)| == |emitted| && |multiset(all)| == |all|;
    assert |multiset(emitted) + Sum(Rest(parts, at))| == |multiset(emitted)| + |Sum(Rest(parts, at))|;
    assert Sum(Rest(parts, at)) == multiset{};
  }

  /** `sort` stands for `std::sort`. */
  ghost predicate Sorts<T(!new)>(sort: seq<T> -> seq<T>, less: (T, T) -> bool) {
    forall s :: SortedPermutation(less, s, sort(s))
  }

  /** The tasks of the pool: each fills and sorts its own partition. */
  method SortSlices<T(!new)>(all: seq<T>, n: nat, sort: seq<T> -> seq<T>, ghost less: (T, T) -> bool) returns (parts: seq<seq<T>>)
    requires n >= 1 && LastSliceInRange(|all|, n) && Sorts(sort, less)
    ensures SlicesSorted(less, all, n, parts)
  {
    parts := [];
    for i := 0 to n
      invariant |parts| == i && forall j :: 0 <= j < i ==> SortedPermutation(less, Slices(all, n, n)[j], parts[j])
    {
      var slice := Cut(all, n, i);
      assert SortedPermutation(less, slice, sort(slice));
      parts := parts + [sort(slice)];
    }
  }

  method Cut<T>(all: seq<T>, n: nat, i: nat) returns (slice: seq<T>)
    requires n >= 1 && LastSliceInRange(|all|, n) && i < n
    ensures slice == Slices(all, n, n)[i]
  {
    MulMono(i, n - 1, Chunk(|all|, n));
    SliceAt(all, n, n, i);
    var chunk := Chunk(|all|, n);
    var start := i * chunk;
    var end := Min(start + chunk, |all|);
    slice := all[start..end];
  }

  lemma {:induction false} SliceAt<T>(all: seq<T>, n: nat, k: nat, i: nat)
    requires n >= 1 && i < k <= n && LastSliceInRange(|all|, n) && i * Chunk(|all|, n) <= |all|
    ensures Slices(all, n, k)[i] == Slice(all, n, i)
  {
    if i < k - 1 { SliceAt(all, n, k - 1, i); }
  }

  method InitialHeap<T>(parts: seq<seq<T>>) returns (heap: seq<Entry>)
    ensures Heads(parts, heap, |parts|)
  {
    heap := [];
    for i := 0 to |parts|
      invariant Heads(parts, heap, i)
    {
      HeadsStep(parts, heap, i);
      if parts[i] != [] {
        heap := heap + [Entry(i, 0)];
      }
    }
  }

  /** The entry that `pop_heap` moves to the back: some least one. */
  method Top<T(!new)>(less: (T, T) -> bool, parts: seq<seq<T>>, heap: seq<Entry>, ghost at: seq<nat>) returns (k: nat)
    requires StrictWeak(less) && HeapOk(parts, at, heap) && heap != []
    ensures k < |heap| && InParts(parts, heap) && IsMin(less, parts, heap, k)
  {
    assert InParts(parts, heap) by {
      forall j | 0 <= j < |heap| ensures heap[j].partition < |parts| && heap[j].index < |parts[heap[j].partition]| {
        assert EntryOk(parts, at, heap[j]);
      }
    }
    MinExists(less, parts, at, heap);
    k :| 0 <= k < |heap| && IsMin(less, parts, heap, k);
  }

  /** Pops a least entry and pushes its successor, if its partition has one. */
  method Pop<T(!new)>(less: (T, T) -> bool, parts: seq<seq<T>>, ghost at: seq<nat>, heap: seq<Entry>, ghost all: seq<T>, ghost emitted: seq<T>)
    returns (row: T, heap': seq<Entry>, ghost at': seq<nat>)
    requires Merging(less, parts, at, heap, all, emitted) && heap != []
    ensures Merging(less, parts, at', heap', all, emitted + [row]) && |emitted| < |all|
  {
    var k := Top(less, parts, heap, at);
    MergeStep(less, parts, at, heap, all, emitted, k);
    var top := heap[k];
    row, heap', at' := parts[top.partition][top.index], Popped(parts, heap, k), at[top.partition := top.index + 1];
  }

  /** Draining the parallel sort gives the same sequence of sort keys as the serial sort, for
      any keys, directions and number of threads. */
  lemma SameAsSerial<T(!new)>(key: T -> seq<Value>, asc: seq<bool>, rows: seq<T>, serial: seq<T>, parallel: seq<T>)
    requires OneSchema(key, asc)
    requires SortedPermutation(ByKey(key, asc), rows, serial) && SortedPermutation(ByKey(key, asc), rows, parallel)
    ensures Keys(key, parallel) == Keys(key, serial)
  {
    KeysBag(key, parallel);
    KeysBag(key, serial);
    FlatMapBag(One(key), parallel, serial);
    SortedKeysAgree(key, asc, parallel, serial);
  }

  /** The whole operator: for any order-by list, any number of threads and any input whose last
      slice starts in range, what the parallel sort emits is a permutation of the input, and its
      sort keys come in the same sequence as those of the serial sort. */
  method SortBy<T(!new)>(rows: seq<T>, key: T -> seq<Value>, asc: seq<bool>, threads: nat, sort: seq<T> -> seq<T>)
    returns (out: seq<T>)
    requires OneSchema(key, asc) && threads >= 1 && Sorts(sort, ByKey(key, asc))
    requires rows != [] ==> LastSliceInRange(|rows|, Min(threads, |rows|))
    ensures SortedPermutation(ByKey(key, asc), rows, out)
    ensures Keys(key, out) == Keys(key, sort(rows))
    ensures Arranged(key, asc, out)
    ensures |asc| == 1 ==> NumbersArranged(key, asc[0], out)
  {
    ComparatorIsStrictWeak(key, asc);
    var sorter := new ParallelSorter<T>(ByKey(key, asc));
    sorter.Init(rows, threads, sort);
    out := sorter.Drain();
    assert SortedPermutation(ByKey(key, asc), rows, sort(rows));
    SameAsSerial(key, asc, rows, sort(rows), out);
    SortedMeans(key, asc, out);
    if |asc| == 1 { OneNumber(key, asc, out); }
  }

  /** The rows come in the order that the ORDER BY list asks for. */
  ghost predicate Arranged<T(!new)>(key: T -> seq<Value>, asc: seq<bool>, out: seq<T>) {
    forall i, j :: 0 <= i < j < |out| ==> KeysInOrder(asc, key(out[i]), key(out[j]))
  }

  ghost predicate KeysInOrder(asc: seq<bool>, a: seq<Value>, b: seq<Value>) {
    |a| == |b| == |asc| && (a == b || InOrder(asc, a, b))
  }

  /** A single INT key rises, or falls if it is descending. */
  ghost predicate NumbersArranged<T(!new)>(key: T -> seq<Value>, up: bool, out: seq<T>) {
    forall i, j, m, n :: 0 <= i < j < |out| && key(out[i]) == [IntValue(m)] && key(out[j]) == [IntValue(n)] ==> if up then m <= n else m >= n
  }

  /** Rows sorted by the comparator are arranged so. */
  lemma SortedMeans<T(!new)>(key: T -> seq<Value>, asc: seq<bool>, out: seq<T>)
    requires OneSchema(key, asc) && Sorted(ByKey(key, asc), out)
    ensures Arranged(key, asc, out)
  {
    forall i, j | 0 <= i < j < |out| ensures KeysInOrder(asc, key(out[i]), key(out[j])) {
      var a, b := key(out[i]), key(out[j]);
      assert SameKind(a, b) && !ByKey(key, asc)(out[j], out[i]);
      if Less(asc, a, b) {
        ComparatorIff(asc, a, b);
      } else {
        Trichotomy(asc, a, b, 0);
        assert a == a[0..] && b == b[0..];
      }
    }
  }

  lemma OneNumber<T(!new)>(key: T -> seq<Value>, asc: seq<bool>, out: seq<T>)
    requires |asc| == 1 && Arranged(key, asc, out)
    ensures NumbersArranged(key, asc[0], out)
  {
    forall i, j, m, n | 0 <= i < j < |out| && key(out[i]) == [IntValue(m)] && key(out[j]) == [IntValue(n)]
      ensures if asc[0] then m <= n else m >= n
    {
      assert KeysInOrder(asc, key(out[i]), key(out[j]));
    }
  }

  function One<T>(key: T -> seq<Value>): T -> seq<seq<Value>> {
    (x: T) => [key(x)]
  }

  lemma {:induction false} KeysBag<T>(key: T -> seq<Value>, s: seq<T>)
    ensures FlatMap(One(key), s) == Keys(key, s)
  {
    if s != [] {
      KeysBag(key, s[1..]);
      assert Keys(key, s) == [key(s[0])] + Keys(key, s[1..]);
    }
  }
}
