/** Whole runs of storage calls: any sequence of inserts into an index or a heap file over one
  buffer pool, whatever is evicted in between, and what a search or scan shows afterwards.
 */
module StorageRuns {
  import opened Page
  import opened TreeEntries
  import opened TreeModel
  import opened TreeIndex
  import opened BPlusTrees
  import opened HeapFiles

  /** Any run of index inserts succeeds and gives the map of the run; no pin is left behind. */
  method LoadIndex(tree: BPlusTree, ops: seq<Op>)
    requires tree.Valid() && tree.root == None && Keys32(ops) && |tree.pool.pins| + 2 <= tree.pool.poolSize
    modifies tree, tree.pool, tree.pool.frames, tree.pool.replacer
    ensures tree.Valid() && tree.Map() == Bound(ops) && tree.pool.pins == old(tree.pool.pins)
  {
    for i := 0 to |ops|
      invariant tree.Valid() && tree.Map() == Bound(ops[..i]) && tree.pool.pins == old(tree.pool.pins)
    {
      var ok := tree.Insert(ops[i].key, ops[i].rid);
      assert ops[..i + 1][..i] == ops[..i];
    }
    assert ops[..|ops|] == ops;
  }

  /** After any run of inserts, a search gives exactly the record last inserted for the key. */
  method SearchAfter(tree: BPlusTree, ops: seq<Op>, k: int) returns (r: Option<RID>)
    requires tree.Valid() && tree.root == None && Keys32(ops) && |tree.pool.pins| + 2 <= tree.pool.poolSize
    requires KEY_MIN <= k < KEY_END
    modifies tree, tree.pool, tree.pool.frames, tree.pool.replacer
    ensures r == LastInserted(ops, k)
  {
    LoadIndex(tree, ops);
    r := tree.Search(k);
    BoundIsLast(ops, k);
  }

  /** After any run of inserts, a range scan gives the records of the keys in the range, in
      increasing key order, each the one last inserted. */
  method RangeAfter(tree: BPlusTree, ops: seq<Op>, low: int, high: int) returns (rids: seq<RID>, ghost keys: seq<int>)
    requires tree.Valid() && tree.root == None && Keys32(ops) && |tree.pool.pins| + 2 <= tree.pool.poolSize
    requires KEY_MIN <= low < KEY_END
    modifies tree, tree.pool, tree.pool.frames, tree.pool.replacer
    ensures |rids| == |keys| && (forall i, j :: 0 <= i < j < |keys| ==> keys[i] < keys[j])
    ensures forall k :: k in keys <==> LastInserted(ops, k).Some? && low <= k <= high
    ensures forall i :: 0 <= i < |rids| ==> LastInserted(ops, keys[i]) == Some(rids[i])
  {
    LoadIndex(tree, ops);
    var out := tree.RangeScan(low, high, []);
    rids := out.value;
    keys := SliceOfRun(tree.root, tree.height, tree.Lim(), ops, low, high);
  }

  lemma SliceOfRun(root: Option<Tree>, height: nat, lim: Limits, ops: seq<Op>, low: int, high: int) returns (keys: seq<int>)
    requires RootOk(root, height, lim) && AsMap(RootEntries(root)) == Bound(ops)
    ensures var rids := Slice(RootEntries(root), low, high);
            && |rids| == |keys| && (forall i, j :: 0 <= i < j < |keys| ==> keys[i] < keys[j])
            && (forall k :: k in keys <==> LastInserted(ops, k).Some? && low <= k <= high)
            && (forall i :: 0 <= i < |rids| ==> LastInserted(ops, keys[i]) == Some(rids[i]))
  {
    var es := RootEntries(root);
    if root.Some? { EntriesSorted(root.value, height, KEY_MIN, KEY_END, lim, true); }
    SliceMeaning(es, low, high);
    keys := SliceKeys(es, low, high);
    forall k ensures Get(Bound(ops), k) == LastInserted(ops, k) {
      BoundIsLast(ops, k);
    }
  }

  /** The rows of the accepted tuples, in order. */
  ghost function Accepted(tuples: seq<Tuple>, answers: seq<(bool, RID)>): seq<Row>
    requires |tuples| == |answers|
  {
    if tuples == [] then []
    else
      var n := |tuples| - 1;
      Accepted(tuples[..n], answers[..n]) + if answers[n].0 then [Row(answers[n].1, tuples[n])] else []
  }

  lemma AcceptedSnoc(tuples: seq<Tuple>, answers: seq<(bool, RID)>, a: (bool, RID))
    requires |answers| < |tuples|
    ensures var n := |answers|;
            Accepted(tuples[..n + 1], answers + [a]) == Accepted(tuples[..n], answers) + if a.0 then [Row(a.1, tuples[n])] else []
  {
    var n := |answers|;
    assert tuples[..n + 1][..n] == tuples[..n] && (answers + [a])[..n] == answers;
  }

  /** Any run of tuple inserts: the scan shows the earlier rows and then the accepted tuples, in
      insertion order, under distinct record ids. */
  method LoadHeap(file: HeapFile, tuples: seq<Tuple>) returns (answers: seq<(bool, RID)>)
    requires file.Valid() && forall i :: 0 <= i < |tuples| ==> |tuples[i]| == file.tupleSize
    modifies file, file.pool, file.pool.frames, file.pool.replacer
    ensures file.Valid() && |answers| == |tuples|
    ensures file.Rows() == old(file.Rows()) + Accepted(tuples, answers)
    ensures RidsDistinct(file.Rows()) && file.pool.pins == old(file.pool.pins)
    ensures |old(file.pool.pins)| < file.pool.poolSize ==> forall i :: 0 <= i < |answers| ==> answers[i].0
  {
    answers := [];
    for i := 0 to |tuples|
      invariant file.Valid() && |answers| == i && file.pool.pins == old(file.pool.pins)
      invariant file.Rows() == old(file.Rows()) + Accepted(tuples[..i], answers)
      invariant |old(file.pool.pins)| < file.pool.poolSize ==> forall j :: 0 <= j < i ==> answers[j].0
    {
      var ok, rid := file.InsertTuple(tuples[i]);
      AcceptedSnoc(tuples, answers, (ok, rid));
      answers := answers + [(ok, rid)];
    }
    assert tuples[..|tuples|] == tuples;
    RowsDistinct(file.pool.pages, file.chain);
  }

  /** And the scan with a callback that never stops visits exactly those. */
  method ScanAfter(file: HeapFile, tuples: seq<Tuple>) returns (visited: seq<Row>, answers: seq<(bool, RID)>)
    requires file.Valid() && forall i :: 0 <= i < |tuples| ==> |tuples[i]| == file.tupleSize
    requires |file.pool.pins| < file.pool.poolSize
    modifies file, file.pool, file.pool.frames, file.pool.replacer
    ensures |answers| == |tuples| && visited == old(file.Rows()) + Accepted(tuples, answers)
    ensures forall i :: 0 <= i < |answers| ==> answers[i].0
  {
    answers := LoadHeap(file, tuples);
    visited := file.Scan(_ => true);
    AllVisited(file.Rows(), _ => true);
  }
}
