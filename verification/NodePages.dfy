/** The two page layouts of `src/storage/bplus_tree.cpp` while a page is being worked on:
  a fixed array of entries of which the first `size` are live, shifted in place.
 */
module NodePages {
  import opened Page
  import opened TreeEntries
  import opened TreeIndex

  /** The position of the first entry above `key`, from `i` on. */
  function LeafPos(es: seq<LeafEntry>, key: int, i: nat): (pos: nat)
    requires i <= |es|
    ensures i <= pos <= |es|
    ensures forall k :: i <= k < pos ==> es[k].key <= key
    ensures pos < |es| ==> key < es[pos].key
    decreases |es| - i
  {
    if i == |es| || es[i].key > key then i else LeafPos(es, key, i + 1)
  }

  function EntryPos(es: seq<InternalEntry>, key: int, i: nat): (pos: nat)
    requires i <= |es|
    ensures i <= pos <= |es|
    ensures forall k :: i <= k < pos ==> es[k].key <= key
    ensures pos < |es| ==> key < es[pos].key
    decreases |es| - i
  {
    if i == |es| || es[i].key > key then i else EntryPos(es, key, i + 1)
  }

  /** Below-or-equal entries up to `pos` and an entry above at `pos` pin the position down. */
  lemma {:induction false} LeafPosIs(es: seq<LeafEntry>, key: int, i: nat, pos: nat)
    requires i <= pos <= |es|
    requires forall k :: i <= k < pos ==> es[k].key <= key
    requires pos < |es| ==> key < es[pos].key
    ensures LeafPos(es, key, i) == pos
    decreases pos - i
  {
    if i < pos {
      LeafPosIs(es, key, i + 1, pos);
    }
  }

  lemma {:induction false} EntryPosIs(es: seq<InternalEntry>, key: int, i: nat, pos: nat)
    requires i <= pos <= |es|
    requires forall k :: i <= k < pos ==> es[k].key <= key
    requires pos < |es| ==> key < es[pos].key
    ensures EntryPos(es, key, i) == pos
    decreases pos - i
  {
    if i < pos {
      EntryPosIs(es, key, i + 1, pos);
    }
  }

  function Inserted<T>(s: seq<T>, pos: nat, x: T): (r: seq<T>)
    requires pos <= |s|
    ensures |r| == |s| + 1
  {
    s[..pos] + [x] + s[pos..]
  }

  /** Inserting an absent key at its position is the upsert of the sorted list. */
  lemma {:induction false} UpsertAbsent(es: seq<LeafEntry>, key: int, rid: RID)
    requires Sorted(es) && forall i :: 0 <= i < |es| ==> es[i].key != key
    ensures Upsert(es, key, rid) == Inserted(es, LeafPos(es, key, 0), LeafEntry(key, rid))
  {
    var pos := LeafPos(es, key, 0);
    UpsertGap(es, es[..pos], es[pos..], key, rid);
  }

  lemma UpsertGap(es: seq<LeafEntry>, a: seq<LeafEntry>, c: seq<LeafEntry>, key: int, rid: RID)
    requires es == a + c && (forall i :: 0 <= i < |a| ==> a[i].key < key) && (forall i :: 0 <= i < |c| ==> key < c[i].key)
    ensures Upsert(es, key, rid) == a + [LeafEntry(key, rid)] + c
  {
    assert a + [] + c == es;
    UpsertBetween(a, [], c, key, rid);
  }

  /** Overwriting the record of a present key is the upsert of the sorted list. */
  lemma {:induction false} UpsertPresent(es: seq<LeafEntry>, i: nat, rid: RID)
    requires Sorted(es) && i < |es|
    ensures Upsert(es, es[i].key, rid) == es[i := LeafEntry(es[i].key, rid)]
  {
    assert es == es[..i] + [es[i]] + es[i + 1..];
    UpsertBetween(es[..i], [es[i]], es[i + 1..], es[i].key, rid);
    assert Upsert([es[i]], es[i].key, rid) == [LeafEntry(es[i].key, rid)];
  }

  /** Moves the entries from `pos` on up by one and stores `x` at `pos`. */
  method ShiftIn<T>(a: array<T>, n: nat, pos: nat, x: T)
    requires pos <= n < a.Length
    modifies a
    ensures a[..n + 1] == Inserted(old(a[..n]), pos, x)
  {
    var i := n;
    while i > pos
      invariant pos <= i <= n
      invariant forall k :: 0 <= k <= i && k < n ==> a[k] == old(a[k])
      invariant forall k :: i < k <= n ==> a[k] == old(a[k - 1])
    {
      a[i] := a[i - 1];
      i := i - 1;
    }
    a[pos] := x;
  }

  class LeafNode {
    const data: array<LeafEntry>
    var size: nat
    var next: int

    ghost predicate Valid()
      reads this
    {
      size <= data.Length == LEAF_CAPACITY
    }

    /** The live entries. */
    ghost function Live(): seq<LeafEntry>
      requires Valid()
      reads this, data
    {
      data[..size]
    }

    /** `AsLeaf(page)`. */
    constructor (leaf: seq<LeafEntry>, nextPid: int)
      requires |leaf| <= LEAF_CAPACITY
      ensures Valid() && fresh(data) && Live() == leaf && next == nextPid
    {
      data := new LeafEntry[LEAF_CAPACITY](i => if 0 <= i < |leaf| then leaf[i] else LeafEntry(0, RID(0, 0)));
      size, next := |leaf|, nextPid;
      new;
      assert data[..size] == leaf;
    }

    /** The page contents. */
    method Contents() returns (d: PageData)
      requires Valid()
      ensures d == LeafPage(Live(), next)
    {
      d := LeafPage(data[..size], next);
    }

    /** Replaces the record of the key if the key is present. */
    method Overwrite(key: int, rid: RID) returns (found: bool)
      requires Valid() && Sorted(Live())
      modifies data
      ensures Valid()
      ensures found <==> exists i :: 0 <= i < |old(Live())| && old(Live())[i].key == key
      ensures Live() == if found then Upsert(old(Live()), key, rid) else old(Live())
    {
      ghost var was := Live();
      var i := 0;
      while i < size
        invariant i <= size && Live() == was
        invariant forall k :: 0 <= k < i ==> was[k].key != key
      {
        if data[i].key == key {
          UpsertPresent(was, i, rid);
          data[i] := LeafEntry(key, rid);
          assert Live() == was[i := LeafEntry(key, rid)];
          return true;
        }
        i := i + 1;
      }
      found := false;
    }

    /** Moves the upper half of the entries to an empty leaf and links it behind this one. */
    method MoveHalf(to: LeafNode, toPid: nat)
      requires Valid() && to.Valid() && to != this && to.data != data && to.size == 0
      modifies this, to, to.data
      ensures Valid() && to.Valid()
      ensures Live() == old(Live())[..old(size) / 2] && to.Live() == old(Live())[old(size) / 2..]
      ensures next == toPid && to.next == old(next)
    {
      var mid := size / 2;
      to.size := size - mid;
      var i := 0;
      while i < to.size
        invariant Valid() && to.Valid() && to.size == size - mid && i <= to.size
        invariant forall k :: 0 <= k < i ==> to.data[k] == data[mid + k]
        modifies to.data
      {
        to.data[i] := data[mid + i];
        i := i + 1;
      }
      to.next := next;
      next := toPid;
      size := mid;
    }

    /** Shifts the larger keys up by one and stores the entry where they began. */
    method InsertEntry(key: int, rid: RID)
      requires Valid() && size < LEAF_CAPACITY
      modifies this`size, data
      ensures Valid() && size == old(size) + 1
      ensures Live() == Inserted(old(Live()), LeafPos(old(Live()), key, 0), LeafEntry(key, rid))
    {
      ghost var was := Live();
      var pos := 0;
      while pos < size && data[pos].key <= key
        invariant pos <= size
        invariant forall k :: 0 <= k < pos ==> data[k].key <= key
      {
        pos := pos + 1;
      }
      LeafPosIs(was, key, 0, pos);
      ShiftIn(data, size, pos, LeafEntry(key, rid));
      size := size + 1;
    }
  }

  class InternalNode {
    const data: array<InternalEntry>
    var size: nat

    ghost predicate Valid()
      reads this
    {
      size <= data.Length == INTERNAL_CAPACITY
    }

    ghost function Live(): seq<InternalEntry>
      requires Valid()
      reads this, data
    {
      data[..size]
    }

    /** `AsInternal(page)`. */
    constructor (node: seq<InternalEntry>)
      requires |node| <= INTERNAL_CAPACITY
      ensures Valid() && fresh(data) && Live() == node
    {
      data := new InternalEntry[INTERNAL_CAPACITY](i => if 0 <= i < |node| then node[i] else InternalEntry(0, 0));
      size := |node|;
      new;
      assert data[..size] == node;
    }

    method Contents() returns (d: PageData)
      requires Valid()
      ensures d == InternalPage(Live())
    {
      d := InternalPage(data[..size]);
    }

    /** Moves the entries behind the middle one to an empty node, whose first child is the
        middle one's; the middle separator is what the caller pushes up. */
    method MoveHalf(to: InternalNode) returns (pushUp: int)
      requires Valid() && to.Valid() && to != this && to.data != data && 2 <= size && to.size == 1
      modifies this, to, to.data
      ensures Valid() && to.Valid()
      ensures var was, mid := old(Live()), old(size) / 2;
              && Live() == was[..mid] && pushUp == was[mid].key
              && to.Live() == [InternalEntry(old(to.data[0]).key, was[mid].child)] + was[mid + 1..]
    {
      var mid := size / 2;
      pushUp := data[mid].key;
      to.data[0] := to.data[0].(child := data[mid].child);
      to.size := 1;
      var i := mid + 1;
      while i < size
        invariant mid + 1 <= i <= size && Valid() && to.Valid() && to.size == i - mid
        invariant to.data[0] == InternalEntry(old(to.data[0]).key, data[mid].child)
        invariant forall k :: 1 <= k < i - mid ==> to.data[k] == data[mid + k]
        modifies to`size, to.data
      {
        to.data[to.size] := data[i];
        to.size := to.size + 1;
        i := i + 1;
      }
      size := mid;
    }

    /** Shifts the larger separators up by one and stores the new one before them; the first key is unused. */
    method InsertEntry(key: int, child: int)
      requires Valid() && 1 <= size < INTERNAL_CAPACITY
      modifies this`size, data
      ensures Valid() && size == old(size) + 1
      ensures Live() == Inserted(old(Live()), EntryPos(old(Live()), key, 1), InternalEntry(key, child))
    {
      ghost var was := Live();
      var pos := 1;
      while pos < size && data[pos].key <= key
        invariant 1 <= pos <= size
        invariant forall k :: 1 <= k < pos ==> data[k].key <= key
      {
        pos := pos + 1;
      }
      EntryPosIs(was, key, 1, pos);
      ShiftIn(data, size, pos, InternalEntry(key, child));
      size := size + 1;
    }
  }

  /** The index of the child for `key`: its separator is not above the key, the next one is. */
  ghost predicate IsChildIndex(node: seq<InternalEntry>, key: int, i: nat) {
    && i < |node|
    && (i > 0 ==> node[i].key <= key)
    && (i + 1 < |node| ==> key < node[i + 1].key)
  }

  /** Binary search among the separators; the child it gives is the one that they put the key in. */
  method Lookup(node: seq<InternalEntry>, key: int) returns (child: int, ghost index: nat)
    requires |node| >= 1
    requires forall i, j :: 1 <= i < j < |node| ==> node[i].key < node[j].key
    ensures IsChildIndex(node, key, index) && child == node[index].child
  {
    var lo, hi, result := 1, |node| - 1, 0;
    while lo <= hi
      invariant 0 <= result < lo <= hi + 1 <= |node|
      invariant result + 1 == lo
      invariant result > 0 ==> node[result].key <= key
      invariant hi + 1 < |node| ==> key < node[hi + 1].key
    {
      var mid := (lo + hi) / 2;
      if node[mid].key <= key {
        result := mid;
        lo := mid + 1;
      } else {
        hi := mid - 1;
      }
    }
    child := node[result].child;
    index := result;
  }

  /** Binary search in a leaf. */
  method LeafSearch(leaf: seq<LeafEntry>, key: int) returns (r: Option<RID>)
    requires Sorted(leaf)
    ensures r == Get(AsMap(leaf), key)
  {
    AsMapKeys(leaf, key);
    var lo, hi := 0, |leaf| - 1;
    while lo <= hi
      invariant 0 <= lo <= hi + 1 <= |leaf|
      invariant forall k :: 0 <= k < lo ==> leaf[k].key < key
      invariant forall k :: hi < k < |leaf| ==> key < leaf[k].key
    {
      var mid := (lo + hi) / 2;
      if leaf[mid].key == key {
        AsMapGet(leaf, mid);
        return Some(leaf[mid].rid);
      } else if leaf[mid].key < key {
        lo := mid + 1;
      } else {
        hi := mid - 1;
      }
    }
    r := None;
  }

  /** The in-memory part of InsertInLeaf: overwrite the record, or insert the entry. */
  method UpdateLeaf(es: seq<LeafEntry>, next: int, key: int, rid: RID) returns (es': seq<LeafEntry>)
    requires Sorted(es) && |es| < LEAF_CAPACITY
    ensures es' == Upsert(es, key, rid)
  {
    var leaf := new LeafNode(es, next);
    var found := leaf.Overwrite(key, rid);
    if !found {
      UpsertAbsent(es, key, rid);
      leaf.InsertEntry(key, rid);
    }
    es' := leaf.data[..leaf.size];
  }

  /** The in-memory part of a leaf split: contents of the two pages and the separator. */
  method HalveLeaf(es: seq<LeafEntry>, next: int, newPid: nat) returns (d: PageData, newD: PageData, separator: int)
    requires 2 <= |es| <= LEAF_CAPACITY
    ensures var mid := |es| / 2;
            && d == LeafPage(es[..mid], newPid) && newD == LeafPage(es[mid..], next)
            && separator == es[mid].key
  {
    var leaf := new LeafNode(es, next);
    var newLeaf := new LeafNode([], INVALID_PAGE_ID);
    leaf.MoveHalf(newLeaf, newPid);
    separator := newLeaf.data[0].key;
    newD := newLeaf.Contents();
    d := leaf.Contents();
  }

  /** The in-memory part of InsertInInternal after a child split. */
  method UpdateNode(es: seq<InternalEntry>, key: int, child: int) returns (es': seq<InternalEntry>)
    requires 1 <= |es| < INTERNAL_CAPACITY
    ensures es' == Inserted(es, EntryPos(es, key, 1), InternalEntry(key, child))
  {
    var node := new InternalNode(es);
    node.InsertEntry(key, child);
    es' := node.data[..node.size];
  }

  /** The in-memory part of an internal split. */
  method HalveNode(es: seq<InternalEntry>) returns (d: PageData, newD: PageData, pushUp: int)
    requires 2 <= |es| <= INTERNAL_CAPACITY
    ensures var mid := |es| / 2;
            && d == InternalPage(es[..mid]) && pushUp == es[mid].key
            && newD == InternalPage([InternalEntry(0, es[mid].child)] + es[mid + 1..])
  {
    var node := new InternalNode(es);
    var newNode := new InternalNode([InternalEntry(0, INVALID_PAGE_ID)]);
    pushUp := node.MoveHalf(newNode);
    newD := newNode.Contents();
    d := node.Contents();
  }

  /** The inner loop of RangeScan: the records of one leaf, and whether the scan is over. */
  method ScanLeaf(es: seq<LeafEntry>, low: int, high: int, out: seq<RID>) returns (out': seq<RID>, done: bool)
    requires Sorted(es)
    ensures out' == out + Slice(es, low, high)
    ensures done <==> es != [] && es[|es| - 1].key > high
  {
    out', done := out, false;
    for i := 0 to |es|
      invariant out' == out + Slice(es[..i], low, high) && (i > 0 ==> es[i - 1].key <= high)
    {
      SliceStep(es, i, low, high);
      if es[i].key > high {
        return out', true;
      }
      if es[i].key >= low {
        out' := out' + [es[i].rid];
      }
    }
    assert es[..|es|] == es;
  }

  /** One more entry, or the first one above `high`. */
  lemma {:induction false} SliceStep(es: seq<LeafEntry>, i: nat, low: int, high: int)
    requires Sorted(es) && i < |es|
    ensures Slice(es[..i + 1], low, high) == Slice(es[..i], low, high) + (if low <= es[i].key <= high then [es[i].rid] else [])
    ensures es[i].key > high ==> Slice(es, low, high) == Slice(es[..i], low, high) && es[|es| - 1].key > high
  {
    assert es[..i + 1] == es[..i] + [es[i]];
    SliceConcat(es[..i], [es[i]], low, high);
    assert [es[i]][1..] == [];
    if es[i].key > high {
      assert es == es[..i] + es[i..];
      SliceConcat(es[..i], es[i..], low, high);
      SliceEmpty(es[i..], low, high);
    }
  }
}
