/** Sorted entry lists: what a B+ tree stands for, read from left to right. A list with
  strictly increasing keys is a finite map from keys to record ids.
 */
module TreeEntries {
  import opened Basics
  import opened Page

  ghost predicate Sorted(es: seq<LeafEntry>) {
    forall i, j :: 0 <= i < j < |es| ==> es[i].key < es[j].key
  }

  ghost predicate InRange(es: seq<LeafEntry>, lo: int, hi: int) {
    forall i :: 0 <= i < |es| ==> lo <= es[i].key < hi
  }

  /** The list with `key` bound to `rid`: replaced in place, or put before the first
      larger key. */
  function Upsert(es: seq<LeafEntry>, key: int, rid: RID): seq<LeafEntry> {
    if es == [] then [LeafEntry(key, rid)]
    else if es[0].key == key then [LeafEntry(key, rid)] + es[1..]
    else if key < es[0].key then [LeafEntry(key, rid)] + es
    else [es[0]] + Upsert(es[1..], key, rid)
  }

  /** The map a list stands for. */
  function AsMap(es: seq<LeafEntry>): map<int, RID> {
    if es == [] then map[] else AsMap(es[1..])[es[0].key := es[0].rid]
  }

  lemma {:induction false} AsMapGet(es: seq<LeafEntry>, i: nat)
    requires Sorted(es) && i < |es|
    ensures es[i].key in AsMap(es) && AsMap(es)[es[i].key] == es[i].rid
  {
    if i > 0 {
      AsMapGet(es[1..], i - 1);
    }
  }

  lemma {:induction false} AsMapKeys(es: seq<LeafEntry>, k: int)
    ensures k in AsMap(es) <==> exists i :: 0 <= i < |es| && es[i].key == k
  {
    if es != [] {
      AsMapKeys(es[1..], k);
      if k in AsMap(es[1..]) {
        var i :| 0 <= i < |es[1..]| && es[1..][i].key == k;
        assert es[i + 1].key == k;
      }
      if i :| 0 < i < |es| && es[i].key == k {
        assert es[1..][i - 1].key == k;
      }
    }
  }

  /** Inserting into the list is updating the map. */
  lemma {:induction false} AsMapUpsert(es: seq<LeafEntry>, key: int, rid: RID)
    ensures AsMap(Upsert(es, key, rid)) == AsMap(es)[key := rid]
  {
    if es == [] {
      assert [LeafEntry(key, rid)][1..] == [];
    } else if es[0].key == key {
      assert Upsert(es, key, rid)[1..] == es[1..];
    } else if key < es[0].key {
      assert Upsert(es, key, rid)[1..] == es;
    } else {
      assert Upsert(es, key, rid)[1..] == Upsert(es[1..], key, rid);
      AsMapUpsert(es[1..], key, rid);
    }
  }

  lemma TailOfThree(a: seq<LeafEntry>, b: seq<LeafEntry>, c: seq<LeafEntry>)
    requires a != []
    ensures a + b + c == [a[0]] + (a[1..] + b + c) && (a + b + c)[1..] == a[1..] + b + c
  {
  }

  /** Where the key goes is decided by the middle part alone. */
  lemma {:induction false} UpsertBetween(a: seq<LeafEntry>, b: seq<LeafEntry>, c: seq<LeafEntry>, key: int, rid: RID)
    requires forall i :: 0 <= i < |a| ==> a[i].key < key
    requires forall i :: 0 <= i < |c| ==> key < c[i].key
    ensures Upsert(a + b + c, key, rid) == a + Upsert(b, key, rid) + c
  {
    if a != [] {
      UpsertBetween(a[1..], b, c, key, rid);
      TailOfThree(a, b, c);
      TailOfThree(a, Upsert(b, key, rid), c);
    } else if b != [] && b[0].key < key {
      UpsertBetween([], b[1..], c, key, rid);
      assert ([] + b + c)[1..] == [] + b[1..] + c;
    } else if b != [] {
      assert [] + b + c == b + c && (b + c)[1..] == b[1..] + c;
    } else {
      assert [] + b + c == c;
    }
  }

  lemma {:induction false} UpsertSorted(es: seq<LeafEntry>, key: int, rid: RID, lo: int, hi: int)
    requires Sorted(es) && InRange(es, lo, hi) && lo <= key < hi
    ensures Sorted(Upsert(es, key, rid)) && InRange(Upsert(es, key, rid), lo, hi)
    ensures |es| <= |Upsert(es, key, rid)| <= |es| + 1
    ensures 0 < |Upsert(es, key, rid)|
  {
    if es != [] && es[0].key < key {
      assert InRange(es[1..], es[0].key + 1, hi);
      UpsertSorted(es[1..], key, rid, es[0].key + 1, hi);
    }
  }

  lemma {:induction false} UpsertSize(es: seq<LeafEntry>, key: int, rid: RID)
    requires Sorted(es) && exists i :: 0 <= i < |es| && es[i].key == key
    ensures |Upsert(es, key, rid)| == |es|
  {
    if es[0].key < key {
      var i :| 0 <= i < |es| && es[i].key == key;
      assert es[1..][i - 1].key == key;
      UpsertSize(es[1..], key, rid);
    }
  }

  lemma SortedConcat(a: seq<LeafEntry>, b: seq<LeafEntry>, lo: int, mid: int, hi: int)
    requires Sorted(a) && Sorted(b) && InRange(a, lo, mid) && InRange(b, mid, hi)
    requires lo <= mid <= hi
    ensures Sorted(a + b) && InRange(a + b, lo, hi)
  {
  }

  /** The record ids of the entries with key in [low, high], in key order. */
  function Slice(es: seq<LeafEntry>, low: int, high: int): seq<RID> {
    if es == [] then []
    else (if low <= es[0].key <= high then [es[0].rid] else []) + Slice(es[1..], low, high)
  }

  lemma {:induction false} SliceConcat(a: seq<LeafEntry>, b: seq<LeafEntry>, low: int, high: int)
    ensures Slice(a + b, low, high) == Slice(a, low, high) + Slice(b, low, high)
  {
    if a == [] {
      assert a + b == b;
    } else {
      SliceConcat(a[1..], b, low, high);
      assert (a + b)[1..] == a[1..] + b && (a + b)[0] == a[0];
      Assoc(if low <= a[0].key <= high then [a[0].rid] else [], Slice(a[1..], low, high), Slice(b, low, high));
    }
  }

  lemma {:induction false} SliceEmpty(es: seq<LeafEntry>, low: int, high: int)
    requires forall i :: 0 <= i < |es| ==> es[i].key < low || high < es[i].key
    ensures Slice(es, low, high) == []
  {
    if es != [] {
      SliceEmpty(es[1..], low, high);
    }
  }

  /** The keys that a range selects. */
  function SliceKeys(es: seq<LeafEntry>, low: int, high: int): seq<int> {
    if es == [] then []
    else (if low <= es[0].key <= high then [es[0].key] else []) + SliceKeys(es[1..], low, high)
  }

  /** A range of a sorted list is the slice of the map: the record ids of the stored keys in the
      range, in increasing key order, each once. */
  lemma {:induction false} SliceMeaning(es: seq<LeafEntry>, low: int, high: int)
    requires Sorted(es)
    ensures forall k :: k in SliceKeys(es, low, high) <==> k in AsMap(es) && low <= k <= high
    ensures forall i, j :: 0 <= i < j < |SliceKeys(es, low, high)| ==> SliceKeys(es, low, high)[i] < SliceKeys(es, low, high)[j]
    ensures |Slice(es, low, high)| == |SliceKeys(es, low, high)|
    ensures forall i :: 0 <= i < |Slice(es, low, high)| ==>
              var k := SliceKeys(es, low, high)[i];
              k in AsMap(es) && Slice(es, low, high)[i] == AsMap(es)[k]
  {
    if es != [] {
      SliceMeaning(es[1..], low, high);
      RestLarger(es);
      SliceHead(es[0], es[1..], SliceKeys(es[1..], low, high), Slice(es[1..], low, high), AsMap(es[1..]), low, high);
    }
  }

  lemma RestLarger(es: seq<LeafEntry>)
    requires es != [] && Sorted(es)
    ensures forall k :: k in AsMap(es[1..]) ==> es[0].key < k
  {
    forall k | k in AsMap(es[1..]) ensures es[0].key < k {
      AsMapKeys(es[1..], k);
    }
  }

  /** One entry in front of a slice. */
  lemma SliceHead(e: LeafEntry, rest: seq<LeafEntry>, keys: seq<int>, rids: seq<RID>, m: map<int, RID>, low: int, high: int)
    requires (forall k :: k in m ==> e.key < k) && (forall k :: k in keys <==> k in m && low <= k <= high)
    requires (forall i, j :: 0 <= i < j < |keys| ==> keys[i] < keys[j]) && |rids| == |keys|
    requires forall i :: 0 <= i < |rids| ==> keys[i] in m && rids[i] == m[keys[i]]
    ensures var hit := low <= e.key <= high;
            var keys', rids', m' := (if hit then [e.key] else []) + keys, (if hit then [e.rid] else []) + rids, m[e.key := e.rid];
            && (forall k :: k in keys' <==> k in m' && low <= k <= high)
            && (forall i, j :: 0 <= i < j < |keys'| ==> keys'[i] < keys'[j]) && |rids'| == |keys'|
            && (forall i :: 0 <= i < |rids'| ==> keys'[i] in m' && rids'[i] == m'[keys'[i]])
  {
    var hit := low <= e.key <= high;
    var keys' := (if hit then [e.key] else []) + keys;
    forall i | 0 <= i < |keys| ensures keys[i] in m {
      assert keys[i] in keys;
    }
    assert hit ==> keys' == [e.key] + keys;
    assert !hit ==> keys' == keys;
  }
}
