/** The replacer of the buffer pool: `src/storage/lru_replacer.cpp`.

  `lruList` holds the frames seen so far, most recently accessed first;
  `evictable` is the set of frames that may be chosen as a victim. The ghost
  fields `clock` and `stamp` record when each frame was last accessed, so that
  "least recently used" can be stated without mentioning the list.
 */
module LruReplacer {
  import opened Page

  /** The frames of a list, as a set. */
  function Elements(s: seq<nat>): (r: set<nat>)
    ensures forall x :: x in r <==> x in s
  {
    set x | x in s
  }

  /** The list with the element at position `i` taken out. */
  function RemoveAt(s: seq<nat>, i: nat): (r: seq<nat>)
    requires i < |s|
    ensures |r| == |s| - 1
    ensures forall k :: 0 <= k < i ==> r[k] == s[k]
    ensures forall k :: i <= k < |r| ==> r[k] == s[k + 1]
  {
    s[..i] + s[i + 1..]
  }

  /** Taking out an element that occurs once removes exactly that element. */
  lemma RemoveAtElements(s: seq<nat>, i: nat)
    requires i < |s|
    requires forall k :: 0 <= k < |s| && k != i ==> s[k] != s[i]
    ensures Elements(RemoveAt(s, i)) == Elements(s) - {s[i]}
  {
    var r := RemoveAt(s, i);
    forall x | x in Elements(s) - {s[i]} ensures x in Elements(r) {
      var k :| 0 <= k < |s| && s[k] == x;
      assert r[if k < i then k else k - 1] == x;
    }
    forall x | x in Elements(r) ensures x in Elements(s) - {s[i]} {
      var k :| 0 <= k < |r| && r[k] == x;
      assert s[if k < i then k else k + 1] == x;
    }
  }

  /** The list holds the frames of `stamp`, once each, newest access first. */
  ghost predicate Ordered(list: seq<nat>, stamp: map<nat, nat>, clock: nat) {
    && stamp.Keys == Elements(list)
    && (forall i :: 0 <= i < |list| ==> stamp[list[i]] < clock)
    && (forall i, j :: 0 <= i < j < |list| ==> stamp[list[i]] > stamp[list[j]])
  }

  lemma OrderedRemove(list: seq<nat>, stamp: map<nat, nat>, clock: nat, i: nat)
    requires Ordered(list, stamp, clock) && i < |list|
    ensures Elements(RemoveAt(list, i)) == Elements(list) - {list[i]}
    ensures Ordered(RemoveAt(list, i), stamp - {list[i]}, clock)
  {
    RemoveAtElements(list, i);
    var r, st := RemoveAt(list, i), stamp - {list[i]};
    forall k | 0 <= k < |r| ensures r[k] in st && st[r[k]] == stamp[r[k]] {
      assert r[k] in Elements(r);
    }
    forall j, k | 0 <= j < k < |r| ensures st[r[j]] > st[r[k]] {
      var j', k' := if j < i then j else j + 1, if k < i then k else k + 1;
      assert r[j] == list[j'] && r[k] == list[k'];
    }
  }

  lemma PushElements(list: seq<nat>, f: nat)
    ensures Elements([f] + list) == Elements(list) + {f}
  {
  }

  lemma OrderedPush(list: seq<nat>, stamp: map<nat, nat>, clock: nat, f: nat)
    requires Ordered(list, stamp, clock) && f !in Elements(list)
    ensures Elements([f] + list) == Elements(list) + {f}
    ensures Ordered([f] + list, stamp[f := clock], clock + 1)
  {
    var r, st := [f] + list, stamp[f := clock];
    PushElements(list, f);
    forall k | 0 <= k < |r| ensures st[r[k]] == if k == 0 then clock else stamp[list[k - 1]] {
      assert k > 0 ==> r[k] == list[k - 1] && list[k - 1] in Elements(list);
    }
  }

  /** No evictable frame was last accessed before `f` was. */
  ghost predicate Oldest(stamp: map<nat, nat>, evictable: set<nat>, f: nat) {
    f in stamp && forall g :: g in stamp && g in evictable ==> stamp[f] <= stamp[g]
  }

  class LRUReplacer {
    var lruList: seq<nat>
    var lruMap: set<nat>
    var evictable: set<nat>
    ghost var clock: nat
    ghost var stamp: map<nat, nat>

    /** The list is ordered by time of last access, newest first, without repetition. */
    ghost predicate Valid()
      reads this
    {
      && lruMap == Elements(lruList)
      && Ordered(lruList, stamp, clock)
    }

    /** Known frames have different times of access, all in the past. */
    lemma StampFacts(f: nat, g: nat)
      requires Valid() && f in lruMap && g in lruMap
      ensures f in stamp && g in stamp && stamp[f] < clock && (f != g ==> stamp[f] != stamp[g])
    {
      var i :| 0 <= i < |lruList| && lruList[i] == f;
      var j :| 0 <= j < |lruList| && lruList[j] == g;
      assert i < j || j < i || i == j;
    }

    constructor ()
      ensures Valid()
      ensures lruMap == {} && evictable == {} && stamp == map[] && clock == 0
    {
      lruList, lruMap, evictable := [], {}, {};
      clock, stamp := 0, map[];
    }

    /** Chooses the evictable frame whose last access is the oldest and forgets it. */
    method Evict() returns (victim: Option<nat>)
      requires Valid()
      modifies this`lruList, this`lruMap, this`stamp, this`evictable
      ensures Valid()
      ensures victim.None? <==> old(lruMap) !! old(evictable)
      ensures victim.None? ==>
                lruMap == old(lruMap) && evictable == old(evictable) && stamp == old(stamp)
      ensures victim.Some? ==>
                && victim.value in old(lruMap) && victim.value in old(evictable)
                && Oldest(old(stamp), old(evictable), victim.value)
                && lruMap == old(lruMap) - {victim.value}
                && evictable == old(evictable) - {victim.value}
                && stamp == old(stamp) - {victim.value}
    {
      var i := |lruList|;
      while i > 0
        invariant 0 <= i <= |lruList|
        invariant forall k :: i <= k < |lruList| ==> lruList[k] !in evictable
      {
        i := i - 1;
        var f := lruList[i];
        if f in evictable {
          OldestAt(i);
          Unlink(i);
          evictable := evictable - {f};
          return Some(f);
        }
      }
      victim := None;
    }

    /** The last evictable entry of the list is the one accessed longest ago. */
    lemma OldestAt(i: nat)
      requires Valid() && i < |lruList| && lruList[i] in evictable
      requires forall k :: i < k < |lruList| ==> lruList[k] !in evictable
      ensures Oldest(stamp, evictable, lruList[i])
    {
      forall f | f in stamp && f in evictable ensures stamp[lruList[i]] <= stamp[f] {
        var k :| 0 <= k < |lruList| && lruList[k] == f;
        assert k <= i;
      }
    }

    /** Moves the frame to the front: it is now the most recently used. */
    method RecordAccess(f: nat)
      requires Valid()
      modifies this
      ensures Valid()
      ensures lruMap == old(lruMap) + {f} && evictable == old(evictable)
      ensures stamp == old(stamp)[f := old(clock)] && clock == old(clock) + 1
    {
      if f in lruMap {
        var i := Find(f);
        Unlink(i);
      }
      assert f !in lruMap && stamp[f := clock] == old(stamp)[f := clock];
      OrderedPush(lruList, stamp, clock, f);
      lruList := [f] + lruList;
      lruMap := lruMap + {f};
      stamp := stamp[f := clock];
      clock := clock + 1;
    }

    method SetEvictable(f: nat, b: bool)
      requires Valid()
      modifies this`evictable
      ensures Valid()
      ensures evictable == if b then old(evictable) + {f} else old(evictable) - {f}
    {
      if b {
        evictable := evictable + {f};
      } else {
        evictable := evictable - {f};
      }
    }

    /** Forgets a frame altogether. */
    method Remove(f: nat)
      requires Valid()
      modifies this
      ensures Valid() && clock == old(clock)
      ensures lruMap == old(lruMap) - {f} && evictable == old(evictable) - {f}
      ensures stamp == old(stamp) - {f}
    {
      if f in lruMap {
        var i := Find(f);
        Unlink(i);
      }
      evictable := evictable - {f};
    }

    /** `lru_list_.erase(it->second)`: drops one list entry, and its key from the map. */
    method Unlink(i: nat)
      requires Valid() && i < |lruList|
      modifies this`lruList, this`lruMap, this`stamp
      ensures Valid()
      ensures lruMap == old(lruMap) - {old(lruList[i])} && stamp == old(stamp) - {old(lruList[i])}
    {
      OrderedRemove(lruList, stamp, clock, i);
      lruMap := lruMap - {lruList[i]};
      stamp := stamp - {lruList[i]};
      lruList := RemoveAt(lruList, i);
    }

    /** `lru_map_.find`: the list position of a known frame. */
    method Find(f: nat) returns (i: nat)
      requires Valid() && f in lruMap
      ensures i < |lruList| && lruList[i] == f
    {
      i := 0;
      while lruList[i] != f
        invariant 0 <= i < |lruList|
        invariant f !in lruList[..i]
        decreases |lruList| - i
      {
        i := i + 1;
      }
    }
  }
}
