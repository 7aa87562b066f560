/** Which page the buffer pool gives up (`src/storage/buffer_pool.cpp`, `src/storage/lru_replacer.cpp`),
  said in terms of pages: the replacer counts time in accesses to frames, and the page table
  says which page each frame holds.
 */
module Recency {
  import opened PoolState
  import opened LruReplacer

  /** When each resident page was last accessed, and the time now. */
  datatype Usage = Usage(last: map<nat, nat>, now: nat)

  function LastUses(table: map<nat, nat>, stamp: map<nat, nat>): map<nat, nat> {
    map p | p in table && table[p] in stamp :: stamp[table[p]]
  }

  /** Page `v` may be given up: it is not pinned, and no other such page was last accessed
      before it. */
  ghost predicate Victim(last: map<nat, nat>, pins: map<nat, nat>, v: nat) {
    v in last && v !in pins && forall q :: q in last && q !in pins ==> last[v] <= last[q]
  }

  /** A frame was found: one that was free, or that of the least recently used unpinned page. */
  ghost predicate Room(u: Usage, u': Usage, pins: map<nat, nat>, frames: nat) {
    && u'.now == u.now
    && if |u.last| < frames then u'.last == u.last
       else exists v: nat :: Victim(u.last, pins, v) && u'.last == u.last - {v}
  }

  /** Page `p` was accessed: it is the most recently used now, all other pages keep their time,
      and one is given up if `p` was not resident and no frame was free. */
  ghost predicate Used(u: Usage, u': Usage, pins: map<nat, nat>, frames: nat, p: nat) {
    && u'.now == u.now + 1
    && if p in u.last || |u.last| < frames then u'.last == u.last[p := u.now]
       else exists v: nat :: Victim(u.last, pins, v) && u'.last == (u.last - {v})[p := u.now]
  }

  lemma RoomUsed(u: Usage, u1: Usage, u2: Usage, pins: map<nat, nat>, frames: nat, p: nat)
    requires Room(u, u1, pins, frames) && p !in u.last && u2 == Usage(u1.last[p := u1.now], u1.now + 1)
    ensures Used(u, u2, pins, frames, p)
  {
    if |u.last| >= frames {
      var v: nat :| Victim(u.last, pins, v) && u1.last == u.last - {v};
      assert Victim(u.last, pins, v);
    }
  }

  // -------------------------------------------------------- frames and their pages

  /** Different pages are in different frames, all of which the replacer knows. */
  lemma FrameFacts(c: Pool, hole: int, p: nat, q: nat)
    requires Inv(c, hole) && p in c.table && q in c.table
    ensures c.table[p] < |c.frames| && c.table[p] != hole && c.table[p] in c.known && c.frames[c.table[p]].pageId == p
    ensures c.table[p] == c.table[q] ==> p == q
  {
    assert PageOk(c, p, hole) && PageOk(c, q, hole);
    assert FrameOk(c, c.table[p], hole);
  }

  lemma UsesKeys(c: Pool, hole: int, stamp: map<nat, nat>)
    requires Inv(c, hole) && stamp.Keys == c.known
    ensures LastUses(c.table, stamp).Keys == c.table.Keys
  {
    forall p | p in c.table ensures c.table[p] in stamp {
      FrameFacts(c, hole, p, p);
    }
  }

  lemma HitUse(c: Pool, stamp: map<nat, nat>, p: nat, now: nat)
    requires Inv(c, -1) && p in c.table && stamp.Keys == c.known
    ensures LastUses(c.table, stamp[c.table[p] := now]) == LastUses(c.table, stamp)[p := now]
  {
    forall q | q in c.table ensures c.table[q] in stamp && (c.table[q] == c.table[p] ==> q == p) {
      FrameFacts(c, -1, q, p);
    }
  }

  lemma InstallUse(c: Pool, stamp: map<nat, nat>, f: nat, p: nat, now: nat)
    requires Inv(c, f) && p !in c.table && stamp.Keys == c.known
    ensures LastUses(c.table[p := f], stamp[f := now]) == LastUses(c.table, stamp)[p := now]
  {
    forall q | q in c.table ensures c.table[q] in stamp && c.table[q] != f {
      FrameFacts(c, f, q, q);
    }
  }

  lemma ForgetUse(c: Pool, stamp: map<nat, nat>, v: nat)
    requires Inv(c, -1) && v in c.table && stamp.Keys == c.known
    ensures LastUses(c.table - {v}, stamp - {c.table[v]}) == LastUses(c.table, stamp) - {v}
  {
    forall q | q in c.table ensures c.table[q] in stamp && (c.table[q] == c.table[v] ==> q == v) {
      FrameFacts(c, -1, q, v);
    }
  }

  /** The least recently accessed evictable frame holds the least recently used unpinned page. */
  lemma OldestIsVictim(c: Pool, stamp: map<nat, nat>, f: nat)
    requires Inv(c, -1) && stamp.Keys == c.known && f in c.evictable && Oldest(stamp, c.evictable, f)
    ensures f < |c.frames| && c.frames[f].pageId >= 0 && c.frames[f].pageId in c.table && c.table[c.frames[f].pageId] == f
    ensures Victim(LastUses(c.table, stamp), c.pins, c.frames[f].pageId)
  {
    assert f in c.known && FrameOk(c, f, -1);
    var v := c.frames[f].pageId;
    assert PageOk(c, v, -1);
    forall q | q in LastUses(c.table, stamp) && q !in c.pins ensures stamp[f] <= stamp[c.table[q]] {
      FrameFacts(c, -1, q, q);
      assert PageOk(c, q, -1) && FrameOk(c, c.table[q], -1);
    }
  }

  /** No frame is free exactly when there are as many resident pages as frames. */
  lemma FreeIff(c: Pool)
    requires Inv(c, -1)
    ensures |c.table| <= |c.frames|
    ensures |c.table| == |c.frames| <==> c.free == []
  {
    var pages := c.table.Keys;
    forall p, q | p in pages && q in pages && c.table[p] == c.table[q] ensures p == q {
      FrameFacts(c, -1, p, q);
    }
    FramesForSize(pages, c.table);
    var used := FramesFor(pages, c.table);
    forall f: nat | f < |c.frames| ensures f in used <==> f !in c.free {
      assert FrameOk(c, f, -1);
      if f in used {
        var p :| p in pages && c.table[p] == f;
        FrameFacts(c, -1, p, p);
      }
    }
    forall f | f in used ensures f < |c.frames| {
      var p :| p in pages && c.table[p] == f;
      FrameFacts(c, -1, p, p);
    }
    AllUsed(|c.frames|, used, c.free, {});
  }

  /** GetFreeFrame with a free frame, and with a victim. */
  lemma TakenRoom(c: Pool, stamp: map<nat, nat>, now: nat)
    requires Inv(c, -1) && stamp.Keys == c.known && c.free != []
    ensures var u := Usage(LastUses(c.table, stamp), now); Room(u, u, c.pins, |c.frames|)
  {
    FreeIff(c);
    UsesKeys(c, -1, stamp);
    assert |LastUses(c.table, stamp).Keys| == |c.table.Keys|;
  }

  lemma EvictedRoom(c: Pool, stamp: map<nat, nat>, now: nat, f: nat)
    requires Inv(c, -1) && stamp.Keys == c.known && c.free == []
    requires f in c.evictable && Oldest(stamp, c.evictable, f) && f < |c.frames| && 0 <= c.frames[f].pageId < |c.disk|
    ensures var u, u' := Usage(LastUses(c.table, stamp), now), Usage(LastUses(Evicted(c, f).table, stamp - {f}), now);
            Room(u, u', c.pins, |c.frames|)
  {
    FreeIff(c);
    UsesKeys(c, -1, stamp);
    assert |LastUses(c.table, stamp).Keys| == |c.table.Keys|;
    OldestIsVictim(c, stamp, f);
    ForgetUse(c, stamp, c.frames[f].pageId);
    assert Victim(LastUses(c.table, stamp), c.pins, c.frames[f].pageId);
  }
}
