/** The lock-free hash table: `src/concurrency/lockfree_hashtable.cpp`, as a transition system.

  Nodes live in `heap` in order of allocation and are named by their position; `heads` are
  the bucket heads. Threads insert with the load / set-next / compare-exchange loop of the
  source, interleaved at will; a weak compare-exchange may fail for no reason. Atomic steps
  are sequentially consistent. The theorems hold for every hash function.
 */
module LockFreeTable {
  import opened Page
  import opened Bags
  import opened Basics

  datatype Node<V> = Node(key: int, value: V, next: Option<nat>)

  /** Where a thread is inside Insert. */
  datatype Pc =
    | Outside
    | Allocated(node: nat)
    | Loaded(node: nat, head: Option<nat>)
    | Linked(node: nat, head: Option<nat>)

  datatype Table<V> = Table(heap: seq<Node<V>>, heads: seq<Option<nat>>, pcs: seq<Pc>)

  // --------------------------------------------------------------------- steps

  /** `new Node{key, value}`. */
  function Allocate<V>(s: Table<V>, t: nat, key: int, value: V): Table<V>
    requires t < |s.pcs|
  {
    s.(heap := s.heap + [Node(key, value, None)], pcs := s.pcs[t := Allocated(|s.heap|)])
  }

  function BucketOf<V>(s: Table<V>, n: nat, hash: int -> nat): nat
    requires n < |s.heap|
  {
    hash(s.heap[n].key)
  }

  /** One step of a thread inside Insert: load the head, set `next`, or compare-exchange. The
      exchange may fail although the head is unchanged; then the head is loaded again. */
  ghost predicate Step<V(!new)>(s: Table<V>, s': Table<V>, t: nat, hash: int -> nat) {
    t < |s.pcs| &&
    match s.pcs[t]
    case Outside => false
    case Allocated(n) =>
      && n < |s.heap| && BucketOf(s, n, hash) < |s.heads|
      && s' == s.(pcs := s.pcs[t := Loaded(n, s.heads[BucketOf(s, n, hash)])])
    case Loaded(n, h) =>
      && n < |s.heap|
      && s' == s.(heap := s.heap[n := s.heap[n].(next := h)], pcs := s.pcs[t := Linked(n, h)])
    case Linked(n, h) =>
      && n < |s.heap| && BucketOf(s, n, hash) < |s.heads|
      && var b := BucketOf(s, n, hash);
         || (s.heads[b] == h && s' == s.(heads := s.heads[b := Some(n)], pcs := s.pcs[t := Outside]))
         || s' == s.(pcs := s.pcs[t := Loaded(n, s.heads[b])])
  }

  // ----------------------------------------------------------------- invariant

  /** Following `next` from `ptr` visits exactly the nodes of `list`, then ends. */
  ghost predicate ListAt<V>(heap: seq<Node<V>>, ptr: Option<nat>, list: seq<nat>)
    decreases |list|
  {
    if list == [] then ptr == None
    else ptr == Some(list[0]) && list[0] < |heap| && ListAt(heap, heap[list[0]].next, list[1..])
  }

  /** The node a thread is working on. */
  function Held(pc: Pc): Option<nat> {
    if pc.Outside? then None else Some(pc.node)
  }

  ghost predicate Distinct(list: seq<nat>) {
    forall i, j :: 0 <= i < j < |list| ==> list[i] != list[j]
  }

  /** Bucket `b` is a finite list without repetition of nodes whose keys hash to `b`. */
  ghost predicate BucketOk<V>(s: Table<V>, lists: seq<seq<nat>>, b: nat, hash: int -> nat)
    requires b < |lists| == |s.heads|
  {
    && ListAt(s.heap, s.heads[b], lists[b]) && Distinct(lists[b])
    && forall n :: n in lists[b] ==> n < |s.heap| && hash(s.heap[n].key) == b
  }

  /** A node held by a thread is not published; once linked, its `next` is the expected head. */
  ghost predicate HeldOk<V>(s: Table<V>, lists: seq<seq<nat>>, t: nat, hash: int -> nat)
    requires t < |s.pcs|
  {
    Held(s.pcs[t]).Some? ==>
      var n := Held(s.pcs[t]).value;
      && n < |s.heap| && hash(s.heap[n].key) < |s.heads| == |lists|
      && n !in lists[hash(s.heap[n].key)]
      && (s.pcs[t].Linked? ==> s.heap[n].next == s.pcs[t].head)
      && forall u :: 0 <= u < |s.pcs| && u != t ==> Held(s.pcs[u]) != Some(n)
  }

  /** Every node is published in its bucket or still held by the thread inserting it. */
  ghost predicate NodeOk<V>(s: Table<V>, lists: seq<seq<nat>>, n: nat, hash: int -> nat)
    requires n < |s.heap|
  {
    && hash(s.heap[n].key) < |lists|
    && (n in lists[hash(s.heap[n].key)] || exists t :: 0 <= t < |s.pcs| && Held(s.pcs[t]) == Some(n))
  }

  ghost predicate Inv<V>(s: Table<V>, lists: seq<seq<nat>>, hash: int -> nat) {
    && |lists| == |s.heads|
    && (forall b: nat :: b < |lists| ==> BucketOk(s, lists, b, hash))
    && (forall t: nat :: t < |s.pcs| ==> HeldOk(s, lists, t, hash))
    && (forall n: nat :: n < |s.heap| ==> NodeOk(s, lists, n, hash))
  }

  ghost predicate HashFits<V>(s: Table<V>, hash: int -> nat) {
    forall k: int :: hash(k) < |s.heads|
  }

  /** Lists do not change when nodes outside them do, or when nodes are added. */
  lemma {:induction false} ListFrame<V>(heap: seq<Node<V>>, heap': seq<Node<V>>, ptr: Option<nat>, list: seq<nat>)
    requires ListAt(heap, ptr, list) && |heap| <= |heap'|
    requires forall i :: 0 <= i < |list| ==> list[i] < |heap| ==> heap'[list[i]] == heap[list[i]]
    ensures ListAt(heap', ptr, list)
    decreases |list|
  {
    if list != [] {
      assert forall i :: 0 <= i < |list[1..]| ==> list[1..][i] == list[i + 1];
      ListFrame(heap, heap', heap[list[0]].next, list[1..]);
    }
  }

  // ------------------------------------------------------------- preservation

  lemma {:induction false} AllocateInv<V>(s: Table<V>, lists: seq<seq<nat>>, t: nat, key: int, value: V, hash: int -> nat)
    requires Inv(s, lists, hash) && HashFits(s, hash) && t < |s.pcs| && s.pcs[t].Outside?
    ensures Inv(Allocate(s, t, key, value), lists, hash)
  {
    var s' := Allocate(s, t, key, value);
    forall b: nat | b < |lists| ensures BucketOk(s', lists, b, hash) {
      assert BucketOk(s, lists, b, hash);
      ListFrame(s.heap, s'.heap, s.heads[b], lists[b]);
    }
    forall u: nat | u < |s'.pcs| ensures HeldOk(s', lists, u, hash) {
      assert HeldOk(s, lists, u, hash);
      NotPublished(s, lists, |s.heap|, hash(key), hash);
      forall w: nat | w < |s.pcs| && w != u ensures u == t || w == t ==> Held(s'.pcs[w]) != Held(s'.pcs[u]) || Held(s'.pcs[u]) == None {
        assert HeldOk(s, lists, w, hash);
      }
    }
    forall n: nat | n < |s'.heap| ensures NodeOk(s', lists, n, hash) {
      if n < |s.heap| {
        assert NodeOk(s, lists, n, hash);
        if n !in lists[hash(s.heap[n].key)] {
          var u :| 0 <= u < |s.pcs| && Held(s.pcs[u]) == Some(n);
          assert s'.pcs[u] == s.pcs[u];
        }
      } else {
        assert Held(s'.pcs[t]) == Some(n);
      }
    }
  }

  /** A node that does not exist yet is in no bucket. */
  lemma NotPublished<V>(s: Table<V>, lists: seq<seq<nat>>, n: nat, b: nat, hash: int -> nat)
    requires Inv(s, lists, hash) && n >= |s.heap| && b < |lists|
    ensures n !in lists[b]
  {
    assert BucketOk(s, lists, b, hash);
  }

  /** (Re)loading the bucket head. */
  lemma {:induction false} LoadInv<V>(s: Table<V>, lists: seq<seq<nat>>, t: nat, pc: Pc, hash: int -> nat)
    requires Inv(s, lists, hash) && t < |s.pcs| && pc.Loaded? && Held(pc) == Held(s.pcs[t])
    ensures Inv(s.(pcs := s.pcs[t := pc]), lists, hash)
  {
    var s' := s.(pcs := s.pcs[t := pc]);
    assert forall u :: 0 <= u < |s.pcs| ==> Held(s'.pcs[u]) == Held(s.pcs[u]);
    forall b: nat | b < |lists| ensures BucketOk(s', lists, b, hash) {
      assert BucketOk(s, lists, b, hash);
    }
    forall u: nat | u < |s'.pcs| ensures HeldOk(s', lists, u, hash) {
      assert HeldOk(s, lists, u, hash);
    }
    forall n: nat | n < |s'.heap| ensures NodeOk(s', lists, n, hash) {
      assert NodeOk(s, lists, n, hash);
    }
  }

  /** Setting `next` of a node that is not published. */
  lemma {:induction false} LinkInv<V>(s: Table<V>, lists: seq<seq<nat>>, t: nat, n: nat, h: Option<nat>, hash: int -> nat)
    requires Inv(s, lists, hash) && t < |s.pcs| && s.pcs[t] == Loaded(n, h) && n < |s.heap|
    ensures Inv(s.(heap := s.heap[n := s.heap[n].(next := h)], pcs := s.pcs[t := Linked(n, h)]), lists, hash)
  {
    var s' := s.(heap := s.heap[n := s.heap[n].(next := h)], pcs := s.pcs[t := Linked(n, h)]);
    assert forall u :: 0 <= u < |s.pcs| ==> Held(s'.pcs[u]) == Held(s.pcs[u]);
    assert HeldOk(s, lists, t, hash);
    forall b: nat | b < |lists| ensures BucketOk(s', lists, b, hash) {
      assert BucketOk(s, lists, b, hash);
      assert n !in lists[b];
      ListFrame(s.heap, s'.heap, s.heads[b], lists[b]);
    }
    forall u: nat | u < |s'.pcs| ensures HeldOk(s', lists, u, hash) {
      assert HeldOk(s, lists, u, hash);
    }
    forall m: nat | m < |s'.heap| ensures NodeOk(s', lists, m, hash) {
      assert NodeOk(s, lists, m, hash);
    }
  }

  /** A successful compare-exchange puts the node in front of its bucket. */
  lemma {:induction false} PublishInv<V>(s: Table<V>, lists: seq<seq<nat>>, t: nat, n: nat, hash: int -> nat)
    requires Inv(s, lists, hash) && t < |s.pcs| && n < |s.heap| && BucketOf(s, n, hash) < |s.heads|
    requires s.pcs[t] == Linked(n, s.heads[BucketOf(s, n, hash)])
    ensures var b := BucketOf(s, n, hash);
            Inv(s.(heads := s.heads[b := Some(n)], pcs := s.pcs[t := Outside]), lists[b := [n] + lists[b]], hash)
  {
    var b := BucketOf(s, n, hash);
    var s', lists' := s.(heads := s.heads[b := Some(n)], pcs := s.pcs[t := Outside]), lists[b := [n] + lists[b]];
    assert HeldOk(s, lists, t, hash);
    forall c: nat | c < |lists'| ensures BucketOk(s', lists', c, hash) {
      assert BucketOk(s, lists, c, hash);
      if c == b { assert lists'[b][1..] == lists[b]; }
    }
    forall u: nat | u < |s'.pcs| ensures HeldOk(s', lists', u, hash) {
      assert HeldOk(s, lists, u, hash);
    }
    forall m: nat | m < |s'.heap| ensures NodeOk(s', lists', m, hash) {
      assert NodeOk(s, lists, m, hash);
      if m !in lists'[hash(s.heap[m].key)] {
        var u :| 0 <= u < |s.pcs| && Held(s.pcs[u]) == Some(m);
        assert m != n;
        assert s'.pcs[u] == s.pcs[u];
      }
    }
  }

  /** Every step keeps the buckets acyclic and disjoint and loses no node, whether the
      compare-exchange succeeds, fails, or fails spuriously. */
  lemma {:induction false} StepInv<V(!new)>(s: Table<V>, s': Table<V>, t: nat, lists: seq<seq<nat>>, hash: int -> nat) returns (lists': seq<seq<nat>>)
    requires Inv(s, lists, hash) && Step(s, s', t, hash)
    ensures Inv(s', lists', hash) && |s'.heads| == |s.heads| && |s'.heap| == |s.heap|
    ensures forall n :: 0 <= n < |s.heap| ==> s'.heap[n].key == s.heap[n].key && s'.heap[n].value == s.heap[n].value
    ensures forall b :: 0 <= b < |lists| ==> |lists'| == |lists| && (lists'[b] == lists[b] || (|lists'[b]| > 0 && lists'[b][1..] == lists[b]))
  {
    lists' := lists;
    match s.pcs[t]
    case Allocated(n) =>
      LoadInv(s, lists, t, s'.pcs[t], hash);
    case Loaded(n, h) =>
      LinkInv(s, lists, t, n, h, hash);
    case Linked(n, h) =>
      var b := BucketOf(s, n, hash);
      if s.heads[b] == h && s' == s.(heads := s.heads[b := Some(n)], pcs := s.pcs[t := Outside]) {
        PublishInv(s, lists, t, n, hash);
        lists' := lists[b := [n] + lists[b]];
        assert lists'[b][1..] == lists[b];
      } else {
        LoadInv(s, lists, t, s'.pcs[t], hash);
      }
  }

  lemma StartInv<V>(s: Table<V>, hash: int -> nat)
    requires s.heap == [] && (forall b :: 0 <= b < |s.heads| ==> s.heads[b] == None)
    requires forall t :: 0 <= t < |s.pcs| ==> s.pcs[t].Outside?
    ensures Inv(s, seq(|s.heads|, _ => []), hash)
  {
    var lists: seq<seq<nat>> := seq(|s.heads|, _ => []);
    forall b: nat | b < |lists| ensures BucketOk(s, lists, b, hash) {
    }
  }

  // -------------------------------------------------------------------- lookup

  /** The value of a node if it has the key. */
  function Match<V>(heap: seq<Node<V>>, key: int): nat -> seq<V> {
    (n: nat) => if n < |heap| && heap[n].key == key then [heap[n].value] else []
  }

  /** Walks a bucket and collects the values under the key. */
  method Lookup<V>(s: Table<V>, key: int, ghost lists: seq<seq<nat>>, hash: int -> nat) returns (out: seq<V>)
    requires hash(key) < |s.heads| == |lists| && ListAt(s.heap, s.heads[hash(key)], lists[hash(key)])
    ensures out == FlatMap(Match(s.heap, key), lists[hash(key)])
  {
    ghost var list := lists[hash(key)];
    ghost var f := Match(s.heap, key);
    out := [];
    var cur := s.heads[hash(key)];
    ghost var i := 0;
    while cur.Some?
      invariant i <= |list| && ListAt(s.heap, cur, list[i..])
      invariant out == FlatMap(f, list[..i])
      decreases |list| - i
    {
      var n := cur.value;
      assert list[i..][0] == n && list[i..][1..] == list[i + 1..];
      if s.heap[n].key == key { out := out + [s.heap[n].value]; }
      assert list[..i + 1] == list[..i] + [n];
      FlatMapConcat<nat, V>(f, list[..i], [n]);
      FlatMapOne<nat, V>(f, n);
      cur := s.heap[n].next;
      i := i + 1;
    }
    assert list[..i] == list;
  }

  /** `Clear`: takes every bucket off and frees the nodes on it. */
  method Clear<V>(s: Table<V>, ghost lists: seq<seq<nat>>) returns (s': Table<V>, freed: seq<nat>)
    requires |lists| == |s.heads| && forall b :: 0 <= b < |lists| ==> ListAt(s.heap, s.heads[b], lists[b])
    ensures s'.heap == s.heap && s'.pcs == s.pcs && |s'.heads| == |s.heads|
    ensures forall b :: 0 <= b < |s'.heads| ==> s'.heads[b] == None
    ensures freed == Concat(lists)
  {
    s', freed := s, [];
    for b := 0 to |s.heads|
      invariant s' == s.(heads := s'.heads) && |s'.heads| == |s.heads|
      invariant forall c :: 0 <= c < b ==> s'.heads[c] == None
      invariant forall c :: b <= c < |s.heads| ==> s'.heads[c] == s.heads[c]
      invariant freed == Concat(lists[..b])
    {
      var nodes := ClearBucket(s', b, lists[b]);
      s' := s'.(heads := s'.heads[b := None]);
      freed := freed + nodes;
      Snoc(lists, b);
      ConcatAppend(lists[..b], lists[b]);
    }
    assert lists[..|lists|] == lists;
  }

  /** When no thread is inserting, Clear frees every node ever allocated, each exactly once. */
  lemma ClearFreesAll<V>(s: Table<V>, lists: seq<seq<nat>>, hash: int -> nat)
    requires Inv(s, lists, hash) && Quiet(s)
    ensures multiset(Concat(lists)) == multiset(Upto(|s.heap|))
  {
    ConcatNodes(s, lists, |lists|, hash);
    assert lists[..|lists|] == lists;
    forall n: nat ensures n in Concat(lists) <==> n in Upto(|s.heap|) {
      InUpto(|s.heap|, n);
      assert n in Concat(lists) <==> PublishedBelow(s, lists, |lists|, n, hash);
      if n < |s.heap| { assert NodeOk(s, lists, n, hash); }
    }
    DistinctBag(Concat(lists), Upto(|s.heap|));
  }

  /** The first `b` buckets hold distinct nodes: those published under their hash values. */
  lemma {:induction false} ConcatNodes<V>(s: Table<V>, lists: seq<seq<nat>>, b: nat, hash: int -> nat)
    requires Inv(s, lists, hash) && b <= |lists|
    ensures Distinct(Concat(lists[..b]))
    ensures forall n: nat :: n in Concat(lists[..b]) <==> PublishedBelow(s, lists, b, n, hash)
  {
    if b == 0 {
      assert lists[..0] == [];
    } else {
      var some, last := Concat(lists[..b - 1]), lists[b - 1];
      ConcatNodes(s, lists, b - 1, hash);
      Snoc(lists, b - 1);
      ConcatAppend(lists[..b - 1], last);
      assert BucketOk(s, lists, b - 1, hash);
      forall n: nat | n in some ensures n !in last {
        assert PublishedBelow(s, lists, b - 1, n, hash);
      }
      DistinctConcat(some, last);
      forall n: nat ensures n in some + last <==> PublishedBelow(s, lists, b, n, hash) {
        assert n in some <==> PublishedBelow(s, lists, b - 1, n, hash);
      }
    }
  }

  ghost predicate PublishedBelow<V>(s: Table<V>, lists: seq<seq<nat>>, b: nat, n: nat, hash: int -> nat)
    requires b <= |lists|
  {
    n < |s.heap| && hash(s.heap[n].key) < b && n in lists[hash(s.heap[n].key)]
  }

  lemma DistinctConcat(a: seq<nat>, b: seq<nat>)
    requires Distinct(a) && Distinct(b) && forall n :: n in a ==> n !in b
    ensures Distinct(a + b)
  {
    var c := a + b;
    forall i, j | 0 <= i < j < |c| ensures c[i] != c[j] {
      if i < |a| <= j { assert a[i] in a && b[j - |a|] in b; }
    }
  }

  /** One bucket of Clear: every node of it is freed once. */
  method ClearBucket<V>(s: Table<V>, b: nat, ghost list: seq<nat>) returns (freed: seq<nat>)
    requires b < |s.heads| && ListAt(s.heap, s.heads[b], list)
    ensures freed == list
  {
    freed := [];
    var cur: Option<nat> := s.heads[b];
    while cur.Some?
      invariant |freed| <= |list| && freed == list[..|freed|] && ListAt(s.heap, cur, list[|freed|..])
      decreases |list| - |freed|
    {
      ghost var rest := list[|freed|..];
      assert rest[0] == cur.value && rest[1..] == list[|freed| + 1..];
      freed := freed + [cur.value];
      cur := s.heap[cur.value].next;
    }
  }

  ghost predicate Quiet<V>(s: Table<V>) {
    forall t :: 0 <= t < |s.pcs| ==> s.pcs[t].Outside?
  }

  /** Once no thread is inserting, a lookup returns exactly the values inserted under the key,
      each once: those of all nodes ever allocated with that key. */
  lemma LookupComplete<V>(s: Table<V>, lists: seq<seq<nat>>, key: int, hash: int -> nat)
    requires Inv(s, lists, hash) && Quiet(s) && hash(key) < |s.heads|
    ensures multiset(FlatMap(Match(s.heap, key), lists[hash(key)])) ==
            multiset(FlatMap(Match(s.heap, key), Upto(|s.heap|)))
  {
    var f, list := Match(s.heap, key), lists[hash(key)];
    assert BucketOk(s, lists, hash(key), hash);
    var mine := Only(Upto(|s.heap|), s.heap, key);
    var theirs := Only(list, s.heap, key);
    OnlyFlat(Upto(|s.heap|), s.heap, key);
    OnlyFlat(list, s.heap, key);
    OnlyIs(Upto(|s.heap|), s.heap, key);
    OnlyIs(list, s.heap, key);
    forall n: nat ensures n in mine <==> n in theirs {
      InUpto(|s.heap|, n);
      if n < |s.heap| { assert NodeOk(s, lists, n, hash); }
    }
    DistinctBag(mine, theirs);
    FlatMapBag<nat, V>(f, mine, theirs);
  }

  lemma InUpto(m: nat, n: nat)
    ensures n in Upto(m) <==> n < m
  {
    if n < m { assert Upto(m)[n] == n; }
  }

  /** The nodes of a list that have the key. */
  ghost function Only<V>(list: seq<nat>, heap: seq<Node<V>>, key: int): seq<nat> {
    if list == [] then []
    else (if list[0] < |heap| && heap[list[0]].key == key then [list[0]] else []) + Only(list[1..], heap, key)
  }

  lemma {:induction false} OnlyFlat<V>(list: seq<nat>, heap: seq<Node<V>>, key: int)
    ensures FlatMap(Match(heap, key), Only(list, heap, key)) == FlatMap(Match(heap, key), list)
  {
    if list != [] {
      OnlyFlat(list[1..], heap, key);
      var rest := Only(list[1..], heap, key);
      if list[0] < |heap| && heap[list[0]].key == key {
        assert ([list[0]] + rest)[1..] == rest;
      } else {
        assert [] + rest == rest;
      }
    }
  }

  lemma {:induction false} OnlyIs<V>(list: seq<nat>, heap: seq<Node<V>>, key: int)
    requires Distinct(list)
    ensures Distinct(Only(list, heap, key))
    ensures forall n :: n in Only(list, heap, key) <==> n in list && n < |heap| && heap[n].key == key
  {
    if list != [] {
      OnlyIs(list[1..], heap, key);
      assert list == [list[0]] + list[1..];
      assert list[0] !in list[1..];
    }
  }
}
