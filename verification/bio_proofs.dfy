/** Properties of the buffer cache model: the partition invariant and how
    every operation keeps it, what a hit and an eviction change, which
    buffer is evicted, when bget panics, and that a block is never cached
    twice. */
module BufferCacheProofs {
  import opened Prelude
  import opened BufferCache

  /** A buffer sits in a bucket exactly when that bucket is its block's hash bucket. */
  lemma OnlyInOwnBucket(c: Cache, x: BufId, i: nat)
    requires Wf(c) && x < NBUF && i < NBUCKET
    ensures x in c.buckets[i] <==> i == Hash(c.bufs[x].blockno)
  {
    PartitionedMembers(c.buckets);
    assert x in Order(c.buckets);
    assert Order(c.buckets) == Flat<BufId>(c.buckets);
    var j := FindList<BufId>(c.buckets, x);
    var k :| 0 <= k < |c.buckets[j]| && c.buckets[j][k] == x;
    assert Hash(c.bufs[x].blockno) == j;
  }

  /** After binit the cache invariant holds, with every buffer in bucket 0. */
  lemma BinitWf()
    ensures Wf(Binit())
    ensures NoDuplicateBlocks(Binit())
  {
    InitialStateWf(Binit());
  }

  lemma InitialStateWf(c: Cache)
    requires |c.bufs| == NBUF && |c.buckets| == NBUCKET
    requires forall x: BufId :: Count(c.buckets[0], x) == (if x < NBUF then 1 else 0)
    requires forall i | 1 <= i < NBUCKET :: c.buckets[i] == []
    requires forall b | 0 <= b < NBUF :: c.bufs[b].blockno == 0 && c.bufs[b].dev == 0
    ensures Wf(c) && NoDuplicateBlocks(c)
  {
    BinitPartitioned(c.buckets);
    BinitHashed(c);
  }

  lemma BinitPartitioned(bs: seq<seq<BufId>>)
    requires |bs| == NBUCKET
    requires forall x: BufId :: Count(bs[0], x) == (if x < NBUF then 1 else 0)
    requires forall i | 1 <= i < NBUCKET :: bs[i] == []
    ensures Partitioned(bs)
  {
    var rest := bs[1..];
    FlatOfEmpties<BufId>(rest);
    assert Order(bs) == bs[0] + Flat(rest);
    assert Order(bs) == bs[0];
    forall k | 0 <= k < |bs[0]|
      ensures bs[0][k] < NBUF
    {
      assert Count(bs[0], bs[0][k]) > 0;
    }
  }

  lemma BinitHashed(c: Cache)
    requires |c.bufs| == NBUF && |c.buckets| == NBUCKET
    requires forall x: BufId :: Count(c.buckets[0], x) == (if x < NBUF then 1 else 0)
    requires forall i | 1 <= i < NBUCKET :: c.buckets[i] == []
    requires forall b | 0 <= b < NBUF :: c.bufs[b].blockno == 0
    ensures Hashed(c)
  {
    forall i, k | 0 <= i < |c.buckets| && 0 <= k < |c.buckets[i]|
      ensures c.buckets[i][k] < |c.bufs| && Hash(c.bufs[c.buckets[i][k]].blockno) == i
    {
      assert i == 0;
      assert Count(c.buckets[0], c.buckets[i][k]) > 0;
    }
  }

  /** A hit, on the fast path or on the slow path's re-check: bget returns the
      first buffer of the block's bucket that holds the block, with one more
      reference and its sleep lock taken; no bucket and no other buffer
      changes. */
  lemma BgetHit(c: Cache, dev: u32, blockno: u32)
    requires Wf(c)
    requires exists k | 0 <= k < |c.buckets[Hash(blockno)]| :: Holds(c.bufs[c.buckets[Hash(blockno)][k]], dev, blockno)
    ensures var list := c.buckets[Hash(blockno)];
      var r := Bget(c, dev, blockno);
      && r.Ok?
      && SlowPath(c, dev, blockno) == r
      && (exists k | 0 <= k < |list| :: list[k] == r.b && forall j | 0 <= j < k :: !Holds(c.bufs[list[j]], dev, blockno))
      && Holds(c.bufs[r.b], dev, blockno)
      && r.cache.buckets == c.buckets
      && r.cache.bufs[r.b] == c.bufs[r.b].(refcnt := Inc32(c.bufs[r.b].refcnt), locked := true)
      && (forall o | 0 <= o < NBUF && o != r.b :: r.cache.bufs[o] == c.bufs[o])
  {
    var list := c.buckets[Hash(blockno)];
    var k := HitIndex(c, dev, blockno);
    var b := list[k];
    var after := Hit(c, b);
    assert after.bufs == c.bufs[b := c.bufs[b].(refcnt := Inc32(c.bufs[b].refcnt), locked := true)];
  }

  /** On a hit both paths stop at the same position of the block's bucket. */
  lemma HitIndex(c: Cache, dev: u32, blockno: u32) returns (k: nat)
    requires Wf(c)
    requires exists k | 0 <= k < |c.buckets[Hash(blockno)]| :: Holds(c.bufs[c.buckets[Hash(blockno)][k]], dev, blockno)
    ensures k < |c.buckets[Hash(blockno)]|
    ensures var b := c.buckets[Hash(blockno)][k];
      && Holds(c.bufs[b], dev, blockno)
      && (forall j | 0 <= j < k :: !Holds(c.bufs[c.buckets[Hash(blockno)][j]], dev, blockno))
      && Bget(c, dev, blockno) == Ok(b, Hit(c, b))
      && SlowPath(c, dev, blockno) == Ok(b, Hit(c, b))
  {
    k := Lookup(c.bufs, c.buckets[Hash(blockno)], dev, blockno).value;
  }

  /** A miss: the victim Victim picks over all buckets is unlinked from its
      old bucket and pushed at the head of the block's bucket, relabelled
      with the block, not valid, one reference, sleep lock taken, its idle
      stamp kept; every other buffer keeps its fields, and every bucket keeps
      its other buffers in their order. */
  lemma BgetEvicts(c: Cache, dev: u32, blockno: u32)
    requires Wf(c)
    requires forall k | 0 <= k < |c.buckets[Hash(blockno)]| :: !Holds(c.bufs[c.buckets[Hash(blockno)][k]], dev, blockno)
    requires exists b: BufId | b < NBUF :: Free(c.bufs[b])
    ensures var order := Order(c.buckets);
      var p := Victim(c.bufs, order, LEAST_TICKS);
      var r := Bget(c, dev, blockno);
      && p.Some?
      && r == Ok(order[p.value], r.cache)
      && |r.cache.buckets| == NBUCKET
      && |r.cache.buckets[Hash(blockno)]| > 0
      && r.cache.buckets[Hash(blockno)][0] == r.b
      && r.cache.bufs[r.b] == Buf(dev, blockno, false, 1, c.bufs[r.b].lastuse, true)
      && (forall o | 0 <= o < NBUF && o != r.b :: r.cache.bufs[o] == c.bufs[o])
      && (forall i | 0 <= i < NBUCKET :: Without<BufId>(r.cache.buckets[i], r.b) == Without<BufId>(c.buckets[i], r.b))
  {
    var v := BgetMiss(c, dev, blockno);
    EvictEffects(c, v, dev, blockno);
  }

  /** The buffer a miss evicts was unreferenced and released no later than
      any other unreferenced buffer of the pool, whichever bucket it is in. */
  lemma BgetEvictsLeastRecent(c: Cache, dev: u32, blockno: u32)
    requires Wf(c)
    requires forall k | 0 <= k < |c.buckets[Hash(blockno)]| :: !Holds(c.bufs[c.buckets[Hash(blockno)][k]], dev, blockno)
    requires exists b: BufId | b < NBUF :: Free(c.bufs[b])
    ensures var r := Bget(c, dev, blockno);
      && r.Ok? && Free(c.bufs[r.b])
      && forall o: BufId | o < NBUF && Free(c.bufs[o]) :: c.bufs[r.b].lastuse <= c.bufs[o].lastuse
  {
    var v := BgetMiss(c, dev, blockno);
    PartitionedMembers(c.buckets);
    var order := Order(c.buckets);
    var p := Victim(c.bufs, order, LEAST_TICKS).value;
    forall o: BufId | o < NBUF && Free(c.bufs[o])
      ensures c.bufs[v].lastuse <= c.bufs[o].lastuse
    {
      assert o in order;
      VictimIsLeast(c.bufs, order, LEAST_TICKS, o);
    }
  }

  /** The buffer Victim picks has a stamp no larger than that of any
      unreferenced buffer of the scan, before or after it. */
  lemma VictimIsLeast(bufs: seq<Buf>, order: seq<BufId>, bound: int, o: BufId)
    requires forall k | 0 <= k < |order| :: order[k] < |bufs|
    requires Victim(bufs, order, bound).Some?
    requires o in order && o < |bufs| && Free(bufs[o])
    ensures bufs[order[Victim(bufs, order, bound).value]].lastuse <= bufs[o].lastuse
  {
    var p := Victim(bufs, order, bound).value;
    var k :| 0 <= k < |order| && order[k] == o;
    if k < p {
      assert bufs[order[p]].lastuse < bufs[order[k]].lastuse;
    } else if k > p {
      assert bufs[order[p]].lastuse <= bufs[order[k]].lastuse;
    }
  }

  /** On a miss with some unreferenced buffer, bget evicts the buffer Victim
      picks; the result names that buffer's id. */
  lemma BgetMiss(c: Cache, dev: u32, blockno: u32) returns (v: BufId)
    requires Wf(c)
    requires forall k | 0 <= k < |c.buckets[Hash(blockno)]| :: !Holds(c.bufs[c.buckets[Hash(blockno)][k]], dev, blockno)
    requires exists b: BufId | b < NBUF :: Free(c.bufs[b])
    ensures var p := Victim(c.bufs, Order(c.buckets), LEAST_TICKS);
      && p.Some? && v == Order(c.buckets)[p.value] && v < NBUF
      && Bget(c, dev, blockno) == Ok(v, Evict(c, v, dev, blockno))
  {
    PartitionedMembers(c.buckets);
    var order := Order(c.buckets);
    var b: BufId :| b < NBUF && Free(c.bufs[b]);
    assert b in order;
    var kb :| 0 <= kb < |order| && order[kb] == b;
    var p := Victim(c.bufs, order, LEAST_TICKS);
    assert p.Some?;
    v := order[p.value];
  }

  /** Evict's effect on the pool: `v` at the head of the block's bucket,
      relabelled and referenced once, everything else as it was. */
  lemma EvictEffects(c: Cache, v: BufId, dev: u32, blockno: u32)
    requires Wf(c) && v < NBUF
    ensures var r := Evict(c, v, dev, blockno);
      && |r.buckets| == NBUCKET
      && |r.buckets[Hash(blockno)]| > 0
      && r.buckets[Hash(blockno)][0] == v
      && r.bufs[v] == Buf(dev, blockno, false, 1, c.bufs[v].lastuse, true)
      && (forall o | 0 <= o < NBUF && o != v :: r.bufs[o] == c.bufs[o])
      && (forall i | 0 <= i < NBUCKET :: Without<BufId>(r.buckets[i], v) == Without<BufId>(c.buckets[i], v))
  {
    var src := Hash(c.bufs[v].blockno);
    var id := Hash(blockno);
    var w := Without<BufId>(c.buckets[src], v);
    var unlinked := c.buckets[src := w];
    var r := Evict(c, v, dev, blockno);
    assert r.buckets == unlinked[id := [v] + unlinked[id]];
    forall i | 0 <= i < NBUCKET
      ensures Without<BufId>(r.buckets[i], v) == Without<BufId>(c.buckets[i], v)
    {
      if i == src {
        WithoutTwice<BufId>(c.buckets[src], v);
      }
      if i == id {
        assert ([v] + unlinked[id])[1..] == unlinked[id];
        if id == src {
          WithoutTwice<BufId>(c.buckets[src], v);
        }
      }
    }
  }

  /** The eviction keeps the cache invariant. */
  lemma EvictWf(c: Cache, v: BufId, dev: u32, blockno: u32)
    requires Wf(c) && v < NBUF
    ensures Wf(Evict(c, v, dev, blockno))
  {
    EvictPartitioned(c, v, dev, blockno);
    EvictHashed(c, v, dev, blockno);
  }

  /** Unlinking the victim and pushing it on another bucket keeps every
      buffer in the buckets exactly once. */
  lemma EvictPartitioned(c: Cache, v: BufId, dev: u32, blockno: u32)
    requires Wf(c) && v < NBUF
    ensures Partitioned(Evict(c, v, dev, blockno).buckets)
  {
    var src := Hash(c.bufs[v].blockno);
    OnlyInOwnBucket(c, v, src);
    MovePartitioned(c.buckets, src, Hash(blockno), v);
  }

  /** Moving an element from list `src` to the head of list `dst` keeps a
      partition of the pool a partition. */
  lemma MovePartitioned(bs: seq<seq<BufId>>, src: nat, dst: nat, v: BufId)
    requires Partitioned(bs) && src < |bs| && dst < |bs| && v in bs[src]
    ensures var unlinked := bs[src := Without<BufId>(bs[src], v)];
      Partitioned(unlinked[dst := [v] + unlinked[dst]])
  {
    var w := Without<BufId>(bs[src], v);
    var unlinked := bs[src := w];
    var moved := [v] + unlinked[dst];
    var bs2 := unlinked[dst := moved];
    CountInFlat<BufId>(bs, src, v);
    assert Count(bs[src], v) == 1 by {
      assert Count(Order(bs), v) == 1;
      assert v in multiset(bs[src]);
    }
    forall x: BufId
      ensures Count(Order(bs2), x) == Count(Order(bs), x)
    {
      ReplaceCount(bs, src, w, x);
      ReplaceCount(unlinked, dst, moved, x);
      assert Count(w, x) == if x == v then 0 else Count(bs[src], x);
      assert Count(moved, x) == Count(unlinked[dst], x) + (if x == v then 1 else 0);
    }
    forall k | 0 <= k < |Order(bs2)|
      ensures Order(bs2)[k] < NBUF
    {
      var x := Order(bs2)[k];
      assert Count(Order(bs2), x) > 0;
      assert Count(Order(bs), x) > 0;
    }
  }

  /** Replacing list `i` by `ys` changes how often `x` occurs in the whole by
      the difference between the two lists. */
  lemma ReplaceCount(bs: seq<seq<BufId>>, i: nat, ys: seq<BufId>, x: BufId)
    requires i < |bs|
    ensures Count(Order(bs[i := ys]), x) + Count(bs[i], x) == Count(Order(bs), x) + Count(ys, x)
  {
    FlatUpdate<BufId>(bs, i, ys);
    var after: multiset<BufId> := multiset(Order(bs[i := ys]));
    var before: multiset<BufId> := multiset(Order(bs));
    var gone: multiset<BufId> := multiset(bs[i]);
    var added: multiset<BufId> := multiset(ys);
    assert after + gone == before + added;
    assert (after + gone)[x] == (before + added)[x];
  }

  /** After the eviction every buffer still sits in its block's hash bucket. */
  lemma EvictHashed(c: Cache, v: BufId, dev: u32, blockno: u32)
    requires Wf(c) && v < NBUF
    ensures Hashed(Evict(c, v, dev, blockno))
  {
    var bs := c.buckets;
    var src := Hash(c.bufs[v].blockno);
    var id := Hash(blockno);
    var w := Without<BufId>(bs[src], v);
    var unlinked := bs[src := w];
    var bs2 := unlinked[id := [v] + unlinked[id]];
    var r := Evict(c, v, dev, blockno);
    assert r.buckets == bs2;
    forall i | 0 <= i < NBUCKET && i != id
      ensures v !in bs2[i]
    {
      OnlyInOwnBucket(c, v, i);
    }
    forall i, k | 0 <= i < |bs2| && 0 <= k < |bs2[i]|
      ensures bs2[i][k] < |r.bufs| && Hash(r.bufs[bs2[i][k]].blockno) == i
    {
      var x := bs2[i][k];
      assert x in bs2[i];
      if x != v {
        assert x in bs[i];
        OnlyInOwnBucket(c, x, i);
      }
    }
  }

  /** bget keeps the cache invariant. */
  lemma BgetWf(c: Cache, dev: u32, blockno: u32)
    requires Wf(c)
    ensures Bget(c, dev, blockno).Ok? ==> Wf(Bget(c, dev, blockno).cache)
  {
    if FastPath(c, dev, blockno).NotCached? {
      PartitionedMembers(c.buckets);
      var order := Order(c.buckets);
      var p := Victim(c.bufs, order, LEAST_TICKS);
      if p.Some? {
        EvictWf(c, order[p.value], dev, blockno);
      }
    }
  }

  /** bread, brelse, bpin and bunpin keep the cache invariant. brelse, bpin
      and bunpin leave every block label as it was; bread relabels only
      through bget, so none of them makes two buffers share a label other
      than (0, 0). */
  lemma OpsWf(c: Cache, b: BufId, dev: u32, blockno: u32, ticks: u32)
    requires Wf(c) && b < NBUF
    ensures Bread(c, dev, blockno).Read? ==> Wf(Bread(c, dev, blockno).cache)
    ensures Brelse(c, b, ticks).Done? ==> Wf(Brelse(c, b, ticks).cache)
    ensures Wf(Bpin(c, b)) && Wf(Bunpin(c, b))
    ensures NoDuplicateBlocks(c) ==>
      && (Bread(c, dev, blockno).Read? ==> NoDuplicateBlocks(Bread(c, dev, blockno).cache))
      && (Brelse(c, b, ticks).Done? ==> NoDuplicateBlocks(Brelse(c, b, ticks).cache))
      && NoDuplicateBlocks(Bpin(c, b)) && NoDuplicateBlocks(Bunpin(c, b))
  {
    BgetWf(c, dev, blockno);
    var rd := Bread(c, dev, blockno);
    if rd.Read? {
      SameLabels(Bget(c, dev, blockno).cache, rd.cache);
      if NoDuplicateBlocks(c) {
        BgetNoDuplicates(c, dev, blockno);
      }
    }
    var rl := Brelse(c, b, ticks);
    if rl.Done? {
      SameLabels(c, rl.cache);
    }
    SameLabels(c, Bpin(c, b));
    SameLabels(c, Bunpin(c, b));
  }

  /** A step that keeps the buckets and every buffer's label keeps the cache
      invariant, and keeps or breaks NoDuplicateBlocks exactly as before. */
  lemma SameLabels(c: Cache, d: Cache)
    requires Wf(c)
    requires d.buckets == c.buckets && |d.bufs| == |c.bufs|
    requires forall o | 0 <= o < |c.bufs| :: c.bufs[o].dev == d.bufs[o].dev && c.bufs[o].blockno == d.bufs[o].blockno
    ensures Wf(d)
    ensures NoDuplicateBlocks(c) <==> NoDuplicateBlocks(d)
  {
  }

  /** Some buffer of the eviction scan is unreferenced exactly when some
      buffer of the pool is. */
  lemma FreeInOrder(c: Cache)
    requires Wf(c)
    ensures (exists k | 0 <= k < |Order(c.buckets)| :: Free(c.bufs[Order(c.buckets)[k]]))
       <==> (exists b: BufId | b < NBUF :: Free(c.bufs[b]))
  {
    PartitionedMembers(c.buckets);
    var order := Order(c.buckets);
    if exists b: BufId | b < NBUF :: Free(c.bufs[b]) {
      var b: BufId :| b < NBUF && Free(c.bufs[b]);
      assert b in order;
      var k :| 0 <= k < |order| && order[k] == b;
      assert Free(c.bufs[order[k]]);
    }
  }

  /** bget panics exactly when the block is not in its bucket and no buffer
      of the pool is unreferenced. */
  lemma BgetPanicsIff(c: Cache, dev: u32, blockno: u32)
    requires Wf(c)
    ensures Bget(c, dev, blockno).Panic? <==>
      && (forall k | 0 <= k < |c.buckets[Hash(blockno)]| :: !Holds(c.bufs[c.buckets[Hash(blockno)][k]], dev, blockno))
      && (forall b: BufId | b < NBUF :: !Free(c.bufs[b]))
  {
    FreeInOrder(c);
    PartitionedMembers(c.buckets);
    var order := Order(c.buckets);
    var q := Victim(c.bufs, order, LEAST_TICKS);
    assert forall k | 0 <= k < |order| :: c.bufs[order[k]].lastuse < LEAST_TICKS;
    assert q.None? <==> forall k | 0 <= k < |order| :: !Free(c.bufs[order[k]]);
    if FastPath(c, dev, blockno).NotCached? {
      assert Lookup(c.bufs, c.buckets[Hash(blockno)], dev, blockno).None?;
      assert Bget(c, dev, blockno).Panic? <==> q.None?;
    }
  }

  /** A buffer holding a block sits in that block's bucket, so a block
      missing from its bucket is held by no buffer at all. */
  lemma MissMeansAbsent(c: Cache, dev: u32, blockno: u32)
    requires Wf(c)
    requires forall k | 0 <= k < |c.buckets[Hash(blockno)]| :: !Holds(c.bufs[c.buckets[Hash(blockno)][k]], dev, blockno)
    ensures forall o: BufId | o < NBUF :: !Holds(c.bufs[o], dev, blockno)
  {
    var list := c.buckets[Hash(blockno)];
    forall o: BufId | o < NBUF
      ensures !Holds(c.bufs[o], dev, blockno)
    {
      OnlyInOwnBucket(c, o, Hash(c.bufs[o].blockno));
      var home := c.buckets[Hash(c.bufs[o].blockno)];
      var k :| 0 <= k < |home| && home[k] == o;
      assert c.bufs[o].blockno == blockno ==> home == list;
    }
  }

  /** A miss labels exactly one buffer, the victim, with the block. */
  lemma EvictLabelsOne(c: Cache, v: BufId, dev: u32, blockno: u32)
    requires Wf(c) && v < NBUF
    requires forall k | 0 <= k < |c.buckets[Hash(blockno)]| :: !Holds(c.bufs[c.buckets[Hash(blockno)][k]], dev, blockno)
    ensures Carriers(Evict(c, v, dev, blockno), dev, blockno) == {v}
  {
    MissMeansAbsent(c, dev, blockno);
    var r := Evict(c, v, dev, blockno);
    assert forall o: BufId | o < NBUF && o != v :: r.bufs[o] == c.bufs[o];
    assert Holds(r.bufs[v], dev, blockno);
  }

  /** After bget no other buffer holds the block: on a miss always, on a hit
      whenever at most one buffer held it before. */
  lemma BgetUnique(c: Cache, dev: u32, blockno: u32)
    requires Wf(c)
    requires Bget(c, dev, blockno).Ok?
    requires FastPath(c, dev, blockno).Cached? ==> |Carriers(c, dev, blockno)| <= 1
    ensures Carriers(Bget(c, dev, blockno).cache, dev, blockno) == {Bget(c, dev, blockno).b}
  {
    var r := Bget(c, dev, blockno);
    if FastPath(c, dev, blockno).NotCached? {
      PartitionedMembers(c.buckets);
      EvictLabelsOne(c, r.b, dev, blockno);
    } else {
      assert Carriers(r.cache, dev, blockno) == Carriers(c, dev, blockno);
      SmallSet(Carriers(c, dev, blockno), r.b);
    }
  }

  /** Without the (0, 0) label binit leaves everywhere, a block has at most one holder. */
  lemma NoDuplicatesOneHolder(c: Cache, dev: u32, blockno: u32)
    requires NoDuplicateBlocks(c)
    requires dev != 0 || blockno != 0
    ensures |Carriers(c, dev, blockno)| <= 1
  {
    var s := Carriers(c, dev, blockno);
    if s != {} {
      var a :| a in s;
      forall b | b in s
        ensures b == a
      {
        assert !(a < b);
        assert !(b < a);
      }
      assert s == {a};
    }
  }

  /** bget never creates a second holder of a block. */
  lemma BgetNoDuplicates(c: Cache, dev: u32, blockno: u32)
    requires Wf(c) && NoDuplicateBlocks(c)
    requires Bget(c, dev, blockno).Ok?
    ensures NoDuplicateBlocks(Bget(c, dev, blockno).cache)
  {
    var r := Bget(c, dev, blockno);
    if FastPath(c, dev, blockno).NotCached? {
      PartitionedMembers(c.buckets);
      EvictLabelsOne(c, r.b, dev, blockno);
      var n := r.cache;
      assert n == Evict(c, r.b, dev, blockno);
      forall a, b | 0 <= a < b < |n.bufs| && Holds(n.bufs[a], n.bufs[b].dev, n.bufs[b].blockno)
        ensures n.bufs[a].dev == 0 && n.bufs[a].blockno == 0
      {
        assert Holds(n.bufs[a], dev, blockno) ==> b in Carriers(n, dev, blockno);
        assert Holds(n.bufs[b], dev, blockno) ==> a in Carriers(n, dev, blockno);
        assert a != r.b;
        assert b != r.b;
        assert n.bufs[a] == c.bufs[a] && n.bufs[b] == c.bufs[b];
      }
    }
  }

  /** bread issues a device read exactly when bget did not find the block
      in a buffer whose content is valid. */
  lemma BreadFetchesIff(c: Cache, dev: u32, blockno: u32)
    requires Wf(c)
    requires Bread(c, dev, blockno).Read?
    ensures Bread(c, dev, blockno).fetched <==>
      FastPath(c, dev, blockno).NotCached? || !c.bufs[FastPath(c, dev, blockno).b].valid
  {
  }

  /** brelse undoes a hit: the buffer gets back its reference count and an
      unheld sleep lock; its idle stamp moves to `ticks` only when the hit
      had taken it from no references. */
  lemma BgetBrelseRoundTrip(c: Cache, dev: u32, blockno: u32, ticks: u32)
    requires Wf(c)
    requires FastPath(c, dev, blockno).Cached?
    requires !c.bufs[FastPath(c, dev, blockno).b].locked
    ensures var b := FastPath(c, dev, blockno).b;
      var before := c.bufs[b];
      Brelse(Bget(c, dev, blockno).cache, b, ticks)
      == Done(c.(bufs := c.bufs[b := before.(lastuse := if before.refcnt == 0 then ticks else before.lastuse)]))
  {
    var b := FastPath(c, dev, blockno).b;
    var before := c.bufs[b];
    var h := Hit(c, b);
    assert Bget(c, dev, blockno).cache == h;
    IncDecInverse(before.refcnt);
    var held := h.bufs[b];
    assert held == before.(refcnt := Inc32(before.refcnt), locked := true);
    var stamp := if before.refcnt == 0 then ticks else before.lastuse;
    assert Brelse(h, b, ticks) == Done(h.(bufs := h.bufs[b := held.(locked := false, refcnt := before.refcnt, lastuse := stamp)]));
    assert h.bufs[b := held.(locked := false, refcnt := before.refcnt, lastuse := stamp)] == c.bufs[b := before.(lastuse := stamp)];
  }

  /** bunpin undoes bpin and bpin undoes bunpin. */
  lemma PinUnpinInverse(c: Cache, b: BufId)
    requires b < |c.bufs|
    ensures Bunpin(Bpin(c, b), b) == c
    ensures Bpin(Bunpin(c, b), b) == c
  {
    IncDecInverse(c.bufs[b].refcnt);
  }

  /** The source's bget panics "no buffers" on a miss although some buffer
      is unreferenced, whenever every unreferenced buffer was released at
      tick U32_MAX: `least_ticks` starts at U32_MAX and the comparison is
      strict, so none of them is a candidate. The corrected bget evicts. */
  lemma BgetAsWrittenStarves(c: Cache, dev: u32, blockno: u32)
    requires Wf(c)
    requires forall k | 0 <= k < |c.buckets[Hash(blockno)]| :: !Holds(c.bufs[c.buckets[Hash(blockno)][k]], dev, blockno)
    requires exists b: BufId | b < NBUF :: Free(c.bufs[b])
    requires forall b: BufId | b < NBUF && Free(c.bufs[b]) :: c.bufs[b].lastuse == U32_MAX
    ensures BgetAsWritten(c, dev, blockno).Panic?
    ensures Bget(c, dev, blockno).Ok?
  {
    BgetPanicsIff(c, dev, blockno);
    NoCandidateAsWritten(c);
    assert FastPath(c, dev, blockno).NotCached?;
  }

  /** With every unreferenced buffer stamped U32_MAX, the source's eviction
      scan finds no candidate. */
  lemma NoCandidateAsWritten(c: Cache)
    requires Wf(c)
    requires forall b: BufId | b < NBUF && Free(c.bufs[b]) :: c.bufs[b].lastuse == U32_MAX
    ensures forall k | 0 <= k < |Order(c.buckets)| :: Order(c.buckets)[k] < |c.bufs|
    ensures Victim(c.bufs, Order(c.buckets), LEAST_TICKS_AS_WRITTEN).None?
  {
    PartitionedMembers(c.buckets);
    var order := Order(c.buckets);
    forall k | 0 <= k < |order| && Free(c.bufs[order[k]])
      ensures c.bufs[order[k]].lastuse >= LEAST_TICKS_AS_WRITTEN
    {
      var b: BufId := order[k];
      assert b < NBUF && Free(c.bufs[b]);
    }
  }

  /** While no unreferenced buffer carries the stamp U32_MAX, the source's
      bget and the corrected one agree. */
  lemma BgetAsWrittenAgrees(c: Cache, dev: u32, blockno: u32)
    requires Wf(c)
    requires forall b: BufId | b < NBUF :: Free(c.bufs[b]) ==> c.bufs[b].lastuse < U32_MAX
    ensures BgetAsWritten(c, dev, blockno) == Bget(c, dev, blockno)
  {
    PartitionedMembers(c.buckets);
    var order := Order(c.buckets);
    var p := Victim(c.bufs, order, LEAST_TICKS_AS_WRITTEN);
    var q := Victim(c.bufs, order, LEAST_TICKS);
    if p.Some? && q.Some? {
      assert !(p.value < q.value);
      assert !(q.value < p.value);
    }
  }

  /** The exact relation between the source's bget and the corrected one:
      they agree, except that the source's panics "no buffers" where some
      buffer is unreferenced but every unreferenced buffer carries the stamp
      U32_MAX. */
  lemma BgetAsWrittenRelation(c: Cache, dev: u32, blockno: u32)
    requires Wf(c)
    ensures || BgetAsWritten(c, dev, blockno) == Bget(c, dev, blockno)
            || (&& BgetAsWritten(c, dev, blockno).Panic?
                && (exists b: BufId | b < NBUF :: Free(c.bufs[b]))
                && (forall b: BufId | b < NBUF && Free(c.bufs[b]) :: c.bufs[b].lastuse == U32_MAX))
  {
    if FastPath(c, dev, blockno).NotCached? {
      PartitionedMembers(c.buckets);
      var order := Order(c.buckets);
      var p := Victim(c.bufs, order, LEAST_TICKS_AS_WRITTEN);
      var q := Victim(c.bufs, order, LEAST_TICKS);
      if p.Some? {
        assert q.Some?;
        assert !(p.value < q.value);
        assert !(q.value < p.value);
      } else if q.Some? {
        forall b: BufId | b < NBUF && Free(c.bufs[b])
          ensures c.bufs[b].lastuse == U32_MAX
        {
          assert b in order;
          var k :| 0 <= k < |order| && order[k] == b;
        }
        assert Free(c.bufs[order[q.value]]);
      }
    }
  }
}
