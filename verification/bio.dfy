/** The disk-block buffer cache of kernel/bio.c.

    A fixed pool of NBUF buffers is spread over NBUCKET hash buckets keyed by
    block number. A lookup first scans the block's own bucket; on a miss it
    re-checks that bucket and then scans every bucket for the unreferenced
    buffer released longest ago, which it moves to the head of the block's
    bucket and relabels.

    Every operation is one atomic step: the bucket spinlocks and the global
    eviction lock are gone, and a buffer's sleep lock is the flag `locked`,
    read as "held by the calling context". The disk transfer is opaque; only
    the `valid` flag and whether a read was issued are kept. */
module BufferCache {
  import opened Prelude

  /** Size of the buffer pool (NBUF of xv6's param.h, which is not part of this model). */
  const NBUF: nat := 30
  const NBUCKET: nat := 13

  /** The starting bound of the eviction scan: one above every 32-bit stamp,
      so every unreferenced buffer qualifies. */
  const LEAST_TICKS: int := U32_MAX + 1
  /** The starting bound as kernel/bio.c writes it, `uint least_ticks = -1`:
      a buffer stamped U32_MAX never qualifies (see BgetAsWritten). */
  const LEAST_TICKS_AS_WRITTEN: int := U32_MAX

  /** Index of a buffer in the pool. */
  type BufId = nat

  /** One `struct buf`, without its data bytes and list link. */
  datatype Buf = Buf(dev: u32, blockno: u32, valid: bool, refcnt: u32, lastuse: u32, locked: bool)

  /** `bcache`: the pool, and each bucket as a list of buffer ids from its head. */
  datatype Cache = Cache(bufs: seq<Buf>, buckets: seq<seq<BufId>>)

  /** What bget and bread hand back: a buffer, or a kernel panic. */
  datatype BufResult = Ok(b: BufId, cache: Cache) | Panic(why: string)

  /** bread's result: `fetched` says whether the device read was issued. */
  datatype ReadResult = Read(b: BufId, cache: Cache, fetched: bool) | ReadPanic(why: string)

  /** What brelse and bwrite lead to: the next state, or a kernel panic. */
  datatype Step = Done(cache: Cache) | Halt(why: string)

  /** The outcome of bget's first, per-bucket scan. */
  datatype Probe = Cached(b: BufId, cache: Cache) | NotCached

  function Hash(blockno: u32): (id: nat)
    ensures id < NBUCKET
    ensures blockno < NBUCKET ==> id == blockno
    ensures blockno >= NBUCKET ==> id == Hash(blockno - NBUCKET)
  {
    blockno % NBUCKET
  }

  predicate Holds(buf: Buf, dev: u32, blockno: u32)
  {
    buf.dev == dev && buf.blockno == blockno
  }

  predicate Free(buf: Buf)
  {
    buf.refcnt == 0
  }

  /** The buffers of every bucket in index order, each bucket from its head:
      the order of bget's eviction scan. Only a name for `Flat` on buckets. */
  function Order(bs: seq<seq<BufId>>): (r: seq<BufId>)
  {
    Flat(bs)
  }

  /** Every buffer of the pool sits in the buckets exactly once, and no other id does. */
  ghost predicate Partitioned(bs: seq<seq<BufId>>)
  {
    && (forall x: BufId :: Count(Order(bs), x) == (if x < NBUF then 1 else 0))
    && (forall k | 0 <= k < |Order(bs)| :: Order(bs)[k] < NBUF)
  }

  /** Each buffer sits in the bucket its block number hashes to. */
  ghost predicate Hashed(c: Cache)
  {
    forall i, k | 0 <= i < |c.buckets| && 0 <= k < |c.buckets[i]| ::
      c.buckets[i][k] < |c.bufs| && Hash(c.bufs[c.buckets[i][k]].blockno) == i
  }

  /** The cache invariant: a full pool, NBUCKET buckets partitioning it, by hash. */
  ghost predicate Wf(c: Cache)
  {
    && |c.bufs| == NBUF
    && |c.buckets| == NBUCKET
    && Partitioned(c.buckets)
    && Hashed(c)
  }

  lemma PartitionedMembers(bs: seq<seq<BufId>>)
    requires Partitioned(bs)
    ensures forall x: BufId | x in Order(bs) :: x < NBUF
    ensures forall k | 0 <= k < |Order(bs)| :: Order(bs)[k] < NBUF
    ensures forall x: BufId | x < NBUF :: x in Order(bs)
  {
    forall x: BufId | x in Order(bs)
      ensures x < NBUF
    {
      assert Count(Order(bs), x) > 0;
    }
    forall x: BufId | x < NBUF
      ensures x in Order(bs)
    {
      assert Count(Order(bs), x) == 1;
    }
    forall k | 0 <= k < |Order(bs)|
      ensures Order(bs)[k] < NBUF
    {
      assert Order(bs)[k] in Order(bs);
    }
  }

  /** Buffer ids n-1 down to 0: bucket 0 as binit links it, each buffer pushed at the head. */
  function Descending(n: nat): (r: seq<BufId>)
    ensures |r| == n
    ensures forall k | 0 <= k < n :: r[k] == n - 1 - k
  {
    if n == 0 then [] else [n - 1] + Descending(n - 1)
  }

  /** Each id below `n` occurs once in Descending(n), no other id at all. */
  lemma {:induction false} DescendingCounts(n: nat)
    ensures forall x: BufId :: Count(Descending(n), x) == (if x < n then 1 else 0)
  {
    if n > 0 {
      DescendingCounts(n - 1);
      assert Descending(n) == [n - 1] + Descending(n - 1);
      forall x: BufId
        ensures Count(Descending(n), x) == (if x < n then 1 else 0)
      {
        assert multiset(Descending(n)) == multiset{n - 1} + multiset(Descending(n - 1));
        assert Count(Descending(n - 1), x) == (if x < n - 1 then 1 else 0);
      }
    }
  }

  /** binit: every buffer zeroed (the pool is zero-initialised static storage)
      and linked into bucket 0, the last buffer of the pool at its head;
      every other bucket empty. */
  function Binit(): (c: Cache)
    ensures |c.bufs| == NBUF && |c.buckets| == NBUCKET
    ensures c.buckets[0] == Descending(NBUF)
    ensures forall x: BufId :: Count(c.buckets[0], x) == (if x < NBUF then 1 else 0)
    ensures forall i | 1 <= i < NBUCKET :: c.buckets[i] == []
    ensures forall b | 0 <= b < NBUF ::
      c.bufs[b] == Buf(0, 0, false, 0, 0, false)
  {
    ZeroPool(NBUF)
  }

  /** A pool of `n` zeroed buffers all linked into bucket 0, highest id first. */
  function ZeroPool(n: nat): (c: Cache)
    ensures |c.bufs| == n && |c.buckets| == NBUCKET
    ensures c.buckets[0] == Descending(n)
    ensures forall x: BufId :: Count(c.buckets[0], x) == (if x < n then 1 else 0)
    ensures forall i | 1 <= i < NBUCKET :: c.buckets[i] == []
    ensures forall b | 0 <= b < n :: c.bufs[b] == Buf(0, 0, false, 0, 0, false)
  {
    DescendingCounts(n);
    var buckets := [Descending(n)] + seq(NBUCKET - 1, _ => []);
    assert buckets[0] == Descending(n);
    Cache(seq(n, _ => Buf(0, 0, false, 0, 0, false)), buckets)
  }

  /** The position of the first buffer of `list`, from the head, holding
      block `blockno` of device `dev`; None when no buffer of `list` does. */
  function Lookup(bufs: seq<Buf>, list: seq<BufId>, dev: u32, blockno: u32): (r: Option<nat>)
    requires forall k | 0 <= k < |list| :: list[k] < |bufs|
    ensures r.Some? ==> r.value < |list| && Holds(bufs[list[r.value]], dev, blockno)
    ensures r.Some? ==> forall k | 0 <= k < r.value :: !Holds(bufs[list[k]], dev, blockno)
    ensures r.None? <==> forall k | 0 <= k < |list| :: !Holds(bufs[list[k]], dev, blockno)
  {
    if |list| == 0 then None
    else if Holds(bufs[list[0]], dev, blockno) then Some(0)
    else match Lookup(bufs, list[1..], dev, blockno)
      case None => None
      case Some(k) => Some(k + 1)
  }

  /** bget's hit on buffer `b`: one more reference, then its sleep lock. */
  function Hit(c: Cache, b: BufId): (r: Cache)
    requires b < |c.bufs|
  {
    c.(bufs := c.bufs[b := c.bufs[b].(refcnt := Inc32(c.bufs[b].refcnt), locked := true)])
  }

  /** bget's first step, under the block's bucket lock only: scan that bucket. */
  function FastPath(c: Cache, dev: u32, blockno: u32): (r: Probe)
    requires Wf(c)
    ensures r.NotCached? <==>
      forall k | 0 <= k < |c.buckets[Hash(blockno)]| :: !Holds(c.bufs[c.buckets[Hash(blockno)][k]], dev, blockno)
    ensures r.Cached? ==> r.b < NBUF && r.b in c.buckets[Hash(blockno)] && Holds(c.bufs[r.b], dev, blockno)
  {
    var id := Hash(blockno);
    match Lookup(c.bufs, c.buckets[id], dev, blockno)
    case Some(k) => Cached(c.buckets[id][k], Hit(c, c.buckets[id][k]))
    case None => NotCached
  }

  /** The eviction choice over the state reached so far: positions `0..n` of
      `order` scanned, `best` the buffer chosen so far. */
  ghost predicate LeastSoFar(bufs: seq<Buf>, order: seq<BufId>, bound: int, n: nat, best: Option<nat>)
    requires n <= |order|
    requires forall k | 0 <= k < |order| :: order[k] < |bufs|
  {
    match best
    case None =>
      forall k | 0 <= k < n :: Free(bufs[order[k]]) ==> bufs[order[k]].lastuse >= bound
    case Some(p) =>
      && p < n
      && Free(bufs[order[p]])
      && bufs[order[p]].lastuse < bound
      && (forall k | 0 <= k < p :: Free(bufs[order[k]]) ==> bufs[order[p]].lastuse < bufs[order[k]].lastuse)
      && (forall k | p < k < n :: Free(bufs[order[k]]) ==> bufs[order[p]].lastuse <= bufs[order[k]].lastuse)
  }

  function VictimFrom(bufs: seq<Buf>, order: seq<BufId>, bound: int, i: nat, best: Option<nat>): (r: Option<nat>)
    requires i <= |order|
    requires forall k | 0 <= k < |order| :: order[k] < |bufs|
    requires LeastSoFar(bufs, order, bound, i, best)
    ensures LeastSoFar(bufs, order, bound, |order|, r)
    decreases |order| - i
  {
    if i == |order| then best
    else
      var least := if best.None? then bound else bufs[order[best.value]].lastuse;
      if Free(bufs[order[i]]) && bufs[order[i]].lastuse < least
      then VictimFrom(bufs, order, bound, i + 1, Some(i))
      else VictimFrom(bufs, order, bound, i + 1, best)
  }

  /** The eviction scan over `order` (every bucket in index order, each from
      its head): the position of the unreferenced buffer with the smallest
      idle stamp below `bound`, the first one on ties; None when no
      unreferenced buffer has a stamp below `bound`. */
  function Victim(bufs: seq<Buf>, order: seq<BufId>, bound: int): (r: Option<nat>)
    requires forall k | 0 <= k < |order| :: order[k] < |bufs|
    ensures r.None? <==> forall k | 0 <= k < |order| :: Free(bufs[order[k]]) ==> bufs[order[k]].lastuse >= bound
    ensures r.Some? ==> r.value < |order| && Free(bufs[order[r.value]]) && bufs[order[r.value]].lastuse < bound
    ensures r.Some? ==> forall k | 0 <= k < r.value ::
      Free(bufs[order[k]]) ==> bufs[order[r.value]].lastuse < bufs[order[k]].lastuse
    ensures r.Some? ==> forall k | r.value < k < |order| ::
      Free(bufs[order[k]]) ==> bufs[order[r.value]].lastuse <= bufs[order[k]].lastuse
  {
    VictimFrom(bufs, order, bound, 0, None)
  }

  /** Moves victim `v` out of its bucket to the head of block `blockno`'s
      bucket and relabels it: not valid, one reference, sleep lock taken. */
  function Evict(c: Cache, v: BufId, dev: u32, blockno: u32): (r: Cache)
    requires Wf(c) && v < NBUF
  {
    var src := Hash(c.bufs[v].blockno);
    var id := Hash(blockno);
    var unlinked := c.buckets[src := Without<BufId>(c.buckets[src], v)];
    Cache(c.bufs[v := c.bufs[v].(dev := dev, blockno := blockno, valid := false, refcnt := 1, locked := true)],
          unlinked[id := [v] + unlinked[id]])
  }

  /** bget's second step, under the global lock: re-check the block's bucket
      (another CPU may have installed the block meanwhile), else evict the
      buffer Victim picks with starting bound `least` over all buckets. */
  function SlowPathFrom(c: Cache, dev: u32, blockno: u32, least: int): (r: BufResult)
    requires Wf(c)
    ensures r.Ok? ==> r.b < NBUF && |r.cache.bufs| == NBUF && Holds(r.cache.bufs[r.b], dev, blockno)
  {
    var id := Hash(blockno);
    match Lookup(c.bufs, c.buckets[id], dev, blockno)
    case Some(k) => Ok(c.buckets[id][k], Hit(c, c.buckets[id][k]))
    case None =>
      PartitionedMembers(c.buckets);
      var order := Order(c.buckets);
      match Victim(c.bufs, order, least)
      case None => Panic("bget: no buffers")
      case Some(p) => Ok(order[p], Evict(c, order[p], dev, blockno))
  }

  function SlowPath(c: Cache, dev: u32, blockno: u32): (r: BufResult)
    requires Wf(c)
  {
    SlowPathFrom(c, dev, blockno, LEAST_TICKS)
  }

  /** bget: the fast path, and on a miss the slow path. */
  function Bget(c: Cache, dev: u32, blockno: u32): (r: BufResult)
    requires Wf(c)
    ensures r.Ok? ==> r.b < NBUF && |r.cache.bufs| == NBUF
    ensures r.Ok? ==> Holds(r.cache.bufs[r.b], dev, blockno) && r.cache.bufs[r.b].locked
    ensures r.Ok? ==> r.cache.bufs[r.b].refcnt == Inc32(c.bufs[r.b].refcnt) || r.cache.bufs[r.b].refcnt == 1
  {
    match FastPath(c, dev, blockno)
    case Cached(b, c') => Ok(b, c')
    case NotCached => SlowPath(c, dev, blockno)
  }

  /** bget exactly as kernel/bio.c writes it, with `least_ticks` starting at U32_MAX. */
  function BgetAsWritten(c: Cache, dev: u32, blockno: u32): (r: BufResult)
    requires Wf(c)
    ensures r.Ok? ==> r.b < NBUF && |r.cache.bufs| == NBUF && Holds(r.cache.bufs[r.b], dev, blockno)
  {
    match FastPath(c, dev, blockno)
    case Cached(b, c') => Ok(b, c')
    case NotCached => SlowPathFrom(c, dev, blockno, LEAST_TICKS_AS_WRITTEN)
  }

  /** bread: bget, then a device read (opaque here) when the buffer's content is not valid. */
  function Bread(c: Cache, dev: u32, blockno: u32): (r: ReadResult)
    requires Wf(c)
    ensures r.ReadPanic? <==> Bget(c, dev, blockno).Panic?
    ensures r.Read? ==> r.b < NBUF && |r.cache.bufs| == NBUF
    ensures r.Read? ==> r.cache.bufs[r.b].valid && Holds(r.cache.bufs[r.b], dev, blockno) && r.cache.bufs[r.b].locked
    ensures r.Read? ==>
      var g := Bget(c, dev, blockno);
      && g.Ok? && r.b == g.b
      && r.cache.buckets == g.cache.buckets
      && (forall o | 0 <= o < NBUF && o != r.b :: r.cache.bufs[o] == g.cache.bufs[o])
      && r.cache.bufs[r.b] == g.cache.bufs[r.b].(valid := true)
  {
    match Bget(c, dev, blockno)
    case Panic(why) => ReadPanic(why)
    case Ok(b, c') =>
      if c'.bufs[b].valid then Read(b, c', false)
      else Read(b, c'.(bufs := c'.bufs[b := c'.bufs[b].(valid := true)]), true)
  }

  /** bwrite: the caller must hold the buffer's sleep lock; the device write is
      opaque and leaves the cache bookkeeping as it was. */
  function Bwrite(c: Cache, b: BufId): (r: Step)
    requires b < |c.bufs|
    ensures r.Halt? <==> !c.bufs[b].locked
    ensures r.Done? ==> r.cache == c
  {
    if !c.bufs[b].locked then Halt("bwrite") else Done(c)
  }

  /** brelse: the caller must hold the sleep lock; drops it and one reference,
      and stamps the idle time when the last reference goes. */
  function Brelse(c: Cache, b: BufId, ticks: u32): (r: Step)
    requires b < |c.bufs|
    ensures r.Halt? <==> !c.bufs[b].locked
    ensures r.Done? ==> r.cache.buckets == c.buckets && |r.cache.bufs| == |c.bufs|
    ensures r.Done? ==> forall o | 0 <= o < |c.bufs| && o != b :: r.cache.bufs[o] == c.bufs[o]
    ensures r.Done? ==>
      && Inc32(r.cache.bufs[b].refcnt) == c.bufs[b].refcnt
      && !r.cache.bufs[b].locked
      && (r.cache.bufs[b].refcnt == 0 ==> r.cache.bufs[b].lastuse == ticks)
      && (r.cache.bufs[b].refcnt != 0 ==> r.cache.bufs[b].lastuse == c.bufs[b].lastuse)
      && r.cache.bufs[b].(refcnt := c.bufs[b].refcnt, locked := true, lastuse := c.bufs[b].lastuse) == c.bufs[b]
  {
    if !c.bufs[b].locked then Halt("brelse")
    else
      var rc := Dec32(c.bufs[b].refcnt);
      var stamp := if rc == 0 then ticks else c.bufs[b].lastuse;
      Done(c.(bufs := c.bufs[b := c.bufs[b].(locked := false, refcnt := rc, lastuse := stamp)]))
  }

  /** bpin: one more reference, nothing else. */
  function Bpin(c: Cache, b: BufId): (r: Cache)
    requires b < |c.bufs|
    ensures r.buckets == c.buckets && |r.bufs| == |c.bufs|
    ensures forall o | 0 <= o < |c.bufs| && o != b :: r.bufs[o] == c.bufs[o]
    ensures Dec32(r.bufs[b].refcnt) == c.bufs[b].refcnt
    ensures r.bufs[b].(refcnt := c.bufs[b].refcnt) == c.bufs[b]
  {
    c.(bufs := c.bufs[b := c.bufs[b].(refcnt := Inc32(c.bufs[b].refcnt))])
  }

  /** bunpin: one reference fewer, nothing else (no idle stamp). */
  function Bunpin(c: Cache, b: BufId): (r: Cache)
    requires b < |c.bufs|
    ensures r.buckets == c.buckets && |r.bufs| == |c.bufs|
    ensures forall o | 0 <= o < |c.bufs| && o != b :: r.bufs[o] == c.bufs[o]
    ensures Inc32(r.bufs[b].refcnt) == c.bufs[b].refcnt
    ensures r.bufs[b].(refcnt := c.bufs[b].refcnt) == c.bufs[b]
  {
    c.(bufs := c.bufs[b := c.bufs[b].(refcnt := Dec32(c.bufs[b].refcnt))])
  }

  /** The buffers carrying block `blockno` of device `dev`. */
  ghost function Carriers(c: Cache, dev: u32, blockno: u32): (s: set<BufId>)
  {
    set b: BufId | b < |c.bufs| && Holds(c.bufs[b], dev, blockno)
  }

  /** No two buffers carry the same block, except the (0, 0) label binit
      leaves on every buffer. */
  ghost predicate NoDuplicateBlocks(c: Cache)
  {
    forall a, b | 0 <= a < b < |c.bufs| ::
      Holds(c.bufs[a], c.bufs[b].dev, c.bufs[b].blockno) ==> c.bufs[a].dev == 0 && c.bufs[a].blockno == 0
  }
}
