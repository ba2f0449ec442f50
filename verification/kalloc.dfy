/** The physical page allocator: one free list per CPU. kfree pushes a page
    on the freeing CPU's list; kalloc pops the local list and, when that is
    empty, steals the head of the first non-empty list of another CPU in
    CPU order. Locks and interrupt masking are abstracted away: every
    operation is one atomic step, and the calling CPU is a parameter. */
module PageAllocator {
  import opened Prelude

  const NCPU: nat := 8
  const PGSIZE: nat := 4096
  const KERNBASE: nat := 0x8000_0000
  const PHYSTOP: nat := KERNBASE + 128 * 1024 * 1024

  /** A physical address (a `uint64` in the kernel, but never near 2^64 here). */
  type Addr = nat

  type Cpu = i: nat | i < NCPU

  /** The junk byte a page was last filled with: 1 by kfree, 5 by kalloc. */
  datatype Fill = FreedJunk | AllocJunk

  /** `lists[i]` is CPU i's free list, head first; `fill` tags each page the
      allocator has filled with the pattern it wrote last. */
  datatype Kmem = Kmem(lists: seq<seq<Addr>>, fill: map<Addr, Fill>)

  datatype FreeResult = Freed(mem: Kmem) | Panic(why: string)

  /** `page` is 0 when no list had a page. */
  datatype AllocResult = Alloc(page: Addr, mem: Kmem)

  /** Every free page, CPU 0's list first. */
  function FreePages(m: Kmem): (r: seq<Addr>)
  {
    Flat<Addr>(m.lists)
  }

  /** The address kfree accepts: page aligned, at or above the kernel's end,
      below PHYSTOP. */
  predicate PageOk(kend: Addr, pa: Addr)
  {
    pa % PGSIZE == 0 && kend <= pa && pa < PHYSTOP
  }

  /** The allocator's invariant: one list per CPU, the kernel linked at or
      above KERNBASE, and only pages kfree accepts on the lists. */
  ghost predicate Wf(m: Kmem, kend: Addr)
  {
    && |m.lists| == NCPU
    && KERNBASE <= kend
    && (forall i, k | 0 <= i < NCPU && 0 <= k < |m.lists[i]| :: PageOk(kend, m.lists[i][k]))
  }

  /** Every free page still holds kfree's junk. */
  ghost predicate Junked(m: Kmem)
  {
    forall i, k | 0 <= i < |m.lists| && 0 <= k < |m.lists[i]| ::
      m.lists[i][k] in m.fill && m.fill[m.lists[i][k]] == FreedJunk
  }

  /** No page is on the free lists twice. */
  ghost predicate NoDoubleFree(m: Kmem)
  {
    forall pa: Addr :: Count(FreePages(m), pa) <= 1
  }

  /** kfree(pa) on CPU `cpu`: panic on a bad address, otherwise fill the page
      with junk and push it at the head of that CPU's list. */
  function Kfree(m: Kmem, kend: Addr, cpu: Cpu, pa: Addr): (r: FreeResult)
    requires |m.lists| == NCPU
    ensures r.Panic? <==> (pa % PGSIZE != 0 || pa < kend || pa >= PHYSTOP)
    ensures r.Freed? ==>
      && |r.mem.lists| == NCPU
      && r.mem.lists[cpu] == [pa] + m.lists[cpu]
      && (forall i | 0 <= i < NCPU && i != cpu :: r.mem.lists[i] == m.lists[i])
      && r.mem.fill == m.fill[pa := FreedJunk]
  {
    if !PageOk(kend, pa) then Panic("kfree")
    else Freed(Kmem(m.lists[cpu := [pa] + m.lists[cpu]], m.fill[pa := FreedJunk]))
  }

  /** The list kalloc on CPU `cpu` takes its page from: its own when that is
      non-empty, otherwise the lowest-numbered other non-empty list. */
  ghost predicate TakesFrom(lists: seq<seq<Addr>>, cpu: Cpu, i: nat)
  {
    && i < |lists| && cpu < |lists| && lists[i] != []
    && (i == cpu || (lists[cpu] == [] && forall j | 0 <= j < i && j != cpu :: lists[j] == []))
  }

  /** The first CPU from `i` on, other than `cpu`, whose list is non-empty. */
  function Steal(lists: seq<seq<Addr>>, cpu: Cpu, i: nat): (r: Option<nat>)
    requires i <= |lists|
    ensures r.None? <==> forall j | i <= j < |lists| && j != cpu :: lists[j] == []
    ensures r.Some? ==> i <= r.value < |lists| && r.value != cpu && lists[r.value] != []
    ensures r.Some? ==> forall j | i <= j < r.value && j != cpu :: lists[j] == []
    decreases |lists| - i
  {
    if i == |lists| then None
    else if i == cpu || lists[i] == [] then Steal(lists, cpu, i + 1)
    else Some(i)
  }

  /** Pops the head of list `i` and fills it with kalloc's junk. */
  function Take(m: Kmem, i: nat): (r: AllocResult)
    requires i < |m.lists| && m.lists[i] != []
  {
    var pa := m.lists[i][0];
    Alloc(pa, Kmem(m.lists[i := m.lists[i][1..]], m.fill[pa := AllocJunk]))
  }

  /** kalloc on CPU `cpu`: the local head if there is one, else the head
      stolen from the first other CPU with a page, else 0. */
  function Kalloc(m: Kmem, cpu: Cpu): (r: AllocResult)
    requires |m.lists| == NCPU
    ensures forall i: nat | TakesFrom(m.lists, cpu, i) ::
      && r.page == m.lists[i][0]
      && r.mem.lists == m.lists[i := m.lists[i][1..]]
      && r.mem.fill == m.fill[r.page := AllocJunk]
    ensures (forall i | 0 <= i < NCPU :: m.lists[i] == []) ==> r == Alloc(0, m)
  {
    if m.lists[cpu] != [] then Take(m, cpu)
    else match Steal(m.lists, cpu, 0)
      case None => Alloc(0, m)
      case Some(i) => Take(m, i)
  }

  /** PGROUNDUP: the first page boundary at or above `a`. */
  function PgRoundUp(a: Addr): (r: Addr)
    ensures r % PGSIZE == 0 && a <= r < a + PGSIZE
  {
    (a + PGSIZE - 1) / PGSIZE * PGSIZE
  }

  /** The pages p, p + PGSIZE, ... that end at or below `e`. */
  function PagesFrom(p: Addr, e: Addr): (r: seq<Addr>)
    decreases e - p
  {
    if p + PGSIZE <= e then [p] + PagesFrom(p + PGSIZE, e) else []
  }

  /** PagesFrom(p, e) is p, p + PGSIZE, ... up to the last page ending at or
      below `e`. */
  lemma {:induction false} PagesFromSpaced(p: Addr, e: Addr)
    ensures var r := PagesFrom(p, e);
      && (forall k | 0 <= k < |r| :: r[k] == p + k * PGSIZE && r[k] + PGSIZE <= e)
      && p + (|r| + 1) * PGSIZE > e
    decreases e - p
  {
    if p + PGSIZE <= e {
      PagesFromSpaced(p + PGSIZE, e);
    }
  }

  /** The pages freerange(s, e) hands to kfree, in order. */
  function Pages(s: Addr, e: Addr): (r: seq<Addr>)
  {
    PagesFrom(PgRoundUp(s), e)
  }

  /** freerange(s, e) on CPU `cpu`: kfree every page of Pages(s, e) in
      order, so the last one ends up at the head of the list. */
  method FreeRange(m: Kmem, kend: Addr, cpu: Cpu, s: Addr, e: Addr) returns (r: FreeResult)
    requires |m.lists| == NCPU
    ensures r.Panic? <==> exists q | q in Pages(s, e) :: !PageOk(kend, q)
    ensures r.Freed? ==>
      && r.mem.lists == m.lists[cpu := Reverse<Addr>(Pages(s, e)) + m.lists[cpu]]
      && (forall q | q in Pages(s, e) :: q in r.mem.fill && r.mem.fill[q] == FreedJunk)
      && (forall q | q in m.fill && q !in Pages(s, e) :: q in r.mem.fill && r.mem.fill[q] == m.fill[q])
      && r.mem.fill.Keys == m.fill.Keys + set q | q in Pages(s, e)
  {
    var p: Addr := PgRoundUp(s);
    var mem := m;
    ghost var done: seq<Addr> := [];
    assert Reverse<Addr>(done) == [];
    assert Reverse<Addr>(done) + m.lists[cpu] == m.lists[cpu];
    assert m.lists[cpu := Reverse<Addr>(done) + m.lists[cpu]] == m.lists;
    assert (set q | q in done) == {};
    while p + PGSIZE <= e
      invariant done + PagesFrom(p, e) == Pages(s, e)
      invariant forall q | q in done :: PageOk(kend, q)
      invariant mem.lists == m.lists[cpu := Reverse<Addr>(done) + m.lists[cpu]]
      invariant FilledSince(m.fill, mem.fill, done)
      decreases e - p
    {
      assert PagesFrom(p, e) == [p] + PagesFrom(p + PGSIZE, e);
      var fr := Kfree(mem, kend, cpu, p);
      if fr.Panic? {
        assert p in Pages(s, e);
        return Panic("kfree");
      }
      FreeRangeStep(m, mem, kend, cpu, done, p);
      assert (done + [p]) + PagesFrom(p + PGSIZE, e) == done + PagesFrom(p, e);
      mem := fr.mem;
      done := done + [p];
      p := p + PGSIZE;
    }
    assert done == Pages(s, e);
    r := Freed(mem);
  }

  /** One more turn of freerange's loop keeps the loop's invariants. */
  lemma FreeRangeStep(m: Kmem, mem: Kmem, kend: Addr, cpu: Cpu, done: seq<Addr>, p: Addr)
    requires |m.lists| == NCPU
    requires mem.lists == m.lists[cpu := Reverse<Addr>(done) + m.lists[cpu]]
    requires FilledSince(m.fill, mem.fill, done)
    requires forall q | q in done :: PageOk(kend, q)
    requires Kfree(mem, kend, cpu, p).Freed?
    ensures var after := Kfree(mem, kend, cpu, p).mem;
      && after.lists == m.lists[cpu := Reverse<Addr>(done + [p]) + m.lists[cpu]]
      && FilledSince(m.fill, after.fill, done + [p])
      && (forall q | q in done + [p] :: PageOk(kend, q))
  {
    var after := Kfree(mem, kend, cpu, p).mem;
    PushExtends(m.lists, mem.lists, after.lists, cpu, done, p);
    FillExtends(m.fill, mem.fill, after.fill, done, p);
  }

  /** `now` is `start` after kfree filled every page of `done`. */
  ghost predicate FilledSince(start: map<Addr, Fill>, now: map<Addr, Fill>, done: seq<Addr>)
  {
    && (forall q | q in done :: q in now && now[q] == FreedJunk)
    && (forall q | q in start && q !in done :: q in now && now[q] == start[q])
    && now.Keys == start.Keys + set q | q in done
  }

  /** One more kfree of freerange's loop: one more page filled with junk. */
  lemma FillExtends(start: map<Addr, Fill>, before: map<Addr, Fill>, after: map<Addr, Fill>, done: seq<Addr>, p: Addr)
    requires FilledSince(start, before, done)
    requires after == before[p := FreedJunk]
    ensures FilledSince(start, after, done + [p])
  {
    assert (set q | q in done + [p]) == (set q | q in done) + {p};
  }

  /** One more kfree of freerange's loop: the list grows by the page at its head. */
  lemma PushExtends(lists: seq<seq<Addr>>, before: seq<seq<Addr>>, after: seq<seq<Addr>>, cpu: Cpu, done: seq<Addr>, p: Addr)
    requires |lists| == NCPU
    requires before == lists[cpu := Reverse<Addr>(done) + lists[cpu]]
    requires |after| == NCPU && after[cpu] == [p] + before[cpu]
    requires forall i | 0 <= i < NCPU && i != cpu :: after[i] == before[i]
    ensures after == lists[cpu := Reverse<Addr>(done + [p]) + lists[cpu]]
  {
    ReverseSnoc<Addr>(done, p);
    assert [p] + (Reverse<Addr>(done) + lists[cpu]) == Reverse<Addr>(done + [p]) + lists[cpu];
  }

  /** kinit on the booting CPU: every list empty, then freerange(end, PHYSTOP). */
  method Kinit(kend: Addr, cpu: Cpu) returns (r: FreeResult)
    ensures r.Freed? && |r.mem.lists| == NCPU
    ensures r.mem.lists[cpu] == Reverse<Addr>(Pages(kend, PHYSTOP))
    ensures forall i | 0 <= i < NCPU && i != cpu :: r.mem.lists[i] == []
    ensures r.mem.fill == map q | q in Pages(kend, PHYSTOP) :: FreedJunk
    ensures KERNBASE <= kend ==> Wf(r.mem, kend) && Junked(r.mem) && NoDoubleFree(r.mem)
  {
    var empty := Kmem(seq(NCPU, _ => []), map[]);
    RangePagesPassChecks(kend, kend, PHYSTOP);
    r := FreeRange(empty, kend, cpu, kend, PHYSTOP);
    KinitInvariants(r.mem, kend, cpu, PHYSTOP);
  }

  /** freerange(s, e) with end <= s and e <= PHYSTOP only hands kfree pages it
      accepts. */
  lemma RangePagesPassChecks(kend: Addr, s: Addr, e: Addr)
    requires kend <= s && e <= PHYSTOP
    ensures forall q | q in Pages(s, e) :: PageOk(kend, q)
  {
    var ps := Pages(s, e);
    PagesFromSpaced(PgRoundUp(s), e);
    forall q | q in ps
      ensures PageOk(kend, q)
    {
      var k :| 0 <= k < |ps| && ps[k] == q;
      assert q == PgRoundUp(s) + k * PGSIZE;
      ModMultiple(PgRoundUp(s), k);
    }
  }

  lemma ModMultiple(p: Addr, k: nat)
    requires p % PGSIZE == 0
    ensures (p + k * PGSIZE) % PGSIZE == 0
  {
    assert p + k * PGSIZE == (p / PGSIZE + k) * PGSIZE;
  }

  /** The pages of a range are strictly increasing, hence all different. */
  lemma {:induction false} PagesDistinct(p: Addr, e: Addr)
    ensures forall a: Addr :: Count(PagesFrom(p, e), a) <= 1
    decreases e - p
  {
    if p + PGSIZE <= e {
      PagesDistinct(p + PGSIZE, e);
      var rest := PagesFrom(p + PGSIZE, e);
      assert PagesFrom(p, e) == [p] + rest;
      PagesFromSpaced(p + PGSIZE, e);
      assert p !in rest;
      var whole: multiset<Addr> := multiset(PagesFrom(p, e));
      var tail: multiset<Addr> := multiset(rest);
      assert whole == multiset{p} + tail;
      assert tail[p] == 0;
      forall a: Addr
        ensures Count(PagesFrom(p, e), a) <= 1
      {
        assert Count<Addr>(PagesFrom(p, e), a) == whole[a] == multiset{p}[a] + tail[a];
        assert tail[a] == Count<Addr>(rest, a) <= 1;
        if a == p {
          assert multiset{p}[a] + tail[a] == 1;
        } else {
          assert multiset{p}[a] == 0;
        }
      }
    }
  }

  /** The state kinit leaves satisfies the allocator's invariants. */
  lemma KinitInvariants(m: Kmem, kend: Addr, cpu: Cpu, e: Addr)
    requires e <= PHYSTOP && |m.lists| == NCPU
    requires m.lists[cpu] == Reverse<Addr>(Pages(kend, e))
    requires forall i | 0 <= i < NCPU && i != cpu :: m.lists[i] == []
    requires forall q | q in Pages(kend, e) :: q in m.fill && m.fill[q] == FreedJunk
    ensures KERNBASE <= kend ==> Wf(m, kend) && Junked(m) && NoDoubleFree(m)
  {
    var ps := Pages(kend, e);
    var rs := m.lists[cpu];
    assert forall k | 0 <= k < |rs| :: rs[k] in ps;
    RangePagesPassChecks(kend, kend, e);
    KinitSingleFree(m, kend, cpu, e);
  }

  lemma KinitSingleFree(m: Kmem, kend: Addr, cpu: Cpu, e: Addr)
    requires |m.lists| == NCPU
    requires m.lists[cpu] == Reverse<Addr>(Pages(kend, e))
    requires forall i | 0 <= i < NCPU && i != cpu :: m.lists[i] == []
    ensures NoDoubleFree(m)
  {
    var ps := Pages(kend, e);
    PagesDistinct(PgRoundUp(kend), e);
    ReverseCounts(ps);
    FlatSplit(m.lists, cpu);
    var mf: multiset<Addr> := multiset(FreePages(m));
    var mp: multiset<Addr> := multiset(ps);
    assert mf == mp;
    forall a: Addr
      ensures Count(FreePages(m), a) <= 1
    {
      assert Count(FreePages(m), a) == mf[a] == mp[a] == Count(ps, a);
    }
  }

  lemma {:induction false} ReverseCounts(xs: seq<Addr>)
    ensures multiset(Reverse<Addr>(xs)) == multiset(xs)
  {
    if |xs| > 0 {
      ReverseCounts(xs[1..]);
      assert xs == [xs[0]] + xs[1..];
    }
  }

  /** When every list but one is empty, the free pages are that list. */
  lemma {:induction false} FlatSplit(lists: seq<seq<Addr>>, i: nat)
    requires i < |lists|
    requires forall j | 0 <= j < |lists| && j != i :: lists[j] == []
    ensures Flat<Addr>(lists) == lists[i]
  {
    if i == 0 {
      FlatOfEmpties<Addr>(lists[1..]);
    } else {
      FlatSplit(lists[1..], i - 1);
    }
  }
}
