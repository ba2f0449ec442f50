/** What the page allocator promises across calls: pages are conserved,
    kalloc's choice of list is determined, kalloc undoes kfree, the address
    checks keep the free lists clean, and without a double kfree no page is
    handed out twice. */
module PageAllocatorProofs {
  import opened Prelude
  import opened PageAllocator

  ghost predicate AllEmpty(m: Kmem)
  {
    forall i | 0 <= i < |m.lists| :: m.lists[i] == []
  }

  /** Unless every list is empty, some list is the one kalloc takes from. */
  lemma SourceExists(lists: seq<seq<Addr>>, cpu: Cpu) returns (i: nat)
    requires |lists| == NCPU
    requires exists j | 0 <= j < NCPU :: lists[j] != []
    ensures TakesFrom(lists, cpu, i)
  {
    if lists[cpu] != [] {
      i := cpu;
    } else {
      i := Steal(lists, cpu, 0).value;
    }
  }

  /** ... and that list is unique. */
  lemma SourceUnique(lists: seq<seq<Addr>>, cpu: Cpu, i: nat, j: nat)
    requires TakesFrom(lists, cpu, i) && TakesFrom(lists, cpu, j)
    ensures i == j
  {
  }

  /** kalloc returns 0 exactly when every CPU's list is empty. */
  lemma KallocNullIffEmpty(m: Kmem, kend: Addr, cpu: Cpu)
    requires Wf(m, kend)
    ensures Kalloc(m, cpu).page == 0 <==> AllEmpty(m)
  {
    if !AllEmpty(m) {
      var i := SourceExists(m.lists, cpu);
      assert PageOk(kend, m.lists[i][0]);
    }
  }

  /** kfree adds exactly the freed page to the pool. */
  lemma KfreeConserves(m: Kmem, kend: Addr, cpu: Cpu, pa: Addr)
    requires |m.lists| == NCPU
    requires Kfree(m, kend, cpu, pa).Freed?
    ensures multiset(FreePages(Kfree(m, kend, cpu, pa).mem)) == multiset(FreePages(m)) + multiset{pa}
  {
    var after := Kfree(m, kend, cpu, pa).mem;
    var ys := [pa] + m.lists[cpu];
    assert after.lists == m.lists[cpu := ys];
    FlatUpdate<Addr>(m.lists, cpu, ys);
    var a: multiset<Addr> := multiset(FreePages(after));
    var b: multiset<Addr> := multiset(FreePages(m));
    var l: multiset<Addr> := multiset(m.lists[cpu]);
    assert a + l == b + multiset(ys);
    assert multiset(ys) == multiset{pa} + l;
    forall x: Addr
      ensures a[x] == (b + multiset{pa})[x]
    {
      assert (a + l)[x] == (b + multiset{pa} + l)[x];
    }
    assert a == b + multiset{pa};
  }

  /** kalloc removes exactly the page it returns from the pool, and leaves
      the pool alone when it returns 0. */
  lemma KallocConserves(m: Kmem, cpu: Cpu)
    requires |m.lists| == NCPU
    ensures var r := Kalloc(m, cpu);
      if AllEmpty(m) then r.mem == m
      else multiset(FreePages(r.mem)) + multiset{r.page} == multiset(FreePages(m))
  {
    var r := Kalloc(m, cpu);
    if !AllEmpty(m) {
      var i := SourceExists(m.lists, cpu);
      var l := m.lists[i];
      assert l == [l[0]] + l[1..];
      assert r.mem.lists == m.lists[i := l[1..]];
      FlatUpdate<Addr>(m.lists, i, l[1..]);
      var a: multiset<Addr> := multiset(FreePages(r.mem));
      var b: multiset<Addr> := multiset(FreePages(m));
      var t: multiset<Addr> := multiset(l[1..]);
      assert a + multiset(l) == b + t;
      assert multiset(l) == multiset{r.page} + t;
      forall x: Addr
        ensures (a + multiset{r.page})[x] == b[x]
      {
        assert (a + multiset{r.page} + t)[x] == (b + t)[x];
      }
      assert a + multiset{r.page} == b;
    }
  }

  /** kfree keeps the invariants; it keeps every page single on the lists
      exactly when the page was not already free. */
  lemma KfreePreserves(m: Kmem, kend: Addr, cpu: Cpu, pa: Addr)
    requires Wf(m, kend)
    requires Kfree(m, kend, cpu, pa).Freed?
    ensures var after := Kfree(m, kend, cpu, pa).mem;
      && Wf(after, kend)
      && (Junked(m) ==> Junked(after))
      && (NoDoubleFree(m) ==> (NoDoubleFree(after) <==> pa !in FreePages(m)))
  {
    var after := Kfree(m, kend, cpu, pa).mem;
    forall i, k | 0 <= i < NCPU && 0 <= k < |after.lists[i]|
      ensures PageOk(kend, after.lists[i][k])
    {
      if i == cpu && k > 0 {
        assert after.lists[i][k] == m.lists[i][k - 1];
      }
    }
    if Junked(m) {
      forall i, k | 0 <= i < NCPU && 0 <= k < |after.lists[i]|
        ensures after.lists[i][k] in after.fill && after.fill[after.lists[i][k]] == FreedJunk
      {
        if i == cpu && k > 0 {
          assert after.lists[i][k] == m.lists[i][k - 1];
        }
      }
    }
    KfreeConserves(m, kend, cpu, pa);
    var before: multiset<Addr> := multiset(FreePages(m));
    var now: multiset<Addr> := multiset(FreePages(after));
    assert now == before + multiset{pa};
    if NoDoubleFree(m) {
      if pa in FreePages(m) {
        assert Count(FreePages(after), pa) == now[pa] == before[pa] + 1 >= 2;
      } else {
        forall a: Addr
          ensures Count(FreePages(after), a) <= 1
        {
          assert Count(FreePages(after), a) == now[a] == before[a] + multiset{pa}[a];
          assert Count(FreePages(m), a) == before[a];
          assert pa !in before;
        }
      }
    }
  }

  /** kalloc keeps the invariants, and hands out a page kfree accepts, filled
      with kalloc's junk and, without double frees, no longer on any list. */
  lemma KallocPreserves(m: Kmem, kend: Addr, cpu: Cpu)
    requires Wf(m, kend)
    ensures var r := Kalloc(m, cpu);
      && Wf(r.mem, kend)
      && (r.page != 0 ==> PageOk(kend, r.page) && r.page in r.mem.fill && r.mem.fill[r.page] == AllocJunk)
      && (NoDoubleFree(m) ==> NoDoubleFree(r.mem) && r.page !in FreePages(r.mem))
      && (Junked(m) && NoDoubleFree(m) ==> Junked(r.mem))
  {
    KallocConserves(m, cpu);
    if !AllEmpty(m) {
      var i := SourceExists(m.lists, cpu);
      KallocKeepsPagesOk(m, kend, cpu, i);
      if NoDoubleFree(m) {
        KallocTakesOnce(m, cpu, i);
        if Junked(m) {
          KallocKeepsJunk(m, cpu, i);
        }
      }
    } else {
      FlatOfEmpties<Addr>(m.lists);
    }
  }

  /** Popping list `i` leaves only pages kfree accepts, and hands one out. */
  lemma KallocKeepsPagesOk(m: Kmem, kend: Addr, cpu: Cpu, i: nat)
    requires Wf(m, kend) && TakesFrom(m.lists, cpu, i)
    ensures Wf(Kalloc(m, cpu).mem, kend) && PageOk(kend, Kalloc(m, cpu).page)
  {
    var r := Kalloc(m, cpu);
    var l := m.lists[i];
    forall j, k | 0 <= j < NCPU && 0 <= k < |r.mem.lists[j]|
      ensures PageOk(kend, r.mem.lists[j][k])
    {
      if j == i {
        assert r.mem.lists[j][k] == l[k + 1];
      }
    }
    assert PageOk(kend, l[0]);
  }

  /** Without double frees, the page popped from list `i` was on the lists
      once, so it is on them no more and no page is on them twice. */
  lemma KallocTakesOnce(m: Kmem, cpu: Cpu, i: nat)
    requires |m.lists| == NCPU && TakesFrom(m.lists, cpu, i) && NoDoubleFree(m)
    ensures NoDoubleFree(Kalloc(m, cpu).mem) && Kalloc(m, cpu).page !in FreePages(Kalloc(m, cpu).mem)
  {
    var r := Kalloc(m, cpu);
    KallocConserves(m, cpu);
    var before: multiset<Addr> := multiset(FreePages(m));
    var now: multiset<Addr> := multiset(FreePages(r.mem));
    assert now + multiset{r.page} == before;
    forall a: Addr
      ensures Count(FreePages(r.mem), a) <= 1
    {
      assert Count(FreePages(m), a) == before[a] == now[a] + multiset{r.page}[a];
    }
    assert Count(FreePages(m), r.page) == before[r.page] == now[r.page] + 1;
    assert now[r.page] == 0;
    assert r.page !in now;
  }

  /** When the popped page is on no list any more, every page left on the
      lists still holds kfree's junk. */
  lemma KallocKeepsJunk(m: Kmem, cpu: Cpu, i: nat)
    requires |m.lists| == NCPU && TakesFrom(m.lists, cpu, i) && Junked(m)
    requires Kalloc(m, cpu).page !in FreePages(Kalloc(m, cpu).mem)
    ensures Junked(Kalloc(m, cpu).mem)
  {
    var r := Kalloc(m, cpu);
    var l := m.lists[i];
    forall j, k | 0 <= j < NCPU && 0 <= k < |r.mem.lists[j]|
      ensures r.mem.lists[j][k] in r.mem.fill && r.mem.fill[r.mem.lists[j][k]] == FreedJunk
    {
      var q := r.mem.lists[j][k];
      if j == i {
        assert q == l[k + 1];
      }
      InFlat(r.mem.lists, j, k);
      assert q != r.page;
    }
  }

  /** An element of one list is in the whole. */
  lemma InFlat(lists: seq<seq<Addr>>, j: nat, k: nat)
    requires j < |lists| && k < |lists[j]|
    ensures lists[j][k] in Flat<Addr>(lists)
  {
    CountInFlat<Addr>(lists, j, lists[j][k]);
    var whole: multiset<Addr> := multiset(Flat<Addr>(lists));
    var part: multiset<Addr> := multiset(lists[j]);
    assert lists[j][k] in part;
    assert part[lists[j][k]] <= whole[lists[j][k]];
  }

  /** kalloc on the CPU that just freed a page gets that page back, and the
      lists are as they were before the kfree. */
  lemma KfreeKallocRoundTrip(m: Kmem, kend: Addr, cpu: Cpu, pa: Addr)
    requires |m.lists| == NCPU
    requires Kfree(m, kend, cpu, pa).Freed?
    ensures Kalloc(Kfree(m, kend, cpu, pa).mem, cpu) == Alloc(pa, Kmem(m.lists, m.fill[pa := AllocJunk]))
  {
    var after := Kfree(m, kend, cpu, pa).mem;
    assert TakesFrom(after.lists, cpu, cpu);
    assert after.lists[cpu := after.lists[cpu][1..]] == m.lists;
  }

  /** Without double frees, two kallocs in a row, on any CPUs, never return
      the same page. */
  lemma TwoAllocsDistinct(m: Kmem, kend: Addr, c1: Cpu, c2: Cpu)
    requires Wf(m, kend) && NoDoubleFree(m)
    ensures var r1 := Kalloc(m, c1);
      var r2 := Kalloc(r1.mem, c2);
      r1.page != 0 && r2.page != 0 ==> r1.page != r2.page
  {
    var r1 := Kalloc(m, c1);
    KallocPreserves(m, kend, c1);
    var r2 := Kalloc(r1.mem, c2);
    if r1.page != 0 && r2.page != 0 {
      KallocNullIffEmpty(r1.mem, kend, c2);
      var i := SourceExists(r1.mem.lists, c2);
      InFlat(r1.mem.lists, i, 0);
    }
  }
}
