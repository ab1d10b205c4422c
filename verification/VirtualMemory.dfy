/** The operations of HW3/vm.c on address spaces: each is stated by its effect on the flat
    page map and on which frames the address space holds. */
module VirtualMemory {
  import opened Basics
  import opened PhysicalMemory
  import opened PageTables

  // What growing a directory's set of tables may do to memory.

  /** Frames were taken from the front of the free list, they and no others became tables of d,
      and only d, its tables and those frames were written. */
  ghost predicate Taken(ram: seq<Page>, free: seq<nat>, ram': seq<Page>, free': seq<nat>, d: int)
    requires Sized(ram) && Sized(ram') && 0 <= d < PHYSPAGES
  {
    && |free'| <= |free| && free' == free[|free| - |free'|..]
    && |free'| + Count(ram'[d]) == |free| + Count(ram[d])
    && (forall f :: IsTable(ram'[d], f) <==> IsTable(ram[d], f) || (f in free && f !in free'))
    && (forall f :: 0 <= f < PHYSPAGES && f != d && f !in free && !IsTable(ram[d], f) ==> ram'[f] == ram[f])
  }

  lemma TakenNone(ram: seq<Page>, free: seq<nat>, d: int)
    requires Sized(ram) && 0 <= d < PHYSPAGES
    ensures Taken(ram, free, ram, free, d)
  {
  }

  lemma TakenOne(ram: seq<Page>, free: seq<nat>, d: int, i: nat)
    requires Sized(ram) && 0 <= d < PHYSPAGES && i < NPTENTRIES && !Present(ram[d][i])
    requires free != [] && free[0] < PHYSPAGES && free[0] != d && free[0] !in free[1..]
    ensures var ram' := ram[free[0] := ZeroPage()][d := ram[d][i := Make(free[0], 7)]];
            Sized(ram') && Taken(ram, free, ram', free[1..], d)
  {
    AddTableOwner(ram[d], i, free[0]);
    CountUpdate(ram[d], i, Make(free[0], 7));
    MakeParts(free[0], 7);
    assert free == [free[0]] + free[1..];
  }

  lemma TakenStore(ram: seq<Page>, free: seq<nat>, ram': seq<Page>, free': seq<nat>, d: int, t: int, page: Page)
    requires Sized(ram) && Sized(ram') && 0 <= d < PHYSPAGES && Taken(ram, free, ram', free', d)
    requires 0 <= t < PHYSPAGES && t != d && IsTable(ram'[d], t) && |page| == NPTENTRIES
    ensures Sized(ram'[t := page]) && Taken(ram, free, ram'[t := page], free', d)
  {
  }

  lemma TakenTrans(ram: seq<Page>, free: seq<nat>, ram1: seq<Page>, free1: seq<nat>, ram2: seq<Page>, free2: seq<nat>, d: int)
    requires Sized(ram) && Sized(ram1) && Sized(ram2) && 0 <= d < PHYSPAGES
    requires Taken(ram, free, ram1, free1, d) && Taken(ram1, free1, ram2, free2, d)
    ensures Taken(ram, free, ram2, free2, d)
  {
    assert free2 == free[|free| - |free2|..];
    assert forall f :: f in free1 ==> f in free;
    assert forall f :: f in free2 ==> f in free1;
  }

  // walkpgdir and mappages.

  /** Returns the frame of the table that holds v's entry, 0 for a null pointer. */
  method Walkpgdir(m: Memory, d: nat, v: nat, alloc: bool) returns (t: int)
    requires m.Valid() && d < PHYSPAGES && Dir(m.low, d, m.ram[d], m.free) && v < SPACE
    modifies m`ram, m`freelist, m`free
    ensures m.Valid() && Dir(m.low, d, m.ram[d], m.free)
    ensures Flat(m.ram, m.ram[d]) == old(Flat(m.ram, m.ram[d]))
    ensures t == 0 <==> !old(Present(m.ram[d][Pdx(v)])) && (!alloc || old(m.free) == [])
    ensures t == 0 || !alloc || old(Present(m.ram[d][Pdx(v)])) ==> m.ram == old(m.ram) && m.free == old(m.free)
    ensures t != 0 ==> Present(m.ram[d][Pdx(v)]) && FrameOf(m.ram[d][Pdx(v)]) == t
    ensures t != 0 ==> Extended(old(m.ram[d]), m.ram[d], Pdx(v), Pdx(v) + 1)
    ensures Taken(old(m.ram), old(m.free), m.ram, m.free, d)
  {
    var pde := m.ram[d][Pdx(v)];
    if Present(pde) {
      t := FrameOf(pde);
    } else {
      if !alloc {
        return 0;
      }
      t := m.Kalloc();
      if t == 0 {
        return 0;
      }
      ghost var ram, free := m.ram, old(m.free);
      PopKeepsChain(ram, m.low, free[0], free);
      AddTable(ram, m.low, d, m.free, Pdx(v), t);
      TakenOne(ram, free, d, Pdx(v));
      MakeParts(t, 7);
      m.Store(t, ZeroPage());
      m.Store(d, m.ram[d][Pdx(v) := Make(t, 7)]);
    }
  }

  /** n pages from first on mapped to consecutive frames. */
  ghost function Mapped(flat: seq<int>, first: nat, n: nat, frame: nat, perm: nat): (r: seq<int>)
    ensures |r| == |flat|
    ensures forall v :: 0 <= v < |flat| ==> r[v] == if first <= v < first + n then Make(frame + v - first, perm) else flat[v]
  {
    seq(|flat|, v requires 0 <= v < |flat| => if first <= v < first + n then Make(frame + v - first, perm) else flat[v])
  }

  lemma MappedNext(flat: seq<int>, first: nat, n: nat, frame: nat, perm: nat)
    requires first + n < |flat|
    ensures Mapped(flat, first, n + 1, frame, perm) == Mapped(flat, first, n, frame, perm)[first + n := Make(frame + n, perm)]
    ensures Mapped(flat, first, 0, frame, perm) == flat
    ensures Mapped(flat, first, n, frame, perm)[first + n] == flat[first + n]
  {
  }

  /** The entry of a page whose table is there. */
  lemma EntryIn(ram: seq<Page>, low: nat, d: nat, free: seq<nat>, v: nat)
    requires Sized(ram) && d < PHYSPAGES && Dir(low, d, ram[d], free) && v < SPACE && Present(ram[d][Pdx(v)])
    ensures var t := FrameOf(ram[d][Pdx(v)]);
            && 0 <= t < PHYSPAGES && t != d && t !in free && IsTable(ram[d], t)
            && Flat(ram, ram[d])[v] == Entry(ram, ram[d], v) == ram[t][Ptx(v)]
  {
  }

  lemma NoTable(ram: seq<Page>, dir: Page, v: nat)
    requires |dir| == NPTENTRIES && v < SPACE
    ensures !Present(dir[Pdx(v)]) ==> Flat(ram, dir)[v] == Entry(ram, dir, v) == 0
  {
    assert Flat(ram, dir)[v] == Entry(ram, dir, v);
  }

  /** What mappages does: return 0, return -1, or panic because a page is mapped already. */
  datatype Mapping = Done | OutOfPages | Remap

  /** One more page of mappages: the table is found or made, and the entry stored. */
  method MapOne(m: Memory, d: nat, v: nat, frame: nat, perm: nat) returns (r: Mapping)
    requires m.Valid() && d < PHYSPAGES && Dir(m.low, d, m.ram[d], m.free) && v < SPACE
    modifies m`ram, m`freelist, m`free
    ensures m.Valid() && Dir(m.low, d, m.ram[d], m.free)
    ensures r == Remap <==> Present(old(Entry(m.ram, m.ram[d], v)))
    ensures r.Done? ==> Flat(m.ram, m.ram[d]) == old(Flat(m.ram, m.ram[d]))[v := Make(frame, perm)]
    ensures r.Done? ==> Extended(old(m.ram[d]), m.ram[d], Pdx(v), Pdx(v) + 1)
    ensures !r.Done? ==> m.ram == old(m.ram) && m.free == old(m.free)
    ensures r.OutOfPages? ==> m.free == [] && !Present(m.ram[d][Pdx(v)])
    ensures Taken(old(m.ram), old(m.free), m.ram, m.free, d)
  {
    hide Dir, Flat, Entry, Taken, IsTable, Present, Pdx, Ptx, FrameOf, Make, Extended, Chained;
    AbsentZero();
    NoTable(m.ram, m.ram[d], v);
    var t := Walkpgdir(m, d, v, true);
    if t == 0 {
      return OutOfPages;
    }
    EntryIn(m.ram, m.low, d, m.free, v);
    assert Flat(m.ram, m.ram[d])[v] == old(Flat(m.ram, m.ram[d]))[v] == old(Entry(m.ram, m.ram[d], v));
    if Present(m.ram[t][Ptx(v)]) {
      TakenNone(m.ram, m.free, d);
      return Remap;
    }
    SetEntry(m.ram, m.low, d, m.free, v, Make(frame, perm));
    TakenStore(old(m.ram), old(m.free), m.ram, m.free, d, t, m.ram[t][Ptx(v) := Make(frame, perm)]);
    m.Store(t, m.ram[t][Ptx(v) := Make(frame, perm)]);
    return Done;
  }

  lemma ExtendNone(dir: Page, first: nat)
    ensures Extended(dir, dir, Pdx(first), TablesEnd(first, 0))
  {
  }

  /** How the tables taken compare with the tables needed. */
  lemma TablesCounted(dir: Page, dir': Page, free: nat, free': nat, first: nat, n: nat)
    requires |dir| == NPTENTRIES && first < SPACE && first + n <= SPACE
    requires Extended(dir, dir', Pdx(first), TablesEnd(first, n)) && free' + Count(dir') == free + Count(dir)
    ensures free == free' + Tables(dir, first, n)
  {
    hide Pdx, Count;
    TablesRange(first, n);
    CountExtended(dir, dir', Pdx(first), TablesEnd(first, n));
  }

  /** If the table of page first + n is missing with none to be had, there were too few pages for it. */
  lemma TooFewTables(dir: Page, dir': Page, free: nat, first: nat, n: nat, m: nat)
    requires |dir| == NPTENTRIES && first < SPACE && n < m && first + m <= SPACE
    requires Extended(dir, dir', Pdx(first), TablesEnd(first, n)) && !Present(dir'[Pdx(first + n)])
    requires free == Tables(dir, first, n)
    ensures free < Tables(dir, first, m)
  {
    hide Pdx, Count;
    TablesStep(dir, dir', first, n);
    TablesMono(dir, first, n + 1, m);
  }

  lemma TakenCounts(ram: seq<Page>, free: seq<nat>, ram': seq<Page>, free': seq<nat>, d: int)
    requires Sized(ram) && Sized(ram') && 0 <= d < PHYSPAGES && Taken(ram, free, ram', free', d)
    ensures |free'| + Count(ram'[d]) == |free| + Count(ram[d])
  {
  }

  /** n pages from first on are not mapped. */
  ghost predicate Vacant(flat: seq<int>, first: nat, n: nat) {
    |flat| == SPACE && first + n <= SPACE && forall v :: first <= v < first + n ==> !Present(flat[v])
  }

  lemma VacantNext(flat: seq<int>, first: nat, n: nat)
    requires |flat| == SPACE && first + n < SPACE
    ensures Vacant(flat, first, 0)
    ensures Vacant(flat, first, n) && !Present(flat[first + n]) ==> Vacant(flat, first, n + 1)
  {
  }

  /** Memory after n pages from first on were mapped, ram and free being what it was before. */
  ghost predicate MapSoFar(low: nat, ram: seq<Page>, free: seq<nat>, ram': seq<Page>, free': seq<nat>, d: int, first: nat, n: nat, frame: nat, perm: nat) {
    && Sized(ram) && Sized(ram') && 0 <= d < PHYSPAGES && Dir(low, d, ram'[d], free')
    && Flat(ram', ram'[d]) == Mapped(Flat(ram, ram[d]), first, n, frame, perm)
    && Extended(ram[d], ram'[d], Pdx(first), TablesEnd(first, n)) && Taken(ram, free, ram', free', d)
    && Vacant(Flat(ram, ram[d]), first, n)
  }

  lemma MapNone(low: nat, ram: seq<Page>, free: seq<nat>, d: int, first: nat, frame: nat, perm: nat)
    requires Sized(ram) && 0 <= d < PHYSPAGES && Dir(low, d, ram[d], free) && first < SPACE
    ensures MapSoFar(low, ram, free, ram, free, d, first, 0, frame, perm)
  {
    hide Flat, Dir, Taken, Mapped, Make, Extended, TablesEnd, Pdx, Present;
    MappedNext(Flat(ram, ram[d]), first, 0, frame, perm);
    VacantNext(Flat(ram, ram[d]), first, 0);
    TakenNone(ram, free, d);
    ExtendNone(ram[d], first);
  }

  lemma MapMore(low: nat, ram: seq<Page>, free: seq<nat>, ram1: seq<Page>, free1: seq<nat>, ram2: seq<Page>, free2: seq<nat>, d: int,
                first: nat, n: nat, frame: nat, perm: nat)
    requires MapSoFar(low, ram, free, ram1, free1, d, first, n, frame, perm) && first + n < SPACE
    requires !Present(Flat(ram, ram[d])[first + n])
    requires Sized(ram2) && Dir(low, d, ram2[d], free2) && Taken(ram1, free1, ram2, free2, d)
    requires Flat(ram2, ram2[d]) == Flat(ram1, ram1[d])[first + n := Make(frame + n, perm)]
    requires Extended(ram1[d], ram2[d], Pdx(first + n), Pdx(first + n) + 1)
    ensures MapSoFar(low, ram, free, ram2, free2, d, first, n + 1, frame, perm)
  {
    hide Flat, Dir, Taken, Mapped, Make, Extended, TablesEnd, Pdx, Present, Vacant;
    MappedNext(Flat(ram, ram[d]), first, n, frame, perm);
    VacantNext(Flat(ram, ram[d]), first, n);
    TakenTrans(ram, free, ram1, free1, ram2, free2, d);
    ExtendNext(ram[d], ram1[d], ram2[d], first, n);
  }

  /** The next page is as it was before. */
  lemma MapAhead(low: nat, ram: seq<Page>, free: seq<nat>, ram': seq<Page>, free': seq<nat>, d: int, first: nat, n: nat, frame: nat, perm: nat)
    requires MapSoFar(low, ram, free, ram', free', d, first, n, frame, perm) && first + n < SPACE
    ensures Entry(ram', ram'[d], first + n) == Flat(ram, ram[d])[first + n]
  {
    hide Dir, Taken, Mapped, Make, Extended, TablesEnd, Pdx, Present;
    MappedNext(Flat(ram, ram[d]), first, n, frame, perm);
    assert Flat(ram', ram'[d])[first + n] == Flat(ram, ram[d])[first + n];
  }

  /** One turn of the loop of mappages, on page v. */
  method MapNext(m: Memory, d: nat, v: nat, f: nat, perm: nat, ghost ram: seq<Page>, ghost free: seq<nat>, ghost n: nat) returns (r: Mapping)
    requires m.Valid() && n <= v < SPACE && n <= f
    requires MapSoFar(m.low, ram, free, m.ram, m.free, d, v - n, n, f - n, perm)
    modifies m`ram, m`freelist, m`free
    ensures m.Valid() && MapSoFar(m.low, ram, free, m.ram, m.free, d, v - n, if r.Done? then n + 1 else n, f - n, perm)
    ensures r.OutOfPages? ==> m.free == [] && !Present(m.ram[d][Pdx(v)])
    ensures r.Remap? <==> Present(Flat(ram, ram[d])[v])
  {
    hide Chained, Present, Entry, Pdx, Make, Flat, Taken, Extended, Vacant, Mapped, Dir, TablesEnd;
    ghost var ram1, free1 := m.ram, m.free;
    MapAhead(m.low, ram, free, ram1, free1, d, v - n, n, f - n, perm);
    r := MapOne(m, d, v, f, perm);
    hide MapSoFar;
    if r.Done? {
      MapMore(m.low, ram, free, ram1, free1, m.ram, m.free, d, v - n, n, f - n, perm);
    }
  }

  /** The loop of mappages, in page numbers. */
  method MapRange(m: Memory, d: nat, first: nat, last: nat, frame: nat, perm: nat) returns (r: Mapping, ghost n: nat)
    requires m.Valid() && d < PHYSPAGES && Dir(m.low, d, m.ram[d], m.free) && first <= last < SPACE
    modifies m`ram, m`freelist, m`free
    ensures m.Valid() && MapSoFar(m.low, old(m.ram), old(m.free), m.ram, m.free, d, first, n, frame, perm)
    ensures n <= last - first + 1 && (r.Done? <==> n == last - first + 1)
    ensures r.OutOfPages? ==> m.free == [] && !Present(m.ram[d][Pdx(first + n)]) && !Present(old(Flat(m.ram, m.ram[d]))[first + n])
    ensures r.Remap? ==> Present(old(Flat(m.ram, m.ram[d]))[first + n])
  {
    hide Dir, MapSoFar, Chained, Present, Pdx, Flat;
    var v, f := first, frame;
    n := 0;
    MapNone(m.low, m.ram, m.free, d, first, frame, perm);
    while true
      invariant first <= v <= last && n == v - first && f == frame + n
      invariant m.Valid() && MapSoFar(m.low, old(m.ram), old(m.free), m.ram, m.free, d, first, n, frame, perm)
      decreases last - v
    {
      r := MapNext(m, d, v, f, perm, old(m.ram), old(m.free), n);
      if !r.Done? {
        return;
      }
      n := n + 1;
      if v == last {
        return;
      }
      v, f := v + 1, f + 1;
    }
  }

  lemma MapShort(ram: seq<Page>, free: seq<nat>, ram': seq<Page>, free': seq<nat>, d: int, first: nat, n: nat, pages: nat)
    requires Sized(ram) && Sized(ram') && 0 <= d < PHYSPAGES && Taken(ram, free, ram', free', d) && free' == []
    requires first < SPACE && n < pages && first + pages <= SPACE
    requires Extended(ram[d], ram'[d], Pdx(first), TablesEnd(first, n)) && !Present(ram'[d][Pdx(first + n)])
    ensures |free| < Tables(ram[d], first, pages)
  {
    hide Pdx, Count, Taken, Extended, TablesEnd, Tables, Present;
    TakenCounts(ram, free, ram', free', d);
    TablesCounted(ram[d], ram'[d], |free|, 0, first, n);
    TooFewTables(ram[d], ram'[d], |free|, first, n, pages);
  }

  lemma MapEnough(ram: seq<Page>, free: seq<nat>, ram': seq<Page>, free': seq<nat>, d: int, first: nat, n: nat)
    requires Sized(ram) && Sized(ram') && 0 <= d < PHYSPAGES && Taken(ram, free, ram', free', d)
    requires first < SPACE && first + n <= SPACE && Extended(ram[d], ram'[d], Pdx(first), TablesEnd(first, n))
    ensures |free| == |free'| + Tables(ram[d], first, n)
  {
    hide Pdx, Count, Taken, Extended, TablesEnd, Tables;
    TakenCounts(ram, free, ram', free', d);
    TablesCounted(ram[d], ram'[d], |free|, |free'|, first, n);
  }

  /** What mappages does depends on k, the number of pages before the first one mapped already, and on
      whether there are free pages for the tables those k pages lack; n pages are mapped. */
  method Mappages(m: Memory, d: nat, va: nat, size: nat, pa: nat, perm: nat) returns (r: Mapping, ghost n: nat)
    requires m.Valid() && d < PHYSPAGES && Dir(m.low, d, m.ram[d], m.free)
    requires 0 < size && va + size <= UINT && pa % PGSIZE == 0 && perm < PGSIZE
    modifies m`ram, m`freelist, m`free
    ensures m.Valid() && Dir(m.low, d, m.ram[d], m.free)
    ensures Flat(m.ram, m.ram[d]) == Mapped(old(Flat(m.ram, m.ram[d])), va / PGSIZE, n, pa / PGSIZE, perm)
    ensures Extended(old(m.ram[d]), m.ram[d], Pdx(va / PGSIZE), TablesEnd(va / PGSIZE, n))
    ensures var first, pages := va / PGSIZE, (va + size - 1) / PGSIZE - va / PGSIZE + 1;
            var k := Leading(old(Flat(m.ram, m.ram[d])), first, pages, false);
            && (r.OutOfPages? <==> |old(m.free)| < Tables(old(m.ram[d]), first, k))
            && (r.Remap? <==> k < pages && !r.OutOfPages?)
            && (if r.OutOfPages? then n < k && m.free == [] else n == k)
    ensures Taken(old(m.ram), old(m.free), m.ram, m.free, d)
  {
    hide Flat, Dir, Taken, Mapped, Make, Present, Chained, Entry, Extended, Tables, TablesEnd, Pdx, Count, Leading;
    var first, last := va / PGSIZE, (va + size - 1) / PGSIZE;
    r, n := MapRange(m, d, first, last, pa / PGSIZE, perm);
    ghost var k := Leading(old(Flat(m.ram, m.ram[d])), first, last - first + 1, false);
    if r.OutOfPages? {
      MapShort(old(m.ram), old(m.free), m.ram, m.free, d, first, n, k);
    } else {
      LeadingIs(old(Flat(m.ram, m.ram[d])), first, last - first + 1, false, n);
      MapEnough(old(m.ram), old(m.free), m.ram, m.free, d, first, n);
    }
  }

  // The kernel part of every address space.

  /** A row of kmap; addresses are in bytes and end may be 0 for the top of memory. */
  datatype Region = Region(virt: nat, start: nat, end: nat, perm: nat)

  /** data is the frame where the kernel's writable data begins. */
  function Kmap(data: nat): (rows: seq<Region>)
    ensures |rows| == 4
  {
    [Region(KERNBASE, 0, EXTPAGES * PGSIZE, PTE_W),
     Region(KERNBASE + EXTPAGES * PGSIZE, EXTPAGES * PGSIZE, data * PGSIZE, 0),
     Region(KERNBASE + data * PGSIZE, data * PGSIZE, PHYSPAGES * PGSIZE, PTE_W),
     Region(DEVPAGE * PGSIZE, DEVPAGE * PGSIZE, 0, PTE_W)]
  }

  /** end - start as a 32-bit difference. */
  function Extent(k: Region): nat {
    (k.end - k.start) % UINT
  }

  /** The flat map after the first n rows of kmap. */
  ghost function KernelFlat(data: nat, n: nat): (flat: seq<int>)
    requires n <= 4 && EXTPAGES < data < PHYSPAGES
    ensures |flat| == SPACE
  {
    if n == 0 then seq(SPACE, v => 0)
    else
      var k := Kmap(data)[n - 1];
      Mapped(KernelFlat(data, n - 1), k.virt / PGSIZE, Extent(k) / PGSIZE, k.start / PGSIZE, k.perm)
  }

  /** The kernel's half of the map, page by page. */
  function KernelEntry(data: nat, v: nat): int {
    if USER <= v < USER + EXTPAGES then Make(v - USER, PTE_W)
    else if USER + EXTPAGES <= v < USER + data then Make(v - USER, 0)
    else if USER + data <= v < USER + PHYSPAGES then Make(v - USER, PTE_W)
    else if DEVPAGE <= v < SPACE then Make(v, PTE_W)
    else 0
  }

  lemma KernelRegions(data: nat)
    requires EXTPAGES < data < PHYSPAGES
    ensures forall v :: 0 <= v < SPACE ==> KernelFlat(data, 4)[v] == KernelEntry(data, v)
  {
    var k := Kmap(data);
    assert Extent(k[0]) / PGSIZE == EXTPAGES && Extent(k[1]) / PGSIZE == data - EXTPAGES;
    assert Extent(k[2]) / PGSIZE == PHYSPAGES - data && Extent(k[3]) / PGSIZE == SPACE - DEVPAGE;
    assert k[0].virt / PGSIZE == USER && k[1].virt / PGSIZE == USER + EXTPAGES;
    assert k[2].virt / PGSIZE == USER + data && k[3].virt / PGSIZE == DEVPAGE;
    assert k[1].start / PGSIZE == EXTPAGES && k[2].start / PGSIZE == data && k[3].start / PGSIZE == DEVPAGE;
    var f0, f1, f2, f3 := KernelFlat(data, 0), KernelFlat(data, 1), KernelFlat(data, 2), KernelFlat(data, 3);
    hide Make, Extent, Kmap;
    forall v | 0 <= v < SPACE ensures KernelFlat(data, 4)[v] == KernelEntry(data, v) {
      assert f0[v] == 0;
      assert f1[v] == if USER <= v < USER + EXTPAGES then Make(v - USER, PTE_W) else f0[v];
      assert f2[v] == if USER + EXTPAGES <= v < USER + data then Make(v - USER, 0) else f1[v];
      assert f3[v] == if USER + data <= v < USER + PHYSPAGES then Make(v - USER, PTE_W) else f2[v];
    }
  }

  /** What every address space gives the kernel: physical memory at KERNBASE and the devices where they
      are, for the kernel alone, all of it writable but the kernel's text; and nothing below KERNBASE. */
  function KernelAccess(data: nat, v: nat): Access {
    if USER <= v < USER + PHYSPAGES then Access(v - USER, false, !(USER + EXTPAGES <= v < USER + data))
    else if DEVPAGE <= v < SPACE then Access(v, false, true)
    else Fault
  }

  lemma KernelEntryAccess(data: nat, v: nat)
    requires EXTPAGES < data < PHYSPAGES
    ensures EntryAccess(KernelEntry(data, v)) == KernelAccess(data, v)
  {
    AbsentZero();
    var e := KernelEntry(data, v);
    if e != 0 {
      FlagBits(e);
      if USER <= v < USER + PHYSPAGES {
        MakeParts(v - USER, if USER + EXTPAGES <= v < USER + data then 0 else PTE_W);
      } else {
        MakeParts(v, PTE_W);
      }
    }
  }

  lemma KernelMapAccess(ram: seq<Page>, low: nat, d: int, dir: Page, free: seq<nat>, data: nat, v: nat)
    requires EXTPAGES < data < PHYSPAGES && Dir(low, d, dir, free) && Flat(ram, dir) == KernelFlat(data, 4) && v < SPACE
    ensures Translate(ram, dir, v) == KernelAccess(data, v)
  {
    hide Dir, Flat, KernelFlat, Translate, EntryAccess, KernelEntry;
    FlatDecides(ram, low, d, dir, free, v);
    KernelRegions(data);
    KernelEntryAccess(data, v);
  }

  lemma RowSize(data: nat, n: nat)
    requires n < 4 && EXTPAGES < data < PHYSPAGES
    ensures var k := Kmap(data)[n];
            && 0 < Extent(k) && k.virt + Extent(k) <= UINT && k.start % PGSIZE == 0 && k.perm < PGSIZE
            && (k.virt + Extent(k) - 1) / PGSIZE - k.virt / PGSIZE + 1 == Extent(k) / PGSIZE
  {
  }

  /** No row of kmap maps a page an earlier row maps. */
  lemma RowsApart(data: nat, n: nat, v: nat)
    requires n < 4 && EXTPAGES < data < PHYSPAGES
    requires Kmap(data)[n].virt / PGSIZE <= v <= (Kmap(data)[n].virt + Extent(Kmap(data)[n]) - 1) / PGSIZE
    ensures v < SPACE && KernelFlat(data, n)[v] == 0
  {
    var k := Kmap(data);
    assert Extent(k[0]) / PGSIZE == EXTPAGES && Extent(k[1]) / PGSIZE == data - EXTPAGES;
    assert Extent(k[2]) / PGSIZE == PHYSPAGES - data && Extent(k[3]) / PGSIZE == SPACE - DEVPAGE;
    assert k[0].virt / PGSIZE == USER && k[1].virt / PGSIZE == USER + EXTPAGES;
    assert k[2].virt / PGSIZE == USER + data && k[3].virt / PGSIZE == DEVPAGE;
    RowSize(data, n);
    hide Make, Extent, Kmap;
    assert KernelFlat(data, 0)[v] == 0;
    assert n > 0 ==> KernelFlat(data, 1)[v] == 0;
    assert n > 1 ==> KernelFlat(data, 2)[v] == 0;
  }

  lemma EmptyDirectory(ram: seq<Page>, low: nat, d: nat, free: seq<nat>, data: nat)
    requires Sized(ram) && low <= d < PHYSPAGES && ram[d] == ZeroPage() && d !in free && EXTPAGES < data < PHYSPAGES
    ensures Dir(low, d, ram[d], free) && Flat(ram, ram[d]) == KernelFlat(data, 0)
    ensures Count(ram[d]) == 0 && KernelDir(ram[d], data, 0)
  {
    CountPrefix(ram[d], 0);
  }

  // How many tables the kernel part takes.

  /** One past the last table of the first n rows below the device space. */
  function KernelEnd(data: nat, n: nat): nat {
    match n
    case 0 => Pdx(USER)
    case 1 => Pdx(USER) + 1
    case 2 => Pdx(USER + data - 1) + 1
    case _ => Pdx(USER + PHYSPAGES - 1) + 1
  }

  /** The tables present after n rows of kmap. */
  ghost predicate KernelDir(dir: Page, data: nat, n: nat) {
    && |dir| == NPTENTRIES
    && forall i :: 0 <= i < NPTENTRIES ==>
         (Present(dir[i]) <==> Pdx(USER) <= i < KernelEnd(data, n) || (n == 4 && Pdx(DEVPAGE) <= i))
  }

  function KernelTables(data: nat, n: nat): int {
    KernelEnd(data, n) - Pdx(USER) + if n == 4 then NPTENTRIES - Pdx(DEVPAGE) else 0
  }

  /** The pages of setupkvm: the directory, 56 tables for physical memory and 8 for the devices. */
  const KERNELPAGES: nat := 65

  lemma KernelTablesMono(data: nat, n: nat)
    requires n <= 4 && EXTPAGES < data < PHYSPAGES
    ensures 0 <= KernelTables(data, n) <= KernelTables(data, 4) == KERNELPAGES - 1
    ensures Pdx(USER) <= KernelEnd(data, n) <= Pdx(DEVPAGE) < NPTENTRIES
    ensures KernelTables(data, 0) == 0
  {
  }

  lemma KernelCount(dir: Page, data: nat, n: nat)
    requires n <= 4 && EXTPAGES < data < PHYSPAGES && KernelDir(dir, data, n)
    ensures Count(dir) == KernelTables(data, n)
  {
    hide Present, Count;
    var lo, hi, dev := Pdx(USER), KernelEnd(data, n), Pdx(DEVPAGE);
    KernelTablesMono(data, n);
    CountSplit(dir, lo, hi);
    CountSplit(dir[hi..], dev - hi, dev - hi);
    assert dir[hi..][..dev - hi] == dir[hi..dev] && dir[hi..][dev - hi..] == dir[dev..];
    assert dir[hi..][dev - hi..dev - hi] == [];
    CountPrefix([], 0);
    CountPrefix(dir[..lo], 0);
    CountPrefix(dir[lo..hi], hi - lo);
    CountPrefix(dir[hi..dev], 0);
    CountPrefix(dir[dev..], if n == 4 then NPTENTRIES - dev else 0);
  }

  /** The tables of row n. */
  lemma RowTables(data: nat, n: nat)
    requires n < 4 && EXTPAGES < data < PHYSPAGES
    ensures var k := Kmap(data)[n]; var first, pages := k.virt / PGSIZE, Extent(k) / PGSIZE;
            && first < SPACE && first + pages <= SPACE
            && (if n == 3 then Pdx(first) == Pdx(DEVPAGE) && TablesEnd(first, pages) == NPTENTRIES
                else Pdx(USER) <= Pdx(first) <= KernelEnd(data, n) && TablesEnd(first, pages) == KernelEnd(data, n + 1))
            && KernelEnd(data, n) <= KernelEnd(data, n + 1) && KernelEnd(data, 3) == KernelEnd(data, 4)
  {
    var k := Kmap(data);
    assert Extent(k[0]) / PGSIZE == EXTPAGES && Extent(k[1]) / PGSIZE == data - EXTPAGES;
    assert Extent(k[2]) / PGSIZE == PHYSPAGES - data && Extent(k[3]) / PGSIZE == SPACE - DEVPAGE;
    assert k[0].virt / PGSIZE == USER && k[1].virt / PGSIZE == USER + EXTPAGES;
    assert k[2].virt / PGSIZE == USER + data && k[3].virt / PGSIZE == DEVPAGE;
  }

  lemma RowExtends(dir: Page, dir': Page, data: nat, n: nat)
    requires n < 4 && EXTPAGES < data < PHYSPAGES && KernelDir(dir, data, n)
    requires var k := Kmap(data)[n]; Extended(dir, dir', Pdx(k.virt / PGSIZE), TablesEnd(k.virt / PGSIZE, Extent(k) / PGSIZE))
    ensures KernelDir(dir', data, n + 1)
  {
    RowTables(data, n);
    KernelTablesMono(data, n);
    hide Present, Kmap, Extent, Pdx, TablesEnd, KernelEnd;
  }

  /** The missing tables of row n are those it adds. */
  lemma RowCost(dir: Page, data: nat, n: nat)
    requires n < 4 && EXTPAGES < data < PHYSPAGES && KernelDir(dir, data, n)
    ensures var k := Kmap(data)[n]; var first, pages := k.virt / PGSIZE, Extent(k) / PGSIZE;
            && first < SPACE && first + pages <= SPACE
            && Tables(dir, first, pages) == KernelTables(data, n + 1) - KernelTables(data, n)
  {
    RowTables(data, n);
    var k := Kmap(data)[n];
    var lo, hi := Pdx(k.virt / PGSIZE), TablesEnd(k.virt / PGSIZE, Extent(k) / PGSIZE);
    var full := Filled(dir, lo, hi);
    RowExtends(dir, full, data, n);
    KernelTablesMono(data, n + 1);
    hide Present, Kmap, Extent, Pdx, TablesEnd, Count, KernelDir;
    KernelCount(dir, data, n);
    KernelCount(full, data, n + 1);
    CountExtended(dir, full, lo, hi);
  }

  /** dir with its entries from lo up to hi made present. */
  ghost function Filled(dir: Page, lo: nat, hi: nat): (full: Page)
    ensures Extended(dir, full, lo, hi)
  {
    AbsentZero();
    seq(|dir|, i requires 0 <= i < |dir| => if lo <= i < hi && !Present(dir[i]) then 1 else dir[i])
  }

  /** setupkvm: 0 exactly if fewer than KERNELPAGES pages are free, and then the pages taken are not
      given back. */
  method Setupkvm(m: Memory, data: nat) returns (d: int)
    requires m.Valid() && EXTPAGES < data <= m.low && data < PHYSPAGES
    modifies m`ram, m`freelist, m`free
    ensures m.Valid() && |m.free| <= |old(m.free)| && m.free == old(m.free)[|old(m.free)| - |m.free|..]
    ensures d == 0 <==> |old(m.free)| < KERNELPAGES
    ensures d == 0 ==> m.free == []
    ensures forall f :: 0 <= f < PHYSPAGES && f !in old(m.free) ==> m.ram[f] == old(m.ram[f])
    ensures d != 0 ==>
              && 0 < d < PHYSPAGES && Dir(m.low, d, m.ram[d], m.free) && Flat(m.ram, m.ram[d]) == KernelFlat(data, 4)
              && KernelDir(m.ram[d], data, 4) && |m.free| + KERNELPAGES == |old(m.free)|
              && (forall v :: 0 <= v < SPACE ==> Translate(m.ram, m.ram[d], v) == KernelAccess(data, v))
              && forall f :: f in old(m.free) <==> f in m.free || f == d || IsTable(m.ram[d], f)
  {
    hide Flat, Dir, Mapped, Make, Present, Chained, Entry, Kmap, KernelFlat, Extent, Taken, IsTable, Count, KernelDir, KernelTables, KernelEnd, Translate, KernelAccess;
    d := m.Kalloc();
    if d == 0 {
      return;
    }
    PopKeepsChain(old(m.ram), m.low, old(m.freelist), old(m.free));
    ChainRange(old(m.ram), m.low, old(m.freelist), old(m.free));
    m.Store(d, ZeroPage());
    EmptyDirectory(m.ram, m.low, d, m.free, data);
    ghost var ram, free := m.ram, m.free;
    TakenNone(ram, free, d);
    var n := 0;
    while n < 4
      invariant 0 <= n <= 4 && m.Valid() && Dir(m.low, d, m.ram[d], m.free) && KernelDir(m.ram[d], data, n)
      invariant Flat(m.ram, m.ram[d]) == KernelFlat(data, n)
      invariant Taken(ram, free, m.ram, m.free, d)
    {
      var r := SetupRow(m, d, data, n, ram, free);
      if r.OutOfPages? {
        KernelTablesMono(data, n + 1);
        SetupTaken(old(m.ram), old(m.free), d, m.ram, m.free);
        return 0;
      }
      n := n + 1;
    }
    KernelTablesMono(data, 4);
    KernelCount(m.ram[d], data, 4);
    SetupTaken(old(m.ram), old(m.free), d, m.ram, m.free);
    forall v | 0 <= v < SPACE ensures Translate(m.ram, m.ram[d], v) == KernelAccess(data, v) {
      KernelMapAccess(m.ram, m.low, d, m.ram[d], m.free, data, v);
    }
  }

  lemma ChainRange(ram: seq<Page>, low: nat, head: int, free: seq<nat>)
    requires Sized(ram) && Chained(ram, low, head, free) && free != []
    ensures low <= free[0] < PHYSPAGES
  {
  }

  /** What tables taken by a directory that was itself the first free page amount to. */
  lemma SetupTaken(ram: seq<Page>, free: seq<nat>, d: int, ram': seq<Page>, free': seq<nat>)
    requires Sized(ram) && Sized(ram') && free != [] && d == free[0] && 0 <= d < PHYSPAGES
    requires Taken(ram[d := ZeroPage()], free[1..], ram', free', d)
    ensures |free'| + Count(ram'[d]) + 1 == |free| && Count(ram'[d]) <= NPTENTRIES && free' == free[|free| - |free'|..]
    ensures forall f :: f in free <==> f in free' || f == d || IsTable(ram'[d], f)
    ensures forall f :: 0 <= f < PHYSPAGES && f !in free ==> ram'[f] == ram[f]
  {
    CountPrefix(ZeroPage(), 0);
    assert free == [free[0]] + free[1..];
    assert forall f :: !IsTable(ZeroPage(), f);
    assert forall f :: f in free' ==> f in free[1..];
  }

  /** One row of kmap, after ram and free, in which the directory was empty. */
  method SetupRow(m: Memory, d: nat, data: nat, n: nat, ghost ram: seq<Page>, ghost free: seq<nat>) returns (r: Mapping)
    requires m.Valid() && d < PHYSPAGES && Dir(m.low, d, m.ram[d], m.free) && n < 4 && EXTPAGES < data < PHYSPAGES
    requires Flat(m.ram, m.ram[d]) == KernelFlat(data, n) && KernelDir(m.ram[d], data, n)
    requires Sized(ram) && Taken(ram, free, m.ram, m.free, d) && Count(ram[d]) == 0
    modifies m`ram, m`freelist, m`free
    ensures m.Valid() && Dir(m.low, d, m.ram[d], m.free) && Taken(ram, free, m.ram, m.free, d) && !r.Remap?
    ensures r.OutOfPages? ==> m.free == [] && |free| < KernelTables(data, n + 1)
    ensures r.Done? ==> Flat(m.ram, m.ram[d]) == KernelFlat(data, n + 1) && KernelDir(m.ram[d], data, n + 1)
  {
    hide Taken, Dir, Mapped, Make, Present, Chained, Entry, Kmap, Extent, KernelDir, KernelTables, KernelEnd, Extended, Tables, TablesEnd, Pdx, Count, Leading;
    ghost var ram1, free1 := m.ram, m.free;
    var k := Kmap(data)[n];
    RowSize(data, n);
    RowCost(m.ram[d], data, n);
    TakenCounts(ram, free, m.ram, m.free, d);
    KernelCount(m.ram[d], data, n);
    RowVacant(data, n);
    ghost var pages;
    r, pages := Mappages(m, d, k.virt, Extent(k), k.start, k.perm);
    TakenTrans(ram, free, ram1, free1, m.ram, m.free, d);
    if r.Done? {
      RowExtends(ram1[d], m.ram[d], data, n);
    }
  }

  lemma RowVacant(data: nat, n: nat)
    requires n < 4 && EXTPAGES < data < PHYSPAGES
    ensures var k := Kmap(data)[n];
            && k.virt / PGSIZE + Extent(k) / PGSIZE <= SPACE
            && Leading(KernelFlat(data, n), k.virt / PGSIZE, Extent(k) / PGSIZE, false) == Extent(k) / PGSIZE
  {
    hide KernelFlat, Present, Leading;
    RowSize(data, n);
    var k := Kmap(data)[n];
    hide Kmap, Extent;
    var first, pages := k.virt / PGSIZE, Extent(k) / PGSIZE;
    forall v | first <= v < first + pages ensures !Present(KernelFlat(data, n)[v]) {
      RowsApart(data, n, v);
      AbsentZero();
    }
    LeadingIs(KernelFlat(data, n), first, pages, false, pages);
  }

  lemma AbsentZero()
    ensures !Present(0)
  {
  }
}
