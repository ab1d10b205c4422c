/** User address spaces: growing, shrinking, copying and freeing them (HW3/vm.c), and the
    conservation of page frames over a whole lifetime. */
module AddressSpaces {
  import opened Basics
  import opened PhysicalMemory
  import opened PageTables
  import opened VirtualMemory

  /** A well-formed address space whose directory is frame d. */
  ghost predicate Space(m: Memory, d: int)
    reads m
  {
    && m.Valid() && 0 <= d < PHYSPAGES && Dir(m.low, d, m.ram[d], m.free)
    && Users(m.low, d, m.ram[d], Flat(m.ram, m.ram[d]), m.free)
  }

  /** Frames free or held before are free or held after, lost aside, and others are untouched. */
  ghost predicate Conserved(ram: seq<Page>, free: seq<nat>, ram': seq<Page>, free': seq<nat>, d: int, lost: set<int>)
    requires Sized(ram) && Sized(ram') && 0 <= d < PHYSPAGES
  {
    && (forall f :: f in free || Owns(d, ram[d], Flat(ram, ram[d]), f) <==>
          f in free' || Owns(d, ram'[d], Flat(ram', ram'[d]), f) || f in lost)
    && (forall f :: 0 <= f < PHYSPAGES && f !in free && !Owns(d, ram[d], Flat(ram, ram[d]), f) ==> ram'[f] == ram[f])
  }

  // Adding a page.

  lemma FrameOwner(flat: seq<int>, v: nat, e: int)
    requires v < USER && |flat| == SPACE && !Present(flat[v]) && Present(e)
    ensures forall f :: IsUserFrame(flat[v := e], f) <==> f == FrameOf(e) || IsUserFrame(flat, f)
  {
    var flat' := flat[v := e];
    assert flat'[v] == e;
    forall f | IsUserFrame(flat, f) ensures IsUserFrame(flat', f) {
      var u :| 0 <= u < USER && Present(flat[u]) && FrameOf(flat[u]) == f;
      assert flat'[u] == flat[u];
    }
  }

  /** The tables of dir' that are not in dir were free before, and free' is part of free. */
  ghost predicate TookTables(dir: Page, free: seq<nat>, dir': Page, free': seq<nat>) {
    && (forall f :: f in free' ==> f in free)
    && (forall f :: IsTable(dir', f) ==> IsTable(dir, f) || f in free)
  }

  lemma UsersTaken(low: nat, d: int, dir: Page, flat: seq<int>, free: seq<nat>, dir': Page, free': seq<nat>)
    requires Users(low, d, dir, flat, free) && TookTables(dir, free, dir', free')
    ensures Users(low, d, dir', flat, free')
  {
  }

  lemma UsersAdd(low: nat, d: int, dir: Page, flat: seq<int>, free: seq<nat>, v: nat, e: int)
    requires Users(low, d, dir, flat, free) && v < USER && Present(e) && !IsUserFrame(flat, FrameOf(e))
    requires low <= FrameOf(e) < PHYSPAGES && FrameOf(e) != d && FrameOf(e) !in free && !IsTable(dir, FrameOf(e))
    ensures Users(low, d, dir, flat[v := e], free)
  {
  }

  lemma TakenTookTables(ram: seq<Page>, free: seq<nat>, ram': seq<Page>, free': seq<nat>, d: int)
    requires Sized(ram) && Sized(ram') && 0 <= d < PHYSPAGES && Taken(ram, free, ram', free', d)
    ensures TookTables(ram[d], free, ram'[d], free')
  {
  }

  /** kalloc and fill the page. */
  method TakePage(m: Memory, d: nat, page: Page) returns (mem: int)
    requires Space(m, d) && |page| == NPTENTRIES
    modifies m`ram, m`freelist, m`free
    ensures Space(m, d)
    ensures mem == 0 ==> m.ram == old(m.ram) && m.free == old(m.free) == []
    ensures mem != 0 ==>
              && old(m.free) != [] && mem == old(m.free)[0] && m.free == old(m.free)[1..]
              && 0 < mem < PHYSPAGES && m.low <= mem && m.ram == old(m.ram)[mem := page]
              && mem != d && mem !in m.free && !IsTable(m.ram[d], mem) && !IsUserFrame(Flat(m.ram, m.ram[d]), mem)
              && Flat(m.ram, m.ram[d]) == old(Flat(m.ram, m.ram[d]))
  {
    mem := m.Kalloc();
    if mem != 0 {
      PopKeepsChain(old(m.ram), m.low, old(m.freelist), old(m.free));
      WriteElsewhere(m.ram, m.ram[d], mem, page);
      UsersTaken(m.low, d, m.ram[d], Flat(m.ram, m.ram[d]), old(m.free), m.ram[d], m.free);
      m.Store(mem, page);
      hide Flat, Chained;
    }
  }

  /** mappages for one user page. */
  method MapPage(m: Memory, d: nat, v: nat, mem: nat, perm: nat) returns (ok: bool)
    requires Space(m, d) && v < USER && perm < PGSIZE && !Present(Entry(m.ram, m.ram[d], v))
    requires m.low <= mem < PHYSPAGES && mem != d && mem !in m.free
    requires !IsTable(m.ram[d], mem) && !IsUserFrame(Flat(m.ram, m.ram[d]), mem)
    modifies m`ram, m`freelist, m`free
    ensures Space(m, d)
    ensures ok ==> Flat(m.ram, m.ram[d]) == old(Flat(m.ram, m.ram[d]))[v := Make(mem, perm)]
    ensures !ok ==> m.free == [] && Flat(m.ram, m.ram[d]) == old(Flat(m.ram, m.ram[d]))
    ensures ok ==> Extended(old(m.ram[d]), m.ram[d], Pdx(v), Pdx(v) + 1)
    ensures !ok ==> old(m.free) == [] && !Present(old(m.ram[d])[Pdx(v)])
    ensures Taken(old(m.ram), old(m.free), m.ram, m.free, d)
  {
    hide Flat, Chained, Dir, Users, Taken, TookTables, Make, IsTable, IsUserFrame, Mapped, Extended, Tables, TablesEnd, Pdx, Present, Entry, FrameOf;
    TablesOne(m.ram[d], v);
    ghost var flat := Flat(m.ram, m.ram[d]);
    var r, n := Mappages(m, d, v * PGSIZE, PGSIZE, mem * PGSIZE, perm);
    ok := r.Done?;
    MappedNext(flat, v, 0, mem, perm);
    MakeParts(mem, perm);
    TakenTookTables(old(m.ram), old(m.free), m.ram, m.free, d);
    UsersTaken(m.low, d, old(m.ram[d]), flat, old(m.free), m.ram[d], m.free);
    if ok {
      NotTaken(old(m.ram), old(m.free), m.ram, m.free, d, mem);
      UsersAdd(m.low, d, m.ram[d], flat, m.free, v, Make(mem, perm));
    }
  }

  lemma NotTaken(ram: seq<Page>, free: seq<nat>, ram': seq<Page>, free': seq<nat>, d: int, f: int)
    requires Sized(ram) && Sized(ram') && 0 <= d < PHYSPAGES && Taken(ram, free, ram', free', d)
    requires f !in free && !IsTable(ram[d], f)
    ensures f !in free' && !IsTable(ram'[d], f)
  {
  }

  /** kalloc, fill the page, mappages: shared by allocuvm and copyuvm. mem is 0 if no page could
      be had; ok is false if the page was had but a table for it could not. */
  method AddPage(m: Memory, d: nat, v: nat, page: Page, perm: nat) returns (mem: int, ok: bool)
    requires Space(m, d) && v < USER && |page| == NPTENTRIES && perm < PGSIZE
    requires !Present(Entry(m.ram, m.ram[d], v))
    modifies m`ram, m`freelist, m`free
    ensures Space(m, d)
    ensures mem == 0 ==> !ok && m.ram == old(m.ram) && m.free == old(m.free) == []
    ensures mem != 0 ==>
              && old(m.free) != [] && 0 < mem == old(m.free)[0] < PHYSPAGES && mem != d
              && Taken(old(m.ram)[mem := page], old(m.free)[1..], m.ram, m.free, d)
              && mem !in m.free && !IsTable(m.ram[d], mem) && m.ram[mem] == page
    ensures ok ==> Flat(m.ram, m.ram[d]) == old(Flat(m.ram, m.ram[d]))[v := Make(mem, perm)]
    ensures !ok ==> m.free == [] && Flat(m.ram, m.ram[d]) == old(Flat(m.ram, m.ram[d]))
    ensures ok ==> Extended(old(m.ram[d]), m.ram[d], Pdx(v), Pdx(v) + 1)
    ensures !ok && mem != 0 ==> |old(m.free)| == 1 && !Present(old(m.ram[d])[Pdx(v)])
  {
    mem := TakePage(m, d, page);
    if mem == 0 {
      return mem, false;
    }
    ghost var ram, free := m.ram, m.free;
    hide Flat, Chained, Dir, Users, TookTables, Make, IsTable, IsUserFrame, Entry, Extended, Pdx, Present;
    assert Flat(m.ram, m.ram[d])[v] == old(Flat(m.ram, m.ram[d]))[v];
    ok := MapPage(m, d, v, mem, perm);
    NotTaken(ram, free, m.ram, m.free, d, mem);
  }

  lemma ConservedTrans(ram: seq<Page>, free: seq<nat>, ram1: seq<Page>, free1: seq<nat>, ram2: seq<Page>, free2: seq<nat>,
                       d: int, lost1: set<int>, lost2: set<int>)
    requires Sized(ram) && Sized(ram1) && Sized(ram2) && 0 <= d < PHYSPAGES
    requires Conserved(ram, free, ram1, free1, d, lost1) && Conserved(ram1, free1, ram2, free2, d, lost2)
    ensures Conserved(ram, free, ram2, free2, d, lost1 + lost2)
  {
    hide Owns, Flat;
  }

  lemma ConservedSame(ram: seq<Page>, free: seq<nat>, d: int)
    requires Sized(ram) && 0 <= d < PHYSPAGES
    ensures Conserved(ram, free, ram, free, d, {})
  {
  }

  /** A page added, or lost for want of a table. */
  lemma AddConserved(ram: seq<Page>, free: seq<nat>, ram': seq<Page>, free': seq<nat>, d: int, page: Page, ok: bool, v: nat, perm: nat)
    requires Sized(ram) && Sized(ram') && 0 <= d < PHYSPAGES && free != [] && free[0] < PHYSPAGES && |page| == NPTENTRIES
    requires d != free[0] && Taken(ram[free[0] := page], free[1..], ram', free', d)
    requires v < USER && !Present(Entry(ram, ram[d], v)) && perm < PGSIZE
    requires Flat(ram', ram'[d]) == if ok then Flat(ram, ram[d])[v := Make(free[0], perm)] else Flat(ram, ram[d])
    ensures Conserved(ram, free, ram', free', d, if ok then {} else {free[0] as int})
  {
    var flat, flat' := Flat(ram, ram[d]), Flat(ram', ram'[d]);
    assert flat[v] == Entry(ram, ram[d], v);
    MakeParts(free[0], perm);
    FrameOwner(flat, v, Make(free[0], perm));
    forall f ensures f in free || Owns(d, ram[d], flat, f) <==> f in free' || Owns(d, ram'[d], flat', f) || (!ok && f == free[0]) {
      TakenMember(ram[free[0] := page], free, ram', free', d, f);
      hide Flat, Make, Entry, IsTable, IsUserFrame, Taken;
    }
    forall f | 0 <= f < PHYSPAGES && f !in free && !Owns(d, ram[d], flat, f) ensures ram'[f] == ram[f] {
      hide Flat, Make, Entry, IsTable, IsUserFrame;
      assert free[0] in free && (f in free[1..] ==> f in free);
    }
    hide Flat, Make, Entry, Owns, Taken;
  }

  /** Whether a frame is free or a table does not change when tables are taken. */
  lemma TakenMember(ram: seq<Page>, free: seq<nat>, ram': seq<Page>, free': seq<nat>, d: int, f: int)
    requires Sized(ram) && Sized(ram') && 0 <= d < PHYSPAGES && free != [] && Taken(ram, free[1..], ram', free', d)
    ensures f in free || IsTable(ram[d], f) <==> f == free[0] || f in free' || IsTable(ram'[d], f)
  {
    hide IsTable;
    assert free == [free[0]] + free[1..];
    if f in free' {
      assert f in free[1..];
    }
  }

  // Removing pages.

  /** The entry at v present, its frame freed, then its entry cleared. */
  method FreePage(m: Memory, d: nat, v: nat, t: nat)
    requires Space(m, d) && v < USER && Present(m.ram[d][Pdx(v)]) && FrameOf(m.ram[d][Pdx(v)]) == t
    requires Present(Entry(m.ram, m.ram[d], v))
    modifies m`ram, m`freelist, m`free
    ensures Space(m, d) && m.ram[d] == old(m.ram[d]) && Flat(m.ram, m.ram[d]) == old(Flat(m.ram, m.ram[d]))[v := 0]
    ensures Conserved(old(m.ram), old(m.free), m.ram, m.free, d, {})
    ensures |m.free| + UserCount(Flat(m.ram, m.ram[d])) == old(|m.free| + UserCount(Flat(m.ram, m.ram[d])))
  {
    ghost var flat := Flat(m.ram, m.ram[d]);
    var f := FrameOf(m.ram[t][Ptx(v)]);
    assert flat[v] == m.ram[t][Ptx(v)];
    WriteElsewhere(m.ram, m.ram[d], f, JunkPage(m.freelist));
    m.Kfree(f);
    assert IsTable(m.ram[d], t);
    SetEntry(m.ram, m.low, d, m.free, v, 0);
    m.Store(t, m.ram[t][Ptx(v) := 0]);
    UsersRemove(m.low, d, m.ram[d], flat, old(m.free), v);
    UserCountRemove(flat, v);
    RemoveConserved(old(m.ram), old(m.free), m.ram, d, v, f);
  }

  /** The number of user pages mapped. */
  function UserCount(flat: seq<int>): nat
    requires |flat| == SPACE
  {
    Count(flat[..USER])
  }

  lemma UserCountRemove(flat: seq<int>, v: nat)
    requires |flat| == SPACE && v < USER && Present(flat[v])
    ensures UserCount(flat[v := 0]) + 1 == UserCount(flat)
  {
    assert flat[v := 0][..USER] == flat[..USER][v := 0];
    CountUpdate(flat[..USER], v, 0);
  }

  lemma UsersRemove(low: nat, d: int, dir: Page, flat: seq<int>, free: seq<nat>, v: nat)
    requires Users(low, d, dir, flat, free) && v < USER && Present(flat[v])
    ensures FrameOf(flat[v]) >= 0 && Users(low, d, dir, flat[v := 0], [FrameOf(flat[v])] + free)
  {
  }

  lemma RemoveConserved(ram: seq<Page>, free: seq<nat>, ram': seq<Page>, d: int, v: nat, f: nat)
    requires Sized(ram) && Sized(ram') && 0 <= d < PHYSPAGES && v < USER && ram'[d] == ram[d]
    requires Present(Entry(ram, ram[d], v)) && FrameOf(Entry(ram, ram[d], v)) == f
    requires Flat(ram', ram'[d]) == Flat(ram, ram[d])[v := 0]
    requires forall g :: 0 <= g < PHYSPAGES && g != f && !IsTable(ram[d], g) ==> ram'[g] == ram[g]
    ensures Conserved(ram, free, ram', [f] + free, d, {})
  {
    var flat := Flat(ram, ram[d]);
    assert flat[v] == Entry(ram, ram[d], v);
    forall g | IsUserFrame(flat, g) && g != f ensures IsUserFrame(flat[v := 0], g) {
      var u :| 0 <= u < USER && Present(flat[u]) && FrameOf(flat[u]) == g;
      assert flat[v := 0][u] == flat[u];
    }
  }

  // deallocuvm steps over a missing table by a whole table's worth of pages, even when it
  // stands in the middle of one.

  /** The first table present at or after index i. */
  function FirstPresent(dir: Page, i: nat): (b: nat)
    requires i <= |dir|
    ensures i <= b <= |dir| && (b < |dir| ==> Present(dir[b])) && forall j :: i <= j < b ==> !Present(dir[j])
    decreases |dir| - i
  {
    if i == |dir| || Present(dir[i]) then i else FirstPresent(dir, i + 1)
  }

  /** The pages a scan from page s never looks at, though their table is present. */
  predicate Missed(dir: Page, s: nat, v: nat) {
    && |dir| == NPTENTRIES && s < SPACE
    && var b := FirstPresent(dir, Pdx(s));
       b != Pdx(s) && b * NPTENTRIES <= v < b * NPTENTRIES + Ptx(s)
  }

  /** The flat map with the pages from s up to e removed, as far as the scan sees them. */
  ghost function Cleared(flat: seq<int>, dir: Page, s: nat, e: nat): (r: seq<int>)
    ensures |r| == |flat|
    ensures forall v :: 0 <= v < |flat| ==> r[v] == if s <= v < e && Present(flat[v]) && !Missed(dir, s, v) then 0 else flat[v]
  {
    seq(|flat|, v requires 0 <= v < |flat| => if s <= v < e && Present(flat[v]) && !Missed(dir, s, v) then 0 else flat[v])
  }

  /** Where the scan from s may stand: still looking for a first table, or past that. */
  predicate Standing(dir: Page, s: nat, v: nat)
    requires |dir| == NPTENTRIES && s < SPACE
  {
    var b := FirstPresent(dir, Pdx(s));
    && s <= v
    && ((Pdx(v) <= b && Ptx(v) == Ptx(s)) ||
        (Pdx(v) == b < NPTENTRIES && Ptx(s) <= Ptx(v)) ||
        (Pdx(v) > b && (Ptx(v) == 0 || (Pdx(v) < NPTENTRIES && Present(dir[Pdx(v)])))))
  }

  lemma StandingSkip(dir: Page, s: nat, v: nat)
    requires |dir| == NPTENTRIES && s < SPACE && v < SPACE && Standing(dir, s, v) && !Present(dir[Pdx(v)])
    ensures Standing(dir, s, v + NPTENTRIES)
  {
    assert Pdx(v + NPTENTRIES) == Pdx(v) + 1;
    assert Ptx(v + NPTENTRIES) == Ptx(v);
  }

  lemma StandingNext(dir: Page, s: nat, v: nat)
    requires |dir| == NPTENTRIES && s < SPACE && v < SPACE && Standing(dir, s, v) && Present(dir[Pdx(v)])
    ensures Standing(dir, s, v + 1) && !Missed(dir, s, v)
  {
  }

  /** A skipped page has no table, or is one of the missed ones. */
  lemma Skipped(dir: Page, s: nat, v: nat, u: nat)
    requires |dir| == NPTENTRIES && s < SPACE && v < SPACE && Standing(dir, s, v) && !Present(dir[Pdx(v)])
    requires v <= u < v + NPTENTRIES && u < SPACE
    ensures !Present(dir[Pdx(u)]) || Missed(dir, s, u)
  {
    if Pdx(u) != Pdx(v) {
      assert Pdx(u) == Pdx(v) + 1;
    }
  }

  lemma ClearedSkip(ram: seq<Page>, dir: Page, flat: seq<int>, s: nat, v: nat, w: nat)
    requires |dir| == NPTENTRIES && s < SPACE && v < USER && Standing(dir, s, v) && !Present(dir[Pdx(v)])
    requires |flat| == SPACE && Flat(ram, dir) == Cleared(flat, dir, s, v) && v <= w <= v + NPTENTRIES
    ensures Cleared(flat, dir, s, w) == Cleared(flat, dir, s, v)
  {
    forall u | 0 <= u < SPACE ensures Cleared(flat, dir, s, w)[u] == Cleared(flat, dir, s, v)[u] {
      if v <= u < w {
        Skipped(dir, s, v, u);
        if !Missed(dir, s, u) {
          assert Entry(ram, dir, u) == 0;
          assert Flat(ram, dir)[u] == 0;
        }
      }
    }
  }

  lemma ClearedNext(dir: Page, flat: seq<int>, s: nat, v: nat)
    requires |dir| == NPTENTRIES && s <= v < SPACE && |flat| == SPACE && !Missed(dir, s, v)
    ensures Cleared(flat, dir, s, v + 1) == if Present(flat[v]) then Cleared(flat, dir, s, v)[v := 0] else Cleared(flat, dir, s, v)
    ensures Cleared(flat, dir, s, v)[v] == flat[v]
  {
  }

  lemma ClearedNone(flat: seq<int>, dir: Page, s: nat)
    ensures Cleared(flat, dir, s, s) == flat
  {
  }

  /** PGROUNDUP, in pages. */
  function Pages(sz: nat): nat {
    (sz + PGSIZE - 1) / PGSIZE
  }

  /** The table of page v is missing. */
  lemma SkipTable(ram: seq<Page>, dir: Page, flat: seq<int>, s: nat, v: nat, e: nat)
    requires |dir| == NPTENTRIES && |flat| == SPACE && s <= v < e <= USER && Standing(dir, s, v) && !Present(dir[Pdx(v)])
    requires Flat(ram, dir) == Cleared(flat, dir, s, v)
    ensures Standing(dir, s, v + NPTENTRIES) && Flat(ram, dir) == Cleared(flat, dir, s, Min(v + NPTENTRIES, e))
  {
    hide Standing, Cleared, Flat, Present, Pdx;
    ClearedSkip(ram, dir, flat, s, v, Min(v + NPTENTRIES, e));
    StandingSkip(dir, s, v);
  }

  /** The table t of page v is there: free the page if it is mapped. */
  method DeallocPage(m: Memory, d: nat, v: nat, t: nat, ghost s: nat, ghost flat: seq<int>)
    requires Space(m, d) && s <= v < USER && Standing(m.ram[d], s, v) && |flat| == SPACE
    requires Present(m.ram[d][Pdx(v)]) && FrameOf(m.ram[d][Pdx(v)]) == t
    requires Flat(m.ram, m.ram[d]) == Cleared(flat, m.ram[d], s, v)
    modifies m`ram, m`freelist, m`free
    ensures Space(m, d) && m.ram[d] == old(m.ram[d]) && Conserved(old(m.ram), old(m.free), m.ram, m.free, d, {})
    ensures |m.free| + UserCount(Flat(m.ram, m.ram[d])) == old(|m.free| + UserCount(Flat(m.ram, m.ram[d])))
    ensures Standing(m.ram[d], s, v + 1) && Flat(m.ram, m.ram[d]) == Cleared(flat, m.ram[d], s, v + 1)
  {
    hide Flat, Chained, Dir, Users, Conserved, Cleared, Standing, Missed, Entry, Present, FrameOf, Ptx, Pdx;
    ConservedSame(m.ram, m.free, d);
    StandingNext(m.ram[d], s, v);
    ClearedNext(m.ram[d], flat, s, v);
    EntryIn(m.ram, m.low, d, m.free, v);
    if Present(m.ram[t][Ptx(v)]) {
      FreePage(m, d, v, t);
    }
  }

  /** One turn of the loop, on page v of a scan from s to e that began with the map flat. */
  method DeallocStep(m: Memory, d: nat, v: nat, ghost s: nat, ghost e: nat, ghost flat: seq<int>) returns (w: nat)
    requires Space(m, d) && s <= v < e <= USER && Standing(m.ram[d], s, v) && |flat| == SPACE
    requires Flat(m.ram, m.ram[d]) == Cleared(flat, m.ram[d], s, v)
    modifies m`ram, m`freelist, m`free
    ensures Space(m, d) && m.ram[d] == old(m.ram[d]) && Conserved(old(m.ram), old(m.free), m.ram, m.free, d, {})
    ensures |m.free| + UserCount(Flat(m.ram, m.ram[d])) == old(|m.free| + UserCount(Flat(m.ram, m.ram[d])))
    ensures v < w && Standing(m.ram[d], s, w) && Flat(m.ram, m.ram[d]) == Cleared(flat, m.ram[d], s, Min(w, e))
  {
    hide Flat, Chained, Dir, Users, Taken, Conserved, Cleared, Standing, Present, FrameOf, Pdx;
    var t := Walkpgdir(m, d, v, false);
    if t == 0 {
      ConservedSame(m.ram, m.free, d);
      SkipTable(m.ram, m.ram[d], flat, s, v, e);
      return v + (NPTENTRIES - 1) + 1;
    }
    TableFrame(m.ram, m.low, d, m.free, v);
    DeallocPage(m, d, v, t, s, flat);
    return v + 1;
  }

  lemma TableFrame(ram: seq<Page>, low: nat, d: nat, free: seq<nat>, v: nat)
    requires Sized(ram) && d < PHYSPAGES && Dir(low, d, ram[d], free) && v < SPACE && Present(ram[d][Pdx(v)])
    ensures 0 <= FrameOf(ram[d][Pdx(v)])
  {
  }

  /** Removes what the scan sees and returns every frame it removes to the free list. */
  method Deallocuvm(m: Memory, d: nat, oldsz: nat, newsz: nat) returns (r: nat)
    requires Space(m, d) && oldsz <= KERNBASE
    modifies m`ram, m`freelist, m`free
    ensures Space(m, d) && m.ram[d] == old(m.ram[d]) && Conserved(old(m.ram), old(m.free), m.ram, m.free, d, {})
    ensures |m.free| + UserCount(Flat(m.ram, m.ram[d])) == old(|m.free| + UserCount(Flat(m.ram, m.ram[d])))
    ensures if newsz >= oldsz then r == oldsz && m.ram == old(m.ram) && m.free == old(m.free)
            else r == newsz && Flat(m.ram, m.ram[d]) == Cleared(old(Flat(m.ram, m.ram[d])), old(m.ram[d]), Pages(newsz), Pages(oldsz))
    ensures newsz < oldsz ==>
              ((forall v :: Pages(newsz) <= v < Pages(oldsz) ==> !Present(Flat(m.ram, m.ram[d])[v])) <==>
               NoneHidden(old(Flat(m.ram, m.ram[d])), old(m.ram[d]), Pages(newsz), Pages(oldsz)))
  {
    ConservedSame(m.ram, m.free, d);
    if newsz >= oldsz {
      return oldsz;
    }
    ghost var flat, dir, s, e := Flat(m.ram, m.ram[d]), m.ram[d], Pages(newsz), Pages(oldsz);
    var v := Pages(newsz);
    ClearedNone(flat, dir, s);
    hide Flat, Chained, Dir, Users, Taken, Conserved, IsTable, IsUserFrame, Cleared, Missed, Entry, Present, Owns, NoneHidden;
    while v * PGSIZE < oldsz
      invariant Space(m, d) && m.ram[d] == dir && Conserved(old(m.ram), old(m.free), m.ram, m.free, d, {})
      invariant |m.free| + UserCount(Flat(m.ram, m.ram[d])) == old(|m.free| + UserCount(Flat(m.ram, m.ram[d])))
      invariant s <= v && Standing(dir, s, v) && Flat(m.ram, m.ram[d]) == Cleared(flat, dir, s, Min(v, e))
    {
      ghost var ram, free := m.ram, m.free;
      v := DeallocStep(m, d, v, s, e, flat);
      ConservedTrans(old(m.ram), old(m.free), ram, free, m.ram, m.free, d, {}, {});
    }
    DeallocCompleteIff(flat, dir, s, e);
    return newsz;
  }

  /** No page of the first table the scan meets is mapped below the offset at which it started,
      unless it starts inside that table. */
  ghost predicate NoneHidden(flat: seq<int>, dir: Page, s: nat, e: nat)
    requires |dir| == NPTENTRIES && |flat| == SPACE && s < SPACE && e <= SPACE
  {
    var b := FirstPresent(dir, Pdx(s));
    b != Pdx(s) ==> forall v :: b * NPTENTRIES <= v < b * NPTENTRIES + Ptx(s) && v < e ==> !Present(flat[v])
  }

  /** The scan removes every page of its range exactly when none is hidden from it. */
  lemma DeallocCompleteIff(flat: seq<int>, dir: Page, s: nat, e: nat)
    requires |dir| == NPTENTRIES && |flat| == SPACE && s < SPACE && e <= SPACE
    ensures (forall v :: s <= v < e ==> !Present(Cleared(flat, dir, s, e)[v])) <==> NoneHidden(flat, dir, s, e)
  {
    var b := FirstPresent(dir, Pdx(s));
    var r := Cleared(flat, dir, s, e);
    AbsentZero();
    if b != Pdx(s) && forall v :: s <= v < e ==> !Present(r[v]) {
      forall v | b * NPTENTRIES <= v < b * NPTENTRIES + Ptx(s) && v < e ensures !Present(flat[v]) {
        assert Missed(dir, s, v) && s <= v;
        assert !Present(r[v]);
      }
    }
  }

  /** User mappings form a contiguous prefix of n pages. */
  ghost predicate Prefix(flat: seq<int>, n: nat) {
    |flat| == SPACE && n <= USER && forall v :: 0 <= v < USER ==> (Present(flat[v]) <==> v < n)
  }

  /** On a contiguous prefix nothing is missed. */
  lemma PrefixCleared(ram: seq<Page>, dir: Page, n: nat, s: nat, e: nat)
    requires Sized(ram) && |dir| == NPTENTRIES && Prefix(Flat(ram, dir), n) && s <= e <= USER && n <= e
    ensures Prefix(Cleared(Flat(ram, dir), dir, s, e), Min(n, s))
    ensures forall v :: 0 <= v < SPACE && !(s <= v < n) ==> Cleared(Flat(ram, dir), dir, s, e)[v] == Flat(ram, dir)[v]
  {
    var flat := Flat(ram, dir);
    AbsentZero();
    forall v | 0 <= v < USER && Present(flat[v]) ensures !Missed(dir, s, v) {
      if s <= v {
        assert Present(flat[s]) && flat[s] == Entry(ram, dir, s);
      }
    }
  }

  // allocuvm.

  /** What growing from oldsz to newsz leaves: pages of the range zeroed, writable and user. */
  ghost predicate Grown(ram: seq<Page>, flat: seq<int>, flat': seq<int>, first: nat, last: nat)
    requires Sized(ram)
  {
    && |flat| == |flat'| == SPACE && last <= USER
    && (forall v :: 0 <= v < SPACE && !(first <= v < last) ==> flat'[v] == flat[v])
    && (forall v :: first <= v < last ==>
          && Present(flat'[v]) && Flags(flat'[v]) == PTE_W + PTE_U + 1
          && 0 <= FrameOf(flat'[v]) < PHYSPAGES && ram[FrameOf(flat'[v])] == ZeroPage())
  }

  lemma GrownNext(ram: seq<Page>, flat: seq<int>, flat': seq<int>, ram': seq<Page>, first: nat, v: nat, mem: nat)
    requires Sized(ram) && Sized(ram') && Grown(ram, flat, flat', first, v) && first <= v < USER
    requires mem < PHYSPAGES && ram'[mem] == ZeroPage()
    requires forall u :: first <= u < v ==> ram'[FrameOf(flat'[u])] == ram[FrameOf(flat'[u])]
    ensures Grown(ram', flat, flat'[v := Make(mem, PTE_W + PTE_U)], first, v + 1)
  {
    MakeParts(mem, PTE_W + PTE_U);
    hide Make, Present, Flags, FrameOf;
  }

  /** User pages are not touched by adding another one. */
  lemma UserPagesKept(ram: seq<Page>, low: nat, d: int, free: seq<nat>, ram': seq<Page>, free': seq<nat>, page: Page)
    requires Sized(ram) && Sized(ram') && 0 <= d < PHYSPAGES && free != [] && free[0] < PHYSPAGES && |page| == NPTENTRIES
    requires Users(low, d, ram[d], Flat(ram, ram[d]), free)
    requires d != free[0] && Taken(ram[free[0] := page], free[1..], ram', free', d)
    ensures forall v :: 0 <= v < USER && Present(Flat(ram, ram[d])[v]) ==>
              0 <= FrameOf(Flat(ram, ram[d])[v]) < PHYSPAGES && ram'[FrameOf(Flat(ram, ram[d])[v])] == ram[FrameOf(Flat(ram, ram[d])[v])]
  {
    hide Flat, IsTable;
    assert forall f :: f in free[1..] ==> f in free;
    assert free[0] in free;
  }

  /** One turn of allocuvm's loop on page v, the pages from first to w being mapped: a page had
      and mapped, had but lost, or none to be had. */
  method AllocStep(m: Memory, d: nat, v: nat, ghost first: nat, ghost w: nat, ghost flat: seq<int>) returns (mem: int, ok: bool)
    requires Space(m, d) && first <= w <= v < USER && Grown(m.ram, flat, Flat(m.ram, m.ram[d]), first, w)
    requires |flat| == SPACE && !Present(flat[v])
    modifies m`ram, m`freelist, m`free
    ensures Space(m, d)
    ensures mem == 0 <==> old(m.free) == []
    ensures mem == 0 ==> !ok && m.ram == old(m.ram) && m.free == old(m.free)
    ensures Conserved(old(m.ram), old(m.free), m.ram, m.free, d, if mem == 0 || ok then {} else {mem})
    ensures !ok ==> m.free == [] && Grown(m.ram, flat, Flat(m.ram, m.ram[d]), first, w)
    ensures ok ==> |m.free| + Count(m.ram[d]) + 1 == |old(m.free)| + Count(old(m.ram[d]))
    ensures ok ==> Extended(old(m.ram[d]), m.ram[d], Pdx(v), Pdx(v) + 1)
    ensures !ok && mem != 0 ==> |old(m.free)| == 1 && !Present(old(m.ram[d])[Pdx(v)])
    ensures ok && w == v ==> Grown(m.ram, flat, Flat(m.ram, m.ram[d]), first, v + 1)
  {
    hide Flat, Chained, Dir, Users, Taken, IsTable, IsUserFrame, Entry, Present, Owns, FrameOf, Grown, Conserved, Extended, Pdx, Count;
    ghost var ram, free, flat1 := m.ram, m.free, Flat(m.ram, m.ram[d]);
    ConservedSame(ram, free, d);
    GrownFacts(m.ram, flat, flat1, first, w);
    mem, ok := AddPage(m, d, v, ZeroPage(), PTE_W + PTE_U);
    if mem != 0 {
      AddConserved(ram, free, m.ram, m.free, d, ZeroPage(), ok, v, PTE_W + PTE_U);
      UserPagesKept(ram, m.low, d, free, m.ram, m.free, ZeroPage());
      TakenCounts(ram[free[0] := ZeroPage()], free[1..], m.ram, m.free, d);
      if ok && w == v {
        GrownNext(ram, flat, flat1, m.ram, first, v, mem);
      } else if !ok {
        GrownKept(ram, flat, flat1, m.ram, first, w);
      }
    }
  }

  lemma GrownFacts(ram: seq<Page>, flat: seq<int>, flat': seq<int>, first: nat, w: nat)
    requires Sized(ram) && Grown(ram, flat, flat', first, w)
    ensures |flat'| == SPACE && w <= USER && forall u :: first <= u < w ==> Present(flat'[u])
    ensures forall v :: w <= v < SPACE && first <= v ==> flat'[v] == flat[v]
  {
  }

  lemma GrownNone(ram: seq<Page>, flat: seq<int>, first: nat)
    requires Sized(ram) && |flat| == SPACE && first <= USER
    ensures Grown(ram, flat, flat, first, first)
  {
  }

  lemma GrownKept(ram: seq<Page>, flat: seq<int>, flat': seq<int>, ram': seq<Page>, first: nat, w: nat)
    requires Sized(ram) && Sized(ram') && Grown(ram, flat, flat', first, w)
    requires forall u :: first <= u < w ==> ram'[FrameOf(flat'[u])] == ram[FrameOf(flat'[u])]
    ensures Grown(ram', flat, flat', first, w)
  {
  }

  /** The range from first to last is unmapped and the rest is as in flat. */
  ghost predicate RolledBack(flat: seq<int>, flat': seq<int>, first: nat, last: nat) {
    && |flat'| == |flat|
    && forall v :: 0 <= v < |flat| ==> if first <= v < last then !Present(flat'[v]) else flat'[v] == flat[v]
  }

  /** Deallocating a range of which a prefix was just mapped clears all of it. */
  lemma GrownCleared(ram: seq<Page>, dir: Page, flat: seq<int>, first: nat, w: nat, last: nat)
    requires Sized(ram) && |dir| == NPTENTRIES && Grown(ram, flat, Flat(ram, dir), first, w) && first <= w <= last <= USER
    requires forall v :: first <= v < last ==> !Present(flat[v])
    ensures RolledBack(flat, Cleared(Flat(ram, dir), dir, first, last), first, last)
  {
    var flat1 := Flat(ram, dir);
    var r := Cleared(flat1, dir, first, last);
    AbsentZero();
    forall v | first <= v < last ensures !Present(r[v]) {
      if v < w {
        assert Present(flat1[first]) && flat1[first] == Entry(ram, dir, first);
        assert Present(dir[Pdx(first)]);
      }
    }
  }

  /** The state of allocuvm's loop at page a: every page so far mapped at its exact cost, or a page
      lost at w, just before a, with nothing left. */
  ghost predicate AllocSoFar(dir: Page, free: nat, dir': Page, free': nat, first: nat, w: nat, a: nat, short: bool) {
    && first <= w
    && if short then a == w + 1 && free' == 0 && Loses(dir, first, w - first, free)
       else a == w && Accounted(dir, free, dir', free', first, w - first)
  }

  lemma AllocFirst(dir: Page, free: nat, first: nat)
    requires |dir| == NPTENTRIES && first < SPACE
    ensures AllocSoFar(dir, free, dir, free, first, first, first, false)
  {
    hide Accounted;
    AccountedNone(dir, free, first);
  }

  lemma AllocNext(dir: Page, free: nat, dir1: Page, free1: nat, dir2: Page, free2: nat, first: nat, w: nat)
    requires AllocSoFar(dir, free, dir1, free1, first, w, w, false) && w < USER
    requires Extended(dir1, dir2, Pdx(w), Pdx(w) + 1) && free2 + Count(dir2) + 1 == free1 + Count(dir1)
    ensures AllocSoFar(dir, free, dir2, free2, first, w + 1, w + 1, false)
  {
    hide Accounted, Count, Pdx, Extended;
    AccountedNext(dir, free, dir1, free1, dir2, free2, first, w - first);
  }

  lemma AllocLost(dir: Page, free: nat, dir1: Page, dir2: Page, first: nat, w: nat)
    requires AllocSoFar(dir, free, dir1, 1, first, w, w, false) && w < USER && |dir1| == NPTENTRIES && !Present(dir1[Pdx(w)])
    ensures AllocSoFar(dir, free, dir2, 0, first, w, w + 1, true)
  {
    hide Accounted, Pdx, Loses;
    LosesHere(dir, free, dir1, first, w - first);
  }

  /** Out of pages at a. */
  lemma AllocFails(dir: Page, free: nat, dir': Page, first: nat, w: nat, a: nat, last: nat, short: bool)
    requires AllocSoFar(dir, free, dir', 0, first, w, a, short) && a < last <= USER
    ensures Outcome(dir, first, last - first, free, false, short)
  {
    hide Accounted, Loses, Outcome;
    if short {
      OutcomeShort(dir, free, first, w - first, last - first);
    } else {
      OutcomeNone(dir, free, dir', first, w - first, last - first);
    }
  }

  lemma AllocEnds(dir: Page, free: nat, dir': Page, free': nat, first: nat, w: nat, last: nat, short: bool)
    requires AllocSoFar(dir, free, dir', free', first, w, last, short) && last <= USER
    ensures Outcome(dir, first, last - first, free, true, short)
  {
    hide Accounted, Loses, Outcome;
    if short {
      OutcomeShort(dir, free, first, w - first, last - first);
    } else {
      OutcomeDone(dir, free, dir', free', first, w - first);
    }
  }

  /** Before a page that is mapped already, the pages up to a having been dealt with. */
  lemma AllocMapped(dir: Page, free: nat, dir': Page, free': nat, first: nat, w: nat, a: nat, short: bool)
    requires AllocSoFar(dir, free, dir', free', first, w, a, short) && a <= USER
    ensures |dir| == NPTENTRIES && first <= a && (free' > 0 <==> free > Cost(dir, first, a - first))
    ensures short <==> exists v :: 0 <= v < a - first && Loses(dir, first, v, free)
  {
    hide Cost;
    AllocEnds(dir, free, dir', free', first, w, a, short);
  }

  /** How allocuvm ends, n being the number of pages before the first one mapped already: if that
      is all of them, as Outcome says; if not, it panics in mappages exactly if a page is left over after
      those n, and fails otherwise. */
  ghost predicate AllocOutcome(dir: Page, first: nat, pages: nat, n: nat, free: nat, done: bool, short: bool, panicked: bool) {
    && |dir| == NPTENTRIES && first < SPACE && first + pages <= SPACE && n <= pages
    && (n == pages ==> !panicked && Outcome(dir, first, pages, free, done, short))
    && (n < pages ==>
          && !done && (panicked <==> free > Cost(dir, first, n))
          && (short <==> exists v :: 0 <= v < n && Loses(dir, first, v, free)))
  }

  lemma AllocFailed(dir: Page, free: nat, dir': Page, first: nat, w: nat, a: nat, n: nat, pages: nat, short: bool)
    requires AllocSoFar(dir, free, dir', 0, first, w, a, short) && first <= a <= first + n && n <= pages && first + pages <= USER && a < first + pages
    requires |dir| == NPTENTRIES
    ensures AllocOutcome(dir, first, pages, n, free, false, short, false)
  {
    hide AllocSoFar, Loses, Cost;
    if a < first + n {
      AllocFails(dir, free, dir', first, w, a, first + n, short);
    } else {
      AllocMapped(dir, free, dir', 0, first, w, a, short);
    }
  }

  lemma AllocRemap(dir: Page, free: nat, dir': Page, free': nat, first: nat, w: nat, n: nat, pages: nat, short: bool)
    requires AllocSoFar(dir, free, dir', free', first, w, first + n, short) && n < pages && first + pages <= USER && free' > 0
    ensures AllocOutcome(dir, first, pages, n, free, false, short, true)
  {
    hide AllocSoFar, Loses, Cost;
    AllocMapped(dir, free, dir', free', first, w, first + n, short);
  }

  /** Outside the range nothing changes. */
  ghost predicate KeptOutside(flat: seq<int>, flat': seq<int>, first: nat, last: nat) {
    |flat'| == |flat| && forall v :: 0 <= v < |flat| && !(first <= v < last) ==> flat'[v] == flat[v]
  }

  lemma ClearedOutside(ram: seq<Page>, flat: seq<int>, flat1: seq<int>, dir: Page, first: nat, w: nat, last: nat)
    requires Sized(ram) && Grown(ram, flat, flat1, first, w) && w <= last
    ensures KeptOutside(flat, Cleared(flat1, dir, first, last), first, last)
  {
  }

  /** What allocuvm leaves: on success the new pages, but for a lost one; on failure the range cleared,
      if none of it was mapped before. */
  ghost predicate AllocLeaves(ram: seq<Page>, flat: seq<int>, flat': seq<int>, first: nat, last: nat, n: nat, done: bool, short: bool)
    requires Sized(ram) && first <= last
  {
    && KeptOutside(flat, flat', first, last)
    && (done ==> Grown(ram, flat, flat', first, if short && last > 0 then last - 1 else last))
    && (!done && n == last - first ==> RolledBack(flat, flat', first, last))
  }

  lemma GrownLeaves(ram: seq<Page>, flat: seq<int>, flat': seq<int>, first: nat, w: nat, last: nat, n: nat, done: bool, short: bool)
    requires Sized(ram) && first <= w <= last && Grown(ram, flat, flat', first, w)
    requires if done then w == (if short && last > 0 then last - 1 else last) else n < last - first
    ensures AllocLeaves(ram, flat, flat', first, last, n, done, short)
  {
    hide Present, Flags, FrameOf;
  }

  lemma FailedLeaves(ram: seq<Page>, ram': seq<Page>, dir: Page, flat: seq<int>, first: nat, w: nat, last: nat, n: nat, short: bool)
    requires Sized(ram) && Sized(ram') && |dir| == NPTENTRIES && first <= w <= last <= USER && Grown(ram, flat, Flat(ram, dir), first, w)
    requires n == last - first ==> forall v :: first <= v < last ==> !Present(flat[v])
    ensures AllocLeaves(ram', flat, Cleared(Flat(ram, dir), dir, first, last), first, last, n, false, short)
  {
    hide Grown, Cleared, RolledBack, KeptOutside, Flat, Present;
    ClearedOutside(ram, flat, Flat(ram, dir), dir, first, w, last);
    if n == last - first {
      GrownCleared(ram, dir, flat, first, w, last);
    }
  }

  /** The loop of allocuvm.  kalloc fails exactly if the free list is empty; a page had for an address
      that is mapped already makes mappages panic. */
  method AllocLoop(m: Memory, d: nat, oldsz: nat, newsz: nat) returns (r: nat, short: bool, panicked: bool, ghost lost: set<int>)
    requires Space(m, d) && oldsz <= newsz < KERNBASE
    modifies m`ram, m`freelist, m`free
    ensures Space(m, d) && Conserved(old(m.ram), old(m.free), m.ram, m.free, d, lost)
    ensures if short then |lost| == 1 else lost == {}
    ensures (r == newsz || r == 0) && (panicked ==> r == 0 < newsz) && (short && r == newsz ==> m.free == [])
    ensures var first, last := Pages(oldsz), Pages(newsz);
            var n := Leading(old(Flat(m.ram, m.ram[d])), first, last - first, false);
            && AllocOutcome(old(m.ram[d]), first, last - first, n, |old(m.free)|, r == newsz, short, panicked)
            && AllocLeaves(m.ram, old(Flat(m.ram, m.ram[d])), Flat(m.ram, m.ram[d]), first, last, n, r == newsz, short)
            && (r == newsz && !short ==> Accounted(old(m.ram[d]), |old(m.free)|, m.ram[d], |m.free|, first, last - first))
  {
    hide Flat, Chained, Dir, Users, Taken, IsTable, IsUserFrame, Entry, Present, Owns, FrameOf, Grown, Conserved, RolledBack, Cleared,
         Accounted, Loses, Outcome, Extended, Pdx, Count, Leading, AllocOutcome, AllocLeaves, KeptOutside;
    short, panicked, lost := false, false, {};
    ConservedSame(m.ram, m.free, d);
    ghost var flat, dir, first, last := Flat(m.ram, m.ram[d]), m.ram[d], Pages(oldsz), Pages(newsz);
    ghost var n := Leading(flat, first, last - first, false);
    var a := Pages(oldsz);
    ghost var w := a;
    GrownNone(m.ram, flat, first);
    AllocFirst(dir, |m.free|, first);
    while a * PGSIZE < newsz
      invariant Space(m, d) && Conserved(old(m.ram), old(m.free), m.ram, m.free, d, lost)
      invariant first <= w <= a <= first + n <= last && Grown(m.ram, flat, Flat(m.ram, m.ram[d]), first, w)
      invariant if short then |lost| == 1 else lost == {}
      invariant AllocSoFar(dir, |old(m.free)|, m.ram[d], |m.free|, first, w, a, short)
    {
      ghost var ram, free := m.ram, m.free;
      GrownFacts(m.ram, flat, Flat(m.ram, m.ram[d]), first, w);
      var pte := UserEntry(m, d, a);
      FreeList(m.ram, m.low, m.freelist, m.free);
      if m.freelist == 0 {
        AllocFailed(dir, |old(m.free)|, m.ram[d], first, w, a, n, last - first, short);
        var _ := Deallocuvm(m, d, newsz, oldsz);
        ConservedTrans(old(m.ram), old(m.free), ram, free, m.ram, m.free, d, lost, {});
        assert lost + {} == lost;
        FailedLeaves(ram, m.ram, ram[d], flat, first, w, last, n, short);
        return 0, short, panicked, lost;
      }
      if Present(pte) {
        AllocRemap(dir, |old(m.free)|, m.ram[d], |m.free|, first, w, n, last - first, short);
        GrownLeaves(m.ram, flat, Flat(m.ram, m.ram[d]), first, w, last, n, false, short);
        return 0, short, true, lost;
      }
      var mem, ok := AllocStep(m, d, a, first, w, flat);
      ConservedTrans(old(m.ram), old(m.free), ram, free, m.ram, m.free, d, lost, if mem == 0 || ok then {} else {mem});
      if ok {
        AllocNext(dir, |old(m.free)|, ram[d], |free|, m.ram[d], |m.free|, first, w);
        w := a + 1;
      } else {
        AllocLost(dir, |old(m.free)|, ram[d], m.ram[d], first, w);
        short := true;
        lost := lost + {mem};
      }
      a := a + 1;
    }
    AllocFinished(dir, |old(m.free)|, m.ram[d], |m.free|, first, w, last, n, short);
    GrownLeaves(m.ram, flat, Flat(m.ram, m.ram[d]), first, w, last, n, true, short);
    return newsz, short, panicked, lost;
  }

  lemma AllocFinished(dir: Page, free: nat, dir': Page, free': nat, first: nat, w: nat, last: nat, n: nat, short: bool)
    requires AllocSoFar(dir, free, dir', free', first, w, last, short) && first <= last <= USER && n == last - first && |dir| == NPTENTRIES
    ensures AllocOutcome(dir, first, last - first, n, free, true, short, false)
    ensures if short then last > 0 && w == last - 1 && free' == 0 else w == last && Accounted(dir, free, dir', free', first, last - first)
  {
    hide Loses, Accounted;
    AllocEnds(dir, free, dir', free', first, w, last, short);
  }

  lemma FreeList(ram: seq<Page>, low: nat, head: int, free: seq<nat>)
    requires Sized(ram) && Chained(ram, low, head, free) && 0 < low
    ensures head == 0 <==> free == []
  {
  }

  /** User code can read and write these pages, and finds zeros there. */
  ghost predicate UserPages(ram: seq<Page>, dir: Page, first: nat, last: nat)
    requires Sized(ram)
  {
    forall v :: first <= v < last ==>
      var a := Translate(ram, dir, v); a.Access? && a.user && a.write && 0 <= a.frame < PHYSPAGES && ram[a.frame] == ZeroPage()
  }

  lemma GrownAccess(ram: seq<Page>, low: nat, d: int, dir: Page, free: seq<nat>, flat: seq<int>, first: nat, last: nat)
    requires Sized(ram) && Dir(low, d, dir, free) && Grown(ram, flat, Flat(ram, dir), first, last)
    ensures UserPages(ram, dir, first, last)
  {
    hide Dir, Flat, Translate, FrameOf;
    forall v | first <= v < last
      ensures var a := Translate(ram, dir, v); a.Access? && a.user && a.write && 0 <= a.frame < PHYSPAGES && ram[a.frame] == ZeroPage()
    {
      FlatDecides(ram, low, d, dir, free, v);
      FlagBits(Flat(ram, dir)[v]);
    }
  }

  /** short reports that a page was had but no table for it, which the source does not notice:
      that page is lost. AllocOutcome says exactly which numbers of free pages lead to which end. */
  method Allocuvm(m: Memory, d: nat, oldsz: nat, newsz: nat) returns (r: nat, short: bool, panicked: bool, ghost lost: set<int>)
    requires Space(m, d) && oldsz < UINT
    modifies m`ram, m`freelist, m`free
    ensures Space(m, d) && Conserved(old(m.ram), old(m.free), m.ram, m.free, d, lost)
    ensures if short then |lost| == 1 else lost == {}
    ensures newsz >= KERNBASE ==> r == 0 && !short && !panicked && m.ram == old(m.ram) && m.free == old(m.free)
    ensures newsz < KERNBASE && newsz < oldsz ==> r == oldsz && !short && !panicked && m.ram == old(m.ram) && m.free == old(m.free)
    ensures oldsz <= newsz < KERNBASE ==>
              var first, last := Pages(oldsz), Pages(newsz);
              var n := Leading(old(Flat(m.ram, m.ram[d])), first, last - first, false);
              && (r == newsz || r == 0) && (panicked ==> r == 0 < newsz) && (short && r == newsz ==> m.free == [])
              && AllocOutcome(old(m.ram[d]), first, last - first, n, |old(m.free)|, r == newsz, short, panicked)
              && AllocLeaves(m.ram, old(Flat(m.ram, m.ram[d])), Flat(m.ram, m.ram[d]), first, last, n, r == newsz, short)
              && (r == newsz && !short ==> Accounted(old(m.ram[d]), |old(m.free)|, m.ram[d], |m.free|, first, last - first))
              && (r == newsz ==> UserPages(m.ram, m.ram[d], first, if short && last > 0 then last - 1 else last))
  {
    hide Flat, Chained, Dir, Users, Taken, IsTable, IsUserFrame, Entry, Present, Owns, FrameOf, Grown, Conserved, RolledBack, Cleared,
         Accounted, Loses, Outcome, Extended, Pdx, Count, Leading, AllocOutcome, AllocLeaves, KeptOutside, UserPages;
    short, panicked, lost := false, false, {};
    ConservedSame(m.ram, m.free, d);
    if newsz >= KERNBASE {
      return 0, short, panicked, lost;
    }
    if newsz < oldsz {
      return oldsz, short, panicked, lost;
    }
    ghost var flat := Flat(m.ram, m.ram[d]);
    r, short, panicked, lost := AllocLoop(m, d, oldsz, newsz);
    if r == newsz {
      ghost var last := if short && Pages(newsz) > 0 then Pages(newsz) - 1 else Pages(newsz);
      LeavesGrown(m.ram, flat, Flat(m.ram, m.ram[d]), Pages(oldsz), Pages(newsz), Leading(flat, Pages(oldsz), Pages(newsz) - Pages(oldsz), false), short);
      GrownAccess(m.ram, m.low, d, m.ram[d], m.free, flat, Pages(oldsz), last);
    }
  }

  lemma LeavesGrown(ram: seq<Page>, flat: seq<int>, flat': seq<int>, first: nat, last: nat, n: nat, short: bool)
    requires Sized(ram) && first <= last && AllocLeaves(ram, flat, flat', first, last, n, true, short)
    ensures Grown(ram, flat, flat', first, if short && last > 0 then last - 1 else last)
  {
    hide Grown, KeptOutside;
  }

  // freevm.

  /** Deallocating everything from page 0 on misses nothing. */
  lemma ClearedAll(flat: seq<int>, dir: Page, f: int)
    requires |flat| == SPACE && |dir| == NPTENTRIES
    ensures !IsUserFrame(Cleared(flat, dir, 0, USER), f)
  {
    AbsentZero();
    assert forall v :: !Missed(dir, 0, v);
  }

  /** Freeing the tables below index i leaves the directory and the other tables alone. */
  ghost predicate TablesFreed(low: nat, d: nat, dir: Page, free: seq<nat>, free': seq<nat>, i: nat)
    requires i <= NPTENTRIES && |dir| == NPTENTRIES
  {
    && d !in free'
    && (forall f :: f in free' <==> f in free || IsTable(dir[..i], f))
    && (forall j :: i <= j < NPTENTRIES && Present(dir[j]) ==> FrameOf(dir[j]) !in free')
  }

  lemma TablesFreedNext(low: nat, d: nat, dir: Page, free: seq<nat>, free': seq<nat>, i: nat)
    requires i < NPTENTRIES && Dir(low, d, dir, free) && TablesFreed(low, d, dir, free, free', i)
    ensures Present(dir[i]) ==> low <= FrameOf(dir[i]) < PHYSPAGES && FrameOf(dir[i]) !in free' && FrameOf(dir[i]) != d
    ensures Present(dir[i]) ==> TablesFreed(low, d, dir, free, [FrameOf(dir[i])] + free', i + 1)
    ensures !Present(dir[i]) ==> TablesFreed(low, d, dir, free, free', i + 1)
  {
    var now, next := dir[..i], dir[..i + 1];
    forall f ensures IsTable(next, f) <==> IsTable(now, f) || (Present(dir[i]) && FrameOf(dir[i]) == f) {
      if IsTable(now, f) {
        var j :| 0 <= j < |now| && Present(now[j]) && FrameOf(now[j]) == f;
        assert next[j] == now[j];
      }
      if Present(dir[i]) && FrameOf(dir[i]) == f {
        assert next[i] == dir[i];
      }
      if IsTable(next, f) {
        var j :| 0 <= j < |next| && Present(next[j]) && FrameOf(next[j]) == f;
        assert j < i ==> now[j] == next[j];
      }
    }
  }

  /** Returns every frame the address space holds to the free list, and nothing else. */
  method Freevm(m: Memory, d: nat)
    requires Space(m, d)
    modifies m`ram, m`freelist, m`free
    ensures m.Valid()
    ensures forall f :: f in m.free <==> f in old(m.free) || Owns(d, old(m.ram[d]), old(Flat(m.ram, m.ram[d])), f)
    ensures forall f :: 0 <= f < PHYSPAGES && f !in m.free ==> m.ram[f] == old(m.ram[f])
  {
    hide Flat, Chained, Dir, Users, Taken, IsUserFrame, Entry, Present, FrameOf, Cleared, TablesFreed, IsTable;
    var _ := Deallocuvm(m, d, KERNBASE, 0);
    ghost var ram, free, dir := m.ram, m.free, m.ram[d];
    NoTablesFreed(m.low, d, dir, free);
    var i := 0;
    while i < NPTENTRIES
      invariant 0 <= i <= NPTENTRIES && m.Valid() && m.ram[d] == dir && TablesFreed(m.low, d, dir, free, m.free, i)
      invariant forall f :: 0 <= f < PHYSPAGES && f !in m.free ==> m.ram[f] == ram[f]
    {
      TablesFreedNext(m.low, d, dir, free, m.free, i);
      if Present(m.ram[d][i]) {
        m.Kfree(FrameOf(m.ram[d][i]));
      }
      i := i + 1;
    }
    AllTablesFreed(m.low, d, dir, free, m.free);
    DirFrame(m.low, d, dir, free);
    m.Kfree(d);
    forall f ensures !IsUserFrame(Flat(ram, dir), f) {
      ClearedAll(old(Flat(m.ram, m.ram[d])), dir, f);
    }
  }

  lemma NoTablesFreed(low: nat, d: nat, dir: Page, free: seq<nat>)
    requires Dir(low, d, dir, free)
    ensures TablesFreed(low, d, dir, free, free, 0)
  {
  }

  lemma AllTablesFreed(low: nat, d: nat, dir: Page, free: seq<nat>, free': seq<nat>)
    requires |dir| == NPTENTRIES && TablesFreed(low, d, dir, free, free', NPTENTRIES)
    ensures d !in free' && forall f :: f in free' <==> f in free || IsTable(dir, f)
  {
    assert dir[..NPTENTRIES] == dir;
  }

  lemma DirFrame(low: nat, d: nat, dir: Page, free: seq<nat>)
    requires Dir(low, d, dir, free)
    ensures low <= d < PHYSPAGES
  {
  }

  // copyuvm.

  /** Only frames that were free have been written or are free now. */
  ghost predicate Untouched(ram: seq<Page>, free: seq<nat>, ram': seq<Page>, free': seq<nat>)
    requires Sized(ram) && Sized(ram')
  {
    && (forall f :: 0 <= f < PHYSPAGES && f !in free ==> ram'[f] == ram[f])
    && (forall f :: f in free' ==> f in free)
  }

  /** An address space keeps its map and its pages while only free frames are written. */
  lemma ParentKept(ram: seq<Page>, low: nat, p: nat, free: seq<nat>, ram': seq<Page>, free': seq<nat>)
    requires Sized(ram) && Sized(ram') && p < PHYSPAGES && Dir(low, p, ram[p], free) && Users(low, p, ram[p], Flat(ram, ram[p]), free)
    requires Untouched(ram, free, ram', free')
    ensures ram'[p] == ram[p] && Flat(ram', ram'[p]) == Flat(ram, ram[p])
    ensures Dir(low, p, ram'[p], free') && Users(low, p, ram'[p], Flat(ram', ram'[p]), free')
    ensures forall v :: 0 <= v < USER && Present(Flat(ram, ram[p])[v]) ==>
              0 <= FrameOf(Flat(ram, ram[p])[v]) < PHYSPAGES && ram'[FrameOf(Flat(ram, ram[p])[v])] == ram[FrameOf(Flat(ram, ram[p])[v])]
  {
    SameTables(ram, ram', ram[p]);
  }

  /** The child's map: below n the parent's contents and flags, above n the kernel's map. */
  ghost predicate Copied(data: nat, ram: seq<Page>, flat: seq<int>, ram': seq<Page>, flat': seq<int>, n: nat)
    requires Sized(ram) && Sized(ram')
  {
    && |flat| == |flat'| == SPACE && n <= USER
    && (forall v :: n <= v < SPACE ==> flat'[v] == KernelEntry(data, v))
    && (forall v :: 0 <= v < n ==>
          && Present(flat'[v]) && Flags(flat'[v]) == Flags(flat[v])
          && 0 <= FrameOf(flat[v]) < PHYSPAGES && 0 <= FrameOf(flat'[v]) < PHYSPAGES
          && ram'[FrameOf(flat'[v])] == ram[FrameOf(flat[v])])
  }

  lemma CopiedNext(data: nat, ram: seq<Page>, flat: seq<int>, ram1: seq<Page>, flat1: seq<int>, ram2: seq<Page>, v: nat, mem: nat)
    requires Sized(ram) && Sized(ram1) && Sized(ram2) && Copied(data, ram, flat, ram1, flat1, v) && v < USER
    requires Present(flat[v]) && 0 <= FrameOf(flat[v]) < PHYSPAGES && mem < PHYSPAGES && ram2[mem] == ram[FrameOf(flat[v])]
    requires forall u :: 0 <= u < v ==> ram2[FrameOf(flat1[u])] == ram1[FrameOf(flat1[u])]
    ensures Copied(data, ram, flat, ram2, flat1[v := Make(mem, Flags(flat[v]))], v + 1)
  {
    MakeParts(mem, Flags(flat[v]));
    hide Make, FrameOf;
  }

  lemma CopiedFacts(data: nat, ram: seq<Page>, flat: seq<int>, ram': seq<Page>, flat': seq<int>, n: nat)
    requires Sized(ram) && Sized(ram') && Copied(data, ram, flat, ram', flat', n) && n < USER
    ensures |flat'| == SPACE && !Present(flat'[n]) && forall u :: 0 <= u < n ==> Present(flat'[u])
  {
    AbsentZero();
  }

  /** A fresh kernel map holds no user pages. */
  lemma FreshSpace(data: nat, low: nat, d: nat, dir: Page, ram: seq<Page>, flat: seq<int>, ram': seq<Page>, flat': seq<int>, free: seq<nat>)
    requires Sized(ram) && Sized(ram') && |flat| == SPACE
    requires EXTPAGES < data < PHYSPAGES && flat' == KernelFlat(data, 4)
    ensures Users(low, d, dir, flat', free) && Copied(data, ram, flat, ram', flat', 0)
    ensures forall f :: !IsUserFrame(flat', f)
  {
    KernelRegions(data);
    AbsentZero();
    hide Present;
  }

  /** The free frames of the start are those still free plus those the child d holds. */
  ghost predicate Split(ram: seq<Page>, d: int, free: seq<nat>, free': seq<nat>)
    requires Sized(ram) && 0 <= d < PHYSPAGES
  {
    forall f :: f in free <==> f in free' || Owns(d, ram[d], Flat(ram, ram[d]), f)
  }

  /** One page of copyuvm's loop. */
  method CopyPage(m: Memory, p: nat, d: nat, v: nat, pte: int, ghost data: nat, ghost ram0: seq<Page>, ghost free0: seq<nat>, ghost flat0: seq<int>)
    returns (ok: bool, ghost lost: set<int>)
    requires Space(m, d) && Space(m, p) && v < USER && Sized(ram0) && |flat0| == SPACE
    requires Flat(m.ram, m.ram[p]) == flat0 && pte == flat0[v] && Present(pte)
    requires Split(m.ram, d, free0, m.free) && Untouched(ram0, free0, m.ram, m.free)
    requires Copied(data, ram0, flat0, m.ram, Flat(m.ram, m.ram[d]), v)
    requires 0 <= FrameOf(flat0[v]) < PHYSPAGES && m.ram[FrameOf(flat0[v])] == ram0[FrameOf(flat0[v])]
    modifies m`ram, m`freelist, m`free
    ensures Space(m, d) && Untouched(ram0, free0, m.ram, m.free)
    ensures ok ==> Split(m.ram, d, free0, m.free) && Copied(data, ram0, flat0, m.ram, Flat(m.ram, m.ram[d]), v + 1)
    ensures !ok ==> SplitBut(m.ram, d, free0, m.free, lost) && |lost| == |old(m.free)|
    ensures ok ==> |m.free| + Count(m.ram[d]) + 1 == |old(m.free)| + Count(old(m.ram[d]))
    ensures ok ==> Extended(old(m.ram[d]), m.ram[d], Pdx(v), Pdx(v) + 1)
    ensures !ok ==> old(m.free) == [] || (|old(m.free)| == 1 && !Present(old(m.ram[d])[Pdx(v)]))
  {
    hide Flat, Chained, Dir, Users, Taken, IsTable, IsUserFrame, Entry, Present, Owns, FrameOf, Copied, Flags, Pdx, Ptx, Conserved, Split, Untouched, Extended, Count;
    ghost var ram, free, flat1 := m.ram, m.free, Flat(m.ram, m.ram[d]);
    FlagsRange(pte);
    CopiedFacts(data, ram0, flat0, ram, flat1, v);
    var mem;
    mem, ok := AddPage(m, d, v, m.ram[FrameOf(pte)], Flags(pte));
    lost := {};
    if mem == 0 {
      SplitAll(m.ram, d, free0, m.free);
      return;
    }
    if !ok {
      lost := {mem};
      NoOwner(m.low, d, ram[d], m.ram[d], flat1, free, mem);
    }
    CopyAdded(data, m.low, ram0, free0, flat0, ram, free, m.ram, m.free, d, v, ok);
  }

  lemma NoOwner(low: nat, d: int, dir: Page, dir': Page, flat: seq<int>, free: seq<nat>, f: int)
    requires Users(low, d, dir, flat, free) && f in free && f != d && !IsTable(dir', f)
    ensures !Owns(d, dir', flat, f)
  {
  }

  /** What AddPage did with the contents and flags of the parent's page. */
  lemma CopyAdded(data: nat, low: nat, ram0: seq<Page>, free0: seq<nat>, flat0: seq<int>, ram: seq<Page>, free: seq<nat>,
                  ram': seq<Page>, free': seq<nat>, d: int, v: nat, ok: bool)
    requires Sized(ram0) && Sized(ram) && Sized(ram') && 0 <= d < PHYSPAGES && v < USER && |flat0| == SPACE
    requires Users(low, d, ram[d], Flat(ram, ram[d]), free) && Present(flat0[v]) && 0 <= FrameOf(flat0[v]) < PHYSPAGES
    requires Split(ram, d, free0, free) && Untouched(ram0, free0, ram, free) && Copied(data, ram0, flat0, ram, Flat(ram, ram[d]), v)
    requires free != [] && free[0] < PHYSPAGES && free[0] != d && ram'[free[0]] == ram0[FrameOf(flat0[v])]
    requires Taken(ram[free[0] := ram0[FrameOf(flat0[v])]], free[1..], ram', free', d)
    requires Flat(ram', ram'[d]) == if ok then Flat(ram, ram[d])[v := Make(free[0], Flags(flat0[v]))] else Flat(ram, ram[d])
    ensures Untouched(ram0, free0, ram', free') && |free'| + Count(ram'[d]) + 1 == |free| + Count(ram[d])
    ensures ok ==> Split(ram', d, free0, free') && Copied(data, ram0, flat0, ram', Flat(ram', ram'[d]), v + 1)
    ensures !ok ==> forall f :: f in free0 <==> f in free' || Owns(d, ram'[d], Flat(ram', ram'[d]), f) || f == free[0]
  {
    hide Flat, Users, Taken, IsTable, IsUserFrame, Entry, Present, Owns, FrameOf, Copied, Flags, Conserved, Split, Untouched, Count, Make;
    var page := ram0[FrameOf(flat0[v])];
    FlagsRange(flat0[v]);
    CopiedFacts(data, ram0, flat0, ram, Flat(ram, ram[d]), v);
    AddConserved(ram, free, ram', free', d, page, ok, v, Flags(flat0[v]));
    SplitNext(ram0, free0, ram, free, ram', free', d, if ok then {} else {free[0] as int});
    UserPagesKept(ram, low, d, free, ram', free', page);
    TakenCounts(ram[free[0] := page], free[1..], ram', free', d);
    if ok {
      CopiedNext(data, ram0, flat0, ram, Flat(ram, ram[d]), ram', v, free[0]);
    }
  }

  /** The entry of page v, 0 if it has no table. */
  method UserEntry(m: Memory, p: nat, v: nat) returns (pte: int)
    requires Space(m, p) && v < USER
    modifies m`ram, m`freelist, m`free
    ensures m.Valid() && m.ram == old(m.ram) && m.free == old(m.free)
    ensures pte == Flat(m.ram, m.ram[p])[v]
  {
    hide Flat, Chained, Users, Taken, Present, FrameOf, Pdx, Ptx;
    NoTable(m.ram, m.ram[p], v);
    var t := Walkpgdir(m, p, v, false);
    if t == 0 {
      return 0;
    }
    EntryIn(m.ram, m.low, p, m.free, v);
    return m.ram[t][Ptx(v)];
  }

  lemma FlagsRange(e: int)
    ensures 0 <= Flags(e) < PGSIZE
  {
  }

  /** Like Split, except for frames neither free nor held any more. */
  ghost predicate SplitBut(ram: seq<Page>, d: int, free: seq<nat>, free': seq<nat>, lost: set<int>)
    requires Sized(ram) && 0 <= d < PHYSPAGES
  {
    && (forall f :: f in free <==> f in free' || Owns(d, ram[d], Flat(ram, ram[d]), f) || f in lost)
    && (forall f :: f in lost ==> f !in free' && !Owns(d, ram[d], Flat(ram, ram[d]), f))
  }

  lemma SplitAll(ram: seq<Page>, d: int, free: seq<nat>, free': seq<nat>)
    requires Sized(ram) && 0 <= d < PHYSPAGES && Split(ram, d, free, free')
    ensures SplitBut(ram, d, free, free', {})
  {
  }

  lemma SplitNext(ram0: seq<Page>, free0: seq<nat>, ram: seq<Page>, free: seq<nat>, ram': seq<Page>, free': seq<nat>, d: int, lost: set<int>)
    requires Sized(ram0) && Sized(ram) && Sized(ram') && 0 <= d < PHYSPAGES
    requires Split(ram, d, free0, free) && Untouched(ram0, free0, ram, free) && Conserved(ram, free, ram', free', d, lost)
    ensures Untouched(ram0, free0, ram', free')
    ensures lost == {} ==> Split(ram', d, free0, free')
    ensures forall f :: f in free0 <==> f in free' || Owns(d, ram'[d], Flat(ram', ram'[d]), f) || f in lost
  {
    hide Owns, Flat;
  }

  /** Nothing the child holds is held by the parent, or was before. */
  ghost predicate Apart(p: nat, dirP: Page, flatP: seq<int>, d: int, dirD: Page, flatD: seq<int>) {
    forall f :: !(Owns(p, dirP, flatP, f) && Owns(d, dirD, flatD, f))
  }

  lemma CopyApart(ram: seq<Page>, low: nat, p: nat, dirP: Page, flatP: seq<int>, free: seq<nat>, d: int, free': seq<nat>)
    requires Sized(ram) && 0 <= d < PHYSPAGES && Dir(low, p, dirP, free) && Users(low, p, dirP, flatP, free)
    requires Split(ram, d, free, free')
    ensures Apart(p, dirP, flatP, d, ram[d], Flat(ram, ram[d]))
  {
    hide Flat;
    forall f ensures !(Owns(p, dirP, flatP, f) && Owns(d, ram[d], Flat(ram, ram[d]), f)) {
      if Owns(d, ram[d], Flat(ram, ram[d]), f) {
        assert f in free;
        hide Owns;
        NotFree(low, p, dirP, flatP, free, f);
      }
    }
  }

  lemma NotFree(low: nat, p: nat, dir: Page, flat: seq<int>, free: seq<nat>, f: int)
    requires Dir(low, p, dir, free) && Users(low, p, dir, flat, free) && f in free
    ensures !Owns(p, dir, flat, f)
  {
  }

  /** A fresh directory lacks every table of n user pages. */
  lemma FreshCost(dir: Page, data: nat, n: nat)
    requires KernelDir(dir, data, 4) && n <= USER
    ensures Cost(dir, 0, n) == n + Pdx(n + NPTENTRIES - 1)
  {
    assert Pdx(0) == 0 && TablesEnd(0, n) == Pdx(n + NPTENTRIES - 1) <= Pdx(USER);
    hide Present, Pdx;
    CountPrefix(dir[0..TablesEnd(0, n)], 0);
  }

  /** With this many pages left after the kernel part, one of n user pages, the first of a table, is had
      but its table is not. */
  ghost predicate CopyLoses(free: int, n: nat) {
    exists v :: 0 <= v < n && v % NPTENTRIES == 0 && free == v + v / NPTENTRIES + 1
  }

  lemma FreshLoses(dir: Page, data: nat, v: nat, free: nat)
    requires KernelDir(dir, data, 4) && v < USER
    ensures Loses(dir, 0, v, free) <==> v % NPTENTRIES == 0 && free == v + v / NPTENTRIES + 1
  {
    hide Cost, Present;
    FreshCost(dir, data, v);
    FreshCost(dir, data, v + 1);
    assert |dir| == NPTENTRIES;
  }

  lemma FreshOutcome(dir: Page, data: nat, n: nat, free: nat, done: bool, short: bool)
    requires KernelDir(dir, data, 4) && n <= USER && Outcome(dir, 0, n, free, done, short)
    ensures short <==> CopyLoses(free, n)
  {
    hide KernelDir, Cost, Loses;
    if short {
      var v :| 0 <= v < n && Loses(dir, 0, v, free);
      FreshLoses(dir, data, v, free);
    }
    if CopyLoses(free, n) {
      var v :| 0 <= v < n && v % NPTENTRIES == 0 && free == v + v / NPTENTRIES + 1;
      FreshLoses(dir, data, v, free);
    }
  }

  /** No room for page v: free' is 0, or 1 and the page is lost for want of a table. */
  lemma CopyFails(dir: Page, data: nat, free: nat, dir': Page, free': nat, v: nat, n: nat)
    requires Accounted(dir, free, dir', free', 0, v) && v < n <= USER && KernelDir(dir, data, 4)
    requires free' == 0 || (free' == 1 && |dir'| == NPTENTRIES && !Present(dir'[Pdx(v)]))
    ensures free < Cost(dir, 0, n) && (free' == 1 <==> CopyLoses(free, n))
  {
    hide Cost, Extended, Pdx, Present, TablesEnd, CopyLoses, KernelDir, Loses;
    if free' == 1 {
      LosesHere(dir, free, dir', 0, v);
      OutcomeShort(dir, free, 0, v, n);
      FreshOutcome(dir, data, n, free, v == n - 1, true);
    } else {
      OutcomeNone(dir, free, dir', 0, v, n);
      FreshOutcome(dir, data, n, free, false, false);
    }
  }

  /** Below n, an access by the child comes to the same as the parent's would have: the same rights, and the
      same contents. */
  ghost predicate SameAccess(ram: seq<Page>, dirP: Page, ram': seq<Page>, dirD: Page, n: nat)
    requires Sized(ram) && Sized(ram')
  {
    forall v :: 0 <= v < n ==>
      var a, b := Translate(ram, dirP, v), Translate(ram', dirD, v);
      && a.Access? && b.Access? && b.user == a.user && b.write == a.write
      && 0 <= a.frame < PHYSPAGES && 0 <= b.frame < PHYSPAGES && ram'[b.frame] == ram[a.frame]
  }

  lemma CopiedAccess(data: nat, low: nat, ram: seq<Page>, p: int, free: seq<nat>, ram': seq<Page>, d: int, free': seq<nat>, n: nat)
    requires Sized(ram) && Sized(ram') && 0 <= p < PHYSPAGES && 0 <= d < PHYSPAGES
    requires Dir(low, p, ram[p], free) && Dir(low, d, ram'[d], free') && Copied(data, ram, Flat(ram, ram[p]), ram', Flat(ram', ram'[d]), n)
    ensures SameAccess(ram, ram[p], ram', ram'[d], n)
  {
    hide Dir, Flat, Translate, FrameOf;
    forall v | 0 <= v < n
      ensures var a, b := Translate(ram, ram[p], v), Translate(ram', ram'[d], v);
              && a.Access? && b.Access? && b.user == a.user && b.write == a.write
              && 0 <= a.frame < PHYSPAGES && 0 <= b.frame < PHYSPAGES && ram'[b.frame] == ram[a.frame]
    {
      FlatDecides(ram, low, p, ram[p], free, v);
      FlatDecides(ram', low, d, ram'[d], free', v);
      FlagBits(Flat(ram, ram[p])[v]);
      FlagBits(Flat(ram', ram'[d])[v]);
    }
  }

  /** Above the copied pages the child has the kernel's map. */
  lemma CopiedKernel(data: nat, low: nat, ram: seq<Page>, flat: seq<int>, ram': seq<Page>, d: int, free': seq<nat>, n: nat, v: nat)
    requires Sized(ram) && Sized(ram') && 0 <= d < PHYSPAGES && EXTPAGES < data < PHYSPAGES && n <= v < SPACE
    requires Dir(low, d, ram'[d], free') && Copied(data, ram, flat, ram', Flat(ram', ram'[d]), n)
    ensures Translate(ram', ram'[d], v) == KernelAccess(data, v)
  {
    hide Dir, Flat, Translate, FrameOf, EntryAccess, KernelEntry, Present;
    FlatDecides(ram', low, d, ram'[d], free', v);
    KernelEntryAccess(data, v);
  }

  /** What copyuvm does: return the child's directory, return 0, or panic over an absent page. */
  datatype Copying = Child(d: nat) | NoMemory | NotPresent

  /** The child has the parent's pages on fresh frames; the parent is untouched. What happens depends
      on n, the number of pages below sz before the first absent one, and on whether there are free
      pages for the kernel part, n user pages and their tables. */
  method Copyuvm(m: Memory, data: nat, p: nat, sz: nat) returns (r: Copying, ghost lost: set<int>)
    requires Space(m, p) && EXTPAGES < data <= m.low && data < PHYSPAGES && sz <= KERNBASE
    modifies m`ram, m`freelist, m`free
    ensures Space(m, p) && m.ram[p] == old(m.ram[p]) && Flat(m.ram, m.ram[p]) == old(Flat(m.ram, m.ram[p]))
    ensures Untouched(old(m.ram), old(m.free), m.ram, m.free)
    ensures var n := Leading(old(Flat(m.ram, m.ram[p])), 0, Pages(sz), true);
            && (r.NoMemory? <==> |old(m.free)| < KERNELPAGES + n + Pdx(n + NPTENTRIES - 1))
            && (r.NotPresent? <==> n < Pages(sz) && !r.NoMemory?)
    ensures r.NoMemory? && |old(m.free)| < KERNELPAGES ==> m.free == []
    ensures r.NoMemory? && |old(m.free)| >= KERNELPAGES ==>
              && (forall f :: f in old(m.free) <==> f in m.free || f in lost) && (forall f :: f in lost ==> f !in m.free)
              && |lost| == if CopyLoses(|old(m.free)| - KERNELPAGES, Leading(old(Flat(m.ram, m.ram[p])), 0, Pages(sz), true)) then 1 else 0
    ensures r.Child? ==> var d := r.d;
              && Space(m, d) && Split(m.ram, d, old(m.free), m.free)
              && Copied(data, old(m.ram), old(Flat(m.ram, m.ram[p])), m.ram, Flat(m.ram, m.ram[d]), Pages(sz))
              && Apart(p, m.ram[p], Flat(m.ram, m.ram[p]), d, m.ram[d], Flat(m.ram, m.ram[d]))
              && SameAccess(old(m.ram), old(m.ram[p]), m.ram, m.ram[d], Pages(sz))
              && forall v :: Pages(sz) <= v < SPACE ==> Translate(m.ram, m.ram[d], v) == KernelAccess(data, v)
  {
    hide Flat, Chained, Dir, Users, Taken, IsTable, IsUserFrame, Entry, Present, FrameOf, Copied, Flags, Pdx, Ptx, Conserved, KernelFlat, Split, Untouched,
         KernelDir, Accounted, Extended, Count, Apart, Leading, CopyLoses, SplitBut, SameAccess, Translate, KernelAccess;
    lost := {};
    ghost var ram0, free0, flat0 := m.ram, m.free, Flat(m.ram, m.ram[p]);
    ghost var n := Leading(flat0, 0, Pages(sz), true);
    var d := Setupkvm(m, data);
    SetupUntouched(ram0, free0, m.ram, m.free);
    ParentKept(ram0, m.low, p, free0, m.ram, m.free);
    if d == 0 {
      return NoMemory, lost;
    }
    ghost var dir1, free1 := m.ram[d], |m.free|;
    FreshSpace(data, m.low, d, m.ram[d], ram0, flat0, m.ram, Flat(m.ram, m.ram[d]), m.free);
    SetupSplit(m.ram, d, free0, m.free);
    FreshCost(dir1, data, n);
    AccountedNone(dir1, free1, 0);
    var v := 0;
    while v * PGSIZE < sz
      invariant 0 <= v <= n && Space(m, d)
      invariant Split(m.ram, d, free0, m.free) && Untouched(ram0, free0, m.ram, m.free)
      invariant Copied(data, ram0, flat0, m.ram, Flat(m.ram, m.ram[d]), v)
      invariant Accounted(dir1, free1, m.ram[d], |m.free|, 0, v)
    {
      ghost var dir, free := m.ram[d], |m.free|;
      ParentKept(ram0, m.low, p, free0, m.ram, m.free);
      var pte := UserEntry(m, p, v);
      if !Present(pte) {
        AccountedCost(dir1, free1, m.ram[d], |m.free|, 0, v);
        return NotPresent, lost;
      }
      var ok;
      ok, lost := CopyPage(m, p, d, v, pte, data, ram0, free0, flat0);
      if !ok {
        CopyFails(dir1, data, free1, dir, free, v, n);
        ghost var ram, free := m.ram, m.free;
        Freevm(m, d);
        UndoSplit(ram0, free0, ram, free, m.ram, m.free, d, lost);
        ParentKept(ram0, m.low, p, free0, m.ram, m.free);
        return NoMemory, lost;
      }
      AccountedNext(dir1, free1, dir, free, m.ram[d], |m.free|, 0, v);
      v := v + 1;
    }
    AccountedCost(dir1, free1, m.ram[d], |m.free|, 0, v);
    ParentKept(ram0, m.low, p, free0, m.ram, m.free);
    CopyApart(m.ram, m.low, p, m.ram[p], Flat(m.ram, m.ram[p]), free0, d, m.free);
    CopiedAccess(data, m.low, ram0, p, free0, m.ram, d, m.free, Pages(sz));
    forall v | Pages(sz) <= v < SPACE ensures Translate(m.ram, m.ram[d], v) == KernelAccess(data, v) {
      CopiedKernel(data, m.low, ram0, flat0, m.ram, d, m.free, Pages(sz), v);
    }
    return Child(d), {};
  }

  lemma AccountedExtends(dir: Page, free: nat, dir': Page, free': nat, first: nat, n: nat)
    requires Accounted(dir, free, dir', free', first, n)
    ensures Extended(dir, dir', Pdx(first), TablesEnd(first, n))
  {
  }

  lemma AccountedCost(dir: Page, free: nat, dir': Page, free': nat, first: nat, n: nat)
    requires Accounted(dir, free, dir', free', first, n)
    ensures free >= Cost(dir, first, n)
  {
  }

  lemma SetupUntouched(ram: seq<Page>, free: seq<nat>, ram': seq<Page>, free': seq<nat>)
    requires Sized(ram) && Sized(ram') && |free'| <= |free| && free' == free[|free| - |free'|..]
    requires forall f :: 0 <= f < PHYSPAGES && f !in free ==> ram'[f] == ram[f]
    ensures Untouched(ram, free, ram', free')
  {
  }

  lemma SetupSplit(ram: seq<Page>, d: int, free: seq<nat>, free': seq<nat>)
    requires Sized(ram) && 0 <= d < PHYSPAGES
    requires forall f :: f in free <==> f in free' || f == d || IsTable(ram[d], f)
    requires forall f :: !IsUserFrame(Flat(ram, ram[d]), f)
    ensures Split(ram, d, free, free')
  {
  }

  lemma UndoSplit(ram0: seq<Page>, free0: seq<nat>, ram: seq<Page>, free: seq<nat>, ram': seq<Page>, free': seq<nat>, d: int, lost: set<int>)
    requires Sized(ram0) && Sized(ram) && Sized(ram') && 0 <= d < PHYSPAGES
    requires Untouched(ram0, free0, ram, free) && SplitBut(ram, d, free0, free, lost)
    requires forall f :: f in free' <==> f in free || Owns(d, ram[d], Flat(ram, ram[d]), f)
    requires forall f :: 0 <= f < PHYSPAGES && f !in free' ==> ram'[f] == ram[f]
    ensures Untouched(ram0, free0, ram', free')
    ensures forall f :: f in free0 <==> f in free' || f in lost
    ensures forall f :: f in lost ==> f !in free'
  {
    hide Owns, Flat;
  }

  // A whole lifetime.

  datatype Call = Grow(newsz: nat) | Shrink(newsz: nat)

  lemma {:induction false} DistinctCounts(s: seq<nat>, x: nat)
    requires Distinct(s)
    ensures multiset(s)[x] == if x in s then 1 else 0
  {
    if s != [] {
      assert s == [s[0]] + s[1..];
      DistinctCounts(s[1..], x);
    }
  }

  lemma SameFrames(a: seq<nat>, b: seq<nat>)
    requires Distinct(a) && Distinct(b) && forall x :: x in a <==> x in b
    ensures multiset(a) == multiset(b)
  {
    forall x: nat ensures multiset(a)[x] == multiset(b)[x] {
      DistinctCounts(a, x);
      DistinctCounts(b, x);
    }
  }

  lemma GrownPrefix(ram: seq<Page>, flat: seq<int>, flat': seq<int>, first: nat, last: nat)
    requires Sized(ram) && Grown(ram, flat, flat', first, last) && Prefix(flat, first) && first <= last <= USER
    ensures Prefix(flat', last)
  {
    hide Present;
  }

  lemma RolledBackPrefix(flat: seq<int>, flat': seq<int>, first: nat, last: nat)
    requires RolledBack(flat, flat', first, last) && Prefix(flat, first)
    ensures Prefix(flat', first)
  {
    hide Present;
  }

  /** Above KERNBASE every access comes to the same as before. */
  ghost predicate KernelKept(ram: seq<Page>, dir: Page, ram': seq<Page>, dir': Page) {
    forall v :: USER <= v < SPACE ==> Translate(ram', dir', v) == Translate(ram, dir, v)
  }

  lemma KernelStays(ram: seq<Page>, low: nat, d: int, free: seq<nat>, ram': seq<Page>, free': seq<nat>, first: nat, last: nat)
    requires Sized(ram) && Sized(ram') && 0 <= d < PHYSPAGES && Dir(low, d, ram[d], free) && Dir(low, d, ram'[d], free')
    requires KeptOutside(Flat(ram, ram[d]), Flat(ram', ram'[d]), first, last) && last <= USER
    ensures KernelKept(ram, ram[d], ram', ram'[d])
  {
    hide Dir, Flat, Translate, EntryAccess;
    forall v | USER <= v < SPACE ensures Translate(ram', ram'[d], v) == Translate(ram, ram[d], v) {
      FlatDecides(ram, low, d, ram[d], free, v);
      FlatDecides(ram', low, d, ram'[d], free', v);
    }
  }

  lemma LeavesKept(ram: seq<Page>, flat: seq<int>, flat': seq<int>, first: nat, last: nat, n: nat, done: bool, short: bool)
    requires Sized(ram) && first <= last && AllocLeaves(ram, flat, flat', first, last, n, done, short)
    ensures KeptOutside(flat, flat', first, last)
  {
    hide Grown, RolledBack, KeptOutside;
  }

  lemma ClearedKept(flat: seq<int>, dir: Page, s: nat, e: nat)
    ensures KeptOutside(flat, Cleared(flat, dir, s, e), s, e)
  {
    hide Cleared, Missed, Present;
  }

  lemma NothingKept(ram: seq<Page>, dir: Page)
    ensures KernelKept(ram, dir, ram, dir)
  {
    hide Translate;
  }

  /** allocuvm or deallocuvm on an address space of size sz; ok is false if a page was lost. */
  method Resize(m: Memory, d: nat, sz: nat, call: Call) returns (sz': nat, ok: bool)
    requires Space(m, d) && sz < KERNBASE && Prefix(Flat(m.ram, m.ram[d]), Pages(sz))
    modifies m`ram, m`freelist, m`free
    ensures Space(m, d)
    ensures KernelKept(old(m.ram), old(m.ram[d]), m.ram, m.ram[d])
    ensures ok ==> Conserved(old(m.ram), old(m.free), m.ram, m.free, d, {})
    ensures ok ==> sz' < KERNBASE && Prefix(Flat(m.ram, m.ram[d]), Pages(sz'))
    ensures |old(m.free)| + Count(old(m.ram[d])) > NPTENTRIES + Pages(call.newsz) - Pages(sz) ==>
              ok && |m.free| + Count(m.ram[d]) + Pages(sz') == |old(m.free)| + Count(old(m.ram[d])) + Pages(sz)
  {
    hide Flat, Chained, Dir, Users, Taken, IsTable, IsUserFrame, Entry, Present, FrameOf, Conserved, Grown, RolledBack, Prefix, Cleared, Accounted, Outcome, Cost, Count, AllocOutcome, AllocLeaves, Leading, UserPages, KernelKept, KeptOutside, NoneHidden;
    ghost var flat := Flat(m.ram, m.ram[d]);
    NothingKept(m.ram, m.ram[d]);
    match call {
      case Grow(newsz) =>
        PrefixAbsent(flat, sz);
        ghost var dir, free := m.ram[d], |m.free|;
        if sz <= newsz < KERNBASE {
          LeadingIs(flat, Pages(sz), Pages(newsz) - Pages(sz), false, Pages(newsz) - Pages(sz));
        }
        var r, short, panicked, lost := Allocuvm(m, d, sz, newsz);
        if sz <= newsz < KERNBASE {
          AllUnmapped(m.ram, flat, Flat(m.ram, m.ram[d]), dir, Pages(sz), Pages(newsz), free, r == newsz, short, panicked);
          AmpleOutcome(dir, free, m.ram[d], |m.free|, Pages(sz), Pages(newsz) - Pages(sz), r == newsz, short);
          LeavesKept(m.ram, flat, Flat(m.ram, m.ram[d]), Pages(sz), Pages(newsz), Pages(newsz) - Pages(sz), r == newsz, short);
          KernelStays(old(m.ram), m.low, d, old(m.free), m.ram, m.free, Pages(sz), Pages(newsz));
        }
        if sz <= newsz < KERNBASE && !short {
          if r == newsz {
            GrownPrefix(m.ram, flat, Flat(m.ram, m.ram[d]), Pages(sz), Pages(newsz));
          } else {
            RolledBackPrefix(flat, Flat(m.ram, m.ram[d]), Pages(sz), Pages(newsz));
          }
        }
        return if r == 0 then sz else r, !short;
      case Shrink(newsz) =>
        ghost var ram := m.ram;
        var r := Deallocuvm(m, d, sz, newsz);
        if newsz < sz {
          ClearedKept(flat, ram[d], Pages(newsz), Pages(sz));
          KernelStays(old(m.ram), m.low, d, old(m.free), m.ram, m.free, Pages(newsz), Pages(sz));
          PrefixCleared(ram, ram[d], Pages(sz), Pages(newsz), Pages(sz));
          PrefixCount(flat, Pages(sz));
          PrefixCount(Flat(m.ram, m.ram[d]), Pages(newsz));
        }
        return r, true;
    }
  }

  /** Where nothing in the range was mapped. */
  lemma AllUnmapped(ram: seq<Page>, flat: seq<int>, flat': seq<int>, dir: Page, first: nat, last: nat, free: nat, done: bool, short: bool, panicked: bool)
    requires Sized(ram) && first <= last && AllocOutcome(dir, first, last - first, last - first, free, done, short, panicked)
    requires AllocLeaves(ram, flat, flat', first, last, last - first, done, short)
    ensures !panicked && Outcome(dir, first, last - first, free, done, short)
    ensures done ==> Grown(ram, flat, flat', first, if short && last > 0 then last - 1 else last)
    ensures !done ==> RolledBack(flat, flat', first, last)
  {
    hide Outcome, Grown, RolledBack, KeptOutside;
  }

  /** Enough for the pages and every missing table is enough. */
  lemma AmpleOutcome(dir: Page, free: nat, dir': Page, free': nat, first: nat, n: nat, done: bool, short: bool)
    requires Outcome(dir, first, n, free, done, short) && (done && !short ==> Accounted(dir, free, dir', free', first, n))
    ensures free + Count(dir) > NPTENTRIES + n ==> done && !short
    ensures done && !short ==> free' + Count(dir') + n == free + Count(dir)
  {
    hide Cost, Count, Accounted;
    CostBound(dir, first, n);
    if done && !short {
      AccountedCount(dir, free, dir', free', first, n);
    }
  }

  lemma PrefixCount(flat: seq<int>, n: nat)
    requires Prefix(flat, n)
    ensures UserCount(flat) == n
  {
    CountPrefix(flat[..USER], n);
  }

  lemma PrefixAbsent(flat: seq<int>, sz: nat)
    requires Prefix(flat, Pages(sz))
    ensures forall v :: Pages(sz) <= v < USER ==> !Present(flat[v])
  {
  }

  /** Free pages enough for a directory, a full set of tables and the largest size asked for. */
  ghost predicate Ample(free: nat, calls: seq<Call>) {
    free > NPTENTRIES + 1 && forall i :: 0 <= i < |calls| ==> free > NPTENTRIES + 1 + Pages(calls[i].newsz)
  }

  /** setupkvm, any resizing calls, then freevm. Unless a page could not be had for a table, every
      frame taken is back on the free list exactly once and no other frame has been touched. */
  method Lifetime(m: Memory, data: nat, calls: seq<Call>) returns (ok: bool)
    requires m.Valid() && EXTPAGES < data <= m.low && data < PHYSPAGES
    modifies m`ram, m`freelist, m`free
    ensures Ample(|old(m.free)|, calls) ==> ok
    ensures ok ==> m.Valid() && multiset(m.free) == multiset(old(m.free))
    ensures ok ==> forall f :: 0 <= f < PHYSPAGES && f !in old(m.free) ==> m.ram[f] == old(m.ram[f])
  {
    hide Flat, Chained, Dir, Users, Taken, IsTable, IsUserFrame, Entry, Present, FrameOf, Conserved, KernelFlat, Split, Untouched, Prefix, Copied, KernelDir, Count, KernelTables;
    ghost var ram0, free0 := m.ram, m.free;
    ChainDistinct(m.ram, m.low, m.freelist, m.free);
    var d := Setupkvm(m, data);
    if d == 0 {
      return false;
    }
    SetupUntouched(ram0, free0, m.ram, m.free);
    FreshSpace(data, m.low, d, m.ram[d], m.ram, Flat(m.ram, m.ram[d]), m.ram, Flat(m.ram, m.ram[d]), m.free);
    SetupSplit(m.ram, d, free0, m.free);
    FreshPrefix(data, m.ram, Flat(m.ram, m.ram[d]));
    KernelCount(m.ram[d], data, 4);
    KernelTablesMono(data, 4);
    var sz: nat, i := 0, 0;
    while i < |calls|
      invariant 0 <= i <= |calls| && sz < KERNBASE && Space(m, d) && Prefix(Flat(m.ram, m.ram[d]), Pages(sz))
      invariant Split(m.ram, d, free0, m.free) && Untouched(ram0, free0, m.ram, m.free)
      invariant Ample(|free0|, calls) ==> |m.free| + Count(m.ram[d]) + Pages(sz) + 1 == |free0|
    {
      ghost var ram, free := m.ram, m.free;
      sz, ok := Resize(m, d, sz, calls[i]);
      if !ok {
        return false;
      }
      SplitNext(ram0, free0, ram, free, m.ram, m.free, d, {});
      i := i + 1;
    }
    ghost var ram, free := m.ram, m.free;
    Freevm(m, d);
    SplitBack(ram0, free0, ram, free, d, m.ram, m.free);
    ChainDistinct(m.ram, m.low, m.freelist, m.free);
    SameFrames(m.free, free0);
    return true;
  }

  lemma ChainDistinct(ram: seq<Page>, low: nat, head: int, free: seq<nat>)
    requires Sized(ram) && Chained(ram, low, head, free)
    ensures Distinct(free)
  {
  }

  lemma FreshPrefix(data: nat, ram: seq<Page>, flat: seq<int>)
    requires Sized(ram) && Copied(data, ram, flat, ram, flat, 0)
    ensures Prefix(flat, 0)
  {
    AbsentZero();
    hide Present;
  }

  lemma SplitBack(ram0: seq<Page>, free0: seq<nat>, ram: seq<Page>, free: seq<nat>, d: nat, ram': seq<Page>, free': seq<nat>)
    requires Sized(ram0) && Sized(ram) && Sized(ram') && d < PHYSPAGES
    requires Split(ram, d, free0, free) && Untouched(ram0, free0, ram, free)
    requires forall f :: f in free' <==> f in free || Owns(d, ram[d], Flat(ram, ram[d]), f)
    requires forall f :: 0 <= f < PHYSPAGES && f !in free' ==> ram'[f] == ram[f]
    ensures forall f :: f in free' <==> f in free0
    ensures forall f :: 0 <= f < PHYSPAGES && f !in free0 ==> ram'[f] == ram0[f]
  {
    hide Owns, Flat;
  }

  // The two ways in which growing and shrinking go wrong, from the boot-time memory on.

  /** A zeroed memory with n pages on the free list above the kernel, and one fresh address space. */
  method Boot(n: nat) returns (m: Memory, d: nat)
    requires KERNELPAGES <= n <= PHYSPAGES - 300
    ensures fresh(m) && Space(m, d) && KernelDir(m.ram[d], 299, 4) && |m.free| + KERNELPAGES == n
    ensures Flat(m.ram, m.ram[d]) == KernelFlat(299, 4)
    ensures Prefix(Flat(m.ram, m.ram[d]), 0) && forall v :: 0 <= v < USER ==> !Present(Entry(m.ram, m.ram[d], v))
  {
    hide Flat, Chained, Dir, Users, IsTable, IsUserFrame, Entry, Present, KernelFlat, Copied, KernelDir, Prefix;
    m := new Memory(seq(PHYSPAGES, f => ZeroPage()), 300, 300 + n);
    d := Setupkvm(m, 299);
    ghost var flat := Flat(m.ram, m.ram[d]);
    FreshSpace(299, m.low, d, m.ram[d], m.ram, flat, m.ram, flat, m.free);
    FreshPrefix(299, m.ram, flat);
    assert Pages(0) == 0;
    PrefixAbsent(flat, 0);
    assert forall v :: 0 <= v < USER ==> flat[v] == Entry(m.ram, m.ram[d], v);
  }

  /** With one free page, allocuvm(d, 0, 4096) reports success, maps nothing and loses the page. */
  method AllocLosesPage() returns (m: Memory, d: nat, r: nat)
    ensures Space(m, d) && r == 4096 && m.free == [] && Prefix(Flat(m.ram, m.ram[d]), 0)
  {
    hide Flat, Chained, Dir, Users, IsTable, IsUserFrame, Entry, Present, KernelFlat, KernelDir, Prefix, Conserved, Grown, RolledBack, Accounted;
    m, d := Boot(KERNELPAGES + 1);
    ghost var flat, dir := Flat(m.ram, m.ram[d]), m.ram[d];
    FreshCost(dir, 299, 0);
    FreshCost(dir, 299, 1);
    assert Pages(0) == 0 && Pages(4096) == 1 && Pdx(1023) == 0 && Pdx(1024) == 1;
    assert Loses(dir, 0, 0, 1);
    LeadingIs(flat, 0, 1, false, 1);
    var short, panicked; ghost var lost;
    r, short, panicked, lost := Allocuvm(m, d, 0, 4096);
    AllUnmapped(m.ram, flat, Flat(m.ram, m.ram[d]), dir, 0, 1, 1, r == 4096, short, panicked);
    GrownPrefix(m.ram, flat, Flat(m.ram, m.ram[d]), 0, 0);
  }

  /** A page mapped above an unused table survives the deallocation of a range it lies in. */
  method DeallocLeavesPage() returns (m: Memory, d: nat, r: nat)
    ensures Space(m, d) && r == 0x1000 && Present(Flat(m.ram, m.ram[d])[NPTENTRIES])
  {
    hide Flat, Chained, Dir, Users, IsTable, IsUserFrame, Entry, KernelFlat, Prefix, Conserved, RolledBack, Accounted;
    m, d := Boot(KERNELPAGES + 2);
    ghost var flat, dir := Flat(m.ram, m.ram[d]), m.ram[d];
    assert Pages(0x40_0000) == NPTENTRIES && Pages(0x40_1000) == NPTENTRIES + 1 && Pages(0x1000) == 1 && Pages(0x80_0000) == 2 * NPTENTRIES;
    TablesOne(dir, NPTENTRIES);
    LeadingIs(flat, NPTENTRIES, 1, false, 1);
    var short, panicked; ghost var lost;
    r, short, panicked, lost := Allocuvm(m, d, 0x40_0000, 0x40_1000);
    AllUnmapped(m.ram, flat, Flat(m.ram, m.ram[d]), dir, NPTENTRIES, NPTENTRIES + 1, 2, r == 0x40_1000, short, panicked);
    ghost var flat1, dir1 := Flat(m.ram, m.ram[d]), m.ram[d];
    assert Extended(dir, dir1, 1, 2) by {
      AccountedExtends(dir, 2, dir1, |m.free|, NPTENTRIES, 1);
    }
    assert FirstPresent(dir1, Pdx(1)) == 1;
    assert Missed(dir1, 1, NPTENTRIES);
    r := Deallocuvm(m, d, 0x80_0000, 0x1000);
  }
}
