/** Two-level page tables over physical memory, as in HW3/vm.c, seen as the flat page map
    they represent. Virtual addresses appear as virtual page numbers below SPACE. */
module PageTables {
  import opened PhysicalMemory

  const PGSIZE: nat := 4096
  const SPACE: nat := 0x10_0000       // virtual pages
  const USER: nat := 0x8_0000         // pages below KERNBASE
  const KERNBASE: nat := 0x8000_0000
  const DEVPAGE: nat := 0xF_E000      // DEVSPACE
  const PTE_W: nat := 2
  const PTE_U: nat := 4

  function Pdx(v: nat): (i: nat)
    ensures v < SPACE ==> i < NPTENTRIES
  {
    v / NPTENTRIES
  }

  function Ptx(v: nat): (j: nat)
    ensures j < NPTENTRIES
  {
    v % NPTENTRIES
  }

  // Entries are words: frame number times 4096 plus flags.

  predicate Present(e: int) {
    e % 2 == 1
  }

  function FrameOf(e: int): int {
    e / PGSIZE
  }

  function Flags(e: int): int {
    e % PGSIZE
  }

  /** The W and U bits. */
  predicate Writable(e: int) {
    e / PTE_W % 2 == 1
  }

  predicate ForUser(e: int) {
    e / PTE_U % 2 == 1
  }

  /** A present entry for the frame with the given permissions. */
  function Make(frame: int, perm: nat): int {
    frame * PGSIZE + perm + if perm % 2 == 1 then 0 else 1
  }

  lemma MakeParts(frame: int, perm: nat)
    requires 0 <= frame && perm < PGSIZE
    ensures Present(Make(frame, perm)) && FrameOf(Make(frame, perm)) == frame
    ensures Flags(Make(frame, perm)) == perm + if perm % 2 == 1 then 0 else 1
  {
  }

  /** The bits depend on the flags alone. */
  lemma FlagBits(e: int)
    ensures Writable(e) == Writable(Flags(e)) && ForUser(e) == ForUser(Flags(e)) && Present(e) == Present(Flags(e))
  {
    FlagParts(e / PGSIZE, e % PGSIZE);
  }

  lemma FlagParts(q: int, r: int)
    requires 0 <= r < PGSIZE
    ensures var e := PGSIZE * q + r; e / 2 % 2 == r / 2 % 2 && e / 4 % 2 == r / 4 % 2 && e % 2 == r % 2
  {
    Twice(2048 * q, r);
    Twice(1024 * q, r / 2);
    Twice(512 * q, r / 2 / 2);
    Quarter(PGSIZE * q + r);
    Quarter(r);
  }

  lemma Quarter(e: int)
    ensures e / 4 == e / 2 / 2
  {
  }

  lemma Twice(a: int, r: int)
    ensures (2 * a + r) / 2 == a + r / 2 && (2 * a + r) % 2 == r % 2
  {
  }

  // The directory and its tables.

  predicate IsTable(dir: Page, f: int) {
    exists i :: 0 <= i < |dir| && Present(dir[i]) && FrameOf(dir[i]) == f
  }

  /** The directory in frame d: its tables are distinct allocatable frames, none of them free, and no
      entry takes away a right that the tables give. */
  ghost predicate Dir(low: nat, d: int, dir: Page, free: seq<nat>) {
    && |dir| == NPTENTRIES && low <= d < PHYSPAGES && d !in free
    && (forall i :: 0 <= i < NPTENTRIES && Present(dir[i]) ==>
          low <= FrameOf(dir[i]) < PHYSPAGES && FrameOf(dir[i]) != d && FrameOf(dir[i]) !in free)
    && (forall i, j :: 0 <= i < j < NPTENTRIES && Present(dir[i]) && Present(dir[j]) ==> FrameOf(dir[i]) != FrameOf(dir[j]))
    && (forall i :: 0 <= i < NPTENTRIES && Present(dir[i]) ==> Writable(dir[i]) && ForUser(dir[i]))
  }

  /** What the hardware finds for virtual page v: its table's entry, or an absent entry. */
  function Entry(ram: seq<Page>, dir: Page, v: nat): int {
    if Pdx(v) < |dir| && Present(dir[Pdx(v)]) && 0 <= FrameOf(dir[Pdx(v)]) < |ram|
       && Ptx(v) < |ram[FrameOf(dir[Pdx(v)])]|
    then ram[FrameOf(dir[Pdx(v)])][Ptx(v)]
    else 0
  }

  /** What an access to a page comes to: a fault, or a frame, and whether user code may access it and
      whether it may be written. A right counts if both levels give it. */
  datatype Access = Fault | Access(frame: int, user: bool, write: bool)

  function Translate(ram: seq<Page>, dir: Page, v: nat): Access {
    if Pdx(v) < |dir| && Present(dir[Pdx(v)]) && Present(Entry(ram, dir, v)) then
      var pde, pte := dir[Pdx(v)], Entry(ram, dir, v);
      Access(FrameOf(pte), ForUser(pde) && ForUser(pte), Writable(pde) && Writable(pte))
    else Fault
  }

  /** The same from the entry of the table alone. */
  function EntryAccess(e: int): Access {
    if Present(e) then Access(FrameOf(e), ForUser(e), Writable(e)) else Fault
  }

  /** With directories as this kernel makes them, the flat map says what every access comes to. */
  lemma FlatDecides(ram: seq<Page>, low: nat, d: int, dir: Page, free: seq<nat>, v: nat)
    requires Dir(low, d, dir, free) && v < SPACE
    ensures Translate(ram, dir, v) == EntryAccess(Flat(ram, dir)[v])
  {
    hide Writable, ForUser, FrameOf;
  }

  /** The flat page map. */
  ghost function Flat(ram: seq<Page>, dir: Page): (flat: seq<int>)
    ensures |flat| == SPACE
    ensures forall v :: 0 <= v < SPACE ==> flat[v] == Entry(ram, dir, v)
  {
    seq(SPACE, v requires 0 <= v < SPACE => Entry(ram, dir, v))
  }

  /** How many of n pages from first on, counted until the first that is not, are mapped (or not
      mapped, if what is false). */
  ghost function Leading(flat: seq<int>, first: nat, n: nat, what: bool): (k: nat)
    requires first + n <= |flat|
    ensures k <= n && (k < n ==> Present(flat[first + k]) != what)
    ensures forall v :: first <= v < first + k ==> Present(flat[v]) == what
    decreases n
  {
    if n == 0 || Present(flat[first]) != what then 0 else 1 + Leading(flat, first + 1, n - 1, what)
  }

  lemma LeadingIs(flat: seq<int>, first: nat, n: nat, what: bool, k: nat)
    requires first + n <= |flat| && k <= n && (k < n ==> Present(flat[first + k]) != what)
    requires forall v :: first <= v < first + k ==> Present(flat[v]) == what
    ensures Leading(flat, first, n, what) == k
  {
  }

  /** User mappings use distinct allocatable frames that are neither free nor part of the tables. */
  ghost predicate Users(low: nat, d: int, dir: Page, flat: seq<int>, free: seq<nat>) {
    && |flat| == SPACE
    && (forall v :: 0 <= v < USER && Present(flat[v]) ==>
          low <= FrameOf(flat[v]) < PHYSPAGES && FrameOf(flat[v]) != d && FrameOf(flat[v]) !in free && !IsTable(dir, FrameOf(flat[v])))
    && (forall u, v :: 0 <= u < v < USER && Present(flat[u]) && Present(flat[v]) ==> FrameOf(flat[u]) != FrameOf(flat[v]))
  }

  predicate IsUserFrame(flat: seq<int>, f: int) {
    exists v :: 0 <= v < USER && v < |flat| && Present(flat[v]) && FrameOf(flat[v]) == f
  }

  /** The frames an address space holds: its directory, its tables and its user pages. */
  predicate Owns(d: int, dir: Page, flat: seq<int>, f: int) {
    f == d || IsTable(dir, f) || IsUserFrame(flat, f)
  }

  // How the three kinds of store change the flat map.

  /** Storing one entry of one table changes that page's entry and no other. */
  lemma SetEntry(ram: seq<Page>, low: nat, d: int, free: seq<nat>, v: nat, e: int)
    requires Sized(ram) && 0 <= d < PHYSPAGES && Dir(low, d, ram[d], free) && v < SPACE && Present(ram[d][Pdx(v)])
    ensures var t := FrameOf(ram[d][Pdx(v)]);
            var ram' := ram[t := ram[t][Ptx(v) := e]];
            ram'[d] == ram[d] && Flat(ram', ram'[d]) == Flat(ram, ram[d])[v := e]
  {
    var t := FrameOf(ram[d][Pdx(v)]);
    var ram' := ram[t := ram[t][Ptx(v) := e]];
    forall u: nat | u < SPACE ensures Entry(ram', ram'[d], u) == if u == v then e else Entry(ram, ram[d], u) {
      if Pdx(u) == Pdx(v) && u != v {
        assert Ptx(u) != Ptx(v);
      }
    }
  }

  /** Installing a zeroed table changes no page's entry, provided no entry was present there. */
  lemma AddTable(ram: seq<Page>, low: nat, d: int, free: seq<nat>, i: nat, t: nat)
    requires Sized(ram) && 0 <= d < PHYSPAGES && Dir(low, d, ram[d], free) && i < NPTENTRIES && !Present(ram[d][i])
    requires low <= t < PHYSPAGES && t != d && t !in free && !IsTable(ram[d], t)
    ensures var ram' := ram[t := ZeroPage()][d := ram[d][i := Make(t, 7)]];
            Dir(low, d, ram'[d], free) && Flat(ram', ram'[d]) == Flat(ram, ram[d])
  {
    MakeParts(t, 7);
    FlagBits(Make(t, 7));
    var ram' := ram[t := ZeroPage()][d := ram[d][i := Make(t, 7)]];
    forall u: nat | u < SPACE ensures Entry(ram', ram'[d], u) == Entry(ram, ram[d], u) {
      if Pdx(u) != i && Present(ram[d][Pdx(u)]) {
        assert FrameOf(ram[d][Pdx(u)]) != t;
      }
    }
  }

  lemma AddTableOwner(dir: Page, i: nat, t: nat)
    requires |dir| == NPTENTRIES && i < NPTENTRIES && !Present(dir[i])
    ensures forall f :: IsTable(dir[i := Make(t, 7)], f) <==> f == t || IsTable(dir, f)
  {
    MakeParts(t, 7);
    var dir' := dir[i := Make(t, 7)];
    assert dir'[i] == Make(t, 7);
    forall f | IsTable(dir, f) ensures IsTable(dir', f) {
      var j :| 0 <= j < |dir| && Present(dir[j]) && FrameOf(dir[j]) == f;
      assert dir'[j] == dir[j];
    }
  }

  /** Writing any other frame changes nothing. */
  lemma WriteElsewhere(ram: seq<Page>, dir: Page, f: nat, page: Page)
    requires Sized(ram) && f < PHYSPAGES && |page| == NPTENTRIES && !IsTable(dir, f)
    ensures Flat(ram[f := page], dir) == Flat(ram, dir)
  {
    forall u: nat | u < SPACE ensures Entry(ram[f := page], dir, u) == Entry(ram, dir, u) {
    }
  }

  /** Two memories that agree on a directory's tables give it the same flat map. */
  lemma SameTables(ram: seq<Page>, ram': seq<Page>, dir: Page)
    requires Sized(ram) && Sized(ram')
    requires forall f :: 0 <= f < PHYSPAGES && IsTable(dir, f) ==> ram'[f] == ram[f]
    ensures Flat(ram', dir) == Flat(ram, dir)
  {
    forall u: nat | u < SPACE ensures Entry(ram', dir, u) == Entry(ram, dir, u) {
      if Pdx(u) < |dir| && Present(dir[Pdx(u)]) {
        assert IsTable(dir, FrameOf(dir[Pdx(u)]));
      }
    }
  }

  // Counting present entries.

  function Count(s: seq<int>): (n: nat)
    ensures n <= |s|
  {
    if s == [] then 0 else Count(s[..|s| - 1]) + if Present(s[|s| - 1]) then 1 else 0
  }

  lemma {:induction false} CountUpdate(s: seq<int>, i: nat, e: int)
    requires i < |s|
    ensures Count(s[i := e]) + (if Present(s[i]) then 1 else 0) == Count(s) + if Present(e) then 1 else 0
    decreases |s|
  {
    var last := |s| - 1;
    if i == last {
      assert s[i := e][..last] == s[..last];
    } else {
      assert s[i := e][..last] == s[..last][i := e];
      CountUpdate(s[..last], i, e);
    }
  }

  /** A map whose present entries are its first n has n of them. */
  lemma {:induction false} CountPrefix(s: seq<int>, n: nat)
    requires n <= |s| && forall i :: 0 <= i < |s| ==> (Present(s[i]) <==> i < n)
    ensures Count(s) == n
    decreases |s|
  {
    if s != [] {
      CountPrefix(s[..|s| - 1], if n == |s| then n - 1 else n);
    }
  }

  lemma {:induction false} CountConcat(s: seq<int>, t: seq<int>)
    ensures Count(s + t) == Count(s) + Count(t)
    decreases |t|
  {
    if t == [] {
      assert s + t == s;
    } else {
      var n := |t| - 1;
      assert (s + t)[..|s| + n] == s + t[..n];
      CountConcat(s, t[..n]);
    }
  }

  // Which tables a range of pages needs.

  /** The entries from lo up to hi are present now; entries already present, and all others, are as
      they were. */
  ghost predicate Extended(dir: Page, dir': Page, lo: nat, hi: nat) {
    && |dir'| == |dir|
    && forall i :: 0 <= i < |dir| ==>
         (lo <= i < hi ==> Present(dir'[i])) && (Present(dir[i]) || !(lo <= i < hi) ==> dir'[i] == dir[i])
  }

  /** Absent entries from lo up to hi. */
  function Absent(dir: Page, lo: nat, hi: nat): int
    requires lo <= hi <= |dir|
  {
    hi - lo - Count(dir[lo..hi])
  }

  lemma CountSplit(dir: Page, lo: nat, hi: nat)
    requires lo <= hi <= |dir|
    ensures Count(dir) == Count(dir[..lo]) + Count(dir[lo..hi]) + Count(dir[hi..])
  {
    assert dir == dir[..lo] + dir[lo..hi] + dir[hi..];
    CountConcat(dir[..lo] + dir[lo..hi], dir[hi..]);
    CountConcat(dir[..lo], dir[lo..hi]);
  }

  lemma CountExtended(dir: Page, dir': Page, lo: nat, hi: nat)
    requires lo <= hi <= |dir| && Extended(dir, dir', lo, hi)
    ensures Count(dir') == Count(dir) + Absent(dir, lo, hi)
  {
    CountSplit(dir, lo, hi);
    CountSplit(dir', lo, hi);
    assert dir'[..lo] == dir[..lo] && dir'[hi..] == dir[hi..];
    CountPrefix(dir'[lo..hi], hi - lo);
  }

  /** Absent entries never exceed the room the directory has. */
  lemma AbsentBound(dir: Page, lo: nat, hi: nat)
    requires lo <= hi <= |dir|
    ensures 0 <= Absent(dir, lo, hi) <= |dir| - Count(dir)
  {
    CountSplit(dir, lo, hi);
  }

  lemma AbsentSplit(dir: Page, lo: nat, mid: nat, hi: nat)
    requires lo <= mid <= hi <= |dir|
    ensures Absent(dir, lo, hi) == Absent(dir, lo, mid) + Absent(dir, mid, hi)
  {
    assert dir[lo..hi] == dir[lo..mid] + dir[mid..hi];
    CountConcat(dir[lo..mid], dir[mid..hi]);
  }

  lemma AbsentOne(dir: Page, i: nat)
    requires i < |dir|
    ensures Absent(dir, i, i + 1) == if Present(dir[i]) then 0 else 1
  {
    assert dir[i..i + 1] == [dir[i]];
    assert [dir[i]][..0] == [];
  }

  /** One past the last table that n pages from first on use. */
  function TablesEnd(first: nat, n: nat): nat {
    if n == 0 then Pdx(first) else Pdx(first + n - 1) + 1
  }

  /** Tables that are missing for n pages from first on. */
  function Tables(dir: Page, first: nat, n: nat): int
    requires |dir| == NPTENTRIES && first < SPACE && first + n <= SPACE
  {
    Absent(dir, Pdx(first), TablesEnd(first, n))
  }

  lemma TablesRange(first: nat, n: nat)
    requires first < SPACE && first + n <= SPACE
    ensures Pdx(first) <= TablesEnd(first, n) <= NPTENTRIES
    ensures first + n < SPACE ==> TablesEnd(first, n) <= Pdx(first + n) + 1 == TablesEnd(first, n + 1)
    ensures first + n < SPACE ==> Pdx(first + n) <= TablesEnd(first, n)
  {
  }

  /** One page more needs one more table, unless an earlier page or the directory provides it. */
  lemma TablesStep(dir: Page, dir': Page, first: nat, n: nat)
    requires |dir| == NPTENTRIES && first < SPACE && first + n < SPACE
    requires Extended(dir, dir', Pdx(first), TablesEnd(first, n))
    ensures Tables(dir, first, n + 1) == Tables(dir, first, n) + if Present(dir'[Pdx(first + n)]) then 0 else 1
    ensures !Present(dir'[Pdx(first + n)]) ==> !Present(dir[Pdx(first + n)]) && Pdx(first + n) == TablesEnd(first, n)
  {
    hide Pdx, Count;
    TablesRange(first, n);
    var lo, i, hi := Pdx(first), Pdx(first + n), TablesEnd(first, n);
    AbsentSplit(dir, lo, hi, i + 1);
    if i == hi {
      AbsentOne(dir, i);
    } else {
      assert Absent(dir, i + 1, i + 1) == 0 by {
        AbsentNone(dir, i + 1);
      }
      assert lo <= i by {
        TablesRange(first, 0);
        PdxMono(first, first + n);
      }
    }
  }

  lemma PdxMono(u: nat, v: nat)
    requires u <= v
    ensures Pdx(u) <= Pdx(v)
  {
  }

  lemma AbsentNone(dir: Page, i: nat)
    requires i <= |dir|
    ensures Absent(dir, i, i) == 0
  {
    assert dir[i..i] == [];
  }

  lemma {:induction false} TablesMono(dir: Page, first: nat, n: nat, m: nat)
    requires |dir| == NPTENTRIES && first < SPACE && n <= m && first + m <= SPACE
    ensures 0 <= Tables(dir, first, n) <= Tables(dir, first, m)
  {
    hide Pdx, Count;
    TablesRange(first, n);
    TablesRange(first, m);
    EndMono(first, n, m);
    AbsentSplit(dir, Pdx(first), TablesEnd(first, n), TablesEnd(first, m));
    AbsentBound(dir, Pdx(first), TablesEnd(first, n));
    AbsentBound(dir, TablesEnd(first, n), TablesEnd(first, m));
  }

  lemma EndMono(first: nat, n: nat, m: nat)
    requires n <= m
    ensures TablesEnd(first, n) <= TablesEnd(first, m)
  {
  }

  lemma TablesOne(dir: Page, v: nat)
    requires |dir| == NPTENTRIES && v < SPACE
    ensures TablesEnd(v, 1) == Pdx(v) + 1 && Tables(dir, v, 1) == if Present(dir[Pdx(v)]) then 0 else 1
  {
    AbsentOne(dir, Pdx(v));
  }

  // What mapping pages costs when each page is allocated just before its table.

  /** Free pages that n pages from first on take, tables included. */
  function Cost(dir: Page, first: nat, n: nat): int
    requires |dir| == NPTENTRIES && first < SPACE && first + n <= SPACE
  {
    n + Tables(dir, first, n)
  }

  /** With this many free pages, page first + n is had but the table it needs is not. */
  ghost predicate Loses(dir: Page, first: nat, n: nat, free: nat) {
    && |dir| == NPTENTRIES && first < SPACE && first + n < SPACE
    && free == Cost(dir, first, n) + 1 && Cost(dir, first, n + 1) == free + 1
  }

  /** How allocating pages from first on ends, done saying whether the size was reported as reached
      and short whether a page was lost. */
  ghost predicate Outcome(dir: Page, first: nat, pages: nat, free: nat, done: bool, short: bool) {
    && |dir| == NPTENTRIES && first < SPACE && first + pages <= SPACE
    && (done && !short <==> free >= Cost(dir, first, pages))
    && (short <==> exists n :: 0 <= n < pages && Loses(dir, first, n, free))
    && (done && short <==> pages > 0 && Loses(dir, first, pages - 1, free))
  }

  /** n pages from first on have been mapped, taking exactly their cost. */
  ghost predicate Accounted(dir: Page, free: nat, dir': Page, free': nat, first: nat, n: nat) {
    && |dir| == NPTENTRIES && first < SPACE && first + n <= SPACE
    && Extended(dir, dir', Pdx(first), TablesEnd(first, n)) && free' + Cost(dir, first, n) == free
  }

  lemma CostMono(dir: Page, first: nat, n: nat, m: nat)
    requires |dir| == NPTENTRIES && first < SPACE && n < m && first + m <= SPACE
    ensures 0 <= Cost(dir, first, n) < Cost(dir, first, m)
  {
    hide Tables;
    TablesMono(dir, first, n, m);
  }

  /** The cost is at most the pages and all the tables the directory lacks. */
  lemma CostBound(dir: Page, first: nat, n: nat)
    requires |dir| == NPTENTRIES && first < SPACE && first + n <= SPACE
    ensures Cost(dir, first, n) <= n + NPTENTRIES - Count(dir)
  {
    hide Pdx, Count, TablesEnd;
    TablesRange(first, n);
    AbsentBound(dir, Pdx(first), TablesEnd(first, n));
  }

  lemma AccountedNone(dir: Page, free: nat, first: nat)
    requires |dir| == NPTENTRIES && first < SPACE
    ensures Accounted(dir, free, dir, free, first, 0)
  {
    AbsentNone(dir, Pdx(first));
  }

  lemma ExtendNext(dir: Page, dir1: Page, dir2: Page, first: nat, n: nat)
    requires first + n < SPACE && Extended(dir, dir1, Pdx(first), TablesEnd(first, n))
    requires Extended(dir1, dir2, Pdx(first + n), Pdx(first + n) + 1)
    ensures Extended(dir, dir2, Pdx(first), TablesEnd(first, n + 1))
  {
    hide Present;
    TablesRange(first, n);
    PdxMono(first, first + n);
  }

  lemma AccountedCount(dir: Page, free: nat, dir': Page, free': nat, first: nat, n: nat)
    requires Accounted(dir, free, dir', free', first, n)
    ensures |dir'| == NPTENTRIES && free' + Count(dir') + n == free + Count(dir)
  {
    hide Pdx, Count, TablesEnd, Present;
    TablesRange(first, n);
    CountExtended(dir, dir', Pdx(first), TablesEnd(first, n));
  }

  lemma AccountedNext(dir: Page, free: nat, dir1: Page, free1: nat, dir2: Page, free2: nat, first: nat, n: nat)
    requires Accounted(dir, free, dir1, free1, first, n) && first + n < SPACE
    requires Extended(dir1, dir2, Pdx(first + n), Pdx(first + n) + 1) && free2 + Count(dir2) + 1 == free1 + Count(dir1)
    ensures Accounted(dir, free, dir2, free2, first, n + 1)
  {
    hide Pdx, Count, TablesEnd, Extended;
    AccountedCount(dir, free, dir1, free1, first, n);
    ExtendNext(dir, dir1, dir2, first, n);
    TablesRange(first, n + 1);
    CountExtended(dir, dir2, Pdx(first), TablesEnd(first, n + 1));
  }

  /** A page had with none left for its table is lost. */
  lemma LosesHere(dir: Page, free: nat, dir': Page, first: nat, n: nat)
    requires Accounted(dir, free, dir', 1, first, n) && first + n < SPACE && !Present(dir'[Pdx(first + n)])
    ensures Loses(dir, first, n, free)
  {
    hide Pdx, Extended, Tables, TablesEnd;
    TablesStep(dir, dir', first, n);
  }

  lemma OutcomeDone(dir: Page, free: nat, dir': Page, free': nat, first: nat, pages: nat)
    requires Accounted(dir, free, dir', free', first, pages)
    ensures Outcome(dir, first, pages, free, true, false)
  {
    hide Cost, Extended;
    forall n | 0 <= n < pages ensures !Loses(dir, first, n, free) {
      if n + 1 < pages {
        CostMono(dir, first, n + 1, pages);
      }
    }
  }

  /** The free list ran out between two pages. */
  lemma OutcomeNone(dir: Page, free: nat, dir': Page, first: nat, n: nat, pages: nat)
    requires Accounted(dir, free, dir', 0, first, n) && n < pages && first + pages <= SPACE
    ensures Outcome(dir, first, pages, free, false, false)
  {
    hide Cost, Extended;
    CostMono(dir, first, n, pages);
    forall k | 0 <= k < pages ensures !Loses(dir, first, k, free) {
      if k + 1 < n {
        CostMono(dir, first, k + 1, n);
      } else if n < k {
        CostMono(dir, first, n, k);
      }
    }
  }

  lemma OutcomeShort(dir: Page, free: nat, first: nat, n: nat, pages: nat)
    requires Loses(dir, first, n, free) && n < pages && first + pages <= SPACE
    ensures Outcome(dir, first, pages, free, n == pages - 1, true)
  {
    hide Cost;
    if n + 1 < pages {
      CostMono(dir, first, n + 1, pages);
      assert !Loses(dir, first, pages - 1, free) by {
        CostMono(dir, first, n, pages - 1);
        if n + 1 < pages - 1 {
          CostMono(dir, first, n + 1, pages - 1);
        }
      }
    }
  }
}
