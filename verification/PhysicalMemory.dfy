/** Physical memory and its page allocator, as in HW3/kalloc.c. A page pointer is the number
    of its frame, 0 standing for the null pointer. */
module PhysicalMemory {
  const NPTENTRIES: nat := 1024
  const PHYSPAGES: nat := 0xE000
  const EXTPAGES: nat := 0x100
  const JUNK: int := 0x01010101

  type Page = seq<int>

  ghost predicate Sized(ram: seq<Page>) {
    |ram| == PHYSPAGES && forall f :: 0 <= f < PHYSPAGES ==> |ram[f]| == NPTENTRIES
  }

  /** A freed page: junk, with the link to the next free page in its first word. */
  function JunkPage(next: int): Page {
    seq(NPTENTRIES, i => if i == 0 then next else JUNK)
  }

  function ZeroPage(): Page {
    seq(NPTENTRIES, i => 0)
  }

  function First(free: seq<nat>): nat {
    if free == [] then 0 else free[0]
  }

  function After(free: seq<nat>, i: nat): nat
    requires i < |free|
  {
    First(free[i + 1..])
  }

  /** The frames in free are distinct, allocatable and chained from head in that order. */
  ghost predicate Chained(ram: seq<Page>, low: nat, head: int, free: seq<nat>)
    requires Sized(ram)
  {
    && head == First(free)
    && (forall i :: 0 <= i < |free| ==> low <= free[i] < PHYSPAGES)
    && (forall i, j :: 0 <= i < j < |free| ==> free[i] != free[j])
    && (forall i :: 0 <= i < |free| ==> ram[free[i]][0] == After(free, i))
  }

  /** Writing a page that is not free leaves the chain alone. */
  lemma WriteKeepsChain(ram: seq<Page>, low: nat, head: int, free: seq<nat>, f: nat, page: Page)
    requires Sized(ram) && Chained(ram, low, head, free)
    requires f < PHYSPAGES && f !in free && |page| == NPTENTRIES
    ensures Sized(ram[f := page]) && Chained(ram[f := page], low, head, free)
  {
  }

  lemma PushKeepsChain(ram: seq<Page>, low: nat, head: int, free: seq<nat>, f: nat)
    requires Sized(ram) && Chained(ram, low, head, free) && low <= f < PHYSPAGES && f !in free
    ensures Sized(ram[f := JunkPage(head)]) && Chained(ram[f := JunkPage(head)], low, f, [f] + free)
  {
    var ram', free' := ram[f := JunkPage(head)], [f] + free;
    forall i | 0 <= i < |free'| ensures ram'[free'[i]][0] == After(free', i) {
      assert free'[i + 1..] == free[i..];
      if i == 0 {
        assert free[0..] == free;
      } else {
        assert free'[i] == free[i - 1] && free[i - 1] in free;
        assert ram[free[i - 1]][0] == After(free, i - 1);
      }
    }
  }

  lemma PopKeepsChain(ram: seq<Page>, low: nat, head: int, free: seq<nat>)
    requires Sized(ram) && Chained(ram, low, head, free) && free != []
    ensures Chained(ram, low, ram[head][0], free[1..]) && free[0] !in free[1..]
    ensures forall f :: f in free <==> f == free[0] || f in free[1..]
  {
    assert free == [free[0]] + free[1..];
    forall i | 0 <= i < |free[1..]| ensures ram[free[1..][i]][0] == After(free[1..], i) {
      assert free[1..][i + 1..] == free[i + 2..];
      assert ram[free[i + 1]][0] == After(free, i + 1);
    }
    assert ram[free[0]][0] == After(free, 0);
  }

  /** kmem and the memory it manages: low is the first frame past the kernel image. */
  class Memory {
    const low: nat
    var ram: seq<Page>
    var freelist: int
    ghost var free: seq<nat>

    ghost predicate Valid()
      reads this
    {
      EXTPAGES < low && Sized(ram) && Chained(ram, low, freelist, free)
    }

    /** kinit1 and kinit2 over the frames from low to top, lowest first. */
    constructor (ram: seq<Page>, low: nat, top: nat)
      requires Sized(ram) && EXTPAGES < low <= top <= PHYSPAGES
      ensures Valid() && this.low == low && |free| == top - low
      ensures forall f :: f in free <==> low <= f < top
      ensures forall f :: 0 <= f < PHYSPAGES && !(low <= f < top) ==> this.ram[f] == ram[f]
    {
      this.low, this.ram, this.freelist, this.free := low, ram, 0, [];
      new;
      var p := low;
      while p + 1 <= top
        invariant low <= p <= top && Valid() && |free| == p - low
        invariant forall f :: f in free <==> low <= f < p
        invariant forall f :: 0 <= f < PHYSPAGES && !(low <= f < p) ==> this.ram[f] == ram[f]
      {
        Kfree(p);
        p := p + 1;
      }
    }

    /** Double frees are not detected by the source: f must not be free already. */
    method Kfree(f: nat)
      requires Valid() && low <= f < PHYSPAGES && f !in free
      modifies `ram, `freelist, `free
      ensures Valid() && free == [f] + old(free) && ram == old(ram)[f := JunkPage(old(freelist))]
    {
      PushKeepsChain(ram, low, freelist, free, f);
      ram := ram[f := JunkPage(freelist)];
      freelist := f;
      free := [f] + free;
    }

    method Kalloc() returns (f: int)
      requires Valid()
      modifies `freelist, `free
      ensures Valid()
      ensures if old(free) == [] then f == 0 && free == [] else f == old(free)[0] && f != 0 && free == old(free)[1..]
    {
      f := freelist;
      if f != 0 {
        PopKeepsChain(ram, low, freelist, free);
        freelist := ram[f][0];
        free := free[1..];
      }
    }

    /** memset, memmove or a store into a page the caller holds. */
    method Store(f: nat, page: Page)
      requires Valid() && f < PHYSPAGES && f !in free && |page| == NPTENTRIES
      modifies `ram
      ensures Valid() && ram == old(ram)[f := page]
    {
      WriteKeepsChain(ram, low, freelist, free, f, page);
      ram := ram[f := page];
    }
  }
}
