/** The K&R storage allocator of HW3/umalloc.c: an address-ordered, circular,
    coalescing free list.  Addresses count in units of sizeof(Header). */
module Heap {
  import opened Basics

  /** union header: the next free block, and this block's size in units. */
  datatype Header = Header(ptr: nat, size: nat)

  type Memory = map<nat, Header>

  function End(m: Memory, a: nat): nat
    requires a in m
  {
    a + m[a].size
  }

  ghost predicate Apart(m: Memory, a: nat, b: nat)
    requires a in m && b in m
  {
    End(m, a) <= b || End(m, b) <= a
  }

  /** A block carved out of memory obtained from sbrk, above base and below brk. */
  ghost predicate IsBlock(m: Memory, base: nat, brk: nat, a: nat) {
    a in m && base < a && m[a].size > 0 && End(m, a) <= brk
  }

  /** The free list in address order: base first, then blocks in increasing order. */
  ghost predicate Ordered(m: Memory, base: nat, brk: nat, free: seq<nat>) {
    && |free| > 0 && free[0] == base && base in m && m[base].size == 0
    && (forall i :: 1 <= i < |free| ==> IsBlock(m, base, brk, free[i]))
    && (forall i, j :: 1 <= i < j < |free| ==> End(m, free[i]) <= free[j])
  }

  /** No block touches its successor on the list, except possibly at positions lo .. hi-1. */
  ghost predicate Gapped(m: Memory, free: seq<nat>, lo: int, hi: int) {
    forall i :: 0 <= i < |free| - 1 && !(lo <= i < hi) ==> free[i] in m && End(m, free[i]) != free[i + 1]
  }

  /** One wrap point: each header points to the next block, the last one to base. */
  ghost predicate Circular(m: Memory, free: seq<nat>) {
    && (forall i :: 0 <= i < |free| ==> free[i] in m)
    && (forall i :: 0 <= i < |free| - 1 ==> m[free[i]].ptr == free[i + 1])
    && (|free| > 0 ==> m[free[|free| - 1]].ptr == free[0])
  }

  ghost function Units(m: Memory, s: seq<nat>): nat
    requires Known(m, s)
  {
    if s == [] then 0 else m[s[0]].size + Units(m, s[1..])
  }

  ghost predicate Known(m: Memory, s: seq<nat>) {
    forall i :: 0 <= i < |s| ==> s[i] in m
  }

  lemma {:induction false} UnitsConcat(m: Memory, s: seq<nat>, t: seq<nat>)
    requires Known(m, s) && Known(m, t)
    ensures Units(m, s + t) == Units(m, s) + Units(m, t)
  {
    if s == [] {
      assert s + t == t;
    } else {
      UnitsConcat(m, s[1..], t);
      assert (s + t)[1..] == s[1..] + t;
    }
  }

  lemma {:induction false} UnitsFrame(m: Memory, m': Memory, s: seq<nat>)
    requires forall i :: 0 <= i < |s| ==> s[i] in m && s[i] in m' && m'[s[i]].size == m[s[i]].size
    ensures Units(m', s) == Units(m, s)
  {
    if s != [] {
      UnitsFrame(m, m', s[1..]);
    }
  }

  lemma UnitsSplit(m: Memory, s: seq<nat>, k: nat)
    requires k < |s| && Known(m, s)
    ensures Units(m, s) == Units(m, s[..k]) + m[s[k]].size + Units(m, s[k + 1..])
  {
    assert s == s[..k] + [s[k]] + s[k + 1..];
    UnitsConcat(m, s[..k], [s[k]]);
    UnitsConcat(m, s[..k] + [s[k]], s[k + 1..]);
  }

  /** The last free block below address bp. */
  ghost function Slot(free: seq<nat>, bp: nat): (k: nat)
    requires |free| > 0 && free[0] < bp
    requires forall i :: 0 <= i < |free| ==> free[i] != bp
    ensures k < |free| && free[k] < bp && (k + 1 < |free| ==> bp < free[k + 1])
  {
    if |free| == 1 || bp < free[1] then 0
    else
      var k := Slot(free[1..], bp);
      k + 1
  }

  // Two list operations from which free is made.

  /** Link block bp in after position k. */
  function Insert(m: Memory, p: nat, bp: nat): Memory
    requires p in m && bp in m
  {
    m[bp := m[bp].(ptr := m[p].ptr)][p := m[p].(ptr := bp)]
  }

  function InsertAt(free: seq<nat>, k: nat, bp: nat): seq<nat>
    requires k < |free|
  {
    free[..k + 1] + [bp] + free[k + 1..]
  }

  /** Block p swallows the block after it. */
  function Merge(m: Memory, p: nat, q: nat): Memory
    requires p in m && q in m
  {
    m[p := Header(m[q].ptr, m[p].size + m[q].size)]
  }

  lemma InsertCircular(m: Memory, free: seq<nat>, k: nat, bp: nat)
    requires Circular(m, free) && k < |free| && bp in m && forall i :: 0 <= i < |free| ==> free[i] != bp
    requires forall i, j :: 0 <= i < j < |free| ==> free[i] != free[j]
    ensures Circular(Insert(m, free[k], bp), InsertAt(free, k, bp))
  {
  }

  /** A block apart from every free block lies between its neighbours in the list. */
  lemma Between(m: Memory, base: nat, brk: nat, free: seq<nat>, k: nat, bp: nat)
    requires Ordered(m, base, brk, free) && IsBlock(m, base, brk, bp)
    requires k < |free| && free[k] < bp && (k + 1 < |free| ==> bp < free[k + 1])
    requires forall j :: 1 <= j < |free| ==> Apart(m, bp, free[j])
    ensures forall j :: 1 <= j < |free| ==> if j <= k then End(m, free[j]) <= bp else End(m, bp) <= free[j]
  {
    forall j | 1 <= j < |free| ensures if j <= k then End(m, free[j]) <= bp else End(m, bp) <= free[j] {
      assert Apart(m, bp, free[j]);
      assert j < k ==> End(m, free[j]) <= free[k];
      assert j > k + 1 ==> End(m, free[k + 1]) <= free[j];
    }
  }

  lemma InsertOrdered(m: Memory, base: nat, brk: nat, free: seq<nat>, k: nat, bp: nat)
    requires Ordered(m, base, brk, free) && IsBlock(m, base, brk, bp) && k < |free|
    requires forall j :: 1 <= j < |free| ==> if j <= k then End(m, free[j]) <= bp else End(m, bp) <= free[j]
    ensures Ordered(Insert(m, free[k], bp), base, brk, InsertAt(free, k, bp))
  {
    var m' := Insert(m, free[k], bp);
    var free' := InsertAt(free, k, bp);
    assert forall x :: x in m ==> x in m' && m'[x].size == m[x].size;
    forall i, j | 1 <= i < j < |free'| ensures End(m', free'[i]) <= free'[j] {
      var i', j' := if i <= k then i else i - 1, if j <= k then j else j - 1;
      if i != k + 1 && j != k + 1 {
        assert free'[i] == free[i'] && free'[j] == free[j'];
      }
    }
  }

  lemma InsertGapped(m: Memory, base: nat, brk: nat, free: seq<nat>, k: nat, bp: nat)
    requires Ordered(m, base, brk, free) && Gapped(m, free, 0, 0) && bp in m && k < |free|
    ensures Gapped(Insert(m, free[k], bp), InsertAt(free, k, bp), k, k + 2)
  {
    var m' := Insert(m, free[k], bp);
    var free' := InsertAt(free, k, bp);
    forall i | 0 <= i < |free'| - 1 && !(k <= i < k + 2) ensures free'[i] in m' && End(m', free'[i]) != free'[i + 1] {
      var i' := if i < k then i else i - 1;
      assert free'[i] == free[i'] && free'[i + 1] == free[i' + 1];
      assert free[i'] in m && m'[free[i']].size == m[free[i']].size;
    }
  }

  lemma MergeCircular(m: Memory, free: seq<nat>, j: nat)
    requires Circular(m, free) && j + 1 < |free|
    requires forall i, k :: 0 <= i < k < |free| ==> free[i] != free[k]
    ensures Circular(Merge(m, free[j], free[j + 1]), Without(free, j + 1))
  {
  }

  lemma MergeOrdered(m: Memory, base: nat, brk: nat, free: seq<nat>, j: nat)
    requires Ordered(m, base, brk, free) && 0 < j && j + 1 < |free| && End(m, free[j]) == free[j + 1]
    ensures Ordered(Merge(m, free[j], free[j + 1]), base, brk, Without(free, j + 1))
  {
    var m' := Merge(m, free[j], free[j + 1]);
    var free' := Without(free, j + 1);
    DistinctBlocks(m, base, brk, free);
    assert End(m', free[j]) == End(m, free[j + 1]);
    forall a | 1 <= a < |free'| ensures IsBlock(m', base, brk, free'[a]) {
      var a' := if a <= j then a else a + 1;
      assert free'[a] == free[a'] && IsBlock(m, base, brk, free[a']) && IsBlock(m, base, brk, free[j + 1]);
    }
    forall a, b | 1 <= a < b < |free'| ensures End(m', free'[a]) <= free'[b] {
      var a', b' := if a <= j then a else a + 1, if b <= j then b else b + 1;
      assert free'[a] == free[a'] && free'[b] == free[b'];
      if a == j {
        assert End(m, free[j + 1]) <= free[b'];
      } else {
        assert End(m, free[a']) <= free[b'];
      }
    }
  }

  lemma MergeGapped(m: Memory, base: nat, brk: nat, free: seq<nat>, j: nat, lo: int)
    requires Ordered(m, base, brk, free) && 0 < j && j + 1 < |free| && End(m, free[j]) == free[j + 1]
    requires lo <= j && Gapped(m, free, lo, j + 1)
    ensures Gapped(Merge(m, free[j], free[j + 1]), Without(free, j + 1), lo, j)
  {
    var m' := Merge(m, free[j], free[j + 1]);
    var free' := Without(free, j + 1);
    DistinctBlocks(m, base, brk, free);
    assert End(m', free[j]) == End(m, free[j + 1]);
    forall i | 0 <= i < |free'| - 1 && !(lo <= i < j) ensures free'[i] in m' && End(m', free'[i]) != free'[i + 1] {
      var i' := if i < j then i else i + 1;
      assert free'[i + 1] == free[i' + 1];
      assert i != j ==> free'[i] == free[i'];
    }
  }

  /** Addresses on the list are distinct. */
  lemma DistinctBlocks(m: Memory, base: nat, brk: nat, free: seq<nat>)
    requires Ordered(m, base, brk, free)
    ensures forall i, j :: 0 <= i < j < |free| ==> free[i] != free[j]
    ensures forall i, j :: 0 <= i < j < |free| ==> free[i] < free[j]
  {
    forall i, j | 0 <= i < j < |free| ensures free[i] < free[j] {
      if i > 0 {
        assert End(m, free[i]) <= free[j];
      }
    }
  }

  // The blocks handed out stay apart, and no unit is lost.

  /** Used blocks are apart from each other and from the blocks of `free` past base. */
  ghost predicate UsedApart(m: Memory, free: seq<nat>, used: seq<nat>) {
    && Known(m, free) && Known(m, used)
    && (forall i, j :: 0 <= i < j < |used| ==> Apart(m, used[i], used[j]))
    && (forall i, j :: 0 <= i < |used| && 1 <= j < |free| ==> Apart(m, used[i], free[j]))
  }

  lemma InsertApart(m: Memory, free: seq<nat>, used: seq<nat>, u: nat, k: nat)
    requires UsedApart(m, free, used) && u < |used| && k < |free|
    ensures UsedApart(Insert(m, free[k], used[u]), InsertAt(free, k, used[u]), Without(used, u))
  {
    var bp := used[u];
    var m' := Insert(m, free[k], bp);
    var free', used' := InsertAt(free, k, bp), Without(used, u);
    forall i, j | 0 <= i < j < |used'| ensures Apart(m', used'[i], used'[j]) {
      assert Apart(m, used[if i < u then i else i + 1], used[if j < u then j else j + 1]);
    }
    forall i, j | 0 <= i < |used'| && 1 <= j < |free'| ensures Apart(m', used'[i], free'[j]) {
      if j == k + 1 {
        assert if i < u then Apart(m, used[i], bp) else Apart(m, bp, used[i + 1]);
      } else {
        assert Apart(m, used[if i < u then i else i + 1], free[if j <= k then j else j - 1]);
      }
    }
  }

  lemma InsertUnits(m: Memory, free: seq<nat>, used: seq<nat>, u: nat, k: nat)
    requires Known(m, free) && Known(m, used) && u < |used| && k < |free|
    ensures var m' := Insert(m, free[k], used[u]);
            Known(m', InsertAt(free, k, used[u])) && Known(m', Without(used, u)) &&
            Units(m', InsertAt(free, k, used[u])) + Units(m', Without(used, u)) == Units(m, free) + Units(m, used)
  {
    var bp := used[u];
    var m' := Insert(m, free[k], bp);
    var lo, hi := free[..k + 1], free[k + 1..];
    UnitsSplit(m, used, u);
    UnitsConcat(m, used[..u], used[u + 1..]);
    UnitsFrame(m, m', Without(used, u));
    UnitsFrame(m, m', lo + [bp] + hi);
    assert free == lo + hi;
    UnitsConcat(m, lo, hi);
    UnitsConcat(m, lo, [bp]);
    UnitsConcat(m, lo + [bp], hi);
  }

  lemma MergeApart(m: Memory, free: seq<nat>, used: seq<nat>, j: nat)
    requires UsedApart(m, free, used) && 0 < j && j + 1 < |free| && End(m, free[j]) == free[j + 1]
    requires m[free[j]].size > 0 && m[free[j + 1]].size > 0
    requires forall i :: 0 <= i < |used| ==> m[used[i]].size > 0
    requires forall i, k :: 0 <= i < k < |free| ==> free[i] != free[k]
    ensures UsedApart(Merge(m, free[j], free[j + 1]), Without(free, j + 1), used)
  {
    var m' := Merge(m, free[j], free[j + 1]);
    var free' := Without(free, j + 1);
    forall i, k | 0 <= i < |used| && 1 <= k < |free'| ensures Apart(m', used[i], free'[k]) && used[i] != free[j] {
      assert Apart(m, used[i], free[j]) && Apart(m, used[i], free[j + 1]);
      assert Apart(m, used[i], free[if k <= j then k else k + 1]);
    }
    forall i, k | 0 <= i < k < |used| ensures Apart(m', used[i], used[k]) {
      assert Apart(m, used[i], free[j]) && Apart(m, used[k], free[j]);
    }
  }

  lemma MergeUnits(m: Memory, free: seq<nat>, j: nat)
    requires Known(m, free) && j + 1 < |free|
    requires forall i, k :: 0 <= i < k < |free| ==> free[i] != free[k]
    ensures var m' := Merge(m, free[j], free[j + 1]);
            Known(m', Without(free, j + 1)) && Units(m', Without(free, j + 1)) == Units(m, free)
  {
    var m' := Merge(m, free[j], free[j + 1]);
    var free' := Without(free, j + 1);
    var lo, hi := free[..j], free[j + 2..];
    assert free == lo + [free[j]] + [free[j + 1]] + hi;
    assert free' == lo + [free[j]] + hi;
    UnitsConcat(m, lo, [free[j]]);
    UnitsConcat(m, lo + [free[j]], [free[j + 1]]);
    UnitsConcat(m, lo + [free[j]] + [free[j + 1]], hi);
    UnitsConcat(m', lo, [free[j]]);
    UnitsConcat(m', lo + [free[j]], hi);
    UnitsFrame(m, m', lo);
    UnitsFrame(m, m', hi);
  }

  ghost predicate AreBlocks(m: Memory, base: nat, brk: nat, s: seq<nat>) {
    forall i :: 0 <= i < |s| ==> IsBlock(m, base, brk, s[i])
  }

  /** The whole allocator state: list, blocks handed out, and units obtained from sbrk. */
  ghost predicate Layout(m: Memory, base: nat, brk: nat, free: seq<nat>, used: seq<nat>, lo: int, hi: int) {
    && Ordered(m, base, brk, free) && Circular(m, free) && Gapped(m, free, lo, hi)
    && Known(m, free) && Known(m, used)
    && AreBlocks(m, base, brk, used) && UsedApart(m, free, used)
  }

  lemma FreeOne(m: Memory, base: nat, brk: nat, free: seq<nat>, used: seq<nat>, u: nat, k: nat)
    requires Layout(m, base, brk, free, used, 0, 0)
    requires u < |used| && k < |free| && free[k] < used[u] && (k + 1 < |free| ==> used[u] < free[k + 1])
    ensures var m' := Insert(m, free[k], used[u]);
            var free' := InsertAt(free, k, used[u]);
            && Layout(m', base, brk, free', Without(used, u), k, k + 2)
            && Units(m', free') + Units(m', Without(used, u)) == Units(m, free) + Units(m, used)
  {
    InsertList(m, base, brk, free, used, u, k);
    InsertApart(m, free, used, u, k);
    InsertUnits(m, free, used, u, k);
    InsertBlocks(m, base, brk, free[k], used, u);
  }

  lemma InsertBlocks(m: Memory, base: nat, brk: nat, p: nat, used: seq<nat>, u: nat)
    requires AreBlocks(m, base, brk, used) && p in m && u < |used|
    ensures AreBlocks(Insert(m, p, used[u]), base, brk, Without(used, u))
  {
    var m', used' := Insert(m, p, used[u]), Without(used, u);
    forall i | 0 <= i < |used'| ensures IsBlock(m', base, brk, used'[i]) {
      assert IsBlock(m, base, brk, used[if i < u then i else i + 1]);
    }
  }

  lemma InsertList(m: Memory, base: nat, brk: nat, free: seq<nat>, used: seq<nat>, u: nat, k: nat)
    requires Layout(m, base, brk, free, used, 0, 0)
    requires u < |used| && k < |free| && free[k] < used[u] && (k + 1 < |free| ==> used[u] < free[k + 1])
    ensures var m' := Insert(m, free[k], used[u]);
            var free' := InsertAt(free, k, used[u]);
            Ordered(m', base, brk, free') && Circular(m', free') && Gapped(m', free', k, k + 2)
  {
    hide Circular, Gapped, Insert, InsertAt;
    var bp := used[u];
    assert IsBlock(m, base, brk, bp);
    forall j | 1 <= j < |free| ensures Apart(m, bp, free[j]) && bp != free[j] {
      assert Apart(m, used[u], free[j]);
    }
    Between(m, base, brk, free, k, bp);
    InsertOrdered(m, base, brk, free, k, bp);
    InsertGapped(m, base, brk, free, k, bp);
    DistinctBlocks(m, base, brk, free);
    InsertCircular(m, free, k, bp);
  }

  lemma MergeOne(m: Memory, base: nat, brk: nat, free: seq<nat>, used: seq<nat>, j: nat, lo: int)
    requires Layout(m, base, brk, free, used, lo, j + 1)
    requires 0 < j && j + 1 < |free| && End(m, free[j]) == free[j + 1] && lo <= j
    ensures var m' := Merge(m, free[j], free[j + 1]);
            var free' := Without(free, j + 1);
            && Layout(m', base, brk, free', used, lo, j)
            && Units(m', free') + Units(m', used) == Units(m, free) + Units(m, used)
  {
    var m' := Merge(m, free[j], free[j + 1]);
    DistinctBlocks(m, base, brk, free);
    MergeOrdered(m, base, brk, free, j);
    MergeGapped(m, base, brk, free, j, lo);
    MergeCircular(m, free, j);
    MergeApart(m, free, used, j);
    MergeUnits(m, free, j);
    forall i | 0 <= i < |used| ensures used[i] != free[j] {
      assert Apart(m, used[i], free[j]);
    }
    UnitsFrame(m, m', used);
  }

  /** What free writes: bp's header, which absorbs the successor if adjacent, then p's,
      which absorbs bp if adjacent. */
  function Linked(m: Memory, p: nat, bp: nat): Memory
    requires p in m && bp in m && m[p].ptr in m
  {
    var next := m[p].ptr;
    m[bp := if End(m, bp) == next then Header(m[next].ptr, m[bp].size + m[next].size) else m[bp].(ptr := next)]
  }

  function Freed(m: Memory, p: nat, bp: nat): Memory
    requires p in m && bp in m && m[p].ptr in m
  {
    var m1 := Linked(m, p, bp);
    m1[p := if End(m1, p) == bp then Header(m1[bp].ptr, m1[p].size + m1[bp].size) else m1[p].(ptr := bp)]
  }

  /** The header after the k-th: the next block, or base at the wrap point. */
  lemma Neighbour(m: Memory, base: nat, brk: nat, free: seq<nat>, k: nat)
    requires Ordered(m, base, brk, free) && Circular(m, free) && k < |free|
    ensures free[k] in m && m[free[k]].ptr in m
    ensures if k + 1 < |free| then m[free[k]].ptr == free[k + 1] > free[k] else m[free[k]].ptr == base <= free[k]
    ensures free[0] == base
    ensures k == 0 ==> free[k] == base && m[base].size == 0
  {
    if k + 1 < |free| {
      assert k > 0 ==> End(m, free[k]) <= free[k + 1];
      assert IsBlock(m, base, brk, free[k + 1]);
      assert k > 0 ==> IsBlock(m, base, brk, free[k]);
    } else {
      assert k > 0 ==> IsBlock(m, base, brk, free[k]);
    }
  }

  /** The search loop of free stops at block j exactly when bp belongs after it. */
  lemma SearchStops(m: Memory, base: nat, brk: nat, free: seq<nat>, j: nat, bp: nat)
    requires Ordered(m, base, brk, free) && Circular(m, free) && j < |free| && base < bp
    ensures free[j] in m
    ensures var p, next := free[j], m[free[j]].ptr;
            (bp > p && bp < next) || (p >= next && (bp > p || bp < next))
            <==> free[j] < bp && (j + 1 < |free| ==> bp < free[j + 1])
  {
    Neighbour(m, base, brk, free, j);
  }

  /** The exception at a position is not needed if the block there does not touch its successor. */
  lemma CloseGap(m: Memory, base: nat, brk: nat, free: seq<nat>, used: seq<nat>, lo: int, j: nat)
    requires Layout(m, base, brk, free, used, lo, j + 1)
    requires j + 1 < |free| ==> free[j] in m && End(m, free[j]) != free[j + 1]
    ensures Layout(m, base, brk, free, used, lo, j)
  {
  }

  lemma NoGaps(m: Memory, base: nat, brk: nat, free: seq<nat>, used: seq<nat>, k: nat)
    requires Layout(m, base, brk, free, used, k, k)
    ensures Layout(m, base, brk, free, used, 0, 0)
  {
  }

  lemma LinkedForms(m: Memory, p: nat, bp: nat)
    requires p in m && bp in m && m[p].ptr in m && p != bp && m[p].ptr != bp
    ensures var m2 := Halfway(m, p, bp);
            var next := m[p].ptr;
            && (End(m, bp) != next ==> m2 == Insert(m, p, bp))
            && (End(m, bp) == next != p ==> m2 == Merge(Insert(m, p, bp), bp, next))
            && Freed(m, p, bp) == if End(m2, p) == bp then Merge(m2, p, bp) else m2
  {
  }

  lemma InsertIndices(free: seq<nat>, k: nat, bp: nat)
    requires k < |free|
    ensures var free' := InsertAt(free, k, bp);
            && |free'| == |free| + 1 && free'[k] == free[k] && free'[k + 1] == bp
            && (k + 1 < |free| ==>
                  && free'[k + 2] == free[k + 1] && |Without(free', k + 2)| == |free|
                  && Without(free', k + 2)[k] == free[k] && Without(free', k + 2)[k + 1] == bp)
  {
  }

  /** Memory between the two halves of free, with p already linked to bp. */
  function Halfway(m: Memory, p: nat, bp: nat): Memory
    requires p in m && bp in m && m[p].ptr in m
  {
    var m1 := Linked(m, p, bp);
    m1[p := m1[p].(ptr := bp)]
  }

  /** First half of free, up to p's link: bp is on the list, merged with its successor if adjacent. */
  lemma FreeUpper(m: Memory, base: nat, brk: nat, free: seq<nat>, used: seq<nat>, u: nat, k: nat) returns (free': seq<nat>)
    requires Layout(m, base, brk, free, used, 0, 0)
    requires u < |used| && k < |free| && free[k] < used[u] && (k + 1 < |free| ==> used[u] < free[k + 1])
    requires free[k] in m && used[u] in m && m[free[k]].ptr in m
    ensures k + 1 < |free'| && free'[k] == free[k] && free'[k + 1] == used[u]
    ensures var m2 := Halfway(m, free[k], used[u]);
            && Layout(m2, base, brk, free', Without(used, u), k, k + 1)
            && Units(m2, free') + Units(m2, Without(used, u)) == Units(m, free) + Units(m, used)
  {
    hide Ordered, Circular, Gapped, AreBlocks, UsedApart, Known, Units, Halfway, InsertAt, Without;
    var bp, p := used[u], free[k];
    var m0 := Insert(m, p, bp);
    Neighbour(m, base, brk, free, k);
    FreeOne(m, base, brk, free, used, u, k);
    LinkedForms(m, p, bp);
    InsertIndices(free, k, bp);
    free' := InsertAt(free, k, bp);
    if k + 1 < |free| && End(m, bp) == free[k + 1] {
      MergeOne(m0, base, brk, free', Without(used, u), k + 1, k);
      free' := Without(free', k + 2);
    } else {
      CloseGap(m0, base, brk, free', Without(used, u), k, k + 1);
    }
  }

  /** All of free: the list keeps its shape, no unit is lost, and the freed block is now
      part of one free block. */
  lemma FreeAll(m: Memory, base: nat, brk: nat, free: seq<nat>, used: seq<nat>, u: nat, k: nat)
    returns (free': seq<nat>, at: nat)
    requires Layout(m, base, brk, free, used, 0, 0)
    requires u < |used| && k < |free| && free[k] < used[u] && (k + 1 < |free| ==> used[u] < free[k + 1])
    ensures free[k] in m && used[u] in m && m[free[k]].ptr in m
    ensures var m' := Freed(m, free[k], used[u]);
            && Layout(m', base, brk, free', Without(used, u), 0, 0)
            && free[k] in free'
            && Units(m', free') + Units(m', Without(used, u)) == Units(m, free) + Units(m, used)
            && at < |free'| && free'[at] in m' && free'[at] <= used[u] && End(m, used[u]) <= End(m', free'[at])
  {
    var bp, p := used[u], free[k];
    Neighbour(m, base, brk, free, k);
    assert IsBlock(m, base, brk, bp);
    free' := FreeUpper(m, base, brk, free, used, u, k);
    LinkedForms(m, p, bp);
    hide Ordered, Circular, Gapped, AreBlocks, UsedApart, Known;
    var m2 := Halfway(m, p, bp);
    if End(m2, p) == bp {
      MergeOne(m2, base, brk, free', Without(used, u), k, k);
      free' := Without(free', k + 1);
      at := k;
    } else {
      CloseGap(m2, base, brk, free', Without(used, u), k, k);
      at := k + 1;
    }
    NoGaps(Freed(m, p, bp), base, brk, free', Without(used, u), k);
    assert free'[k] == p;
  }

  lemma NotFree(m: Memory, base: nat, brk: nat, free: seq<nat>, used: seq<nat>, u: nat)
    requires Layout(m, base, brk, free, used, 0, 0) && u < |used|
    ensures Ordered(m, base, brk, free) && Circular(m, free) && |free| > 0 && free[0] == base
    ensures base < used[u] && used[u] in m
    ensures forall j :: 0 <= j < |free| ==> base <= free[j] != used[u]
  {
    assert IsBlock(m, base, brk, used[u]);
    forall j | 0 <= j < |free| ensures base <= free[j] != used[u] {
      if j > 0 {
        assert Apart(m, used[u], free[j]) && IsBlock(m, base, brk, free[j]);
      }
    }
  }

  /** free changes the size of no block still handed out. */
  lemma OthersKeepSize(m: Memory, base: nat, brk: nat, free: seq<nat>, used: seq<nat>, u: nat, k: nat)
    requires Layout(m, base, brk, free, used, 0, 0) && u < |used| && k < |free|
    requires free[k] in m && used[u] in m && m[free[k]].ptr in m
    ensures SameSizes(m, Freed(m, free[k], used[u]), Without(used, u))
  {
    forall i | 0 <= i < |used| && i != u ensures used[i] in m && used[i] != used[u] && used[i] != free[k] {
      NotFree(m, base, brk, free, used, i);
      assert if i < u then Apart(m, used[i], used[u]) else Apart(m, used[u], used[i]);
      assert IsBlock(m, base, brk, used[i]) && IsBlock(m, base, brk, used[u]);
    }
  }

  // malloc: a whole block leaves the list, or the tail of one is cut off.

  function Unlink(m: Memory, prev: nat, p: nat): Memory
    requires prev in m && p in m
  {
    m[prev := m[prev].(ptr := m[p].ptr)]
  }

  /** Shrink p by n units; the cut-off tail gets a header of its own. */
  function Cut(m: Memory, p: nat, n: nat): Memory
    requires p in m && n <= m[p].size
  {
    var q := End(m, p) - n;
    m[p := m[p].(size := m[p].size - n)][q := Header(if q in m then m[q].ptr else 0, n)]
  }

  lemma TakeWhole(m: Memory, base: nat, brk: nat, free: seq<nat>, used: seq<nat>, j: nat)
    requires Layout(m, base, brk, free, used, 0, 0) && 0 < j < |free|
    ensures var m' := Unlink(m, free[j - 1], free[j]);
            && Layout(m', base, brk, Without(free, j), used + [free[j]], 0, 0)
            && Units(m', Without(free, j)) + Units(m', used + [free[j]]) == Units(m, free) + Units(m, used)
  {
    DistinctBlocks(m, base, brk, free);
    TakeWholeOrdered(m, base, brk, free, j);
    TakeWholeGapped(m, base, brk, free, j);
    TakeWholeCircular(m, free, j);
    TakeWholeUsed(m, base, brk, free, used, j);
    TakeWholeUnits(m, base, brk, free, used, j);
  }

  lemma TakeWholeOrdered(m: Memory, base: nat, brk: nat, free: seq<nat>, j: nat)
    requires Ordered(m, base, brk, free) && 0 < j < |free|
    ensures Ordered(Unlink(m, free[j - 1], free[j]), base, brk, Without(free, j))
  {
    var m' := Unlink(m, free[j - 1], free[j]);
    var free' := Without(free, j);
    forall i | 1 <= i < |free'| ensures IsBlock(m', base, brk, free'[i]) {
      assert IsBlock(m, base, brk, free[if i < j then i else i + 1]);
    }
    forall i, k | 1 <= i < k < |free'| ensures End(m', free'[i]) <= free'[k] {
      var i' := if i < j then i else i + 1;
      assert End(m, free[i']) <= free[if k < j then k else k + 1];
    }
  }

  lemma TakeWholeGapped(m: Memory, base: nat, brk: nat, free: seq<nat>, j: nat)
    requires Ordered(m, base, brk, free) && Gapped(m, free, 0, 0) && 0 < j < |free|
    ensures Gapped(Unlink(m, free[j - 1], free[j]), Without(free, j), 0, 0)
  {
    var m' := Unlink(m, free[j - 1], free[j]);
    var free' := Without(free, j);
    forall i | 0 <= i < |free'| - 1 ensures free'[i] in m' && End(m', free'[i]) != free'[i + 1] {
      if i == j - 1 {
        assert i > 0 ==> End(m, free[i]) <= free[j];
        assert IsBlock(m, base, brk, free[j]) && End(m, free[j]) <= free[j + 1];
      } else if i < j {
        assert free'[i] == free[i] && free'[i + 1] == free[i + 1];
      } else {
        assert free'[i] == free[i + 1] && free'[i + 1] == free[i + 2];
      }
    }
  }

  lemma TakeWholeCircular(m: Memory, free: seq<nat>, j: nat)
    requires Circular(m, free) && 0 < j < |free|
    requires forall i, k :: 0 <= i < k < |free| ==> free[i] != free[k]
    ensures Circular(Unlink(m, free[j - 1], free[j]), Without(free, j))
  {
    var m' := Unlink(m, free[j - 1], free[j]);
    var free' := Without(free, j);
    assert forall i :: 0 <= i < |free'| ==> free'[i] == free[if i < j then i else i + 1];
  }

  lemma TakeWholeUsed(m: Memory, base: nat, brk: nat, free: seq<nat>, used: seq<nat>, j: nat)
    requires Layout(m, base, brk, free, used, 0, 0) && 0 < j < |free|
    ensures var m' := Unlink(m, free[j - 1], free[j]);
            UsedApart(m', Without(free, j), used + [free[j]])
    ensures AreBlocks(Unlink(m, free[j - 1], free[j]), base, brk, used + [free[j]])
  {
    hide Circular, Gapped;
    var m' := Unlink(m, free[j - 1], free[j]);
    var free', used' := Without(free, j), used + [free[j]];
    forall a, b | 0 <= a < b < |used'| ensures Apart(m', used'[a], used'[b]) {
      assert if b < |used| then Apart(m, used[a], used[b]) else Apart(m, used[a], free[j]);
    }
    forall a, b | 0 <= a < |used'| && 1 <= b < |free'| ensures Apart(m', used'[a], free'[b]) {
      var b' := if b < j then b else b + 1;
      if a < |used| {
        assert Apart(m, used[a], free[b']);
      } else {
        assert if b' < j then End(m, free[b']) <= free[j] else End(m, free[j]) <= free[b'];
      }
    }
  }

  lemma TakeWholeUnits(m: Memory, base: nat, brk: nat, free: seq<nat>, used: seq<nat>, j: nat)
    requires Known(m, free) && Known(m, used) && 0 < j < |free|
    ensures var m' := Unlink(m, free[j - 1], free[j]);
            Known(m', Without(free, j)) && Known(m', used + [free[j]]) &&
            Units(m', Without(free, j)) + Units(m', used + [free[j]]) == Units(m, free) + Units(m, used)
  {
    var m' := Unlink(m, free[j - 1], free[j]);
    UnitsSplit(m, free, j);
    UnitsConcat(m, free[..j], free[j + 1..]);
    UnitsConcat(m, used, [free[j]]);
    UnitsFrame(m, m', Without(free, j));
    UnitsFrame(m, m', used + [free[j]]);
  }

  lemma TakeTail(m: Memory, base: nat, brk: nat, free: seq<nat>, used: seq<nat>, j: nat, n: nat)
    requires Layout(m, base, brk, free, used, 0, 0) && 0 < j < |free| && 0 < n < m[free[j]].size
    ensures var m' := Cut(m, free[j], n);
            var q := End(m, free[j]) - n;
            && Layout(m', base, brk, free, used + [q], 0, 0)
            && Units(m', free) + Units(m', used + [q]) == Units(m, free) + Units(m, used)
  {
    CutFresh(m, base, brk, free, used, j, n);
    TakeTailOrdered(m, base, brk, free, j, n);
    TakeTailLinks(m, base, brk, free, j, n);
    TakeTailUsed(m, base, brk, free, used, j, n);
    TakeTailUnits(m, free, used, j, n);
  }

  /** The cut-off tail starts at no existing block. */
  lemma CutFresh(m: Memory, base: nat, brk: nat, free: seq<nat>, used: seq<nat>, j: nat, n: nat)
    requires Layout(m, base, brk, free, used, 0, 0) && 0 < j < |free| && 0 < n < m[free[j]].size
    ensures var q := End(m, free[j]) - n;
            && (forall i :: 0 <= i < |free| ==> free[i] != q)
            && (forall i :: 0 <= i < |used| ==> used[i] != q)
    ensures forall i, k :: 0 <= i < k < |free| ==> free[i] != free[k]
    ensures forall i :: 0 <= i < |used| ==> used[i] != free[j]
  {
    hide Circular, Gapped;
    DistinctBlocks(m, base, brk, free);
    var q := End(m, free[j]) - n;
    forall i | 0 <= i < |free| ensures free[i] != q {
      if 0 < i && i != j {
        assert if i < j then End(m, free[i]) <= free[j] else End(m, free[j]) <= free[i];
      }
    }
    forall i | 0 <= i < |used| ensures used[i] != q && used[i] != free[j] {
      assert Apart(m, used[i], free[j]);
    }
  }

  lemma TakeTailOrdered(m: Memory, base: nat, brk: nat, free: seq<nat>, j: nat, n: nat)
    requires Ordered(m, base, brk, free)
    requires 0 < j < |free| && 0 < n < m[free[j]].size
    requires forall i :: 0 <= i < |free| ==> free[i] != End(m, free[j]) - n
    requires forall i, k :: 0 <= i < k < |free| ==> free[i] != free[k]
    ensures Ordered(Cut(m, free[j], n), base, brk, free)
  {
    var m' := Cut(m, free[j], n);
    forall i | 1 <= i < |free| ensures IsBlock(m', base, brk, free[i]) && End(m', free[i]) <= End(m, free[i]) {
      assert IsBlock(m, base, brk, free[i]);
    }
  }

  lemma TakeTailLinks(m: Memory, base: nat, brk: nat, free: seq<nat>, j: nat, n: nat)
    requires Ordered(m, base, brk, free) && Circular(m, free) && Gapped(m, free, 0, 0)
    requires 0 < j < |free| && 0 < n < m[free[j]].size
    requires forall i :: 0 <= i < |free| ==> free[i] != End(m, free[j]) - n
    requires forall i, k :: 0 <= i < k < |free| ==> free[i] != free[k]
    ensures Circular(Cut(m, free[j], n), free) && Gapped(Cut(m, free[j], n), free, 0, 0)
  {
    var m' := Cut(m, free[j], n);
    forall i | 0 <= i < |free| - 1 ensures End(m', free[i]) != free[i + 1] {
      if i == j {
        assert End(m, free[j]) <= free[j + 1];
      } else {
        assert m'[free[i]] == m[free[i]];
      }
    }
  }

  lemma TakeTailUsed(m: Memory, base: nat, brk: nat, free: seq<nat>, used: seq<nat>, j: nat, n: nat)
    requires Layout(m, base, brk, free, used, 0, 0) && 0 < j < |free| && 0 < n < m[free[j]].size
    requires forall i :: 0 <= i < |free| ==> free[i] != End(m, free[j]) - n
    requires forall i :: 0 <= i < |used| ==> used[i] != End(m, free[j]) - n && used[i] != free[j]
    ensures var m' := Cut(m, free[j], n);
            UsedApart(m', free, used + [End(m, free[j]) - n])
    ensures AreBlocks(Cut(m, free[j], n), base, brk, used + [End(m, free[j]) - n])
  {
    hide Circular, Gapped;
    var m' := Cut(m, free[j], n);
    var q := End(m, free[j]) - n;
    var used' := used + [q];
    forall a, b | 0 <= a < b < |used'| ensures Apart(m', used'[a], used'[b]) {
      assert if b < |used| then Apart(m, used[a], used[b]) else Apart(m, used[a], free[j]);
    }
    forall a, b | 0 <= a < |used'| && 1 <= b < |free| ensures Apart(m', used'[a], free[b]) {
      if a < |used| {
        assert Apart(m, used[a], free[b]);
      } else if b != j {
        assert if b < j then End(m, free[b]) <= free[j] else End(m, free[j]) <= free[b];
      }
    }
  }

  lemma TakeTailUnits(m: Memory, free: seq<nat>, used: seq<nat>, j: nat, n: nat)
    requires Known(m, free) && Known(m, used) && 0 < j < |free| && 0 < n < m[free[j]].size
    requires forall i :: 0 <= i < |free| ==> free[i] != End(m, free[j]) - n
    requires forall i :: 0 <= i < |used| ==> used[i] != End(m, free[j]) - n && used[i] != free[j]
    requires forall i, k :: 0 <= i < k < |free| ==> free[i] != free[k]
    ensures var m' := Cut(m, free[j], n);
            var q := End(m, free[j]) - n;
            Known(m', free) && Known(m', used + [q]) &&
            Units(m', free) + Units(m', used + [q]) == Units(m, free) + Units(m, used)
  {
    var m' := Cut(m, free[j], n);
    UnitsSplit(m, free, j);
    UnitsSplit(m', free, j);
    UnitsFrame(m, m', free[..j]);
    UnitsFrame(m, m', free[j + 1..]);
    UnitsConcat(m', used, [End(m, free[j]) - n]);
    UnitsFrame(m, m', used);
  }

  /** Memory fresh from sbrk is a block apart from all others. */
  lemma Grow(m: Memory, base: nat, brk: nat, free: seq<nat>, used: seq<nat>, hp: nat, nu: nat)
    requires Layout(m, base, brk, free, used, 0, 0) && base < brk <= hp && 0 < nu
    ensures var m' := Fresh(m, hp, nu);
            && Layout(m', base, hp + nu, free, used + [hp], 0, 0)
            && Units(m', free) + Units(m', used + [hp]) == Units(m, free) + Units(m, used) + nu
  {
    GrowList(m, base, brk, free, hp, nu);
    GrowUsed(m, base, brk, free, used, hp, nu);
    hide Ordered, Circular, Gapped;
    var m' := Fresh(m, hp, nu);
    UnitsFrame(m, m', free);
    UnitsFrame(m, m', used);
    UnitsConcat(m', used, [hp]);
  }

  function Fresh(m: Memory, hp: nat, nu: nat): Memory {
    m[hp := Header(if hp in m then m[hp].ptr else 0, nu)]
  }

  lemma GrowList(m: Memory, base: nat, brk: nat, free: seq<nat>, hp: nat, nu: nat)
    requires Ordered(m, base, brk, free) && Circular(m, free) && Gapped(m, free, 0, 0) && base < brk <= hp
    ensures var m' := Fresh(m, hp, nu);
            Ordered(m', base, hp + nu, free) && Circular(m', free) && Gapped(m', free, 0, 0)
    ensures forall i :: 0 <= i < |free| ==> free[i] in m && free[i] != hp
  {
    var m' := Fresh(m, hp, nu);
    forall i | 0 <= i < |free| ensures free[i] in m && free[i] != hp && m'[free[i]] == m[free[i]] {
      assert i > 0 ==> IsBlock(m, base, brk, free[i]);
    }
    forall i | 1 <= i < |free| ensures IsBlock(m', base, hp + nu, free[i]) {
      assert IsBlock(m, base, brk, free[i]);
    }
    forall i, k | 1 <= i < k < |free| ensures End(m', free[i]) <= free[k] {
      assert End(m, free[i]) <= free[k];
    }
  }

  lemma GrowUsed(m: Memory, base: nat, brk: nat, free: seq<nat>, used: seq<nat>, hp: nat, nu: nat)
    requires Layout(m, base, brk, free, used, 0, 0) && base < brk <= hp && 0 < nu
    ensures UsedApart(Fresh(m, hp, nu), free, used + [hp])
    ensures AreBlocks(Fresh(m, hp, nu), base, hp + nu, used + [hp])
    ensures forall i :: 0 <= i < |used| ==> used[i] in m && used[i] != hp
  {
    hide Circular, Gapped;
    var m' := Fresh(m, hp, nu);
    var used' := used + [hp];
    assert forall i :: 1 <= i < |free| ==> IsBlock(m, base, brk, free[i]);
    assert forall i :: 0 <= i < |used| ==> IsBlock(m, base, brk, used[i]);
    forall a, b | 0 <= a < b < |used'| ensures Apart(m', used'[a], used'[b]) {
      assert b < |used| ==> Apart(m, used[a], used[b]);
    }
    forall a, b | 0 <= a < |used'| && 1 <= b < |free| ensures Apart(m', used'[a], free[b]) {
      assert a < |used| ==> Apart(m, used[a], free[b]);
    }
  }

  // The allocator.

  const HEADER: nat := 8  // sizeof(Header)

  /** nunits as computed in 32-bit arithmetic. */
  function NUnits(nbytes: nat): nat {
    (nbytes + HEADER - 1) % UINT / HEADER + 1
  }

  /** The size computations of malloc and morecore are exact up to sixteen bytes short of
      2^32 and for no larger request. */
  lemma SizesExactIff(nbytes: nat)
    requires nbytes < UINT
    ensures (NUnits(nbytes) - 1) * HEADER >= nbytes && NUnits(nbytes) * HEADER < UINT <==> nbytes <= UINT - 16
  {
  }

  /** The units morecore asks for: as many as are needed, but at least 4096. */
  function Core(nu: nat): (r: nat)
    ensures nu <= r && 4096 <= r && (r == nu || r == 4096)
  {
    if nu < 4096 then 4096 else nu
  }

  ghost predicate SameSizes(m: Memory, m': Memory, s: seq<nat>) {
    forall i :: 0 <= i < |s| ==> s[i] in m && s[i] in m' && m'[s[i]].size == m[s[i]].size
  }

  lemma SizesTrans(m: Memory, m1: Memory, m2: Memory, s: seq<nat>)
    requires SameSizes(m, m1, s) && SameSizes(m1, m2, s)
    ensures SameSizes(m, m2, s)
  {
  }

  lemma UsedKnown(m: Memory, base: nat, brk: nat, free: seq<nat>, used: seq<nat>)
    requires Layout(m, base, brk, free, used, 0, 0)
    ensures forall i :: 0 <= i < |used| ==> used[i] in m && used[i] < brk
  {
    forall i | 0 <= i < |used| ensures used[i] in m && used[i] < brk {
      assert IsBlock(m, base, brk, used[i]);
    }
  }

  lemma Positive(m: Memory, base: nat, brk: nat, free: seq<nat>, used: seq<nat>, j: nat)
    requires Layout(m, base, brk, free, used, 0, 0) && j < |free|
    ensures base <= free[j] && free[j] in m
  {
    assert j > 0 ==> IsBlock(m, base, brk, free[j]);
  }

  function Succ(n: nat, j: nat): nat {
    if j + 1 < n then j + 1 else 0
  }

  function Pred(n: nat, j: nat): nat
    requires j < n
  {
    if j > 0 then j - 1 else n - 1
  }

  /** Steps along the circular list from position j to position f. */
  function Distance(n: nat, j: nat, f: nat): nat
    requires j < n && f < n
  {
    if j <= f then f - j else n + f - j
  }

  /** A step from j comes closer to f, without passing fit, unless j is f or fit. */
  lemma Closer(n: nat, j: nat, fit: nat, f: nat)
    requires j < n && f < n && fit < n
    ensures Succ(n, j) < n
    ensures j != f ==> Distance(n, Succ(n, j), f) < Distance(n, j, f)
    ensures j == f ==> Distance(n, fit, f) <= Distance(n, Succ(n, j), f)
    ensures j != fit && Distance(n, fit, f) <= Distance(n, j, f) ==> j != f && Distance(n, fit, f) <= Distance(n, Succ(n, j), f)
  {
  }

  lemma Links(m: Memory, base: nat, brk: nat, free: seq<nat>, used: seq<nat>, j: nat)
    requires Layout(m, base, brk, free, used, 0, 0) && j < |free|
    ensures free[j] in m && m[free[j]].ptr == free[Succ(|free|, j)]
    ensures j == 0 ==> m[free[j]].size == 0
  {
    Neighbour(m, base, brk, free, j);
  }

  lemma SameIndex(m: Memory, base: nat, brk: nat, free: seq<nat>, used: seq<nat>, i: nat, j: nat)
    requires Layout(m, base, brk, free, used, 0, 0) && i < |free| && j < |free| && free[i] == free[j]
    ensures i == j
  {
    DistinctBlocks(m, base, brk, free);
  }

  ghost predicate SomeFits(m: Memory, free: seq<nat>, nunits: nat) {
    exists i :: 0 <= i < |free| && free[i] in m && m[free[i]].size >= nunits
  }

  datatype Sbrk = Failed | Region(start: nat)

  class Allocator {
    const base: nat
    var mem: Memory
    var freep: nat  // 0 is the null pointer
    ghost var free: seq<nat>  // the free list in address order
    ghost var used: seq<nat>  // blocks handed out
    ghost var brk: nat        // end of the memory obtained so far
    ghost var obtained: nat   // units obtained from sbrk

    ghost predicate Valid()
      reads this
    {
      && 0 < base < brk
      && (if freep == 0 then used == [] && obtained == 0
          else
            && freep in free
            && Layout(mem, base, brk, free, used, 0, 0)
            && Units(mem, free) + Units(mem, used) == obtained)
    }

    constructor (base: nat, heapStart: nat)
      requires 0 < base < heapStart
      ensures Valid() && this.base == base && brk == heapStart && used == [] && freep == 0
    {
      this.base, brk := base, heapStart;
      mem, freep, free, used, obtained := map[], 0, [], [], 0;
    }

    /** The search loop of free: walk from freep to the block after which bp belongs. */
    method Locate(bp: nat, ghost goal: nat) returns (p: nat, ghost k: nat)
      requires Ordered(mem, base, brk, free) && Circular(mem, free) && freep in free && base < bp
      requires goal < |free| && free[goal] < bp && (goal + 1 < |free| ==> bp < free[goal + 1])
      ensures k < |free| && p == free[k] && p < bp && (k + 1 < |free| ==> bp < free[k + 1])
    {
      hide Ordered, Circular;
      p := freep;
      ghost var j :| 0 <= j < |free| && free[j] == freep;
      SearchStops(mem, base, brk, free, j, bp);
      while !(bp > p && bp < mem[p].ptr)
        invariant 0 <= j < |free| && p == free[j] && p in mem
        decreases j > goal, (if j <= goal then goal else |free|) - j
      {
        SearchStops(mem, base, brk, free, j, bp);
        if p >= mem[p].ptr && (bp > p || bp < mem[p].ptr) {
          break;
        }
        Neighbour(mem, base, brk, free, j);
        p := mem[p].ptr;
        j := if j + 1 < |free| then j + 1 else 0;
        SearchStops(mem, base, brk, free, j, bp);
      }
      SearchStops(mem, base, brk, free, j, bp);
      k := j;
    }

    /** The header updates of free. */
    method Relink(p: nat, bp: nat)
      requires p in mem && bp in mem && mem[p].ptr in mem && p != bp
      modifies `mem
      ensures mem == Freed(old(mem), p, bp)
    {
      var next := mem[p].ptr;
      if bp + mem[bp].size == next {
        mem := mem[bp := Header(mem[next].ptr, mem[bp].size + mem[next].size)];
      } else {
        mem := mem[bp := mem[bp].(ptr := next)];
      }
      if p + mem[p].size == bp {
        mem := mem[p := Header(mem[bp].ptr, mem[p].size + mem[bp].size)];
      } else {
        mem := mem[p := mem[p].(ptr := bp)];
      }
    }

    /** free: the block returns to the list, coalesced with its neighbours. */
    method Free(ap: nat, ghost u: nat) returns (ghost at: nat)
      requires Valid() && freep != 0 && u < |used| && used[u] == ap - 1
      modifies this
      ensures Valid() && freep != 0
      ensures used == Without(old(used), u) && obtained == old(obtained) && brk == old(brk)
      ensures SameSizes(old(mem), mem, used)
      ensures at < |free| && free[at] <= ap - 1 && free[at] in mem && ap - 1 in old(mem)
      ensures ap - 1 + old(mem)[ap - 1].size <= free[at] + mem[free[at]].size
    {
      hide Layout, Ordered, Circular, Units, Freed;
      var bp := ap - 1;
      NotFree(mem, base, brk, free, used, u);
      var p;
      ghost var k;
      p, k := Locate(bp, Slot(free, bp));
      ghost var free';
      free', at := FreeAll(mem, base, brk, free, used, u, k);
      OthersKeepSize(mem, base, brk, free, used, u, k);
      Relink(p, bp);
      freep := p;
      free, used := free', Without(used, u);
    }

    /** morecore: at least 4096 units more, put on the list by way of free. */
    method Morecore(nu: nat, sbrk: Sbrk) returns (p: nat, ghost at: nat)
      requires Valid() && freep != 0 && nu > 0 && (sbrk.Region? ==> brk <= sbrk.start)
      modifies this
      ensures Valid() && freep != 0
      ensures sbrk.Failed? ==> p == 0 && mem == old(mem) && free == old(free) && used == old(used) && obtained == old(obtained) && freep == old(freep)
      ensures sbrk.Region? ==> p == freep && used == old(used) && obtained == old(obtained) + Core(nu)
      ensures SameSizes(old(mem), mem, used)
      ensures sbrk.Region? ==> at < |free| && free[at] in mem && mem[free[at]].size >= nu
    {
      hide Layout, Ordered, Circular, Units;
      var n := if nu < 4096 then 4096 else nu;
      if sbrk.Failed? {
        UsedKnown(mem, base, brk, free, used);
        return 0, 0;
      }
      var hp := sbrk.start;
      Grow(mem, base, brk, free, used, hp, n);
      UsedKnown(mem, base, brk, free, used);
      mem := mem[hp := Header(if hp in mem then mem[hp].ptr else 0, n)];
      used, brk, obtained := used + [hp], hp + n, obtained + n;
      at := Free(hp + 1, |used| - 1);
      p := freep;
    }

    /** The allocating branch of malloc: block p fits. */
    method Take(p: nat, prevp: nat, nunits: nat, ghost j: nat) returns (q: nat)
      requires Valid() && freep != 0 && 0 < j < |free| && p == free[j] && prevp == free[j - 1]
      requires p in mem && mem[p].size >= nunits > 0
      modifies `mem, `freep, `free, `used
      ensures Valid() && freep == prevp
      ensures used == old(used) + [q] && q in mem && mem[q].size == nunits
      ensures SameSizes(old(mem), mem, old(used))
    {
      hide Layout, Ordered, Circular, Units, UsedApart;
      UsedKnown(mem, base, brk, free, used);
      Positive(mem, base, brk, free, used, j - 1);
      if mem[p].size == nunits {
        TakeWhole(mem, base, brk, free, used, j);
        mem := mem[prevp := mem[prevp].(ptr := mem[p].ptr)];
        q := p;
        free := Without(free, j);
        assert free[j - 1] == prevp;
      } else {
        TakeTail(mem, base, brk, free, used, j, nunits);
        CutFresh(mem, base, brk, free, used, j, nunits);
        mem := mem[p := mem[p].(size := mem[p].size - nunits)];
        q := p + mem[p].size;
        mem := mem[q := Header(if q in mem then mem[q].ptr else 0, nunits)];
      }
      used := used + [q];
      freep := prevp;
    }

    /** malloc's first call makes the one-element list. */
    method Initialise()
      requires Valid()
      modifies `mem, `freep, `free
      ensures Valid() && freep != 0 && SameSizes(old(mem), mem, used)
      ensures old(freep) != 0 ==> mem == old(mem) && free == old(free)
    {
      if freep != 0 {
        UsedKnown(mem, base, brk, free, used);
      }
      if freep == 0 {
        freep := base;
        mem := mem[base := Header(base, 0)];
        free := [base];
        assert Units(mem, free) == 0 by {
          assert free[1..] == [];
        }
      }
    }

    /** Where malloc's loop stands: p is the j-th block, prevp the one before it. */
    ghost predicate At(prevp: nat, p: nat, j: nat, f: nat)
      reads this
    {
      && j < |free| && p == free[j] && p in mem && prevp == free[Pred(|free|, j)]
      && f < |free| && freep == free[f]
    }

    /** Some block fits and the walk has not passed it. */
    ghost predicate Ahead(fit: nat, j: nat, f: nat, nunits: nat)
      requires j < |free| && f < |free|
      reads this
    {
      && fit < |free| && free[fit] in mem && mem[free[fit]].size >= nunits
      && Distance(|free|, fit, f) <= Distance(|free|, j, f)
    }

    /** The step of malloc's loop. */
    method Advance(p: nat, ghost j: nat, ghost f: nat) returns (p': nat, ghost j': nat)
      requires Valid() && freep != 0 && j < |free| && p == free[j] && f < |free| && freep == free[f]
      ensures At(p, p', j', f) && j' == Succ(|free|, j)
    {
      hide Layout, Units;
      Links(mem, base, brk, free, used, j);
      j' := Succ(|free|, j);
      Links(mem, base, brk, free, used, j');
      p' := mem[p].ptr;
    }

    /** The part of malloc's loop that asks for more memory; at is p's place on the list. */
    method Refill(nunits: nat, sbrk: Sbrk, ghost mem0: Memory) returns (p: nat, ghost at: nat, ghost fit: nat)
      requires Valid() && freep != 0 && nunits > 0 && (sbrk.Region? ==> brk <= sbrk.start) && SameSizes(mem0, mem, used)
      modifies this
      ensures Valid() && freep != 0 && used == old(used) && SameSizes(mem0, mem, used)
      ensures p == 0 <==> sbrk.Failed?
      ensures p == 0 ==> obtained == old(obtained)
      ensures p != 0 ==>
                && p == freep && obtained == old(obtained) + Core(nunits) && at < |free| && free[at] == freep
                && fit < |free| && free[fit] in mem && mem[free[fit]].size >= nunits
    {
      hide Layout, Units, SameSizes;
      ghost var before := mem;
      p, fit := Morecore(nunits, sbrk);
      SizesTrans(mem0, before, mem, used);
      at :| at < |free| && free[at] == freep;
    }

    /** On from a block that does not fit and is not the last one. */
    method StepOn(p: nat, nunits: nat, ghost j: nat, ghost f: nat, ghost fit: nat, ghost ahead: bool) returns (p': nat, ghost j': nat)
      requires Valid() && freep != 0 && j < |free| && p == free[j] && f < |free| && freep == free[f] && j != f
      requires ahead ==> Ahead(fit, j, f, nunits) && p in mem && mem[p].size < nunits
      ensures At(p, p', j', f) && Distance(|free|, j', f) < Distance(|free|, j, f)
      ensures ahead ==> Ahead(fit, j', f, nunits)
    {
      hide Layout, Units, Distance, Succ;
      Closer(|free|, j, if ahead then fit else j, f);
      p', j' := Advance(p, j, f);
    }

    /** More memory, and one step on; prevp is 0 if there is none. */
    method Restart(nunits: nat, sbrk: Sbrk, ghost mem0: Memory) returns (prevp: nat, p: nat, ghost j: nat, ghost f: nat, ghost fit: nat)
      requires Valid() && freep != 0 && nunits > 0 && (sbrk.Region? ==> brk <= sbrk.start) && SameSizes(mem0, mem, used)
      modifies this
      ensures Valid() && freep != 0 && used == old(used) && SameSizes(mem0, mem, used)
      ensures prevp == 0 <==> sbrk.Failed?
      ensures prevp == 0 ==> obtained == old(obtained)
      ensures prevp != 0 ==> obtained == old(obtained) + Core(nunits) && At(prevp, p, j, f) && Ahead(fit, j, f, nunits)
    {
      hide Layout, Units, SameSizes, Distance, Succ, Core;
      p := 0;
      prevp, f, fit := Refill(nunits, sbrk, mem0);
      if prevp == 0 {
        return 0, 0, 0, 0, 0;
      }
      Closer(|free|, f, fit, f);
      p, j := Advance(prevp, f, f);
    }

    /** malloc.  Walk the list from freep once round; only if no block fits, get more core and
        walk again, which then succeeds.  So morecore runs at most once. */
    method Malloc(nbytes: nat, sbrk: Sbrk) returns (r: Option<nat>, ghost grown: bool)
      requires Valid() && nbytes < UINT && NUnits(nbytes) * HEADER < UINT && (sbrk.Region? ==> brk <= sbrk.start)
      modifies this
      ensures Valid() && freep != 0
      ensures r.None? ==> sbrk.Failed? && used == old(used)
      ensures r.Some? ==> r.value > 0 && used == old(used) + [r.value - 1]
      ensures r.Some? ==> r.value - 1 in mem && mem[r.value - 1].size == NUnits(nbytes)
      ensures SameSizes(old(mem), mem, old(used))
      ensures obtained == old(obtained) + if grown then Core(NUnits(nbytes)) else 0
      ensures (grown || r.None?) && old(freep) != 0 ==> !SomeFits(old(mem), old(free), NUnits(nbytes))
    {
      hide Layout, Units, SameSizes, Distance, Succ, Core;
      var nunits := (nbytes + HEADER - 1) % UINT / HEADER + 1;
      Initialise();
      grown := false;
      var prevp, p := freep, freep;
      ghost var f: nat :| f < |free| && free[f] == freep;
      ghost var fits := SomeFits(mem, free, nunits);
      ghost var j, fit: nat := f, 0;
      if fits {
        fit :| fit < |free| && free[fit] in mem && mem[free[fit]].size >= nunits;
        Closer(|free|, f, fit, f);
      }
      p, j := Advance(prevp, f, f);
      while true
        invariant Valid() && freep != 0 && used == old(used) && SameSizes(old(mem), mem, used)
        invariant obtained == old(obtained) + if grown then Core(nunits) else 0
        invariant !grown ==> brk == old(brk)
        invariant At(prevp, p, j, f)
        invariant grown || fits ==> Ahead(fit, j, f, nunits)
        invariant grown ==> !fits
        decreases !grown, Distance(|free|, j, f)
      {
        Links(mem, base, brk, free, used, j);
        if mem[p].size >= nunits {
          ghost var before := mem;
          var q := Take(p, prevp, nunits, j);
          SizesTrans(old(mem), before, mem, old(used));
          return Some(q + 1), grown;
        }
        if p == freep {
          SameIndex(mem, base, brk, free, used, j, f);
          Closer(|free|, j, if grown || fits then fit else j, f);
          prevp, p, j, f, fit := Restart(nunits, sbrk, old(mem));
          if prevp == 0 {
            return None, false;
          }
          grown := true;
        } else {
          prevp := p;
          p, j := StepOn(prevp, nunits, j, f, fit, grown || fits);
        }
      }
    }
  }
}
