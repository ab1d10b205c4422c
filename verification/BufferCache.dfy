/** The buffer cache (HW3/bio.c) over the synchronous disk of HW3/memide.c.

    NBUF buffers sit on a circular doubly linked list in most-recently-used
    order.  The cache and the disk together stand for one block map, the ghost
    field `latest`: what a reader of each block is entitled to see. */
module BufferCache {
  import opened Basics
  import opened Blocks

  /** One struct buf.  `holds` is None while dev is -1. */
  datatype Buf = Buf(holds: Option<nat>, busy: bool, valid: bool, dirty: bool, data: Block)

  /** One block transfer to the disk. */
  datatype Write = Write(blockno: nat, data: Block)

  /** What bread comes to: a buffer, a sleep on a busy one, or one of its two panics. */
  datatype Got = Got(b: nat) | MustSleep(b: nat) | NoBuffers | OutOfRange

  /** Neighbour at position i of the list; the sentinel head is index NBUF. */
  function At(order: seq<nat>, i: int): nat {
    if 0 <= i < |order| then order[i] else NBUF
  }

  /** Distinct buffers. */
  ghost predicate IsOrder(order: seq<nat>) {
    && (forall i :: 0 <= i < |order| ==> order[i] < NBUF)
    && (forall i, j :: 0 <= i < j < |order| ==> order[i] != order[j])
  }

  /** `next` and `prev` thread the buffers in the given order. */
  ghost predicate Linked(next: seq<nat>, prev: seq<nat>, order: seq<nat>) {
    && IsOrder(order)
    && |next| == |prev| == NBUF + 1
    && next[NBUF] == At(order, 0)
    && prev[NBUF] == At(order, |order| - 1)
    && (forall i {:trigger next[order[i]]} :: 0 <= i < |order| ==> next[order[i]] == At(order, i + 1))
    && (forall i {:trigger prev[order[i]]} :: 0 <= i < |order| ==> prev[order[i]] == At(order, i - 1))
  }

  function ToFront(order: seq<nat>, k: nat): seq<nat>
    requires k < |order|
  {
    [order[k]] + Without(order, k)
  }

  /** Every buffer is somewhere on the list. */
  lemma {:induction false} OnList(order: seq<nat>, b: nat)
    requires IsOrder(order) && |order| == NBUF && b < NBUF
    ensures b in order
  {
    Image(order, NBUF);
    var ids := seq(NBUF, i => i);
    Image(ids, NBUF);
    var all := set i | 0 <= i < NBUF :: ids[i];
    var used := set i | 0 <= i < NBUF :: order[i];
    assert ids[b] in all;
    forall x | x in used ensures x in all {
      assert ids[x] == x;
    }
    Smaller(used, all - if b in order then {} else {b});
  }

  lemma {:induction false} Image(s: seq<nat>, n: nat)
    requires n <= |s|
    requires forall i, j :: 0 <= i < j < |s| ==> s[i] != s[j]
    ensures |set i | 0 <= i < n :: s[i]| == n
  {
    if n > 0 {
      Image(s, n - 1);
      assert (set i | 0 <= i < n :: s[i]) == (set i | 0 <= i < n - 1 :: s[i]) + {s[n - 1]};
    }
  }

  lemma Smaller<T>(a: set<T>, b: set<T>)
    requires a <= b
    ensures |a| <= |b|
  {
    if a != {} {
      var x :| x in a;
      Smaller(a - {x}, b - {x});
    }
  }

  /** Buffer i holds block b. */
  predicate Holds(bufs: seq<Buf>, i: int, b: int) {
    0 <= i < |bufs| && bufs[i].holds.Some? && bufs[i].holds.value == b
  }

  ghost predicate Cached(bufs: seq<Buf>, b: int) {
    exists i :: Holds(bufs, i, b)
  }

  /** A buffer that bget must not recycle. */
  predicate InUse(buf: Buf) {
    buf.busy || buf.dirty
  }

  /** At most one buffer per block, buffers agree with the block map, and every block
      the disk is behind on sits in a valid buffer that is busy or dirty. */
  ghost predicate Coherent(disk: seq<Block>, bufs: seq<Buf>, latest: seq<Block>) {
    && |bufs| == NBUF
    && |latest| == |disk|
    && (forall i, b :: Holds(bufs, i, b) ==> b < |disk|)
    && (forall i, j, b :: Holds(bufs, i, b) && Holds(bufs, j, b) ==> i == j)
    && (forall i, b :: Holds(bufs, i, b) && bufs[i].valid ==> bufs[i].data == latest[b])
    && (forall i :: 0 <= i < |bufs| && (bufs[i].dirty || bufs[i].valid) ==> bufs[i].valid && bufs[i].holds.Some?)
    && (forall b :: 0 <= b < |disk| && disk[b] != latest[b] ==>
          exists i :: Holds(bufs, i, b) && bufs[i].valid && InUse(bufs[i]))
  }

  /** Blocks pinned in the cache by log_write. */
  ghost function Pinned(bufs: seq<Buf>): set<nat> {
    set i | 0 <= i < |bufs| && bufs[i].dirty && bufs[i].holds.Some? :: bufs[i].holds.value
  }

  lemma IsPinned(bufs: seq<Buf>, b: nat)
    ensures b in Pinned(bufs) <==> exists i :: Holds(bufs, i, b) && bufs[i].dirty
  {
    if b in Pinned(bufs) {
      var i :| 0 <= i < |bufs| && bufs[i].dirty && bufs[i].holds == Some(b);
      assert Holds(bufs, i, b);
    }
  }

  /** Only the block held by buffer i enters or leaves the pinned set. */
  lemma PinnedUpdate(bufs: seq<Buf>, i: nat, buf: Buf)
    requires i < |bufs| && buf.holds.Some?
    requires forall j, k, b :: Holds(bufs, j, b) && Holds(bufs, k, b) ==> j == k
    requires bufs[i].holds == buf.holds || (!bufs[i].dirty && !Cached(bufs, buf.holds.value))
    ensures Pinned(bufs[i := buf]) == if buf.dirty then Pinned(bufs) + {buf.holds.value} else Pinned(bufs) - {buf.holds.value}
    ensures buf.dirty == bufs[i].dirty ==> Pinned(bufs[i := buf]) == Pinned(bufs)
  {
    var bufs' := bufs[i := buf];
    var n := buf.holds.value;
    assert Holds(bufs', i, n);
    assert bufs[i].holds == buf.holds ==> Holds(bufs, i, n);
    forall b: nat ensures b in Pinned(bufs') <==> if b == n then buf.dirty else b in Pinned(bufs) {
      IsPinned(bufs, b);
      IsPinned(bufs', b);
      assert forall j :: j != i ==> (Holds(bufs', j, b) <==> Holds(bufs, j, b));
      assert b != n ==> (Holds(bufs', i, b) || Holds(bufs, i, b) ==> !bufs[i].dirty);
      assert b == n ==> forall j :: Holds(bufs', j, b) ==> j == i;
    }
    IsPinned(bufs, n);
    assert Pinned(bufs') == if buf.dirty then Pinned(bufs) + {n} else Pinned(bufs) - {n};
  }

  lemma NotBefore(bufs: seq<Buf>, n: nat, b: nat)
    requires Holds(bufs, n, b) && forall j, k, x :: Holds(bufs, j, x) && Holds(bufs, k, x) ==> j == k
    ensures b !in Pinned(bufs[..n])
  {
    IsPinned(bufs[..n], b);
    assert forall i :: Holds(bufs[..n], i, b) ==> Holds(bufs, i, b) && i < n;
  }

  /** If every buffer other than `spare` is pinned, as many blocks are. */
  lemma {:induction false} PinnedCount(bufs: seq<Buf>, n: nat, spare: int)
    requires n <= |bufs|
    requires forall j, k, b :: Holds(bufs, j, b) && Holds(bufs, k, b) ==> j == k
    requires forall i :: 0 <= i < n && i != spare ==> bufs[i].dirty && bufs[i].holds.Some?
    ensures |Pinned(bufs[..n])| >= n - (if 0 <= spare < n then 1 else 0)
  {
    if n == 0 {
      assert Pinned(bufs[..n]) == {};
    } else {
      PinnedCount(bufs, n - 1, spare);
      var fewer := Pinned(bufs[..n - 1]);
      if n - 1 != spare {
        var b := bufs[n - 1].holds.value;
        assert Holds(bufs, n - 1, b);
        NotBefore(bufs, n - 1, b);
        hide Holds, Pinned;
        assert bufs[..n][n - 1] == bufs[n - 1];
        forall x | x in fewer + {b} ensures x in Pinned(bufs[..n]) {
          PinnedPrefix(bufs, n, x);
        }
        Smaller(fewer + {b}, Pinned(bufs[..n]));
      } else {
        forall x | x in fewer ensures x in Pinned(bufs[..n]) {
          PinnedPrefix(bufs, n, x);
        }
        Smaller(fewer, Pinned(bufs[..n]));
      }
    }
  }

  /** A buffer that is not pinned leaves room for one block less. */
  lemma {:induction false} PinnedAtMost(bufs: seq<Buf>, n: nat, clean: int)
    requires n <= |bufs|
    requires 0 <= clean < |bufs| ==> !bufs[clean].dirty
    ensures |Pinned(bufs[..n])| <= n - (if 0 <= clean < n then 1 else 0)
  {
    if n == 0 {
      assert Pinned(bufs[..n]) == {};
    } else {
      PinnedAtMost(bufs, n - 1, clean);
      var last := if bufs[n - 1].dirty && bufs[n - 1].holds.Some? then {bufs[n - 1].holds.value} else {};
      forall x | x in Pinned(bufs[..n]) ensures x in Pinned(bufs[..n - 1]) + last {
        var i :| 0 <= i < n && bufs[..n][i].dirty && bufs[..n][i].holds == Some(x);
        if i < n - 1 {
          assert bufs[..n - 1][i] == bufs[i];
        }
      }
      Smaller(Pinned(bufs[..n]), Pinned(bufs[..n - 1]) + last);
    }
  }

  lemma PinnedPrefix(bufs: seq<Buf>, n: nat, x: nat)
    requires 0 < n <= |bufs|
    requires x in Pinned(bufs[..n - 1]) || (bufs[n - 1].dirty && bufs[n - 1].holds == Some(x))
    ensures x in Pinned(bufs[..n])
  {
    if x in Pinned(bufs[..n - 1]) {
      var i :| 0 <= i < n - 1 && bufs[..n - 1][i].dirty && bufs[..n - 1][i].holds == Some(x);
      assert bufs[..n][i] == bufs[..n - 1][i];
    } else {
      assert bufs[..n][n - 1] == bufs[n - 1];
    }
  }

  lemma MarkBusy(disk: seq<Block>, bufs: seq<Buf>, latest: seq<Block>, i: nat)
    requires Coherent(disk, bufs, latest) && i < NBUF
    ensures Coherent(disk, bufs[i := bufs[i].(busy := true)], latest)
  {
    Reflag(disk, bufs, latest, i, bufs[i].(busy := true));
  }

  /** Flags may change as long as a block the disk is behind on stays pinned. */
  lemma Reflag(disk: seq<Block>, bufs: seq<Buf>, latest: seq<Block>, i: nat, buf: Buf)
    requires Coherent(disk, bufs, latest) && i < NBUF
    requires buf == bufs[i].(busy := buf.busy, dirty := buf.dirty)
    requires buf.dirty ==> buf.valid
    requires InUse(buf) || (forall b :: Holds(bufs, i, b) ==> bufs[i].valid ==> disk[b] == latest[b])
    ensures Coherent(disk, bufs[i := buf], latest)
  {
    var bufs' := bufs[i := buf];
    assert forall j, b :: Holds(bufs', j, b) <==> Holds(bufs, j, b);
    forall b | 0 <= b < |disk| && disk[b] != latest[b]
      ensures exists j :: Holds(bufs', j, b) && bufs'[j].valid && InUse(bufs'[j])
    {
      var j :| Holds(bufs, j, b) && bufs[j].valid && InUse(bufs[j]);
      assert Holds(bufs', j, b);
    }
  }

  lemma Recycle(disk: seq<Block>, bufs: seq<Buf>, latest: seq<Block>, i: nat, blockno: nat)
    requires Coherent(disk, bufs, latest) && i < NBUF && blockno < |disk|
    requires !InUse(bufs[i]) && !Cached(bufs, blockno)
    ensures Coherent(disk, bufs[i := Buf(Some(blockno), true, false, false, bufs[i].data)], latest)
  {
    var bufs' := bufs[i := Buf(Some(blockno), true, false, false, bufs[i].data)];
    assert forall j, b :: Holds(bufs', j, b) ==> if j == i then b == blockno else Holds(bufs, j, b);
    forall b | 0 <= b < |disk| && disk[b] != latest[b]
      ensures exists j :: Holds(bufs', j, b) && bufs'[j].valid && InUse(bufs'[j])
    {
      var j :| Holds(bufs, j, b) && bufs[j].valid && InUse(bufs[j]);
      assert Holds(bufs', j, b);
    }
  }

  lemma FillBuffer(disk: seq<Block>, bufs: seq<Buf>, latest: seq<Block>, i: nat, blockno: nat)
    requires Coherent(disk, bufs, latest)
    requires Holds(bufs, i, blockno) && !bufs[i].valid
    ensures disk[blockno] == latest[blockno]
    ensures Coherent(disk, bufs[i := bufs[i].(valid := true, data := disk[blockno])], latest)
  {
    var bufs' := bufs[i := bufs[i].(valid := true, data := disk[blockno])];
    assert forall j, b :: Holds(bufs', j, b) <==> Holds(bufs, j, b);
    forall b | 0 <= b < |disk| && disk[b] != latest[b]
      ensures b != blockno && exists j :: Holds(bufs', j, b) && bufs'[j].valid && InUse(bufs'[j])
    {
      var j :| Holds(bufs, j, b) && bufs[j].valid && InUse(bufs[j]);
      assert Holds(bufs', j, b);
    }
  }

  lemma Overwrite(disk: seq<Block>, bufs: seq<Buf>, latest: seq<Block>, i: nat, blockno: nat, data: Block)
    requires Coherent(disk, bufs, latest)
    requires Holds(bufs, i, blockno) && bufs[i].busy && bufs[i].valid
    ensures Coherent(disk, bufs[i := bufs[i].(data := data)], latest[blockno := data])
  {
    var bufs' := bufs[i := bufs[i].(data := data)];
    var latest' := latest[blockno := data];
    assert forall j, b :: Holds(bufs', j, b) <==> Holds(bufs, j, b);
    forall b | 0 <= b < |disk| && disk[b] != latest'[b]
      ensures exists j :: Holds(bufs', j, b) && bufs'[j].valid && InUse(bufs'[j])
    {
      if b == blockno {
        assert Holds(bufs', i, b);
      } else {
        var j :| Holds(bufs, j, b) && bufs[j].valid && InUse(bufs[j]);
        assert Holds(bufs', j, b);
      }
    }
  }

  lemma WriteBack(disk: seq<Block>, bufs: seq<Buf>, latest: seq<Block>, i: nat, blockno: nat)
    requires Coherent(disk, bufs, latest)
    requires Holds(bufs, i, blockno) && bufs[i].busy && bufs[i].valid
    ensures Coherent(disk[blockno := latest[blockno]], bufs[i := bufs[i].(dirty := false)], latest)
  {
    var bufs' := bufs[i := bufs[i].(dirty := false)];
    var disk' := disk[blockno := latest[blockno]];
    assert forall j, b :: Holds(bufs', j, b) <==> Holds(bufs, j, b);
    forall b | 0 <= b < |disk| && disk'[b] != latest[b]
      ensures exists j :: Holds(bufs', j, b) && bufs'[j].valid && InUse(bufs'[j])
    {
      var j :| Holds(bufs, j, b) && bufs[j].valid && InUse(bufs[j]);
      assert Holds(bufs', j, b);
    }
  }

  /** The first two assignments of brelse take the k-th buffer off the list. */
  lemma Unlink(next: seq<nat>, prev: seq<nat>, order: seq<nat>, k: nat)
    requires Linked(next, prev, order) && k < |order|
    ensures var b := order[k];
            Linked(next[prev[b] := next[b]], prev[next[b] := prev[b]], Without(order, k))
  {
    var b := order[k];
    var next' := next[prev[b] := next[b]];
    var prev' := prev[next[b] := prev[b]];
    var order' := Without(order, k);
    forall i {:trigger next'[order'[i]]} {:trigger prev'[order'[i]]} | 0 <= i < |order'|
      ensures next'[order'[i]] == At(order', i + 1) && prev'[order'[i]] == At(order', i - 1)
    {
      var old_i := if i < k then i else i + 1;
      assert next[order[old_i]] == At(order, old_i + 1);
      assert prev[order[old_i]] == At(order, old_i - 1);
    }
  }

  /** Linking a buffer in at the head, as binit and brelse do. */
  lemma PushFront(next: seq<nat>, prev: seq<nat>, order: seq<nat>, b: nat)
    requires Linked(next, prev, order) && b < NBUF && b !in order
    ensures Linked(next[b := next[NBUF]][NBUF := b], prev[b := NBUF][next[NBUF] := b], [b] + order)
  {
    var next' := next[b := next[NBUF]][NBUF := b];
    var prev' := prev[b := NBUF][next[NBUF] := b];
    var order' := [b] + order;
    forall i {:trigger next'[order'[i]]} {:trigger prev'[order'[i]]} | 0 <= i < |order'|
      ensures next'[order'[i]] == At(order', i + 1) && prev'[order'[i]] == At(order', i - 1)
    {
      if i > 0 {
        assert next[order[i - 1]] == At(order, i);
        assert prev[order[i - 1]] == At(order, i - 2);
      }
    }
  }

  // Every interleaving of the operations below, by any number of processes.

  datatype State = State(disk: seq<Block>, bufs: seq<Buf>)

  datatype Event =
    | Hit(i: nat, b: nat)    // bget finds the block in an idle buffer
    | Miss(i: nat, b: nat)   // bget recycles a buffer
    | Fill(i: nat, b: nat)   // iderw reads the block
    | Store(i: nat, b: nat, data: Block)  // the holder changes the data
    | LogIt(i: nat, b: nat)  // log_write
    | Flush(i: nat, b: nat)  // bwrite
    | Release(i: nat, b: nat)  // brelse, by a client that logged or wrote its changes

  ghost predicate Enabled(s: State, e: Event) {
    match e
    case Hit(i, b) => Holds(s.bufs, i, b) && !s.bufs[i].busy
    case Miss(i, b) => i < |s.bufs| && b < |s.disk| && !Cached(s.bufs, b) && !InUse(s.bufs[i])
    case Fill(i, b) => Holds(s.bufs, i, b) && s.bufs[i].busy && !s.bufs[i].valid && b < |s.disk|
    case Store(i, b, _) => Holds(s.bufs, i, b) && s.bufs[i].busy && s.bufs[i].valid
    case LogIt(i, b) => Holds(s.bufs, i, b) && s.bufs[i].busy && s.bufs[i].valid
    case Flush(i, b) => Holds(s.bufs, i, b) && s.bufs[i].busy && s.bufs[i].valid && b < |s.disk|
    case Release(i, b) => Holds(s.bufs, i, b) && s.bufs[i].busy && s.bufs[i].valid && b < |s.disk| &&
                          (s.bufs[i].dirty || s.bufs[i].data == s.disk[b])
  }

  function Buffer(s: State, e: Event): Buf
    requires e.i < |s.bufs| && e.b < |s.disk|
  {
    var buf := s.bufs[e.i];
    match e
    case Hit(_, _) => buf.(busy := true)
    case Miss(_, b) => Buf(Some(b), true, false, false, buf.data)
    case Fill(_, b) => buf.(valid := true, data := s.disk[b])
    case Store(_, _, data) => buf.(data := data)
    case LogIt(_, _) => buf.(dirty := true)
    case Flush(_, _) => buf.(dirty := false)
    case Release(_, _) => buf.(busy := false)
  }

  function Next(s: State, e: Event): State
    requires e.i < |s.bufs| && e.b < |s.disk|
  {
    State(if e.Flush? then s.disk[e.b := s.bufs[e.i].data] else s.disk, s.bufs[e.i := Buffer(s, e)])
  }

  /** The contents last stored into each block. */
  function LastStored(image: seq<Block>, es: seq<Event>): (m: seq<Block>)
    ensures |m| == |image|
  {
    if es == [] then image
    else
      var m := LastStored(image, es[..|es| - 1]);
      var e := es[|es| - 1];
      if e.Store? && e.b < |m| then m[e.b := e.data] else m
  }

  ghost predicate IsRun(image: seq<Block>, es: seq<Event>, ss: seq<State>) {
    && |ss| == |es| + 1
    && ss[0] == State(image, seq(NBUF, _ => Buf(None, false, false, false, Zeroed())))
    && forall k :: 0 <= k < |es| ==>
         Enabled(ss[k], es[k]) && es[k].i < |ss[k].bufs| && es[k].b < |ss[k].disk| && ss[k + 1] == Next(ss[k], es[k])
  }

  lemma StepCoherent(s: State, e: Event, latest: seq<Block>)
    requires Coherent(s.disk, s.bufs, latest) && Enabled(s, e) && e.i < |s.bufs| && e.b < |s.disk|
    ensures var s' := Next(s, e);
            Coherent(s'.disk, s'.bufs, if e.Store? then latest[e.b := e.data] else latest)
  {
    match e
    case Hit(i, b) => Reflag(s.disk, s.bufs, latest, i, s.bufs[i].(busy := true));
    case Miss(i, b) => Recycle(s.disk, s.bufs, latest, i, b);
    case Fill(i, b) => FillBuffer(s.disk, s.bufs, latest, i, b);
    case Store(i, b, data) => Overwrite(s.disk, s.bufs, latest, i, b, data);
    case LogIt(i, b) => Reflag(s.disk, s.bufs, latest, i, s.bufs[i].(dirty := true));
    case Flush(i, b) => WriteBack(s.disk, s.bufs, latest, i, b);
    case Release(i, b) => Reflag(s.disk, s.bufs, latest, i, s.bufs[i].(busy := false));
  }

  /** In every run of the cache: a block has at most one buffer, and a buffer that has been
      read shows what was last stored into its block; a block absent from the cache has its
      last stored contents on disk; a dirty buffer is never given to another block. */
  lemma {:induction false} OneBlockMap(image: seq<Block>, es: seq<Event>, ss: seq<State>, k: nat)
    requires IsRun(image, es, ss) && k <= |es|
    ensures Coherent(ss[k].disk, ss[k].bufs, LastStored(image, es[..k]))
    ensures forall i, b :: Holds(ss[k].bufs, i, b) && ss[k].bufs[i].valid ==>
              b < |image| && ss[k].bufs[i].data == LastStored(image, es[..k])[b]
    ensures forall b :: 0 <= b < |ss[k].disk| && !Cached(ss[k].bufs, b) ==>
              ss[k].disk[b] == LastStored(image, es[..k])[b]
    ensures k < |es| ==> forall i, b :: Holds(ss[k].bufs, i, b) && ss[k].bufs[i].dirty ==> Holds(ss[k + 1].bufs, i, b)
  {
    if k > 0 {
      OneBlockMap(image, es, ss, k - 1);
      assert es[..k][..k - 1] == es[..k - 1];
      StepCoherent(ss[k - 1], es[k - 1], LastStored(image, es[..k - 1]));
    }
  }

  class Cache {
    var disk: seq<Block>
    var bufs: seq<Buf>
    var next: seq<nat>
    var prev: seq<nat>
    ghost var order: seq<nat>     // buffers, most recently used first
    ghost var latest: seq<Block>  // the block map the cache and disk stand for
    ghost var writes: seq<Write>  // every block transfer to the disk so far

    ghost predicate Valid()
      reads this
    {
      Coherent(disk, bufs, latest) && Linked(next, prev, order) && |order| == NBUF
    }

    /** The block a valid buffer holds. */
    ghost function Blockno(b: nat): (n: nat)
      requires Valid() && b < NBUF && bufs[b].valid
      reads this
      ensures Holds(bufs, b, n) && n < |disk|
    {
      assert Holds(bufs, b, bufs[b].holds.value);
      bufs[b].holds.value
    }

    /** binit: every buffer empty, pushed on the list one after another. */
    constructor (image: seq<Block>)
      ensures Valid() && disk == image && latest == image && writes == []
      ensures forall i :: 0 <= i < NBUF ==> bufs[i].holds.None? && !bufs[i].busy && !bufs[i].dirty
      ensures order == seq(NBUF, i => NBUF - 1 - i)
    {
      disk, latest, writes := image, image, [];
      bufs := seq(NBUF, _ => Buf(None, false, false, false, Zeroed()));
      next := seq(NBUF + 1, _ => NBUF);
      prev := seq(NBUF + 1, _ => NBUF);
      order := [];
      new;
      var b := 0;
      while b < NBUF
        invariant 0 <= b <= NBUF
        invariant order == seq(b, i => b - 1 - i)
        invariant Linked(next, prev, order)
        invariant disk == image && latest == image && writes == []
        invariant bufs == seq(NBUF, _ => Buf(None, false, false, false, Zeroed()))
        modifies `next, `prev, `order
      {
        PushFront(next, prev, order, b);
        hide IsOrder;
        var first := next[NBUF];
        next := next[b := first];
        prev := prev[b := NBUF];
        prev := prev[first := b];
        next := next[NBUF := b];
        order := [b] + order;
        b := b + 1;
      }
    }

    /** First loop of bget, from head.next: the buffer holding the block, if any. */
    method Find(blockno: nat) returns (b: nat)
      requires Valid()
      ensures b == NBUF ==> !Cached(bufs, blockno)
      ensures b != NBUF ==> Holds(bufs, b, blockno)
    {
      b := next[NBUF];
      ghost var k := 0;
      while b != NBUF
        invariant 0 <= k <= NBUF && b == At(order, k)
        invariant forall i :: 0 <= i < k ==> !Holds(bufs, order[i], blockno)
        decreases NBUF - k
      {
        if bufs[b].holds == Some(blockno) {
          return;
        }
        b := next[b];
        k := k + 1;
      }
      forall i | Holds(bufs, i, blockno) ensures false {
        OnList(order, i);
      }
    }

    /** Second loop of bget: the least recently used buffer that is neither busy nor dirty. */
    method Recyclable() returns (b: nat, ghost k: int)
      requires Valid()
      ensures b == At(order, k) && -1 <= k < NBUF
      ensures k >= 0 ==> !InUse(bufs[b])
      ensures forall i :: k < i < NBUF ==> InUse(bufs[order[i]])
    {
      b := prev[NBUF];
      k := NBUF - 1;
      while b != NBUF
        invariant -1 <= k < NBUF && b == At(order, k)
        invariant forall i :: k < i < NBUF ==> InUse(bufs[order[i]])
        decreases k
      {
        if !bufs[b].busy && !bufs[b].dirty {
          return;
        }
        b := prev[b];
        k := k - 1;
      }
    }

    /** bget.  A busy hit sleeps (the caller scans again once woken); a miss recycles
        a clean idle buffer, so the block map never changes; with every buffer busy
        or dirty the kernel panics.  It does not look at the size of the disk. */
    method Bget(blockno: nat) returns (r: Got)
      requires Valid()
      modifies `bufs
      ensures blockno < |disk| ==> Valid()
      ensures !r.OutOfRange?
      ensures r.NoBuffers? <==> !Cached(old(bufs), blockno) && forall i :: 0 <= i < NBUF ==> InUse(old(bufs)[i])
      ensures r.MustSleep? ==> Holds(bufs, r.b, blockno) && bufs[r.b].busy
      ensures !r.Got? ==> bufs == old(bufs)
      ensures r.Got? ==> r.b < NBUF && !old(bufs)[r.b].busy
      ensures r.Got? && Holds(old(bufs), r.b, blockno) ==> bufs == old(bufs)[r.b := old(bufs)[r.b].(busy := true)]
      ensures r.Got? && !Holds(old(bufs), r.b, blockno) ==>
                && !Cached(old(bufs), blockno) && !old(bufs)[r.b].dirty
                && bufs == old(bufs)[r.b := Buf(Some(blockno), true, false, false, old(bufs)[r.b].data)]
    {
      var b := Find(blockno);
      if b != NBUF {
        if bufs[b].busy {
          return MustSleep(b);
        }
        bufs := bufs[b := bufs[b].(busy := true)];
        MarkBusy(disk, old(bufs), latest, b);
        return Got(b);
      }
      ghost var k;
      b, k := Recyclable();
      if b == NBUF {
        forall i | 0 <= i < NBUF ensures InUse(bufs[i]) {
          OnList(order, i);
        }
        return NoBuffers;
      }
      bufs := bufs[b := Buf(Some(blockno), true, false, false, bufs[b].data)];
      if blockno < |disk| {
        Recycle(disk, old(bufs), latest, b, blockno);
      }
      return Got(b);
    }

    /** bread: the buffer comes back busy and holding the latest contents of the block; the
        transfer panics on a block past the end of the disk. */
    method Bread(blockno: nat) returns (r: Got)
      requires Valid()
      modifies `bufs
      ensures blockno < |disk| ==> Valid() && Pinned(bufs) == Pinned(old(bufs))
      ensures r.OutOfRange? <==> blockno >= |disk| && !r.NoBuffers?
      ensures r.NoBuffers? <==> !Cached(old(bufs), blockno) && forall i :: 0 <= i < NBUF ==> InUse(old(bufs)[i])
      ensures r.MustSleep? ==> Holds(bufs, r.b, blockno) && bufs[r.b].busy
      ensures !r.Got? && !r.OutOfRange? ==> bufs == old(bufs)
      ensures r.Got? ==> r.b < NBUF && !old(bufs)[r.b].busy
      ensures r.Got? ==> Holds(old(bufs), r.b, blockno) || (!Cached(old(bufs), blockno) && !old(bufs)[r.b].dirty)
      ensures r.Got? ==> bufs == old(bufs)[r.b := Buf(Some(blockno), true, true, old(bufs)[r.b].dirty, latest[blockno])]
    {
      r := Bget(blockno);
      assert Cached(old(bufs), blockno) ==> blockno < |disk|;
      assert r.MustSleep? ==> Cached(old(bufs), blockno);
      if r.Got? && !bufs[r.b].valid {
        if blockno >= |disk| {
          return OutOfRange;
        }
        ghost var before := bufs;
        bufs := bufs[r.b := bufs[r.b].(valid := true, data := disk[blockno])];
        FillBuffer(disk, before, latest, r.b, blockno);
      }
      if r.Got? {
        assert bufs == old(bufs)[r.b := bufs[r.b]];
        PinnedUpdate(old(bufs), r.b, bufs[r.b]);
      }
    }

    /** The holder of a busy buffer overwrites its data. */
    method Modify(b: nat, data: Block)
      requires Valid() && b < NBUF && bufs[b].busy && bufs[b].valid
      modifies `bufs, `latest
      ensures Valid()
      ensures bufs == old(bufs)[b := old(bufs)[b].(data := data)]
      ensures latest == old(latest)[Blockno(b) := data]
      ensures Pinned(bufs) == Pinned(old(bufs))
    {
      PinnedUpdate(bufs, b, bufs[b].(data := data));
      assert Holds(bufs, b, bufs[b].holds.value);
      latest := latest[bufs[b].holds.value := data];
      bufs := bufs[b := bufs[b].(data := data)];
      Overwrite(disk, old(bufs), old(latest), b, bufs[b].holds.value, data);
    }

    /** bwrite: one block transfer, which leaves the buffer clean. */
    method Bwrite(b: nat)
      requires Valid() && b < NBUF && bufs[b].busy && bufs[b].valid
      modifies `bufs, `disk, `writes
      ensures Valid()
      ensures var n := old(Blockno(b));
              && disk == old(disk)[n := latest[n]]
              && writes == old(writes) + [Write(n, latest[n])]
      ensures bufs == old(bufs)[b := old(bufs)[b].(dirty := false)]
      ensures Pinned(bufs) == Pinned(old(bufs)) - {old(Blockno(b))}
    {
      PinnedUpdate(bufs, b, bufs[b].(dirty := false));
      var n := bufs[b].holds.value;
      assert Holds(bufs, b, n);
      disk := disk[n := bufs[b].data];
      writes := writes + [Write(n, bufs[b].data)];
      bufs := bufs[b := bufs[b].(dirty := false)];
      WriteBack(old(disk), old(bufs), latest, b, n);
    }

    /** Pin: log_write's effect on the buffer, keeping it cached until it is written. */
    method Pin(b: nat)
      requires Valid() && b < NBUF && bufs[b].busy && bufs[b].valid
      modifies `bufs
      ensures Valid()
      ensures bufs == old(bufs)[b := old(bufs)[b].(dirty := true)]
      ensures Pinned(bufs) == Pinned(old(bufs)) + {Blockno(b)}
    {
      PinnedUpdate(bufs, b, bufs[b].(dirty := true));
      bufs := bufs[b := bufs[b].(dirty := true)];
      Reflag(disk, old(bufs), latest, b, bufs[b]);
    }

    /** The relinking part of brelse. */
    method MoveToFront(b: nat, ghost k: nat)
      requires Linked(next, prev, order) && k < |order| && order[k] == b
      modifies `next, `prev, `order
      ensures order == ToFront(old(order), k)
      ensures Linked(next, prev, order)
    {
      Unlink(next, prev, order, k);
      prev := prev[next[b] := prev[b]];
      next := next[prev[b] := next[b]];
      order := Without(order, k);
      PushFront(next, prev, order, b);
      next := next[b := next[NBUF]];
      prev := prev[b := NBUF];
      prev := prev[next[NBUF] := b];
      next := next[NBUF := b];
      order := [b] + order;
    }

    /** brelse: the buffer becomes idle and most recently used.  The caller must have
        written or logged any change it made. */
    method Brelse(b: nat)
      requires Valid() && b < NBUF && bufs[b].busy && bufs[b].valid
      requires bufs[b].dirty || bufs[b].data == disk[Blockno(b)]
      modifies `bufs, `next, `prev, `order
      ensures Valid()
      ensures bufs == old(bufs)[b := old(bufs)[b].(busy := false)]
      ensures Pinned(bufs) == Pinned(old(bufs))
      ensures exists k :: 0 <= k < NBUF && old(order)[k] == b && order == ToFront(old(order), k)
    {
      OnList(order, b);
      ghost var k :| 0 <= k < NBUF && order[k] == b;
      MoveToFront(b, k);
      PinnedUpdate(bufs, b, bufs[b].(busy := false));
      bufs := bufs[b := bufs[b].(busy := false)];
      Reflag(disk, old(bufs), latest, b, bufs[b]);
    }
  }
}
