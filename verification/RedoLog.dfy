/** HW3/log.c as it runs: struct log over the buffer cache.  Each critical section
    is proved to be a step of LogProtocol, and commit and recovery are proved to make
    exactly the block transfers that CrashRecovery reasons about. */
module RedoLog {
  import opened Basics
  import opened Blocks
  import opened BufferCache
  import LogProtocol
  import opened CrashRecovery

  const LOGSIZE := LogProtocol.LOGSIZE

  // Other processes may hold buffers while a commit runs: file reads take no part in the log.

  /** Buffers that are held hold neither a logged block nor a block of the log area. */
  ghost predicate Quiet(bufs: seq<Buf>, a: Area) {
    forall i :: 0 <= i < |bufs| && bufs[i].busy ==> !bufs[i].dirty && bufs[i].holds.Some? && !a.Has(bufs[i].holds.value)
  }

  ghost predicate Idle(bufs: seq<Buf>) {
    forall i :: 0 <= i < |bufs| ==> !bufs[i].busy
  }

  /** Some buffer is neither held nor pinned: fewer than NBUF buffers are busy or dirty. */
  ghost predicate Spare(bufs: seq<Buf>) {
    exists i :: 0 <= i < |bufs| && !InUse(bufs[i])
  }

  ghost predicate Unused(bufs: seq<Buf>) {
    forall i :: 0 <= i < |bufs| ==> !InUse(bufs[i])
  }

  /** Buffers held before are held still, untouched, and no others are. */
  ghost predicate Kept(bufs: seq<Buf>, bufs': seq<Buf>) {
    && |bufs'| == |bufs|
    && forall i :: 0 <= i < |bufs| ==> (bufs[i].busy ==> bufs'[i] == bufs[i]) && (bufs'[i].busy ==> bufs[i].busy)
  }

  lemma KeptQuiet(bufs: seq<Buf>, bufs': seq<Buf>, a: Area)
    requires Quiet(bufs, a) && Kept(bufs, bufs')
    ensures Quiet(bufs', a)
  {
  }

  lemma KeptTrans(bufs: seq<Buf>, bufs1: seq<Buf>, bufs2: seq<Buf>)
    requires Kept(bufs, bufs1) && Kept(bufs1, bufs2)
    ensures Kept(bufs, bufs2)
  {
  }

  /** With no buffer held, there is one to spare exactly if fewer blocks are pinned than there are buffers. */
  lemma SpareIff(bufs: seq<Buf>)
    requires |bufs| == NBUF && Idle(bufs)
    requires forall j, k, x :: Holds(bufs, j, x) && Holds(bufs, k, x) ==> j == k
    requires forall i :: 0 <= i < |bufs| && bufs[i].dirty ==> bufs[i].holds.Some?
    ensures Spare(bufs) <==> |Pinned(bufs)| < NBUF
  {
    assert bufs[..NBUF] == bufs;
    if Spare(bufs) {
      var i :| 0 <= i < |bufs| && !InUse(bufs[i]);
      PinnedAtMost(bufs, NBUF, i);
    } else {
      PinnedCount(bufs, NBUF, -1);
    }
  }

  /** The disk is up to date on blocks of the log area that are not pinned. */
  lemma Stable(disk: seq<Block>, bufs: seq<Buf>, latest: seq<Block>, a: Area, b: nat)
    requires Coherent(disk, bufs, latest) && Quiet(bufs, a) && a.Has(b) && b < |disk|
    ensures b !in Pinned(bufs) ==> disk[b] == latest[b]
  {
    IsPinned(bufs, b);
  }

  /** With no buffer in use the disk is up to date on every block. */
  lemma AllOnDisk(disk: seq<Block>, bufs: seq<Buf>, latest: seq<Block>)
    requires Coherent(disk, bufs, latest) && Unused(bufs)
    ensures disk == latest && Pinned(bufs) == {}
  {
    forall b | 0 <= b < |disk| ensures disk[b] == latest[b] {
    }
  }

  /** A log-area block that is not pinned can be read if and only if there is a buffer to spare. */
  lemma AreaReadable(bufs: seq<Buf>, a: Area, l: nat)
    requires Quiet(bufs, a) && a.Has(l) && l !in Pinned(bufs)
    ensures Cached(bufs, l) ==> Spare(bufs)
    ensures forall i :: Holds(bufs, i, l) ==> !bufs[i].busy && !bufs[i].dirty
  {
    IsPinned(bufs, l);
  }

  lemma One(d: seq<Block>, b: nat, data: Block)
    requires b < |d|
    ensures Apply(d, [Write(b, data)]) == d[b := data]
  {
    assert [Write(b, data)][..0] == [];
  }

  lemma LogStep(a: Area, blocks: seq<nat>, view: seq<Block>, t: nat)
    requires Targets(a, view, blocks) && t < |blocks|
    ensures LogWrites(a, blocks, view, t + 1) == LogWrites(a, blocks, view, t) + [Write(a.start + t + 1, view[blocks[t]])]
  {
  }

  lemma InstallStep(a: Area, blocks: seq<nat>, d: seq<Block>, t: nat)
    requires Targets(a, d, blocks) && t < |blocks|
    ensures Installs(a, blocks, d, t + 1) == Installs(a, blocks, d, t) + [Write(blocks[t], d[a.start + t + 1])]
  {
  }

  lemma SizeOf(s: seq<nat>)
    requires forall i, j :: 0 <= i < j < |s| ==> s[i] != s[j]
    ensures |SetOf(s)| == |s|
  {
    Image(s, |s|);
  }

  lemma InSetOf(a: Area, d: seq<Block>, blocks: seq<nat>, t: nat)
    requires Targets(a, d, blocks) && t < |blocks|
    ensures blocks[t] in SetOf(blocks) && blocks[t] < |d| && a.start + t + 1 < |d|
    ensures a.start + t + 1 !in SetOf(blocks) && a.start + t + 1 != blocks[t] && a.start !in SetOf(blocks)
  {
    forall x | x in SetOf(blocks) ensures !a.Has(x) {
    }
  }

  lemma Unpin(blocks: seq<nat>, t: nat, pins: set<nat>)
    requires t < |blocks| && forall i, j :: 0 <= i < j < |blocks| ==> blocks[i] != blocks[j]
    ensures pins - SetOf(blocks[..t]) - {blocks[t]} == pins - SetOf(blocks[..t + 1])
    ensures blocks[t] !in SetOf(blocks[..t])
    ensures |pins - SetOf(blocks[..t])| <= |pins|
  {
    assert SetOf(blocks[..t + 1]) == SetOf(blocks[..t]) + {blocks[t]} by {
      assert blocks[..t + 1][t] == blocks[t];
      forall x | x in SetOf(blocks[..t]) ensures x in SetOf(blocks[..t + 1]) {
        var i :| 0 <= i < t && blocks[..t][i] == x;
        assert blocks[..t + 1][i] == x;
      }
      forall x | x in SetOf(blocks[..t + 1]) ensures x in SetOf(blocks[..t]) + {blocks[t]} {
        var i :| 0 <= i < t + 1 && blocks[..t + 1][i] == x;
        assert i < t ==> blocks[..t][i] == x;
      }
    }
    Smaller(pins - SetOf(blocks[..t]), pins);
  }

  lemma NonNegative(a: Area, d: seq<Block>)
    requires Recoverable(a, d)
    ensures forall x :: x in Entries(d[a.start]) ==> x >= 0
  {
  }

  /** After the log block is in buffer i, the home block can be read too. */
  lemma HomeReadable(bufs: seq<Buf>, bufs': seq<Buf>, a: Area, i: nat, l: nat, h: nat, data: Block)
    requires |bufs| == NBUF && i < NBUF && Quiet(bufs, a) && l != h && (h in Pinned(bufs) || Unused(bufs))
    requires forall j, k, x :: Holds(bufs, j, x) && Holds(bufs, k, x) ==> j == k
    requires !bufs[i].busy && !bufs[i].dirty && bufs' == bufs[i := Buf(Some(l), true, true, false, data)]
    ensures Cached(bufs', h) || exists k :: 0 <= k < NBUF && !InUse(bufs'[k])
    ensures forall k :: Holds(bufs', k, h) ==> !bufs'[k].busy
  {
    IsPinned(bufs, h);
    if h in Pinned(bufs) {
      var k :| Holds(bufs, k, h) && bufs[k].dirty;
      assert Holds(bufs', k, h);
    } else {
      var k := if i == 0 then 1 else 0;
      assert !InUse(bufs'[k]);
    }
    assert forall k :: Holds(bufs', k, h) ==> Holds(bufs, k, h) && bufs'[k] == bufs[k];
  }

  lemma HomeDirty(bufs: seq<Buf>, j: nat, h: nat)
    requires j < |bufs| && forall i, k, x :: Holds(bufs, i, x) && Holds(bufs, k, x) ==> i == k
    requires Holds(bufs, j, h) || (!Cached(bufs, h) && !bufs[j].dirty)
    ensures bufs[j].dirty <==> h in Pinned(bufs)
  {
    IsPinned(bufs, h);
  }

  lemma Holding(bufs: seq<Buf>, i: nat, b: nat)
    requires i < |bufs| && bufs[i].holds == Some(b)
    ensures Holds(bufs, i, b)
  {
  }

  lemma SpareWhenIdle(disk: seq<Block>, bufs: seq<Buf>, latest: seq<Block>, blocks: seq<nat>)
    requires Coherent(disk, bufs, latest) && Pinned(bufs) == SetOf(blocks) && Distinct(blocks)
    ensures Idle(bufs) ==> (|blocks| == 0 || Spare(bufs) <==> |blocks| < NBUF)
  {
    if Idle(bufs) {
      SpareIff(bufs);
      SizeOf(blocks);
    }
  }

  lemma UnusedQuiet(bufs: seq<Buf>, a: Area)
    requires Unused(bufs) && |bufs| == NBUF
    ensures Quiet(bufs, a) && Spare(bufs)
  {
    assert !InUse(bufs[0]);
  }

  lemma Sizes(disk: seq<Block>, bufs: seq<Buf>, latest: seq<Block>)
    requires Coherent(disk, bufs, latest)
    ensures |bufs| == NBUF && |latest| == |disk|
  {
  }

  datatype Snapshot = Snapshot(disk: seq<Block>, latest: seq<Block>, writes: seq<Write>)

  /** The block transfers `ws` lead from c0 to c1: the disk and the block map changed by
      exactly these. */
  ghost predicate Leads(c0: Snapshot, ws: seq<Write>, c1: Snapshot) {
    && c1.writes == c0.writes + ws
    && c1.latest == Apply(c0.latest, ws)
    && c1.disk == Apply(c0.disk, ws)
  }

  lemma LeadsOn(c0: Snapshot, ws: seq<Write>, c1: Snapshot, vs: seq<Write>, c2: Snapshot)
    requires Leads(c0, ws, c1) && Leads(c1, vs, c2)
    ensures Leads(c0, ws + vs, c2)
  {
    ApplyConcat(c0.latest, ws, vs);
    ApplyConcat(c0.disk, ws, vs);
  }

  /** After write_log and write_head, install_trans copies the cached contents home. */
  lemma InstallsAreHomes(a: Area, blocks: seq<nat>, view: seq<Block>, c1: seq<Block>)
    requires Pending(a, blocks, view, view)
    requires c1 == Headed(a, blocks, view, view)
    ensures Targets(a, c1, blocks) && Installs(a, blocks, c1, |blocks|) == Homes(blocks, view, |blocks|)
  {
    hide Apply, LogWrites, WithHead, Entries;
    BeforeHeader(a, blocks, view, view, |blocks|);
    forall t | 0 <= t < |blocks| ensures c1[a.start + t + 1] == view[blocks[t]] {
    }
  }

  /** Installing does not disturb the header. */
  lemma HeadKept(a: Area, blocks: seq<nat>, d: seq<Block>, ws: seq<Write>)
    requires Targets(a, d, blocks)
    requires |ws| == |blocks| && forall t :: 0 <= t < |ws| ==> ws[t].blockno == blocks[t]
    ensures Apply(d, ws)[a.start] == d[a.start]
  {
    Untouched(d, ws, a.start);
  }

  class Log {
    const cache: Cache
    const area: Area
    var n: nat
    var block: seq<nat>  // LOGSIZE slots, the first n in use
    var outstanding: nat
    var committing: bool

    constructor (cache: Cache, area: Area)
      ensures this.cache == cache && this.area == area
      ensures Ok() && State() == LogProtocol.Log([], 0, false)
    {
      this.cache, this.area := cache, area;
      n, outstanding, committing := 0, 0, false;
      block := seq(LOGSIZE, _ => 0);
    }

    ghost predicate Ok()
      reads this
    {
      |block| == LOGSIZE && n <= LOGSIZE
    }

    function State(): LogProtocol.Log
      requires Ok()
      reads this
    {
      LogProtocol.Log(block[..n], outstanding, committing)
    }

    /** One pass of begin_op's loop. */
    method BeginOp() returns (entered: bool)
      requires Ok()
      modifies `outstanding
      ensures Ok()
      ensures LogProtocol.Begin(old(State())) == if entered then LogProtocol.Next(State()) else LogProtocol.Sleep
      ensures !entered ==> State() == old(State())
    {
      if committing {
        return false;
      } else if n + (outstanding + 1) * LogProtocol.MAXOPBLOCKS > LOGSIZE {
        return false;
      } else {
        outstanding := outstanding + 1;
        return true;
      }
    }

    /** log_write: absorb into an existing entry or append one, and pin the buffer. */
    method LogWrite(b: nat) returns (r: LogProtocol.Outcome<()>)
      requires Ok() && cache.Valid() && b < NBUF && cache.bufs[b].busy && cache.bufs[b].valid
      modifies `n, `block, cache`bufs
      ensures Ok() && cache.Valid()
      ensures match LogProtocol.Write(old(State()), area.size, old(cache.Blockno(b)))
              case Panic(c) => r == LogProtocol.Panic(c) && State() == old(State()) && cache.bufs == old(cache.bufs)
              case Next(s) => r.Next? && State() == s && Pinned(cache.bufs) == Pinned(old(cache.bufs)) + {old(cache.Blockno(b))}
              case Sleep => false
      ensures cache.bufs == old(cache.bufs) || cache.bufs == old(cache.bufs)[b := old(cache.bufs)[b].(dirty := true)]
    {
      if n >= LOGSIZE || n >= area.size - 1 {
        return LogProtocol.Panic(LogProtocol.TooBigATransaction);
      }
      if outstanding < 1 {
        return LogProtocol.Panic(LogProtocol.OutsideOfTrans);
      }
      ghost var was := cache.Blockno(b);
      var blockno := cache.bufs[b].holds.value;
      var i := 0;
      while i < n
        invariant 0 <= i <= n
        invariant blockno !in block[..i]
      {
        if block[i] == blockno {
          break;
        }
        i := i + 1;
      }
      assert i < n ==> block[..n][i] == blockno;
      block := block[i := blockno];
      if i == n {
        n := n + 1;
      }
      assert block[..n] == LogProtocol.Absorb(old(block[..n]), blockno);
      cache.Pin(b);
      return LogProtocol.Next(());
    }

    /** The first critical section of end_op. */
    method EndOpBegin() returns (r: LogProtocol.Outcome<bool>)
      requires Ok() && outstanding > 0
      modifies `outstanding, `committing
      ensures Ok()
      ensures match LogProtocol.End(old(State()))
              case Panic(c) => r == LogProtocol.Panic(c)
              case Next(s) => r == LogProtocol.Next(s.committing) && State() == s
              case Sleep => false
    {
      outstanding := outstanding - 1;
      if committing {
        return LogProtocol.Panic(LogProtocol.LogCommitting);
      }
      if outstanding == 0 {
        committing := true;
        return LogProtocol.Next(true);
      }
      return LogProtocol.Next(false);
    }

    /** The two breads that open either loop body: a log block, then its home block.
        They panic exactly when every buffer is held or pinned. */
    method ReadPair(l: nat, h: nat) returns (ok: bool, i: nat, j: nat)
      requires cache.Valid() && Quiet(cache.bufs, area) && l < |cache.disk| && h < |cache.disk|
      requires area.Has(l) && !area.Has(h) && l !in Pinned(cache.bufs)
      requires h in Pinned(cache.bufs) || Unused(cache.bufs)
      modifies cache`bufs
      ensures cache.Valid() && Pinned(cache.bufs) == Pinned(old(cache.bufs))
      ensures ok <==> Spare(old(cache.bufs))
      ensures ok ==>
                && i < NBUF && j < NBUF && i != j && !old(cache.bufs)[i].busy && !old(cache.bufs)[j].busy
                && cache.bufs == old(cache.bufs)[i := Buf(Some(l), true, true, false, cache.latest[l])]
                                                [j := Buf(Some(h), true, true, h in Pinned(cache.bufs), cache.latest[h])]
                && cache.disk[l] == cache.latest[l] && (h in Pinned(cache.bufs) || cache.disk[h] == cache.latest[h])
    {
      hide Linked, Pinned;
      Stable(cache.disk, cache.bufs, cache.latest, area, l);
      AreaReadable(cache.bufs, area, l);
      if Unused(cache.bufs) {
        AllOnDisk(cache.disk, cache.bufs, cache.latest);
      }
      ghost var bufs0 := cache.bufs;
      var r := cache.Bread(l);
      if r.NoBuffers? {
        return false, 0, 0;
      }
      i := r.b;
      HomeReadable(bufs0, cache.bufs, area, i, l, h, cache.latest[l]);
      ghost var bufs1 := cache.bufs;
      r := cache.Bread(h);
      j := r.b;
      HomeDirty(bufs1, j, h);
      ok := true;
    }

    /** The brelses that close either loop body. */
    method ReleasePair(i: nat, j: nat)
      requires cache.Valid() && i < NBUF && j < NBUF && i != j
      requires cache.bufs[i].busy && cache.bufs[i].valid && cache.bufs[j].busy && cache.bufs[j].valid
      requires cache.bufs[i].dirty || cache.bufs[i].data == cache.disk[cache.Blockno(i)]
      requires cache.bufs[j].dirty || cache.bufs[j].data == cache.disk[cache.Blockno(j)]
      modifies cache`bufs, cache`next, cache`prev, cache`order
      ensures cache.Valid() && Pinned(cache.bufs) == Pinned(old(cache.bufs))
      ensures cache.bufs == old(cache.bufs)[i := old(cache.bufs)[i].(busy := false)][j := old(cache.bufs)[j].(busy := false)]
    {
      cache.Brelse(i);
      cache.Brelse(j);
    }

    /** memmove and bwrite: buffer i takes the contents of buffer j and goes to disk. */
    method CopyOut(i: nat, j: nat)
      requires cache.Valid() && i < NBUF && j < NBUF && i != j
      requires cache.bufs[i].busy && cache.bufs[i].valid && cache.bufs[j].valid
      modifies cache`bufs, cache`latest, cache`disk, cache`writes
      ensures cache.Valid()
      ensures Pinned(cache.bufs) == Pinned(old(cache.bufs)) - {old(cache.Blockno(i))}
      ensures var data := old(cache.bufs[j].data);
              var b := old(cache.Blockno(i));
              && cache.bufs == old(cache.bufs)[i := old(cache.bufs[i]).(data := data, dirty := false)]
              && cache.latest == old(cache.latest)[b := data]
              && cache.disk == old(cache.disk)[b := data]
              && cache.writes == old(cache.writes) + [Write(b, data)]
    {
      cache.Modify(i, cache.bufs[j].data);
      cache.Bwrite(i);
    }

    /** bread both, copy the home block's contents into the log block, write it, release both. */
    method CopyToLog(l: nat, h: nat) returns (ok: bool)
      requires cache.Valid() && Quiet(cache.bufs, area) && l < |cache.disk| && h < |cache.disk|
      requires area.Has(l) && !area.Has(h) && l !in Pinned(cache.bufs) && h in Pinned(cache.bufs)
      modifies cache
      ensures ok <==> Spare(old(cache.bufs))
      ensures !ok ==> cache.writes == old(cache.writes)
      ensures ok ==> cache.Valid() && Kept(old(cache.bufs), cache.bufs) && Spare(cache.bufs)
      ensures ok ==> Pinned(cache.bufs) == Pinned(old(cache.bufs))
      ensures ok ==> Moved(old(Now()), [Write(l, old(cache.latest)[h])])
    {
      hide Linked, Pinned, Quiet;
      var to, from;
      ok, to, from := ReadPair(l, h);
      if ok {
        Holding(cache.bufs, to, l);
        Holding(cache.bufs, from, h);
        CopyOut(to, from);
        ReleasePair(from, to);
        One(old(cache.disk), l, old(cache.latest)[h]);
        One(old(cache.latest), l, old(cache.latest)[h]);
        assert !InUse(cache.bufs[to]);
      }
    }

    /** bread both, copy the log block's contents into the home block, write it, release both. */
    method CopyHome(l: nat, h: nat) returns (ok: bool)
      requires cache.Valid() && Quiet(cache.bufs, area) && l < |cache.disk| && h < |cache.disk|
      requires area.Has(l) && !area.Has(h) && l !in Pinned(cache.bufs)
      requires h in Pinned(cache.bufs) || Unused(cache.bufs)
      modifies cache
      ensures ok <==> Spare(old(cache.bufs))
      ensures !ok ==> cache.writes == old(cache.writes)
      ensures ok ==> cache.Valid() && Kept(old(cache.bufs), cache.bufs) && Spare(cache.bufs)
      ensures ok && Unused(old(cache.bufs)) ==> Unused(cache.bufs)
      ensures ok ==> Pinned(cache.bufs) == Pinned(old(cache.bufs)) - {h}
      ensures ok ==> Moved(old(Now()), [Write(h, old(cache.latest)[l])])
    {
      hide Linked, Pinned, Quiet;
      var lbuf, dbuf;
      ok, lbuf, dbuf := ReadPair(l, h);
      if ok {
        Holding(cache.bufs, lbuf, l);
        Holding(cache.bufs, dbuf, h);
        CopyOut(dbuf, lbuf);
        ReleasePair(lbuf, dbuf);
        One(old(cache.disk), h, old(cache.latest)[l]);
        One(old(cache.latest), h, old(cache.latest)[l]);
        assert !InUse(cache.bufs[lbuf]);
      }
    }

    ghost predicate Moved(c0: Snapshot, ws: seq<Write>)
      reads cache
    {
      Leads(c0, ws, Now())
    }

    ghost function Now(): Snapshot
      reads cache
    {
      Snapshot(cache.disk, cache.latest, cache.writes)
    }

    /** Body of write_log's loop: one cached block into the log. */
    method LogOne(t: nat, ghost c0: Snapshot, ghost pins: set<nat>) returns (ok: bool)
      requires Ok() && t < n && cache.Valid() && Quiet(cache.bufs, area) && Pinned(cache.bufs) == pins
      requires |c0.latest| == |c0.disk| && Targets(area, c0.disk, Blocks())
      requires block[t] in pins && area.start + t + 1 !in pins
      requires Moved(c0, LogWrites(area, Blocks(), c0.latest, t))
      modifies cache
      ensures ok <==> Spare(old(cache.bufs))
      ensures !ok ==> cache.writes == old(cache.writes)
      ensures ok ==> cache.Valid() && Kept(old(cache.bufs), cache.bufs) && Spare(cache.bufs) && Pinned(cache.bufs) == pins
      ensures ok ==> Moved(c0, LogWrites(area, Blocks(), c0.latest, t + 1))
    {
      hide Coherent, Linked, Pinned, Quiet, Kept, Spare, Apply;
      ghost var ws := LogWrites(area, Blocks(), c0.latest, t);
      LogStep(area, Blocks(), c0.latest, t);
      Untouched(c0.latest, ws, block[t]);
      ghost var c1 := Now();
      ok := CopyToLog(area.start + t + 1, block[t]);
      if ok {
        LeadsOn(c0, ws, c1, [Write(area.start + t + 1, c0.latest[block[t]])], Now());
      }
    }

    /** Body of install_trans's loop: one log block to its home. */
    method InstallOne(t: nat, ghost c0: Snapshot, ghost pins: set<nat>) returns (ok: bool)
      requires Ok() && t < n && cache.Valid() && Quiet(cache.bufs, area)
      requires Pinned(cache.bufs) == pins - SetOf(Blocks()[..t])
      requires |c0.latest| == |c0.disk| && Targets(area, c0.latest, Blocks())
      requires Unused(cache.bufs) || pins == SetOf(Blocks())
      requires Moved(c0, Installs(area, Blocks(), c0.latest, t))
      modifies cache
      ensures ok <==> Spare(old(cache.bufs))
      ensures !ok ==> cache.writes == old(cache.writes)
      ensures ok ==> cache.Valid() && Kept(old(cache.bufs), cache.bufs) && Spare(cache.bufs)
      ensures ok && Unused(old(cache.bufs)) ==> Unused(cache.bufs)
      ensures ok ==> Pinned(cache.bufs) == pins - SetOf(Blocks()[..t + 1])
      ensures ok ==> Moved(c0, Installs(area, Blocks(), c0.latest, t + 1))
    {
      hide Apply, SetOf, Coherent, Linked, Pinned, Quiet, Kept, Spare, Unused;
      ghost var ws := Installs(area, Blocks(), c0.latest, t);
      ghost var w := [Write(block[t], c0.latest[area.start + t + 1])];
      ghost var c1 := Now();
      InSetOf(area, c0.latest, Blocks(), t);
      Unpin(Blocks(), t, pins);
      InstallStep(area, Blocks(), c0.latest, t);
      Untouched(c0.latest, ws, area.start + t + 1);
      if Unused(cache.bufs) {
        AllOnDisk(cache.disk, cache.bufs, cache.latest);
      }
      ok := CopyHome(area.start + t + 1, block[t]);
      if ok {
        LeadsOn(c0, ws, c1, w, Now());
      }
    }

    /** The blocks of the transaction. */
    function Blocks(): seq<nat>
      requires Ok()
      reads this
    {
      block[..n]
    }

    /** write_log.  It panics in bread, before any transfer, if every buffer is held or pinned.
        A buffer that is spare at the start stays so, as no other process takes one meanwhile. */
    method WriteLog() returns (ok: bool)
      requires Ok() && cache.Valid() && Quiet(cache.bufs, area)
      requires Targets(area, cache.disk, Blocks()) && n > 0
      requires Pinned(cache.bufs) == SetOf(Blocks())
      modifies cache
      ensures ok <==> Spare(old(cache.bufs))
      ensures !ok ==> cache.writes == old(cache.writes)
      ensures ok ==> cache.Valid() && Kept(old(cache.bufs), cache.bufs) && Spare(cache.bufs)
      ensures ok ==> Pinned(cache.bufs) == SetOf(Blocks())
      ensures ok ==> Moved(old(Now()), LogWrites(area, Blocks(), old(cache.latest), n))
    {
      hide Coherent, Linked, SetOf, Pinned, Quiet, Spare;
      ghost var c0, bufs0, pins := Now(), cache.bufs, Pinned(cache.bufs);
      Sizes(c0.disk, bufs0, c0.latest);
      var tail := 0;
      while tail < n
        invariant 0 <= tail <= n
        invariant cache.Valid() && Kept(bufs0, cache.bufs) && Pinned(cache.bufs) == pins
        invariant if tail > 0 then Spare(bufs0) && Spare(cache.bufs) else cache.bufs == bufs0
        invariant Moved(c0, LogWrites(area, Blocks(), c0.latest, tail))
      {
        ghost var bufs1 := cache.bufs;
        KeptQuiet(bufs0, bufs1, area);
        InSetOf(area, c0.disk, Blocks(), tail);
        ok := LogOne(tail, c0, pins);
        if !ok {
          return false;
        }
        KeptTrans(bufs0, bufs1, cache.bufs);
        tail := tail + 1;
      }
      ok := true;
    }

    /** install_trans, after write_head or during recovery. */
    method InstallTrans() returns (ok: bool)
      requires Ok() && cache.Valid() && Quiet(cache.bufs, area)
      requires Targets(area, cache.latest, Blocks())
      requires Unused(cache.bufs) || Pinned(cache.bufs) == SetOf(Blocks())
      modifies cache
      ensures ok <==> n == 0 || Spare(old(cache.bufs))
      ensures !ok ==> cache.writes == old(cache.writes)
      ensures ok ==> cache.Valid() && Kept(old(cache.bufs), cache.bufs) && Pinned(cache.bufs) == {}
      ensures ok && Spare(old(cache.bufs)) ==> Spare(cache.bufs)
      ensures ok && Unused(old(cache.bufs)) ==> Unused(cache.bufs)
      ensures ok ==> Moved(old(Now()), Installs(area, Blocks(), old(cache.latest), n))
    {
      hide Coherent, Linked, Targets, Pinned, Quiet, Spare, Unused;
      ghost var c0, bufs0, pins := Now(), cache.bufs, Pinned(cache.bufs);
      Sizes(c0.disk, bufs0, c0.latest);
      if Unused(cache.bufs) {
        AllOnDisk(cache.disk, cache.bufs, cache.latest);
      }
      var tail := 0;
      while tail < n
        invariant 0 <= tail <= n
        invariant cache.Valid() && Kept(bufs0, cache.bufs)
        invariant if tail > 0 then Spare(bufs0) && Spare(cache.bufs) else cache.bufs == bufs0
        invariant Unused(bufs0) ==> Unused(cache.bufs)
        invariant Pinned(cache.bufs) == pins - SetOf(Blocks()[..tail])
        invariant Moved(c0, Installs(area, Blocks(), c0.latest, tail))
      {
        ghost var bufs1 := cache.bufs;
        KeptQuiet(bufs0, bufs1, area);
        ok := InstallOne(tail, c0, pins);
        if !ok {
          return false;
        }
        KeptTrans(bufs0, bufs1, cache.bufs);
        tail := tail + 1;
      }
      assert Blocks()[..n] == Blocks();
      ok := true;
    }

    /** The loop of write_head over a copy of the header block. */
    method FillHead(h: Block) returns (data: Block)
      requires Ok() && |h| == BSIZE
      ensures data == WithHead(h, Blocks())
    {
      data := SetWord(h, 0, n);
      var i := 0;
      while i < n
        invariant 0 <= i <= n && |data| == BSIZE
        invariant data == PutEntries(SetWord(h, 0, n), Blocks(), i)
      {
        data := SetWord(data, i + 1, block[i]);
        i := i + 1;
      }
    }

    /** write_head: store n and the first n entries into the header block and write it. */
    method WriteHead() returns (ok: bool)
      requires Ok() && cache.Valid() && Quiet(cache.bufs, area)
      requires area.size > 0 && area.start < |cache.disk| && |cache.latest[area.start]| == BSIZE
      requires area.start !in Pinned(cache.bufs)
      modifies cache
      ensures ok <==> Spare(old(cache.bufs))
      ensures !ok ==> cache.writes == old(cache.writes)
      ensures ok ==> cache.Valid() && Kept(old(cache.bufs), cache.bufs) && Spare(cache.bufs)
      ensures ok && Unused(old(cache.bufs)) ==> Unused(cache.bufs)
      ensures ok ==> Pinned(cache.bufs) == Pinned(old(cache.bufs))
      ensures ok ==> Moved(old(Now()), [Write(area.start, WithHead(old(cache.latest)[area.start], Blocks()))])
    {
      hide Linked, Pinned, Apply, WithHead;
      AreaReadable(cache.bufs, area, area.start);
      var r := cache.Bread(area.start);
      if r.NoBuffers? {
        return false;
      }
      HomeDirty(old(cache.bufs), r.b, area.start);
      Holding(cache.bufs, r.b, area.start);
      var data := FillHead(cache.bufs[r.b].data);
      Rewrite(r.b, area.start, data);
      assert !InUse(cache.bufs[r.b]);
      ok := true;
    }

    /** Store into a held buffer, write it and release it. */
    method Rewrite(b: nat, blockno: nat, data: Block)
      requires cache.Valid() && Holds(cache.bufs, b, blockno) && cache.bufs[b].busy && cache.bufs[b].valid
      modifies cache
      ensures cache.Valid() && Pinned(cache.bufs) == Pinned(old(cache.bufs)) - {blockno}
      ensures cache.bufs == old(cache.bufs)[b := Buf(Some(blockno), false, true, false, data)]
      ensures Moved(old(Now()), [Write(blockno, data)])
    {
      cache.Modify(b, data);
      cache.Bwrite(b);
      cache.Brelse(b);
      One(old(cache.disk), blockno, data);
      One(old(cache.latest), blockno, data);
    }

    /** The loop of read_head. */
    method LoadHead(head: Block)
      requires Ok() && IsHead(head) && forall x :: x in Entries(head) ==> x >= 0
      modifies `n, `block
      ensures Ok() && Blocks() == Entries(head)
    {
      n := Word(head, 0);
      var entries: seq<nat> := block;
      var i := 0;
      while i < n
        invariant 0 <= i <= n && |entries| == LOGSIZE
        invariant entries[..i] == Entries(head)[..i]
      {
        assert Entries(head)[i] == Word(head, i + 1);
        assert Entries(head)[i] in Entries(head);
        var w: nat := Word(head, i + 1);
        entries := entries[i := w];
        i := i + 1;
      }
      block := entries;
    }

    /** read_head: the in-memory header becomes the one on disk. */
    method ReadHead()
      requires Ok() && cache.Valid() && Unused(cache.bufs) && Recoverable(area, cache.disk)
      modifies cache`bufs, cache`next, cache`prev, cache`order, `n, `block
      ensures Ok() && cache.Valid() && Unused(cache.bufs)
      ensures Blocks() == Entries(cache.disk[area.start])
    {
      AllOnDisk(cache.disk, cache.bufs, cache.latest);
      NonNegative(area, cache.disk);
      hide Linked, Pinned, Entries, IsHead, Targets;
      assert !InUse(cache.bufs[0]);
      var r := cache.Bread(area.start);
      Holding(cache.bufs, r.b, area.start);
      LoadHead(cache.bufs[r.b].data);
      cache.Brelse(r.b);
    }

    /** commit.  Its block transfers are CommitWrites, in order; it panics, before the first of
        them, exactly when every buffer is held or pinned.  Other processes may hold buffers
        of blocks that are neither logged nor in the log area, but take none meanwhile: what
        happens if they do is in LoggedRuns. */
    method Commit() returns (ok: bool)
      requires Ok() && cache.Valid() && Quiet(cache.bufs, area)
      requires Pending(area, Blocks(), cache.disk, cache.latest)
      requires Pinned(cache.bufs) == SetOf(Blocks())
      modifies cache, `n
      ensures Ok() && (ok <==> old(n) == 0 || Spare(old(cache.bufs)))
      ensures Idle(old(cache.bufs)) ==> (ok <==> old(n) < NBUF)
      ensures !ok ==> cache.writes == old(cache.writes) && n == old(n)
      ensures ok ==> cache.Valid() && Kept(old(cache.bufs), cache.bufs) && Pinned(cache.bufs) == {} && n == 0
      ensures ok ==> Moved(old(Now()), CommitWrites(area, old(Blocks()), old(cache.latest)))
      ensures ok ==> Clear(area, cache.disk) && SameHome(area, cache.disk, old(cache.latest))
    {
      hide Coherent, Linked, Pinned, Quiet, Spare, Idle, WithHead;
      ghost var c0, bufs0, blocks := Now(), cache.bufs, Blocks();
      SpareWhenIdle(cache.disk, cache.bufs, cache.latest, blocks);
      CommitCompletes(area, blocks, c0.disk, c0.latest);
      if n == 0 {
        return true;
      }
      ok := WriteLog();
      if !ok {
        return false;
      }
      ghost var bufs1 := cache.bufs;
      KeptQuiet(bufs0, bufs1, area);
      CommitHeader(c0, blocks);
      KeptTrans(bufs0, bufs1, cache.bufs);
      ghost var bufs2 := cache.bufs;
      KeptQuiet(bufs0, bufs2, area);
      InstallAndClear(c0, blocks, LogWrites(area, blocks, c0.latest, n) + [Write(area.start, WithHead(c0.latest[area.start], blocks))]);
      KeptTrans(bufs0, bufs2, cache.bufs);
    }

    /** commit's first write_head, the commit point. */
    method CommitHeader(ghost c0: Snapshot, ghost blocks: seq<nat>)
      requires Ok() && 0 < n && blocks == Blocks() && cache.Valid() && Quiet(cache.bufs, area) && Spare(cache.bufs)
      requires Pending(area, blocks, c0.disk, c0.latest)
      requires Moved(c0, LogWrites(area, blocks, c0.latest, n))
      requires Pinned(cache.bufs) == SetOf(blocks)
      modifies cache
      ensures cache.Valid() && Kept(old(cache.bufs), cache.bufs) && Spare(cache.bufs) && Pinned(cache.bufs) == SetOf(blocks)
      ensures Moved(c0, LogWrites(area, blocks, c0.latest, n) + [Write(area.start, WithHead(c0.latest[area.start], blocks))])
      ensures cache.latest == Headed(area, blocks, c0.latest, c0.latest)
    {
      hide Coherent, Linked, Quiet, Spare, Kept;
      ghost var view := c0.latest;
      ghost var head := WithHead(view[area.start], blocks);
      ghost var c1 := Now();
      BeforeHeader(area, blocks, view, view, n);
      InSetOf(area, view, blocks, 0);
      var _ := WriteHead();
      One(c1.latest, area.start, head);
      LeadsOn(c0, LogWrites(area, blocks, view, n), c1, [Write(area.start, head)], Now());
    }

    /** The rest of commit: install_trans, then erase the transaction. */
    method InstallAndClear(ghost c0: Snapshot, ghost blocks: seq<nat>, ghost ws: seq<Write>)
      requires Ok() && 0 < n && blocks == Blocks() && cache.Valid() && Quiet(cache.bufs, area) && Spare(cache.bufs)
      requires Pending(area, blocks, c0.disk, c0.latest)
      requires Moved(c0, ws) && cache.latest == Headed(area, blocks, c0.latest, c0.latest)
      requires Pinned(cache.bufs) == SetOf(blocks)
      modifies cache, `n
      ensures Ok() && cache.Valid() && Kept(old(cache.bufs), cache.bufs) && Pinned(cache.bufs) == {} && n == 0
      ensures var head := WithHead(c0.latest[area.start], blocks);
              Moved(c0, ws + Homes(blocks, c0.latest, |blocks|) + [Write(area.start, SetWord(head, 0, 0))])
    {
      hide Coherent, Linked, Quiet, Spare, Kept, Unused;
      ghost var bufs0 := cache.bufs;
      ghost var view := c0.latest;
      ghost var head := WithHead(view[area.start], blocks);
      ghost var homes := Homes(blocks, view, n);
      ghost var c2 := Now();
      InstallsAreHomes(area, blocks, view, c2.latest);
      var ok := InstallTrans();
      ghost var bufs1 := cache.bufs;
      KeptQuiet(bufs0, bufs1, area);
      ghost var c3 := Now();
      LeadsOn(c0, ws, c2, homes, c3);
      HeadKept(area, blocks, c2.latest, homes);
      n := 0;
      ok := WriteHead();
      KeptTrans(bufs0, bufs1, cache.bufs);
      LeadsOn(c0, ws + homes, c3, [Write(area.start, SetWord(head, 0, 0))], Now());
    }

    /** recover_from_log, with a cache no process has used yet. */
    method RecoverFromLog()
      requires Ok() && cache.Valid() && Unused(cache.bufs) && Recoverable(area, cache.disk)
      modifies cache, `n, `block
      ensures Ok() && cache.Valid() && Unused(cache.bufs) && n == 0
      ensures Moved(old(Now()), RecoveryWrites(area, old(cache.disk)))
      ensures cache.disk == Recovered(area, old(cache.disk)) == cache.latest
    {
      ghost var d := cache.disk;
      AllOnDisk(d, cache.bufs, cache.latest);
      ReadHead();
      ghost var c0, blocks := Now(), Blocks();
      UnusedQuiet(cache.bufs, area);
      var ok := InstallTrans();
      ghost var c1 := Now();
      ghost var ws := Installs(area, blocks, d, |blocks|);
      HeadKept(area, blocks, d, ws);
      n := 0;
      UnusedQuiet(cache.bufs, area);
      ok := WriteHead();
      LeadsOn(c0, ws, c1, [Write(area.start, SetWord(d[area.start], 0, 0))], Now());
    }

    /** end_op: the last operation commits. */
    method EndOp() returns (r: LogProtocol.Outcome<bool>)
      requires Ok() && outstanding > 0
      requires outstanding == 1 && !committing ==>
                 && cache.Valid() && Quiet(cache.bufs, area) && Pending(area, Blocks(), cache.disk, cache.latest)
                 && Pinned(cache.bufs) == SetOf(Blocks())
      modifies this, cache
      ensures Ok()
      ensures r.Panic? <==> old(committing)
      ensures r.Next? && old(outstanding) > 1 ==> r.s && State() == LogProtocol.Log(old(Blocks()), old(outstanding) - 1, false)
      ensures r.Next? && old(outstanding) == 1 ==> (r.s <==> old(n) == 0 || Spare(old(cache.bufs)))
      ensures r.Next? && r.s && old(outstanding) == 1 ==>
                && State() == LogProtocol.Committed(LogProtocol.End(old(State())).s)
                && cache.Valid() && Clear(area, cache.disk) && SameHome(area, cache.disk, old(cache.latest))
    {
      hide Coherent, Linked, Pinned, SetOf, Quiet, Spare;
      r := EndOpBegin();
      if r.Panic? {
        return;
      }
      if r.s {
        var ok := Commit();
        if ok {
          committing := false;
        }
        return LogProtocol.Next(ok);
      }
      return LogProtocol.Next(true);
    }
  }
}
