/** The log and the buffer cache together (HW3/log.c, HW3/bio.c): every interleaving of
    operations that change blocks by log_write only, of processes that just read, and of the
    block transfers of commit; and a crash after any prefix of any such run. */
module LoggedRuns {
  import opened Basics
  import opened Blocks
  import opened BufferCache
  import LogProtocol
  import opened CrashRecovery

  /** Where the commit stands: t blocks in the log, t blocks at home, or header cleared. */
  datatype Pc = Running | Logging(t: nat) | Installing(t: nat) | Cleared

  /** holder[i] is the process that has buffer i busy; active are the processes between begin_op
      and end_op; committer is the last process whose end_op began a commit.  latest and committed are history: the block map that stores build up, and
      what it was when the last commit wrote its header. */
  datatype System = System(disk: seq<Block>, bufs: seq<Buf>, holder: seq<nat>, log: LogProtocol.Log, active: set<nat>,
                           committer: nat, pc: Pc, latest: seq<Block>, committed: seq<Block>)

  datatype Event =
    | Hit(p: nat, i: nat, b: nat)       // bget finds the block
    | Miss(p: nat, i: nat, b: nat)      // bget recycles a buffer
    | Fill(p: nat, i: nat, b: nat)      // bread reads the block
    | Release(p: nat, i: nat, b: nat)   // brelse
    | Store(p: nat, i: nat, b: nat, data: Block)
    | LogIt(p: nat, i: nat, b: nat)     // log_write
    | BeginOp(p: nat)
    | EndOp(p: nat)
    | PutLog(p: nat, i: nat, j: nat)    // one turn of write_log: buffer j copied to i, i written
    | PutHead(p: nat, i: nat)           // write_head, the commit point
    | PutHome(p: nat, i: nat, j: nat)   // one turn of install_trans
    | PutClear(p: nat, i: nat)          // write_head with n zero
    | CommitDone

  /** Process p has block b in valid buffer i. */
  predicate Has(s: System, p: nat, i: nat, b: int) {
    Holds(s.bufs, i, b) && s.bufs[i].busy && s.bufs[i].valid && i < |s.holder| && s.holder[i] == p && b < |s.disk|
  }

  ghost predicate HoldsNothing(s: System, p: nat) {
    forall i :: 0 <= i < |s.bufs| && i < |s.holder| && s.bufs[i].busy ==> s.holder[i] != p
  }

  ghost predicate HoldsOnly(s: System, p: nat, b: int) {
    && (exists i :: Has(s, p, i, b))
    && (forall i :: 0 <= i < |s.bufs| && i < |s.holder| && s.bufs[i].busy && s.holder[i] == p ==> Holds(s.bufs, i, b))
  }

  /** The block that commit reads next: in each turn of its loops the log block, then the home
      block; and the header, before it is written. */
  ghost predicate Wants(a: Area, s: System, b: nat) {
    && b < |s.disk| && (s.pc.Logging? || s.pc.Installing?)
    && if s.pc.t < |s.log.blocks| then
         || (HoldsNothing(s, s.committer) && b == a.start + s.pc.t + 1)
         || (HoldsOnly(s, s.committer, a.start + s.pc.t + 1) && b == s.log.blocks[s.pc.t])
       else HoldsNothing(s, s.committer) && b == a.start && s.log.blocks != []
  }

  /** Process p calls bread on b: any block, but in commit the one that comes next. */
  ghost predicate Asks(a: Area, s: System, p: nat, b: nat) {
    b < |s.disk| && (s.log.committing && p == s.committer ==> Wants(a, s, b))
  }

  /** What makes bget panic: the block is not cached and every buffer is busy or dirty. */
  ghost predicate NoBuffer(s: System, b: nat) {
    !Cached(s.bufs, b) && forall i :: 0 <= i < |s.bufs| ==> InUse(s.bufs[i])
  }

  ghost predicate Enabled(a: Area, s: System, e: Event) {
    match e
    case Hit(p, i, b) => Asks(a, s, p, b) && Holds(s.bufs, i, b) && !s.bufs[i].busy && i < |s.holder|
    case Miss(p, i, b) => Asks(a, s, p, b) && i < |s.bufs| && i < |s.holder| && !Cached(s.bufs, b) && !InUse(s.bufs[i])
    case Fill(p, i, b) =>
      Holds(s.bufs, i, b) && s.bufs[i].busy && !s.bufs[i].valid && i < |s.holder| && s.holder[i] == p && b < |s.disk|
    case Release(p, i, b) => Has(s, p, i, b) && (s.bufs[i].dirty || s.bufs[i].data == s.disk[b])
    case Store(p, i, b, data) => Has(s, p, i, b) && p in s.active && !a.Has(b) && b < |s.latest|
    case LogIt(p, i, b) => Has(s, p, i, b) && p in s.active && !a.Has(b) && LogProtocol.Write(s.log, a.size, b).Next?
    case BeginOp(p) => p !in s.active && LogProtocol.Begin(s.log).Next?
    case EndOp(p) =>
      p in s.active && s.log.outstanding > 0 && LogProtocol.End(s.log).Next? && HoldsNothing(s, p)
    case PutLog(p, i, j) =>
      && p == s.committer && s.pc.Logging? && s.pc.t < |s.log.blocks| && |s.latest| == |s.disk|
      && Has(s, p, i, a.start + s.pc.t + 1) && Has(s, p, j, s.log.blocks[s.pc.t])
    case PutHead(p, i) =>
      && p == s.committer && s.pc == Logging(|s.log.blocks|) && 0 < |s.log.blocks| <= LogProtocol.LOGSIZE && |s.latest| == |s.disk|
      && Has(s, p, i, a.start) && |s.bufs[i].data| == BSIZE
    case PutHome(p, i, j) =>
      && p == s.committer && s.pc.Installing? && s.pc.t < |s.log.blocks| && |s.latest| == |s.disk|
      && Has(s, p, i, s.log.blocks[s.pc.t]) && Has(s, p, j, a.start + s.pc.t + 1)
    case PutClear(p, i) =>
      && p == s.committer && s.pc == Installing(|s.log.blocks|) && |s.latest| == |s.disk|
      && Has(s, p, i, a.start) && |s.bufs[i].data| == BSIZE
    case CommitDone => s.pc == Cleared || (s.pc == Logging(0) && s.log.blocks == [])
  }

  /** memmove and bwrite on a held buffer. */
  function Put(s: System, i: nat, b: nat, data: Block): System
    requires i < |s.bufs| && b < |s.disk| == |s.latest|
  {
    s.(disk := s.disk[b := data], latest := s.latest[b := data], bufs := s.bufs[i := s.bufs[i].(data := data, dirty := false)])
  }

  ghost function Next(a: Area, s: System, e: Event): System
    requires Enabled(a, s, e)
  {
    match e
    case Hit(p, i, b) => s.(bufs := s.bufs[i := s.bufs[i].(busy := true)], holder := s.holder[i := p])
    case Miss(p, i, b) =>
      s.(bufs := s.bufs[i := Buf(Some(b), true, false, false, s.bufs[i].data)], holder := s.holder[i := p])
    case Fill(p, i, b) => s.(bufs := s.bufs[i := s.bufs[i].(valid := true, data := s.disk[b])])
    case Release(p, i, b) => s.(bufs := s.bufs[i := s.bufs[i].(busy := false)])
    case Store(p, i, b, data) => s.(bufs := s.bufs[i := s.bufs[i].(data := data)], latest := s.latest[b := data])
    case LogIt(p, i, b) =>
      s.(bufs := s.bufs[i := s.bufs[i].(dirty := true)], log := LogProtocol.Write(s.log, a.size, b).s)
    case BeginOp(p) => s.(log := LogProtocol.Begin(s.log).s, active := s.active + {p})
    case EndOp(p) =>
      var log := LogProtocol.End(s.log).s;
      s.(log := log, active := s.active - {p}, committer := if log.committing then p else s.committer,
         pc := if log.committing then Logging(0) else s.pc)
    case PutLog(p, i, j) => Put(s, i, a.start + s.pc.t + 1, s.bufs[j].data).(pc := Logging(s.pc.t + 1))
    case PutHead(p, i) =>
      Put(s, i, a.start, WithHead(s.bufs[i].data, s.log.blocks)).(pc := Installing(0), committed := s.latest)
    case PutHome(p, i, j) => Put(s, i, s.log.blocks[s.pc.t], s.bufs[j].data).(pc := Installing(s.pc.t + 1))
    case PutClear(p, i) =>
      Put(s, i, a.start, WithHead(s.bufs[i].data, [])).(pc := Cleared, log := s.log.(blocks := []))
    case CommitDone => s.(log := LogProtocol.Committed(s.log), pc := Running)
  }

  // The invariant.

  /** The log agrees with who is in an operation and with the commit. */
  ghost predicate Sane(a: Area, s: System) {
    && |s.holder| == |s.bufs| == NBUF && |s.latest| == |s.committed| == |s.disk|
    && Targets(a, s.disk, s.log.blocks)
    && s.log.outstanding == |s.active|
    && (s.pc.Running? <==> !s.log.committing)
    && (s.log.committing ==> s.active == {})
  }

  ghost predicate Held(bufs: seq<Buf>, holder: seq<nat>, active: set<nat>, b: int) {
    exists i :: Holds(bufs, i, b) && bufs[i].busy && i < |holder| && holder[i] in active
  }

  /** Where the disk is behind the block map, the block is logged or a process in an operation holds
      it; in the log area the disk is never behind. */
  ghost predicate Behind(a: Area, disk: seq<Block>, latest: seq<Block>, bufs: seq<Buf>, holder: seq<nat>, active: set<nat>)
    requires |latest| == |disk|
  {
    forall b :: 0 <= b < |disk| && disk[b] != latest[b] ==> !a.Has(b) && (b in Pinned(bufs) || Held(bufs, holder, active, b))
  }

  /** Logged blocks that commit has not yet written home. */
  function Unwritten(s: System): seq<nat> {
    if s.pc.Installing? && s.pc.t <= |s.log.blocks| then s.log.blocks[s.pc.t..] else s.log.blocks
  }

  /** What is on the disk at each stage of a commit. */
  ghost predicate Staged(a: Area, s: System)
    requires Sane(a, s)
  {
    match s.pc
    case Running => Clear(a, s.disk) && SameHome(a, s.disk, s.committed)
    case Logging(t) =>
      && Clear(a, s.disk) && SameHome(a, s.disk, s.committed) && t <= |s.log.blocks|
      && forall u :: 0 <= u < t ==> s.disk[a.start + u + 1] == s.latest[s.log.blocks[u]]
    case Installing(t) =>
      && 0 < |s.log.blocks| && t <= |s.log.blocks|
      && InLog(a, s.log.blocks, s.committed, s.disk) && SameHome(a, s.latest, s.committed)
      && forall u :: 0 <= u < t ==> s.disk[s.log.blocks[u]] == s.committed[s.log.blocks[u]]
    case Cleared => Clear(a, s.disk) && SameHome(a, s.disk, s.committed) && s.log.blocks == []
  }

  ghost predicate Inv(a: Area, s: System) {
    && Sane(a, s)
    && Coherent(s.disk, s.bufs, s.latest)
    && Behind(a, s.disk, s.latest, s.bufs, s.holder, s.active)
    && Pinned(s.bufs) == SetOf(Unwritten(s))
    && Staged(a, s)
  }

  /** The premises of commit, whenever one begins. */
  lemma CommitPremises(a: Area, s: System)
    requires Inv(a, s) && s.pc == Logging(0)
    ensures Pending(a, s.log.blocks, s.disk, s.latest) && Pinned(s.bufs) == SetOf(s.log.blocks) && s.active == {}
  {
    PendingNow(a, s);
  }

  lemma PendingNow(a: Area, s: System)
    requires Inv(a, s) && s.pc.Logging?
    ensures Pending(a, s.log.blocks, s.disk, s.latest)
  {
    hide Coherent, Clear;
    forall b | 0 <= b < |s.disk| && !a.Has(b) && b !in s.log.blocks ensures s.latest[b] == s.disk[b] {
    }
    assert a.Has(a.start);
  }

  // Buffers taken, read and released: nothing but flags and buffer contents changes.

  predicate IsReading(e: Event) {
    e.Hit? || e.Miss? || e.Fill? || e.Release?
  }

  lemma ReadingCoherent(a: Area, s: System, e: Event)
    requires Inv(a, s) && Enabled(a, s, e) && IsReading(e)
    ensures var s' := Next(a, s, e); Coherent(s'.disk, s'.bufs, s'.latest) && Pinned(s'.bufs) == Pinned(s.bufs)
  {
    hide Behind, Staged, Pinned, InLog, Targets;
    var s' := Next(a, s, e);
    PinnedUpdate(s.bufs, e.i, s'.bufs[e.i]);
    match e
    case Hit(p, i, b) => Reflag(s.disk, s.bufs, s.latest, i, s'.bufs[i]);
    case Miss(p, i, b) => Recycle(s.disk, s.bufs, s.latest, i, b);
    case Fill(p, i, b) => FillBuffer(s.disk, s.bufs, s.latest, i, b);
    case Release(p, i, b) => Reflag(s.disk, s.bufs, s.latest, i, s'.bufs[i]);
  }

  lemma BehindKept(a: Area, disk: seq<Block>, latest: seq<Block>, bufs: seq<Buf>, holder: seq<nat>, active: set<nat>,
                   bufs': seq<Buf>, holder': seq<nat>, active': set<nat>)
    requires |latest| == |disk| && Behind(a, disk, latest, bufs, holder, active) && Pinned(bufs) <= Pinned(bufs')
    requires forall b :: 0 <= b < |disk| && disk[b] != latest[b] && Held(bufs, holder, active, b) ==>
               b in Pinned(bufs') || Held(bufs', holder', active', b)
    ensures Behind(a, disk, latest, bufs', holder', active')
  {
    hide Pinned, Held;
  }

  lemma ReadingHeld(a: Area, s: System, e: Event, b: nat)
    requires Inv(a, s) && Enabled(a, s, e) && IsReading(e) && b < |s.disk| && s.disk[b] != s.latest[b]
    requires Held(s.bufs, s.holder, s.active, b)
    ensures var s' := Next(a, s, e); b in Pinned(s.bufs) || Held(s'.bufs, s'.holder, s'.active, b)
  {
    hide Behind, Staged, InLog, Targets;
    var s' := Next(a, s, e);
    var j :| Holds(s.bufs, j, b) && s.bufs[j].busy && j < |s.holder| && s.holder[j] in s.active;
    if j == e.i {
      assert e.b == b;
      IsPinned(s.bufs, b);
      assert Holds(s'.bufs, j, b);
    } else {
      assert Holds(s'.bufs, j, b);
    }
  }

  lemma ReadingKeepsInv(a: Area, s: System, e: Event)
    requires Inv(a, s) && Enabled(a, s, e) && IsReading(e)
    ensures Inv(a, Next(a, s, e))
  {
    hide Behind, Pinned, InLog, Targets, Clear, SameHome, Coherent, Held, Holds, Wants;
    var s' := Next(a, s, e);
    ReadingCoherent(a, s, e);
    forall b | 0 <= b < |s.disk| && s.disk[b] != s.latest[b] && Held(s.bufs, s.holder, s.active, b)
      ensures b in Pinned(s'.bufs) || Held(s'.bufs, s'.holder, s'.active, b)
    {
      ReadingHeld(a, s, e, b);
    }
    BehindKept(a, s.disk, s.latest, s.bufs, s.holder, s.active, s'.bufs, s'.holder, s'.active);
  }

  // A process in an operation changes a block it holds, then logs it.

  lemma StoreBehind(a: Area, s: System, e: Event)
    requires Inv(a, s) && Enabled(a, s, e) && e.Store?
    ensures var s' := Next(a, s, e); Behind(a, s'.disk, s'.latest, s'.bufs, s'.holder, s'.active)
  {
    hide Staged, Pinned, InLog, Targets;
    var s' := Next(a, s, e);
    PinnedUpdate(s.bufs, e.i, s'.bufs[e.i]);
    forall b | 0 <= b < |s.disk| && s'.disk[b] != s'.latest[b]
      ensures !a.Has(b) && (b in Pinned(s'.bufs) || Held(s'.bufs, s'.holder, s'.active, b))
    {
      if b == e.b {
        assert Holds(s'.bufs, e.i, b);
      } else if Held(s.bufs, s.holder, s.active, b) {
        var j :| Holds(s.bufs, j, b) && s.bufs[j].busy && j < |s.holder| && s.holder[j] in s.active;
        assert Holds(s'.bufs, j, b);
      }
    }
  }

  /** Stores happen outside commits only, so they do not disturb what commit relies on. */
  lemma StoreKeepsInv(a: Area, s: System, e: Event)
    requires Inv(a, s) && Enabled(a, s, e) && e.Store?
    ensures Inv(a, Next(a, s, e))
  {
    hide Behind, Pinned, InLog, Targets, Clear;
    StoreBehind(a, s, e);
    var s' := Next(a, s, e);
    Overwrite(s.disk, s.bufs, s.latest, e.i, e.b, e.data);
    PinnedUpdate(s.bufs, e.i, s'.bufs[e.i]);
    hide Coherent;
  }

  lemma AbsorbTargets(a: Area, d: seq<Block>, blocks: seq<nat>, b: nat)
    requires Targets(a, d, blocks) && b < |d| && !a.Has(b) && |blocks| < LogProtocol.LOGSIZE && |blocks| < a.size - 1
    ensures Targets(a, d, LogProtocol.Absorb(blocks, b)) && SetOf(LogProtocol.Absorb(blocks, b)) == SetOf(blocks) + {b}
  {
    var blocks' := LogProtocol.Absorb(blocks, b);
    if b in blocks {
      var i :| 0 <= i < |blocks| && blocks[i] == b;
    } else {
      assert blocks'[|blocks|] == b;
      forall x | x in SetOf(blocks) ensures x in SetOf(blocks') {
        var i :| 0 <= i < |blocks| && blocks[i] == x;
        assert blocks'[i] == x;
      }
    }
  }

  lemma LogKeepsInv(a: Area, s: System, e: Event)
    requires Inv(a, s) && Enabled(a, s, e) && e.LogIt?
    ensures Inv(a, Next(a, s, e))
  {
    hide Behind, Pinned, InLog, Targets, Clear, SetOf, SameHome;
    var s' := Next(a, s, e);
    Reflag(s.disk, s.bufs, s.latest, e.i, s'.bufs[e.i]);
    PinnedUpdate(s.bufs, e.i, s'.bufs[e.i]);
    AbsorbTargets(a, s.disk, s.log.blocks, e.b);
    forall b | 0 <= b < |s.disk| && s.disk[b] != s.latest[b] && Held(s.bufs, s.holder, s.active, b)
      ensures b in Pinned(s'.bufs) || Held(s'.bufs, s'.holder, s'.active, b)
    {
      var j :| Holds(s.bufs, j, b) && s.bufs[j].busy && j < |s.holder| && s.holder[j] in s.active;
      assert Holds(s'.bufs, j, b);
    }
    BehindKept(a, s.disk, s.latest, s.bufs, s.holder, s.active, s'.bufs, s'.holder, s'.active);
    hide Coherent, Held;
  }

  // begin_op, end_op and the end of a commit leave the cache alone.

  lemma BeginKeepsInv(a: Area, s: System, e: Event)
    requires Inv(a, s) && Enabled(a, s, e) && e.BeginOp?
    ensures Inv(a, Next(a, s, e))
  {
    hide Pinned, InLog, Targets, Clear, SetOf, SameHome, Coherent;
    var s' := Next(a, s, e);
    forall b | 0 <= b < |s.disk| && s.disk[b] != s.latest[b] && Held(s.bufs, s.holder, s.active, b)
      ensures Held(s'.bufs, s'.holder, s'.active, b)
    {
      var j :| Holds(s.bufs, j, b) && s.bufs[j].busy && j < |s.holder| && s.holder[j] in s.active;
      assert Holds(s'.bufs, j, b);
    }
    BehindKept(a, s.disk, s.latest, s.bufs, s.holder, s.active, s'.bufs, s'.holder, s'.active);
    hide Behind, Held;
  }

  lemma EndKeepsInv(a: Area, s: System, e: Event)
    requires Inv(a, s) && Enabled(a, s, e) && e.EndOp?
    ensures Inv(a, Next(a, s, e))
  {
    hide Pinned, InLog, Targets, Clear, SetOf, SameHome, Coherent;
    var s' := Next(a, s, e);
    forall b | 0 <= b < |s.disk| && s.disk[b] != s.latest[b] && Held(s.bufs, s.holder, s.active, b)
      ensures Held(s'.bufs, s'.holder, s'.active, b)
    {
      var j :| Holds(s.bufs, j, b) && s.bufs[j].busy && j < |s.holder| && s.holder[j] in s.active;
      assert Holds(s'.bufs, j, b);
    }
    BehindKept(a, s.disk, s.latest, s.bufs, s.holder, s.active, s'.bufs, s'.holder, s'.active);
    assert |s'.active| == |s.active| - 1;
    hide Behind, Held;
  }

  lemma DoneKeepsInv(a: Area, s: System, e: Event)
    requires Inv(a, s) && Enabled(a, s, e) && e.CommitDone?
    ensures Inv(a, Next(a, s, e))
  {
    hide Pinned, InLog, Clear, SetOf, SameHome, Coherent, Behind;
    assert s.log.blocks == [];
  }

  // The transfers of commit.

  lemma PutHeld(s: System, p: nat, i: nat, b: nat, data: Block, x: nat)
    requires Has(s, p, i, b) && |s.latest| == |s.disk| && x != b && Held(s.bufs, s.holder, s.active, x)
    ensures Held(Put(s, i, b, data).bufs, s.holder, s.active, x)
  {
    var j :| Holds(s.bufs, j, x) && s.bufs[j].busy && j < |s.holder| && s.holder[j] in s.active;
    assert Holds(Put(s, i, b, data).bufs, j, x);
  }

  /** Any held buffer can be overwritten and written back. */
  lemma PutKeeps(a: Area, s: System, p: nat, i: nat, b: nat, data: Block)
    requires Inv(a, s) && Has(s, p, i, b)
    ensures var s' := Put(s, i, b, data);
            && Coherent(s'.disk, s'.bufs, s'.latest) && Pinned(s'.bufs) == Pinned(s.bufs) - {b}
            && Behind(a, s'.disk, s'.latest, s'.bufs, s'.holder, s'.active)
  {
    hide Pinned, Staged, Targets, Held, SetOf;
    var s' := Put(s, i, b, data);
    PinnedUpdate(s.bufs, i, s'.bufs[i]);
    Overwrite(s.disk, s.bufs, s.latest, i, b, data);
    WriteBack(s.disk, s.bufs[i := s.bufs[i].(data := data)], s'.latest, i, b);
    assert s'.bufs == s.bufs[i := s.bufs[i].(data := data)][i := s'.bufs[i]];
    forall x | 0 <= x < |s.disk| && s'.disk[x] != s'.latest[x]
      ensures !a.Has(x) && (x in Pinned(s'.bufs) || Held(s'.bufs, s'.holder, s'.active, x))
    {
      if Held(s.bufs, s.holder, s.active, x) {
        PutHeld(s, p, i, b, data, x);
      }
    }
  }

  /** A valid held buffer shows the latest contents, which for the log area are on disk. */
  lemma HasLatest(a: Area, s: System, p: nat, i: nat, b: nat)
    requires Inv(a, s) && Has(s, p, i, b)
    ensures s.bufs[i].data == s.latest[b] && (a.Has(b) ==> s.disk[b] == s.latest[b])
  {
    hide Staged, Pinned, Held;
  }

  lemma SlotOf(a: Area, d: seq<Block>, blocks: seq<nat>, t: nat)
    requires Targets(a, d, blocks) && t < |blocks|
    ensures a.Has(a.start + t + 1) && a.Has(a.start) && a.start + t + 1 < |d| && !a.Has(blocks[t]) && blocks[t] < |d|
    ensures a.start + t + 1 !in SetOf(blocks) && a.start !in SetOf(blocks)
  {
    forall x | x in SetOf(blocks) ensures !a.Has(x) {
    }
  }

  lemma SlotWritten(a: Area, disk: seq<Block>, latest: seq<Block>, committed: seq<Block>, blocks: seq<nat>, t: nat)
    requires |latest| == |committed| == |disk| && Targets(a, disk, blocks) && t < |blocks| && Clear(a, disk) && SameHome(a, disk, committed)
    requires forall u :: 0 <= u < t ==> disk[a.start + u + 1] == latest[blocks[u]]
    ensures var data := latest[blocks[t]];
            var disk', latest' := disk[a.start + t + 1 := data], latest[a.start + t + 1 := data];
            && Targets(a, disk', blocks) && Clear(a, disk') && SameHome(a, disk', committed)
            && forall u :: 0 <= u < t + 1 ==> disk'[a.start + u + 1] == latest'[blocks[u]]
  {
    hide Word;
  }

  lemma PutLogKeepsInv(a: Area, s: System, e: Event)
    requires Inv(a, s) && Enabled(a, s, e) && e.PutLog?
    ensures Inv(a, Next(a, s, e))
  {
    hide Pinned, Behind, Coherent, InLog, SetOf, Holds, Clear, SameHome, Targets;
    var t, blocks := s.pc.t, s.log.blocks;
    SlotOf(a, s.disk, blocks, t);
    HasLatest(a, s, e.p, e.j, blocks[t]);
    PutKeeps(a, s, e.p, e.i, a.start + t + 1, s.bufs[e.j].data);
    SlotWritten(a, s.disk, s.latest, s.committed, blocks, t);
  }

  lemma HeadWritten(a: Area, disk: seq<Block>, latest: seq<Block>, blocks: seq<nat>, head: Block)
    requires Pending(a, blocks, disk, latest) && IsHead(head) && Entries(head) == blocks
    requires forall u :: 0 <= u < |blocks| ==> disk[a.start + u + 1] == latest[blocks[u]]
    ensures Targets(a, disk[a.start := head], blocks) && InLog(a, blocks, latest, disk[a.start := head])
    ensures SameHome(a, latest[a.start := head], latest)
  {
    hide Word, Entries, IsHead, Clear;
  }

  lemma PutHeadKeepsInv(a: Area, s: System, e: Event)
    requires Inv(a, s) && Enabled(a, s, e) && e.PutHead?
    ensures Inv(a, Next(a, s, e))
  {
    hide Pinned, Behind, Coherent, SetOf, Holds, Word, InLog, SameHome, Targets, Pending, Clear, WithHead, Entries, IsHead;
    var blocks := s.log.blocks;
    SlotOf(a, s.disk, blocks, 0);
    var head := WithHead(s.bufs[e.i].data, blocks);
    PutKeeps(a, s, e.p, e.i, a.start, head);
    PendingNow(a, s);
    HeadOf(s.bufs[e.i].data, blocks);
    HeadWritten(a, s.disk, s.latest, blocks, head);
    assert blocks[0..] == blocks;
  }

  lemma HeadOf(h: Block, blocks: seq<nat>)
    requires |h| == BSIZE && |blocks| <= LogProtocol.LOGSIZE
    ensures IsHead(WithHead(h, blocks)) && Entries(WithHead(h, blocks)) == blocks
  {
  }

  lemma TailSet(blocks: seq<nat>, t: nat)
    requires t < |blocks| && forall i, j :: 0 <= i < j < |blocks| ==> blocks[i] != blocks[j]
    ensures SetOf(blocks[t..]) - {blocks[t]} == SetOf(blocks[t + 1..])
  {
    var now, next := blocks[t..], blocks[t + 1..];
    forall x ensures x in SetOf(now) && x != blocks[t] <==> x in SetOf(next) {
      if x in SetOf(now) && x != blocks[t] {
        var i :| 0 <= i < |now| && now[i] == x;
        assert next[i - 1] == x;
      }
      if x in SetOf(next) {
        var i :| 0 <= i < |next| && next[i] == x;
        assert now[i + 1] == x && blocks[t + 1 + i] == x;
      }
    }
  }

  lemma HomeWritten(a: Area, disk: seq<Block>, latest: seq<Block>, committed: seq<Block>, blocks: seq<nat>, t: nat)
    requires |latest| == |committed| == |disk| && t < |blocks| && InLog(a, blocks, committed, disk) && SameHome(a, latest, committed)
    requires forall u :: 0 <= u < t ==> disk[blocks[u]] == committed[blocks[u]]
    ensures var data := disk[a.start + t + 1];
            var disk', latest' := disk[blocks[t] := data], latest[blocks[t] := data];
            && Targets(a, disk', blocks) && InLog(a, blocks, committed, disk') && SameHome(a, latest', committed)
            && forall u :: 0 <= u < t + 1 ==> disk'[blocks[u]] == committed[blocks[u]]
  {
    hide Word, Entries, IsHead;
  }

  lemma PutHomeKeepsInv(a: Area, s: System, e: Event)
    requires Inv(a, s) && Enabled(a, s, e) && e.PutHome?
    ensures Inv(a, Next(a, s, e))
  {
    hide Pinned, Behind, Coherent, SetOf, Holds, InLog, SameHome, Clear;
    var t, blocks := s.pc.t, s.log.blocks;
    SlotOf(a, s.disk, blocks, t);
    HasLatest(a, s, e.p, e.j, a.start + t + 1);
    PutKeeps(a, s, e.p, e.i, blocks[t], s.bufs[e.j].data);
    TailSet(blocks, t);
    HomeWritten(a, s.disk, s.latest, s.committed, blocks, t);
  }

  lemma PutClearKeepsInv(a: Area, s: System, e: Event)
    requires Inv(a, s) && Enabled(a, s, e) && e.PutClear?
    ensures Inv(a, Next(a, s, e))
  {
    hide Pinned, Behind, Coherent, SetOf, Holds, Word, Entries, IsHead;
    var blocks := s.log.blocks;
    SlotOf(a, s.disk, blocks, 0);
    PutKeeps(a, s, e.p, e.i, a.start, WithHead(s.bufs[e.i].data, []));
    NoBlocks(blocks);
    var s' := Next(a, s, e);
    assert SameHome(a, s'.disk, s'.committed);
  }

  lemma NoBlocks(blocks: seq<nat>)
    ensures SetOf(blocks[|blocks|..]) == {} && SetOf([]) == {}
  {
  }

  lemma KeepsInv(a: Area, s: System, e: Event)
    requires Inv(a, s) && Enabled(a, s, e)
    ensures Inv(a, Next(a, s, e))
  {
    hide Inv, Enabled;
    if IsReading(e) {
      ReadingKeepsInv(a, s, e);
    } else {
      match e
      case Store(_, _, _, _) => StoreKeepsInv(a, s, e);
      case LogIt(_, _, _) => LogKeepsInv(a, s, e);
      case BeginOp(_) => BeginKeepsInv(a, s, e);
      case EndOp(_) => EndKeepsInv(a, s, e);
      case PutLog(_, _, _) => PutLogKeepsInv(a, s, e);
      case PutHead(_, _) => PutHeadKeepsInv(a, s, e);
      case PutHome(_, _, _) => PutHomeKeepsInv(a, s, e);
      case PutClear(_, _) => PutClearKeepsInv(a, s, e);
      case CommitDone => DoneKeepsInv(a, s, e);
    }
  }

  // Runs, and what a crash leaves of them.

  /** A booted system: nothing cached, nothing logged. */
  function Boot(image: seq<Block>): System {
    System(image, seq(NBUF, _ => Buf(None, false, false, false, Zeroed())), seq(NBUF, _ => 0),
           LogProtocol.Log([], 0, false), {}, 0, Running, image, image)
  }

  lemma BootInv(a: Area, image: seq<Block>)
    requires Clear(a, image)
    ensures Inv(a, Boot(image))
  {
    hide Clear;
    assert FitsOn(a, image) by {
      assert Clear(a, image);
      FitsClear(a, image);
    }
    var s := Boot(image);
    assert Pinned(s.bufs) == {};
  }

  lemma FitsClear(a: Area, d: seq<Block>)
    requires Clear(a, d)
    ensures FitsOn(a, d)
  {
  }

  ghost predicate IsRun(a: Area, image: seq<Block>, es: seq<Event>, ss: seq<System>) {
    && |ss| == |es| + 1 && ss[0] == Boot(image)
    && forall k :: 0 <= k < |es| ==> Enabled(a, ss[k], es[k]) && ss[k + 1] == Next(a, ss[k], es[k])
  }

  /** The contents that the stores of a run leave in each block. */
  function Stored(image: seq<Block>, es: seq<Event>): (m: seq<Block>)
    ensures |m| == |image|
  {
    if es == [] then image
    else
      var m := Stored(image, es[..|es| - 1]);
      var e := es[|es| - 1];
      if e.Store? && e.b < |m| then m[e.b := e.data] else m
  }

  /** The length of the run up to and including its last commit point. */
  function LastCommit(es: seq<Event>): (m: nat)
    ensures m <= |es|
  {
    if es == [] then 0 else if es[|es| - 1].PutHead? then |es| else LastCommit(es[..|es| - 1])
  }

  lemma AreaWrite(a: Area, m: seq<Block>, b: nat, data: Block)
    requires b < |m| && (a.Has(b) || data == m[b])
    ensures SameHome(a, m[b := data], m)
  {
  }

  lemma InstalledIsLatest(a: Area, s: System, p: nat, j: nat)
    requires Inv(a, s) && s.pc.Installing? && s.pc.t < |s.log.blocks| && Has(s, p, j, a.start + s.pc.t + 1)
    ensures s.log.blocks[s.pc.t] < |s.latest| && s.bufs[j].data == s.latest[s.log.blocks[s.pc.t]]
  {
    hide Pinned, Behind, Coherent, SetOf, Entries, IsHead, Word;
    SlotOf(a, s.disk, s.log.blocks, s.pc.t);
    HasLatest(a, s, p, j, a.start + s.pc.t + 1);
  }

  /** A transfer of commit leaves the block map alone outside the log area. */
  lemma PutStored(a: Area, s: System, e: Event)
    requires Inv(a, s) && Enabled(a, s, e) && (e.PutLog? || e.PutHead? || e.PutHome? || e.PutClear?)
    ensures SameHome(a, Next(a, s, e).latest, s.latest)
  {
    hide Pinned, Behind, Coherent, SetOf, Holds, Staged, SameHome, Targets, WithHead;
    match e
    case PutLog(p, i, j) =>
      SlotOf(a, s.disk, s.log.blocks, s.pc.t);
      AreaWrite(a, s.latest, a.start + s.pc.t + 1, s.bufs[j].data);
    case PutHead(p, i) =>
      SlotOf(a, s.disk, s.log.blocks, 0);
      AreaWrite(a, s.latest, a.start, WithHead(s.bufs[i].data, s.log.blocks));
    case PutHome(p, i, j) =>
      InstalledIsLatest(a, s, p, j);
      AreaWrite(a, s.latest, s.log.blocks[s.pc.t], s.bufs[j].data);
    case PutClear(p, i) =>
      StagedBlocks(a, s);
      SlotOf(a, s.disk, s.log.blocks, 0);
      AreaWrite(a, s.latest, a.start, WithHead(s.bufs[i].data, []));
  }

  lemma StagedBlocks(a: Area, s: System)
    requires Inv(a, s) && s.pc.Installing?
    ensures 0 < |s.log.blocks|
  {
  }

  /** One step of the history: outside the log area the block map is what was stored. */
  lemma StepStored(a: Area, s: System, e: Event, m: seq<Block>)
    requires Inv(a, s) && Enabled(a, s, e) && SameHome(a, s.latest, m)
    ensures var s' := Next(a, s, e);
            SameHome(a, s'.latest, if e.Store? && e.b < |m| then m[e.b := e.data] else m)
  {
    if e.PutLog? || e.PutHead? || e.PutHome? || e.PutClear? {
      hide Inv, Enabled, Next;
      PutStored(a, s, e);
    } else {
      hide Inv, Has;
    }
  }

  /** In every run, at every point: the invariant holds, the block map is what was stored, and
      the committed map is what was stored up to the last commit point, at which no operation
      was in progress. */
  lemma {:induction false} EveryRun(a: Area, image: seq<Block>, es: seq<Event>, ss: seq<System>, k: nat)
    requires Clear(a, image) && IsRun(a, image, es, ss) && k <= |es|
    ensures Inv(a, ss[k])
    ensures SameHome(a, ss[k].latest, Stored(image, es[..k]))
    ensures SameHome(a, ss[k].committed, Stored(image, es[..LastCommit(es[..k])]))
    ensures LastCommit(es[..k]) <= k && ss[LastCommit(es[..k])].active == {}
  {
    hide Inv, Enabled, Next, Clear, SameHome;
    if k == 0 {
      BootInv(a, image);
      SameHomeRefl(a, image);
      assert es[..0] == [];
    } else {
      EveryRun(a, image, es, ss, k - 1);
      var s, e := ss[k - 1], es[k - 1];
      assert es[..k][..k - 1] == es[..k - 1] && es[..k][k - 1] == e;
      KeepsInv(a, s, e);
      StepStored(a, s, e, Stored(image, es[..k - 1]));
      StepCommitted(a, s, e);
      if e.PutHead? {
        assert es[..LastCommit(es[..k])] == es[..k];
      } else {
        assert LastCommit(es[..k]) == LastCommit(es[..k - 1]);
      }
    }
  }

  lemma SameHomeRefl(a: Area, d: seq<Block>)
    ensures SameHome(a, d, d)
  {
  }

  lemma StepCommitted(a: Area, s: System, e: Event)
    requires Inv(a, s) && Enabled(a, s, e)
    ensures var s' := Next(a, s, e);
            && s'.committed == (if e.PutHead? then s.latest else s.committed)
            && (e.PutHead? ==> s'.active == {})
  {
    hide Pinned, Behind, Coherent, SetOf, Staged, Has, Targets;
  }

  /** Home blocks change on disk in install_trans only. */
  lemma HomeChangesInInstall(a: Area, s: System, e: Event)
    requires Inv(a, s) && Enabled(a, s, e) && !e.PutHome?
    ensures SameHome(a, Next(a, s, e).disk, s.disk)
  {
    hide Pinned, Behind, Coherent, SetOf, Holds, Staged, SameHome, Targets, WithHead;
    SameHomeRefl(a, s.disk);
    match e
    case PutLog(p, i, j) =>
      SlotOf(a, s.disk, s.log.blocks, s.pc.t);
      AreaWrite(a, s.disk, a.start + s.pc.t + 1, s.bufs[j].data);
    case PutHead(p, i) =>
      SlotOf(a, s.disk, s.log.blocks, 0);
      AreaWrite(a, s.disk, a.start, WithHead(s.bufs[i].data, s.log.blocks));
    case PutClear(p, i) =>
      StagedBlocks(a, s);
      SlotOf(a, s.disk, s.log.blocks, 0);
      AreaWrite(a, s.disk, a.start, WithHead(s.bufs[i].data, []));
    case _ =>
  }

  /** Outside commits the logged blocks are exactly the pinned ones, the header is clear, and every
      home block on disk is the one of the last commit point. */
  lemma BetweenCommits(a: Area, image: seq<Block>, es: seq<Event>, ss: seq<System>, k: nat)
    requires Clear(a, image) && IsRun(a, image, es, ss) && k <= |es| && ss[k].pc.Running?
    ensures Pinned(ss[k].bufs) == SetOf(ss[k].log.blocks) && Clear(a, ss[k].disk)
    ensures SameHome(a, ss[k].disk, Stored(image, es[..LastCommit(es[..k])]))
  {
    hide Pinned, Behind, Coherent, SetOf, Clear, IsRun;
    EveryRun(a, image, es, ss, k);
  }

  /** At every point recovery would restore the home blocks of the last commit point. */
  lemma RecoversToCommitted(a: Area, s: System)
    requires Inv(a, s)
    ensures Recoverable(a, s.disk) && SameHome(a, Recovered(a, s.disk), s.committed)
  {
    hide Pinned, Behind, Coherent, SetOf, Apply, RecoveryWrites, Entries, Word;
    if s.pc.Installing? {
      InLogRecovers(a, s.log.blocks, s.committed, s.disk);
    } else {
      ClearRecovers(a, s.disk);
    }
  }

  /** Crash after any prefix of any run, and again during any number of recoveries: the recovery
      that completes leaves, outside the log area, exactly what had been stored when the last
      commit point was reached, a moment at which no operation was in progress. */
  lemma CrashAnywhere(a: Area, image: seq<Block>, es: seq<Event>, ss: seq<System>, crashes: seq<nat>)
    requires Clear(a, image) && IsRun(a, image, es, ss)
    ensures Recoverable(a, ss[|es|].disk)
    ensures var r := Recovered(a, Reboots(a, ss[|es|].disk, crashes));
            Clear(a, r) && SameHome(a, r, Stored(image, es[..LastCommit(es)]))
    ensures ss[LastCommit(es)].active == {}
  {
    hide Inv, Enabled, Next, Clear, Recovered, Recoverable;
    var d := ss[|es|].disk;
    EveryRun(a, image, es, ss, |es|);
    assert es[..|es|] == es;
    RecoversToCommitted(a, ss[|es|]);
    RebootsConverge(a, d, crashes);
    RecoveredBlocks(a, Reboots(a, d, crashes));
  }
}
