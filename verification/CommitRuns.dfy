/** Whether the breads of commit find a buffer (HW3/log.c, HW3/bio.c) when other processes take
    and release buffers between its steps: over every run of LoggedRuns. */
module CommitRuns {
  import opened Basics
  import opened Blocks
  import Bio = BufferCache
  import LogProtocol
  import opened CrashRecovery
  import opened LoggedRuns

  /** Clean buffers that processes other than the committing one hold. */
  ghost function Others(s: System): set<nat> {
    set i: nat | i < |s.bufs| && i < |s.holder| && s.bufs[i].busy && !s.bufs[i].dirty && s.holder[i] != s.committer
  }

  /** During a commit other processes hold at most r clean buffers. */
  ghost predicate Within(s: System, r: nat) {
    s.log.committing ==> |Others(s)| <= r
  }

  /** The next bread of commit panics in bget. */
  ghost predicate CommitPanics(a: Area, s: System) {
    exists b :: Wants(a, s, b) && NoBuffer(s, b)
  }

  ghost predicate RunWithin(a: Area, image: seq<Block>, es: seq<Event>, ss: seq<System>, r: nat) {
    IsRun(a, image, es, ss) && forall k :: 0 <= k < |ss| ==> Within(ss[k], r)
  }

  // Enough buffers.

  lemma PinnedStep(bufs: seq<Bio.Buf>, n: nat)
    requires n < |bufs| && forall j, k, b :: Bio.Holds(bufs, j, b) && Bio.Holds(bufs, k, b) ==> j == k
    ensures |Bio.Pinned(bufs[..n])| + (if bufs[n].dirty && bufs[n].holds.Some? then 1 else 0) <= |Bio.Pinned(bufs[..n + 1])|
  {
    var few, more := Bio.Pinned(bufs[..n]), Bio.Pinned(bufs[..n + 1]);
    forall x | x in few ensures x in more {
      Bio.PinnedPrefix(bufs, n + 1, x);
    }
    if bufs[n].dirty && bufs[n].holds.Some? {
      var b := bufs[n].holds.value;
      Bio.PinnedPrefix(bufs, n + 1, b);
      Bio.NotBefore(bufs, n, b);
      hide Bio.Pinned, Bio.Holds;
      Bio.Smaller(few + {b}, more);
    } else {
      hide Bio.Pinned, Bio.Holds;
      Bio.Smaller(few, more);
    }
  }

  ghost function Below(held: set<nat>, n: nat): set<nat> {
    set i | i in held && i < n
  }

  lemma BelowStep(held: set<nat>, n: nat)
    ensures |Below(held, n + 1)| == |Below(held, n)| + if n in held then 1 else 0
  {
    if n in held {
      assert Below(held, n + 1) == Below(held, n) + {n};
    } else {
      assert Below(held, n + 1) == Below(held, n);
    }
  }

  /** If every buffer is dirty or in held, the pinned blocks and held account for all of them. */
  lemma {:induction false} UseCount(bufs: seq<Bio.Buf>, n: nat, held: set<nat>)
    requires n <= |bufs|
    requires forall j, k, b :: Bio.Holds(bufs, j, b) && Bio.Holds(bufs, k, b) ==> j == k
    requires forall i: nat :: i < |bufs| ==> (bufs[i].dirty && bufs[i].holds.Some?) || i in held
    ensures n <= |Bio.Pinned(bufs[..n])| + |Below(held, n)|
  {
    hide Bio.Pinned, Bio.Holds, Below;
    if n > 0 {
      UseCount(bufs, n - 1, held);
      PinnedStep(bufs, n - 1);
      BelowStep(held, n - 1);
    }
  }

  /** The home block of a turn is pinned, and so cached. */
  lemma HomeCached(a: Area, s: System)
    requires Inv(a, s) && (s.pc.Logging? || s.pc.Installing?) && s.pc.t < |s.log.blocks|
    ensures Bio.Cached(s.bufs, s.log.blocks[s.pc.t])
  {
    hide Bio.Coherent, Behind, Staged, Bio.Pinned, Targets;
    var b, rest := s.log.blocks[s.pc.t], Unwritten(s);
    assert b == rest[if s.pc.Installing? then 0 else s.pc.t];
    assert b in SetOf(rest);
    Bio.IsPinned(s.bufs, b);
  }

  lemma PinnedFew(a: Area, s: System)
    requires Inv(a, s)
    ensures |Bio.Pinned(s.bufs)| <= |s.log.blocks|
  {
    hide Bio.Coherent, Behind, Staged, Bio.Pinned;
    var blocks, rest := s.log.blocks, Unwritten(s);
    Bio.Image(rest, |rest|);
    assert SetOf(rest) == set i | 0 <= i < |rest| :: rest[i];
  }

  /** If commit holds no buffer and every buffer is in use, it is by the log or by others. */
  lemma AllInUse(a: Area, s: System)
    requires Inv(a, s) && HoldsNothing(s, s.committer) && forall i :: 0 <= i < |s.bufs| ==> Bio.InUse(s.bufs[i])
    ensures NBUF <= |s.log.blocks| + |Others(s)|
  {
    hide Behind, Staged, Bio.Pinned, Targets;
    PinnedFew(a, s);
    var held := Others(s);
    UseCount(s.bufs, NBUF, held);
    assert s.bufs[..NBUF] == s.bufs;
    assert held == Below(held, NBUF);
  }

  /** No commit step panics at a point of a run where the logged blocks and the buffers that others
      hold leave one buffer over. */
  lemma CommitFindsBuffer(a: Area, s: System, r: nat)
    requires Inv(a, s) && Within(s, r) && |s.log.blocks| + r < NBUF
    ensures !CommitPanics(a, s)
  {
    hide Behind, Staged, Bio.Pinned, Targets, Others;
    forall b | Wants(a, s, b) ensures !NoBuffer(s, b) {
      if HoldsNothing(s, s.committer) {
        if forall i :: 0 <= i < |s.bufs| ==> Bio.InUse(s.bufs[i]) {
          AllInUse(a, s);
        }
      } else {
        HomeCached(a, s);
      }
    }
  }

  // Too few: a run that ends in the panic.

  /** NBUF blocks outside the log area. */
  ghost predicate Homes(a: Area, image: seq<Block>, hs: seq<nat>) {
    |hs| == NBUF && Distinct(hs) && forall i :: 0 <= i < NBUF ==> hs[i] < |image| && !a.Has(hs[i])
  }

  ghost predicate Reached(a: Area, image: seq<Block>, r: nat, es: seq<Event>, s: System) {
    exists ss :: RunWithin(a, image, es, ss, r) && ss[|es|] == s
  }

  lemma Then(a: Area, image: seq<Block>, r: nat, es: seq<Event>, s: System, e: Event)
    requires Reached(a, image, r, es, s) && Enabled(a, s, e) && Within(Next(a, s, e), r)
    ensures Reached(a, image, r, es + [e], Next(a, s, e))
  {
    hide Enabled, Next, Within;
    var ss :| RunWithin(a, image, es, ss, r) && ss[|es|] == s;
    var ss' := ss + [Next(a, s, e)];
    forall k | 0 <= k < |es| + 1
      ensures Enabled(a, ss'[k], (es + [e])[k]) && ss'[k + 1] == Next(a, ss'[k], (es + [e])[k])
    {
      if k < |es| {
        assert ss'[k] == ss[k] && ss'[k + 1] == ss[k + 1] && (es + [e])[k] == es[k];
      }
    }
    assert RunWithin(a, image, es + [e], ss', r);
    assert ss'[|es + [e]|] == Next(a, s, e);
  }

  /** Calls of log_write by p. */
  function Calls(es: seq<Event>, p: nat): nat {
    if es == [] then 0 else Calls(es[..|es| - 1], p) + if es[|es| - 1].LogIt? && es[|es| - 1].p == p then 1 else 0
  }

  lemma CallsNext(es: seq<Event>, e: Event, p: nat)
    ensures Calls(es + [e], p) == Calls(es, p) + if e.LogIt? && e.p == p then 1 else 0
  {
    assert (es + [e])[..|es|] == es;
  }

  /** Three operations are in progress and have logged the first t of the blocks. */
  ghost predicate Logged(image: seq<Block>, hs: seq<nat>, s: System, t: nat) {
    && s.disk == image && s.latest == image && |s.holder| == |s.bufs| == NBUF == |hs| && t <= NBUF
    && s.log == LogProtocol.Log(hs[..t], 3, false) && s.active == {0, 1, 2} && s.pc == Running
    && (forall i :: 0 <= i < t ==> hs[i] < |image| && s.bufs[i] == Bio.Buf(Some(hs[i]), false, true, true, image[hs[i]]))
    && (forall i :: t <= i < NBUF ==> s.bufs[i] == Bio.Buf(None, false, false, false, Zeroed()))
  }

  lemma Begin(a: Area, image: seq<Block>, r: nat, hs: seq<nat>) returns (es: seq<Event>, s: System)
    requires Homes(a, image, hs)
    ensures Reached(a, image, r, es, s) && Logged(image, hs, s, 0) && forall p :: Calls(es, p) == 0
  {
    s := Boot(image);
    assert RunWithin(a, image, [], [s], r);
    Then(a, image, r, [], s, BeginOp(0));
    s := Next(a, s, BeginOp(0));
    Then(a, image, r, [] + [BeginOp(0)], s, BeginOp(1));
    s := Next(a, s, BeginOp(1));
    Then(a, image, r, [] + [BeginOp(0)] + [BeginOp(1)], s, BeginOp(2));
    s := Next(a, s, BeginOp(2));
    es := [] + [BeginOp(0)] + [BeginOp(1)] + [BeginOp(2)];
    forall p ensures Calls(es, p) == 0 {
      CallsNext([], BeginOp(0), p);
      CallsNext([BeginOp(0)], BeginOp(1), p);
      CallsNext([BeginOp(0), BeginOp(1)], BeginOp(2), p);
    }
    assert hs[..0] == [];
  }

  /** An operation's turn on the t-th block: bread, log_write, brelse. */
  function Turn(t: nat, h: nat): seq<Event> {
    var p := t / LogProtocol.MAXOPBLOCKS;
    [Miss(p, t, h), Fill(p, t, h), LogIt(p, t, h), Release(p, t, h)]
  }

  lemma LogOne(a: Area, image: seq<Block>, r: nat, hs: seq<nat>, es: seq<Event>, s: System, t: nat) returns (s': System)
    requires Homes(a, image, hs) && Reached(a, image, r, es, s) && Logged(image, hs, s, t) && t < LogProtocol.LOGSIZE && t + 1 < a.size
    ensures Reached(a, image, r, es + Turn(t, hs[t]), s') && Logged(image, hs, s', t + 1)
  {
    hide Reached;
    var p, h := t / LogProtocol.MAXOPBLOCKS, hs[t];
    assert p in {0, 1, 2};
    forall i ensures !Bio.Holds(s.bufs, i, h) {
    }
    Then(a, image, r, es, s, Miss(p, t, h));
    var s1 := Next(a, s, Miss(p, t, h));
    assert Bio.Holds(s1.bufs, t, h);
    Then(a, image, r, es + [Miss(p, t, h)], s1, Fill(p, t, h));
    var s2 := Next(a, s1, Fill(p, t, h));
    assert h !in hs[..t];
    Then(a, image, r, es + [Miss(p, t, h)] + [Fill(p, t, h)], s2, LogIt(p, t, h));
    var s3 := Next(a, s2, LogIt(p, t, h));
    Then(a, image, r, es + [Miss(p, t, h)] + [Fill(p, t, h)] + [LogIt(p, t, h)], s3, Release(p, t, h));
    s' := Next(a, s3, Release(p, t, h));
    assert es + [Miss(p, t, h)] + [Fill(p, t, h)] + [LogIt(p, t, h)] + [Release(p, t, h)] == es + Turn(t, h);
    assert hs[..t] + [h] == hs[..t + 1];
  }

  lemma TurnCalls(es: seq<Event>, t: nat, h: nat, p: nat)
    ensures Calls(es + Turn(t, h), p) == Calls(es, p) + if p == t / LogProtocol.MAXOPBLOCKS then 1 else 0
  {
    var q := t / LogProtocol.MAXOPBLOCKS;
    var e1 := es + [Miss(q, t, h)];
    var e2 := e1 + [Fill(q, t, h)];
    var e3 := e2 + [LogIt(q, t, h)];
    CallsNext(es, Miss(q, t, h), p);
    CallsNext(e1, Fill(q, t, h), p);
    CallsNext(e2, LogIt(q, t, h), p);
    CallsNext(e3, Release(q, t, h), p);
    assert e3 + [Release(q, t, h)] == es + Turn(t, h);
  }

  /** Calls that process p has made once t blocks are logged. */
  function Share(t: nat, p: nat): nat {
    var from := p * LogProtocol.MAXOPBLOCKS;
    if t <= from then 0 else Min(t - from, LogProtocol.MAXOPBLOCKS)
  }

  lemma ShareNext(t: nat, p: nat)
    ensures Share(t + 1, p) == Share(t, p) + if p == t / LogProtocol.MAXOPBLOCKS then 1 else 0
  {
  }

  lemma LogAll(a: Area, image: seq<Block>, r: nat, hs: seq<nat>, n: nat) returns (es: seq<Event>, s: System)
    requires Homes(a, image, hs) && n <= LogProtocol.LOGSIZE && n < a.size
    ensures Reached(a, image, r, es, s) && Logged(image, hs, s, n) && forall p :: Calls(es, p) <= LogProtocol.MAXOPBLOCKS
  {
    hide Reached, Logged, Homes;
    es, s := Begin(a, image, r, hs);
    var t := 0;
    while t < n
      invariant 0 <= t <= n && Reached(a, image, r, es, s) && Logged(image, hs, s, t)
      invariant forall p: nat :: Calls(es, p) == Share(t, p)
    {
      HomesCount(a, image, hs);
      s := LogOne(a, image, r, hs, es, s, t);
      forall p: nat ensures Calls(es + Turn(t, hs[t]), p) == Share(t + 1, p) {
        TurnCalls(es, t, hs[t], p);
        ShareNext(t, p);
        hide Share, Calls, Turn;
      }
      es := es + Turn(t, hs[t]);
      t := t + 1;
    }
  }

  lemma HomesCount(a: Area, image: seq<Block>, hs: seq<nat>)
    requires Homes(a, image, hs)
    ensures |hs| == NBUF
  {
  }

  /** A commit of the first n blocks has written t of them to the log; process 2 runs it and holds
      no buffer.  Buffers n up to n + k are held by process 3; the rest can be recycled. */
  ghost predicate Committing(a: Area, hs: seq<nat>, s: System, n: nat, t: nat, k: nat) {
    && |s.holder| == |s.bufs| == NBUF == |hs| && n + k <= NBUF && t < n
    && s.log == LogProtocol.Log(hs[..n], 0, true) && s.committer == 2 && s.pc == Logging(t)
    && (forall i :: 0 <= i < n ==> s.bufs[i].holds == Some(hs[i]) && !s.bufs[i].busy && s.bufs[i].valid && s.bufs[i].dirty)
    && (forall i :: n <= i < n + k ==> s.bufs[i].holds == Some(hs[i]) && s.bufs[i].busy && !s.bufs[i].dirty && s.holder[i] == 3)
    && (forall i :: n + k <= i < NBUF ==> !Bio.InUse(s.bufs[i]) && (s.bufs[i].holds.None? || a.Has(s.bufs[i].holds.value)))
  }

  lemma EndAll(a: Area, image: seq<Block>, r: nat, hs: seq<nat>, es: seq<Event>, s: System, n: nat) returns (es': seq<Event>, s': System)
    requires Reached(a, image, r, es, s) && Logged(image, hs, s, n) && 0 < n
    ensures es' == es + [EndOp(0)] + [EndOp(1)] + [EndOp(2)] && Reached(a, image, r, es', s')
    ensures Committing(a, hs, s', n, 0, 0) && s'.disk == s'.latest == image && s'.bufs == s.bufs && s'.active == {}
  {
    hide Reached;
    Then(a, image, r, es, s, EndOp(0));
    var s1 := Next(a, s, EndOp(0));
    Then(a, image, r, es + [EndOp(0)], s1, EndOp(1));
    var s2 := Next(a, s1, EndOp(1));
    s' := Next(a, s2, EndOp(2));
    assert Others(s') == {};
    Then(a, image, r, es + [EndOp(0)] + [EndOp(1)], s2, EndOp(2));
    es' := es + [EndOp(0)] + [EndOp(1)] + [EndOp(2)];
  }

  lemma EndCalls(es: seq<Event>, p: nat)
    ensures Calls(es + [EndOp(0)] + [EndOp(1)] + [EndOp(2)], p) == Calls(es, p)
  {
    CallsNext(es, EndOp(0), p);
    CallsNext(es + [EndOp(0)], EndOp(1), p);
    CallsNext(es + [EndOp(0)] + [EndOp(1)], EndOp(2), p);
  }

  ghost function Span(n: nat, k: nat): (m: set<nat>)
    ensures |m| == k && forall i :: i in m <==> n <= i < n + k
  {
    if k == 0 then {} else Span(n, k - 1) + {n + k - 1}
  }

  lemma ReadersWithin(a: Area, hs: seq<nat>, s: System, n: nat, t: nat, k: nat)
    requires Committing(a, hs, s, n, t, k)
    ensures |Others(s)| == k
  {
    assert Others(s) == Span(n, k);
  }

  /** Process 3 reads one block more. */
  lemma ReadOne(a: Area, image: seq<Block>, r: nat, hs: seq<nat>, es: seq<Event>, s: System, n: nat, t: nat, k: nat) returns (e: Event, s': System)
    requires Homes(a, image, hs) && Reached(a, image, r, es, s) && Committing(a, hs, s, n, t, k) && |s.disk| == |image| && n + k < NBUF && k < r
    ensures e.Miss? && Reached(a, image, r, es + [e], s') && Committing(a, hs, s', n, t, k + 1) && |s'.disk| == |image|
  {
    hide Reached;
    var h := hs[n + k];
    e := Miss(3, n + k, h);
    forall i ensures !Bio.Holds(s.bufs, i, h) {
    }
    s' := Next(a, s, e);
    ReadersWithin(a, hs, s', n, t, k + 1);
    Then(a, image, r, es, s, e);
  }

  lemma ReadAll(a: Area, image: seq<Block>, r: nat, hs: seq<nat>, es: seq<Event>, s: System, n: nat, t: nat) returns (es': seq<Event>, s': System)
    requires Homes(a, image, hs) && Reached(a, image, r, es, s) && Committing(a, hs, s, n, t, 0) && |s.disk| == |image| && NBUF <= n + r
    ensures Reached(a, image, r, es', s') && Committing(a, hs, s', n, t, NBUF - n) && |s'.disk| == |image|
    ensures es <= es' && forall p :: Calls(es', p) == Calls(es, p)
  {
    hide Reached, Homes;
    es', s' := es, s;
    var k := 0;
    while n + k < NBUF
      invariant 0 <= k && n + k <= NBUF && Reached(a, image, r, es', s') && Committing(a, hs, s', n, t, k) && |s'.disk| == |image|
      invariant es <= es' && forall p: nat :: Calls(es', p) == Calls(es, p)
    {
      var e;
      e, s' := ReadOne(a, image, r, hs, es', s', n, t, k);
      forall p: nat ensures Calls(es' + [e], p) == Calls(es, p) {
        CallsNext(es', e, p);
      }
      es', k := es' + [e], k + 1;
    }
  }

  /** With every clean buffer taken, the next log block cannot be read. */
  lemma Stuck(a: Area, image: seq<Block>, hs: seq<nat>, s: System, n: nat, t: nat)
    requires Homes(a, image, hs) && n <= NBUF && Committing(a, hs, s, n, t, NBUF - n) && FitsOn(a, image) && |s.disk| == |image| && n < a.size
    ensures CommitPanics(a, s)
  {
    var b := a.start + t + 1;
    forall i ensures !Bio.Holds(s.bufs, i, b) {
    }
    assert Wants(a, s, b) && NoBuffer(s, b);
  }

  /** Operations of at most MAXOPBLOCKS calls log n blocks; when the last one commits, others have
      taken the buffers that are left, and the first bread of commit panics. */
  lemma CommitCanPanic(a: Area, image: seq<Block>, hs: seq<nat>, n: nat, r: nat) returns (es: seq<Event>, ss: seq<System>)
    requires Clear(a, image) && Homes(a, image, hs) && 0 < n <= LogProtocol.LOGSIZE && n < a.size && NBUF <= n + r
    ensures RunWithin(a, image, es, ss, r) && |ss[|es|].log.blocks| == n && CommitPanics(a, ss[|es|])
    ensures forall p :: Calls(es, p) <= LogProtocol.MAXOPBLOCKS
  {
    hide Homes, Calls, CommitPanics, Logged;
    FitsClear(a, image);
    var s;
    es, s := LogAll(a, image, r, hs, n);
    forall p ensures Calls(es + [EndOp(0)] + [EndOp(1)] + [EndOp(2)], p) == Calls(es, p) {
      EndCalls(es, p);
    }
    es, s := EndAll(a, image, r, hs, es, s, n);
    es, s := ReadAll(a, image, r, hs, es, s, n, 0);
    Stuck(a, image, hs, s, n, 0);
    ss :| RunWithin(a, image, es, ss, r) && ss[|es|] == s;
  }

  /** The first turn of write_log, with buffers to spare. */
  lemma OneTransfer(a: Area, image: seq<Block>, r: nat, hs: seq<nat>, es: seq<Event>, s: System, n: nat) returns (es': seq<Event>, s': System)
    requires Homes(a, image, hs) && FitsOn(a, image) && Reached(a, image, r, es, s) && Committing(a, hs, s, n, 0, 0)
    requires 2 <= n < NBUF && n < a.size && |s.disk| == |s.latest| == |image| && forall i :: n <= i < NBUF ==> s.bufs[i].holds.None?
    ensures Reached(a, image, r, es', s') && Committing(a, hs, s', n, 1, 0) && |s'.disk| == |image|
    ensures es <= es' && forall p :: Calls(es', p) == Calls(es, p)
  {
    hide Reached, Calls, Wants;
    var l, h := a.start + 1, hs[0];
    var e1, e2, e3 := Miss(2, n, l), Fill(2, n, l), Hit(2, 0, h);
    forall i ensures !Bio.Holds(s.bufs, i, l) {
    }
    FirstWanted(a, s);
    var s1 := Step(a, image, r, es, s, e1);
    assert Bio.Holds(s1.bufs, n, l);
    var s2 := Step(a, image, r, es + [e1], s1, e2);
    assert Has(s2, 2, n, l);
    SecondWanted(a, s2, n);
    assert Bio.Holds(s2.bufs, 0, h);
    var s3 := Step(a, image, r, es + [e1] + [e2], s2, e3);
    var es3 := es + [e1] + [e2] + [e3];
    es', s' := FinishTransfer(a, image, r, hs, es3, s3, n);
    forall p ensures Calls(es3, p) == Calls(es, p) {
      CallsNext(es, e1, p);
      CallsNext(es + [e1], e2, p);
      CallsNext(es + [e1] + [e2], e3, p);
    }
  }

  lemma FirstWanted(a: Area, s: System)
    requires s.pc == Logging(0) && s.log.blocks != [] && HoldsNothing(s, s.committer) && a.start + 1 < |s.disk|
    ensures Wants(a, s, a.start + 1)
  {
  }

  lemma SecondWanted(a: Area, s: System, i: nat)
    requires s.pc == Logging(0) && s.log.blocks != [] && s.log.blocks[0] < |s.disk| && Has(s, s.committer, i, a.start + 1)
    requires forall j :: 0 <= j < |s.bufs| && j != i ==> !s.bufs[j].busy
    ensures Wants(a, s, s.log.blocks[0])
  {
  }

  /** One more event by the committing process, others holding nothing. */
  lemma Step(a: Area, image: seq<Block>, r: nat, es: seq<Event>, s: System, e: Event) returns (s': System)
    requires Reached(a, image, r, es, s) && Enabled(a, s, e)
    requires var t := Next(a, s, e); t.committer == 2 && forall i :: 0 <= i < |t.bufs| && i < |t.holder| && t.bufs[i].busy ==> t.holder[i] == 2
    ensures Reached(a, image, r, es + [e], s') && s' == Next(a, s, e)
  {
    hide Reached, Enabled;
    s' := Next(a, s, e);
    assert Others(s') == {};
    Then(a, image, r, es, s, e);
  }

  lemma FinishTransfer(a: Area, image: seq<Block>, r: nat, hs: seq<nat>, es: seq<Event>, s: System, n: nat) returns (es': seq<Event>, s': System)
    requires Homes(a, image, hs) && FitsOn(a, image) && Reached(a, image, r, es, s) && 2 <= n < NBUF && n < a.size
    requires |s.disk| == |s.latest| == |image| && |s.holder| == |s.bufs| == NBUF
    requires s.log == LogProtocol.Log(hs[..n], 0, true) && s.committer == 2 && s.pc == Logging(0)
    requires Has(s, 2, n, a.start + 1) && !s.bufs[n].dirty && Has(s, 2, 0, hs[0]) && s.bufs[0].dirty
    requires forall i :: 1 <= i < n ==> s.bufs[i].holds == Some(hs[i]) && !s.bufs[i].busy && s.bufs[i].valid && s.bufs[i].dirty
    requires forall i :: n < i < NBUF ==> !Bio.InUse(s.bufs[i]) && s.bufs[i].holds.None?
    ensures Reached(a, image, r, es', s') && Committing(a, hs, s', n, 1, 0) && |s'.disk| == |image|
    ensures es <= es' && forall p :: Calls(es', p) == Calls(es, p)
  {
    hide Reached, Calls;
    var l, h := a.start + 1, hs[0];
    var e1, e2, e3 := PutLog(2, n, 0), Release(2, n, l), Release(2, 0, h);
    var s1 := Step(a, image, r, es, s, e1);
    assert Has(s1, 2, n, l) && Has(s1, 2, 0, h);
    var s2 := Step(a, image, r, es + [e1], s1, e2);
    assert Has(s2, 2, 0, h);
    s' := Step(a, image, r, es + [e1] + [e2], s2, e3);
    es' := es + [e1] + [e2] + [e3];
    forall p ensures Calls(es', p) == Calls(es, p) {
      CallsNext(es, e1, p);
      CallsNext(es + [e1], e2, p);
      CallsNext(es + [e1] + [e2], e3, p);
    }
  }

  /** A commit that begins with a buffer to spare, after es0, can still panic after its first
      transfer: once it has released the buffer, others may take it. */
  lemma PanicAfterTransfer(a: Area, image: seq<Block>, hs: seq<nat>, n: nat, r: nat)
    returns (es0: seq<Event>, s0: System, es: seq<Event>, s: System)
    requires Clear(a, image) && Homes(a, image, hs) && 2 <= n < NBUF && n < a.size && NBUF <= n + r
    ensures Reached(a, image, r, es0, s0) && s0.pc == Logging(0) && exists i :: 0 <= i < |s0.bufs| && !Bio.InUse(s0.bufs[i])
    ensures es0 <= es && Reached(a, image, r, es, s) && |s.log.blocks| == n && s.pc == Logging(1) && CommitPanics(a, s)
    ensures forall p :: Calls(es, p) <= LogProtocol.MAXOPBLOCKS
  {
    hide Homes, Calls, CommitPanics, Reached;
    FitsClear(a, image);
    es0, s0 := LogAll(a, image, r, hs, n);
    assert forall i :: n <= i < NBUF ==> s0.bufs[i].holds.None?;
    forall p ensures Calls(es0 + [EndOp(0)] + [EndOp(1)] + [EndOp(2)], p) == Calls(es0, p) {
      EndCalls(es0, p);
    }
    es0, s0 := EndAll(a, image, r, hs, es0, s0, n);
    assert !Bio.InUse(s0.bufs[n]);
    es, s := OneTransfer(a, image, r, hs, es0, s0, n);
    hide Logged, Committing;
    es, s := ReadAll(a, image, r, hs, es, s, n, 1);
    Stuck(a, image, hs, s, n, 1);
    CommittingAt(a, hs, s, n, 1, NBUF - n);
  }

  lemma CommittingAt(a: Area, hs: seq<nat>, s: System, n: nat, t: nat, k: nat)
    requires Committing(a, hs, s, n, t, k)
    ensures |s.log.blocks| == n && s.pc == Logging(t)
  {
  }

  /** In runs in which others hold at most r clean buffers during a commit, no commit of n blocks
      panics for want of a buffer if and only if n + r is less than the number of buffers. */
  lemma CommitSafeIff(a: Area, image: seq<Block>, hs: seq<nat>, n: nat, r: nat)
    requires Clear(a, image) && Homes(a, image, hs) && 0 < n <= LogProtocol.LOGSIZE && n < a.size
    ensures (forall es, ss: seq<System> :: RunWithin(a, image, es, ss, r) && |ss[|es|].log.blocks| == n ==> !CommitPanics(a, ss[|es|])) <==> n + r < NBUF
  {
    hide Homes, CommitPanics, Clear, Within, Inv;
    if n + r < NBUF {
      forall es, ss: seq<System> | RunWithin(a, image, es, ss, r) && |ss[|es|].log.blocks| == n ensures !CommitPanics(a, ss[|es|]) {
        EveryRun(a, image, es, ss, |es|);
        CommitFindsBuffer(a, ss[|es|], r);
      }
    } else {
      var es, ss := CommitCanPanic(a, image, hs, n, r);
    }
  }
}
