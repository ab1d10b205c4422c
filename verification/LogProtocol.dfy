/** The group-commit protocol of HW3/log.c: begin_op, log_write and end_op as
    atomic steps, in every interleaving of any number of processes. */
module LogProtocol {
  import opened Basics

  const MAXOPBLOCKS: nat := 10
  const LOGSIZE: nat := 30  // MAXOPBLOCKS * 3

  /** The shared fields of struct log: lh.block[..lh.n], outstanding, committing. */
  datatype Log = Log(blocks: seq<nat>, outstanding: nat, committing: bool)

  datatype Cause = TooBigATransaction | OutsideOfTrans | LogCommitting | NoBuffers

  datatype Outcome<+T> = Next(s: T) | Sleep | Panic(cause: Cause)

  function Begin(l: Log): Outcome<Log> {
    if l.committing then Sleep
    else if |l.blocks| + (l.outstanding + 1) * MAXOPBLOCKS > LOGSIZE then Sleep
    else Next(l.(outstanding := l.outstanding + 1))
  }

  function Absorb(blocks: seq<nat>, b: nat): seq<nat> {
    if b in blocks then blocks else blocks + [b]
  }

  function Write(l: Log, size: nat, b: nat): Outcome<Log> {
    if |l.blocks| >= LOGSIZE || |l.blocks| >= size - 1 then Panic(TooBigATransaction)
    else if l.outstanding < 1 then Panic(OutsideOfTrans)
    else Next(l.(blocks := Absorb(l.blocks, b)))
  }

  function End(l: Log): Outcome<Log>
    requires l.outstanding > 0
  {
    if l.committing then Panic(LogCommitting)
    else Next(l.(outstanding := l.outstanding - 1, committing := l.outstanding == 1))
  }

  function Committed(l: Log): Log {
    Log([], l.outstanding, false)
  }

  /** What a process is doing: how many blocks its operation added to the log, and
      how many times it called log_write. */
  datatype Op = Idle | Active(added: nat, calls: nat)

  datatype System = System(log: Log, ops: seq<Op>)

  datatype Event = BeginOp(p: nat) | LogWrite(p: nat, b: nat) | EndOp(p: nat) | CommitDone

  /** The blocks of the log area, header included, and the buffers commit can count on: NBUF less
      the most that other processes hold clean during a commit (CommitRuns.CommitSafeIff). */
  datatype Config = Config(size: nat, nbuf: nat)

  /** One critical section, or a whole commit, which needs a buffer beside those it pins.
      An event the process is in no position to raise is a no-op. */
  function Step(s: System, c: Config, e: Event): Outcome<System> {
    match e
    case BeginOp(p) =>
      if p >= |s.ops| || s.ops[p].Active? then Sleep
      else
        var r := Begin(s.log);
        if r.Next? then Next(System(r.s, s.ops[p := Active(0, 0)])) else Sleep
    case LogWrite(p, b) =>
      if p >= |s.ops| then Sleep
      else
        var r := Write(s.log, c.size, b);
        if r.Panic? then Panic(r.cause)
        else Next(System(r.s, s.ops[p := Wrote(s.ops[p], b in s.log.blocks)]))
    case EndOp(p) =>
      if p >= |s.ops| || s.ops[p].Idle? || s.log.outstanding == 0 then Sleep
      else
        var r := End(s.log);
        if r.Next? then Next(System(r.s, s.ops[p := Idle])) else Panic(r.cause)
    case CommitDone =>
      if !s.log.committing then Sleep
      else if s.log.blocks != [] && |s.log.blocks| >= c.nbuf then Panic(NoBuffers)
      else Next(System(Committed(s.log), s.ops))
  }

  /** log_write does not ask whether its caller is in an operation. */
  function Wrote(op: Op, absorbed: bool): Op {
    if op.Idle? then Idle else Active(op.added + (if absorbed then 0 else 1), op.calls + 1)
  }

  /** Two readings of the limit MAXOPBLOCKS on an operation's writes: it adds at most
      MAXOPBLOCKS blocks to the log, or it calls log_write at most MAXOPBLOCKS times.
      Outside an operation a process does not call log_write. */
  datatype Premise = Blocks | Calls

  predicate Disciplined(pr: Premise, s: System, e: Event) {
    e.LogWrite? && e.p < |s.ops| ==>
      && s.ops[e.p].Active?
      && match pr
         case Blocks => e.b in s.log.blocks || s.ops[e.p].added < MAXOPBLOCKS
         case Calls => s.ops[e.p].calls < MAXOPBLOCKS
  }

  function Init(procs: nat): System {
    System(Log([], 0, false), seq(procs, _ => Idle))
  }

  /** A sleeping step leaves the state as it was. */
  function Run(s: System, c: Config, es: seq<Event>): Outcome<System>
    decreases |es|
  {
    if es == [] then Next(s)
    else
      var r := Step(s, c, es[0]);
      match r
      case Panic(cause) => Panic(cause)
      case Sleep => Run(s, c, es[1..])
      case Next(s') => Run(s', c, es[1..])
  }

  ghost predicate DisciplinedRun(pr: Premise, s: System, c: Config, es: seq<Event>)
    decreases |es|
  {
    es == [] ||
    (Disciplined(pr, s, es[0]) &&
     var r := Step(s, c, es[0]);
     match r
     case Panic(_) => true
     case Sleep => DisciplinedRun(pr, s, c, es[1..])
     case Next(s') => DisciplinedRun(pr, s', c, es[1..]))
  }

  function Unspent(op: Op): int {
    if op.Active? then MAXOPBLOCKS - op.added else 0
  }

  /** Blocks that operations in progress may still add. */
  function Reserved(ops: seq<Op>): int {
    if ops == [] then 0 else Unspent(ops[0]) + Reserved(ops[1..])
  }

  function ActiveOps(ops: seq<Op>): nat {
    if ops == [] then 0 else (if ops[0].Active? then 1 else 0) + ActiveOps(ops[1..])
  }

  ghost predicate Bounded(ops: seq<Op>) {
    forall i :: 0 <= i < |ops| && ops[i].Active? ==> ops[i].added <= MAXOPBLOCKS && ops[i].added <= ops[i].calls
  }

  ghost predicate Inv(s: System) {
    && Bounded(s.ops)
    && s.log.outstanding == ActiveOps(s.ops)
    && (s.log.committing ==> s.log.outstanding == 0)
    && |s.log.blocks| + Reserved(s.ops) <= LOGSIZE
    && Distinct(s.log.blocks)
  }

  lemma {:induction false} Update(ops: seq<Op>, p: nat, op: Op)
    requires p < |ops|
    ensures Reserved(ops[p := op]) == Reserved(ops) - Unspent(ops[p]) + Unspent(op)
    ensures ActiveOps(ops[p := op]) == ActiveOps(ops) - (if ops[p].Active? then 1 else 0) + (if op.Active? then 1 else 0)
  {
    var ops' := ops[p := op];
    if p == 0 {
      assert ops'[1..] == ops[1..];
    } else {
      Update(ops[1..], p - 1, op);
      assert ops'[1..] == ops[1..][p - 1 := op];
    }
  }

  lemma {:induction false} ReservedBounds(ops: seq<Op>)
    requires Bounded(ops)
    ensures 0 <= Reserved(ops) <= MAXOPBLOCKS * ActiveOps(ops)
    ensures forall i :: 0 <= i < |ops| && ops[i].Active? ==> Unspent(ops[i]) <= Reserved(ops) && ActiveOps(ops) > 0
  {
    if ops != [] {
      ReservedBounds(ops[1..]);
      assert forall i :: 1 <= i < |ops| ==> ops[i] == ops[1..][i - 1];
    }
  }

  lemma {:induction false} IdleReserves(n: nat)
    ensures Reserved(seq(n, _ => Idle)) == 0 && ActiveOps(seq(n, _ => Idle)) == 0
  {
    if n > 0 {
      IdleReserves(n - 1);
      assert seq(n, _ => Idle)[1..] == seq(n - 1, _ => Idle);
    }
  }

  /** One critical section keeps the reservation invariant.  Only log_write can panic,
      only for size, and not if the log area is long enough and calls are counted; a commit
      panics only for want of a buffer. */
  lemma StepKeepsInv(pr: Premise, s: System, c: Config, e: Event)
    requires Inv(s) && Disciplined(pr, s, e)
    ensures Step(s, c, e).Next? ==> Inv(Step(s, c, e).s)
    ensures Step(s, c, e).Panic? ==> Step(s, c, e).cause == if e.CommitDone? then NoBuffers else TooBigATransaction
    ensures pr.Calls? && c.size > LOGSIZE && c.nbuf > LOGSIZE ==> !Step(s, c, e).Panic?
  {
    ReservedBounds(s.ops);
    match e
    case BeginOp(p) =>
      if p < |s.ops| {
        Update(s.ops, p, Active(0, 0));
      }
    case LogWrite(p, b) =>
      if p < |s.ops| && s.ops[p].Active? {
        Update(s.ops, p, Wrote(s.ops[p], b in s.log.blocks));
      }
    case EndOp(p) =>
      if p < |s.ops| {
        Update(s.ops, p, Idle);
      }
    case CommitDone =>
  }

  lemma {:induction false} RunKeepsInv(pr: Premise, s: System, c: Config, es: seq<Event>)
    requires Inv(s) && DisciplinedRun(pr, s, c, es)
    ensures Run(s, c, es).Next? ==> Inv(Run(s, c, es).s)
    ensures Run(s, c, es).Panic? ==> Run(s, c, es).cause.TooBigATransaction? || Run(s, c, es).cause.NoBuffers?
    ensures pr.Calls? && c.size > LOGSIZE && c.nbuf > LOGSIZE ==> Run(s, c, es).Next?
    decreases |es|
  {
    if es != [] {
      StepKeepsInv(pr, s, c, es[0]);
      var r := Step(s, c, es[0]);
      if r.Next? {
        RunKeepsInv(pr, r.s, c, es[1..]);
      } else if r.Sleep? {
        RunKeepsInv(pr, s, c, es[1..]);
      }
    }
  }

  /** Three operations have filled the log with blocks 0 .. k-1, ten each. */
  function Filled(procs: nat, k: nat): System
    requires procs >= 3 && k <= LOGSIZE
  {
    System(Log(seq(k, (i: nat) => i), 3, false),
           seq(procs, (i: nat) => if i < 3 then Active(Share(k, i), Share(k, i)) else Idle))
  }

  function Share(k: nat, i: nat): nat {
    if k <= MAXOPBLOCKS * i then 0
    else if k >= MAXOPBLOCKS * (i + 1) then MAXOPBLOCKS
    else k - MAXOPBLOCKS * i
  }

  function FillEvents(lo: nat, hi: nat): seq<Event>
    requires lo <= hi
    decreases hi - lo
  {
    if lo == hi then [] else [LogWrite(lo / MAXOPBLOCKS, lo)] + FillEvents(lo + 1, hi)
  }

  lemma FillOne(procs: nat, c: Config, k: nat)
    requires procs >= 3 && k < LOGSIZE && k < c.size - 1
    ensures Step(Filled(procs, k), c, LogWrite(k / MAXOPBLOCKS, k)) == Next(Filled(procs, k + 1))
  {
    var p := k / MAXOPBLOCKS;
    var s, s' := Filled(procs, k), Filled(procs, k + 1);
    assert k !in s.log.blocks;
    assert Absorb(s.log.blocks, k) == s'.log.blocks;
    assert Share(k + 1, p) == Share(k, p) + 1;
    assert s.ops[p := Wrote(s.ops[p], false)] == s'.ops;
  }

  lemma {:induction false} Fill(pr: Premise, procs: nat, c: Config, lo: nat, hi: nat, rest: seq<Event>)
    requires procs >= 3 && lo <= hi <= LOGSIZE && hi <= c.size - 1
    ensures Run(Filled(procs, lo), c, FillEvents(lo, hi) + rest) == Run(Filled(procs, hi), c, rest)
    ensures DisciplinedRun(pr, Filled(procs, lo), c, FillEvents(lo, hi) + rest)
            == DisciplinedRun(pr, Filled(procs, hi), c, rest)
    decreases hi - lo
  {
    var es := FillEvents(lo, hi) + rest;
    if lo == hi {
      assert es == rest;
    } else {
      assert es[0] == LogWrite(lo / MAXOPBLOCKS, lo) && es[1..] == FillEvents(lo + 1, hi) + rest;
      FillOne(procs, c, lo);
      FillAllowed(pr, procs, lo);
      hide Step, Disciplined, Filled, FillEvents, Run, DisciplinedRun;
      OneStep(pr, Filled(procs, lo), c, es, Filled(procs, lo + 1));
      Fill(pr, procs, c, lo + 1, hi, rest);
    }
  }

  lemma FillAllowed(pr: Premise, procs: nat, k: nat)
    requires procs >= 3 && k < LOGSIZE
    ensures Disciplined(pr, Filled(procs, k), LogWrite(k / MAXOPBLOCKS, k))
  {
  }

  lemma OneStep(pr: Premise, s: System, c: Config, es: seq<Event>, s': System)
    requires es != [] && Step(s, c, es[0]) == Next(s') && Disciplined(pr, s, es[0])
    ensures Run(s, c, es) == Run(s', c, es[1..]) && DisciplinedRun(pr, s, c, es) == DisciplinedRun(pr, s', c, es[1..])
  {
    hide Step, Disciplined;
  }

  /** begin_op admits three full-sized operations at once. */
  lemma {:induction false} BeginThree(pr: Premise, procs: nat, c: Config, rest: seq<Event>)
    requires procs >= 3
    ensures var es := [BeginOp(0), BeginOp(1), BeginOp(2)] + rest;
            && Run(Init(procs), c, es) == Run(Filled(procs, 0), c, rest)
            && DisciplinedRun(pr, Init(procs), c, es) == DisciplinedRun(pr, Filled(procs, 0), c, rest)
  {
    var es := [BeginOp(0), BeginOp(1), BeginOp(2)] + rest;
    var s0 := Init(procs);
    var s1 := System(Log([], 1, false), s0.ops[0 := Active(0, 0)]);
    var s2 := System(Log([], 2, false), s1.ops[1 := Active(0, 0)]);
    var s3 := System(Log([], 3, false), s2.ops[2 := Active(0, 0)]);
    var es1, es2 := [BeginOp(1), BeginOp(2)] + rest, [BeginOp(2)] + rest;
    assert es[1..] == es1 && es1[1..] == es2 && es2[1..] == rest;
    assert s3.ops == Filled(procs, 0).ops && s3.log.blocks == Filled(procs, 0).log.blocks;
    assert Run(s2, c, es2) == Run(s3, c, rest);
    assert Run(s1, c, es1) == Run(s2, c, es2);
    assert DisciplinedRun(pr, s2, c, es2) == DisciplinedRun(pr, s3, c, rest);
    assert DisciplinedRun(pr, s1, c, es1) == DisciplinedRun(pr, s2, c, es2);
  }

  /** Three operations fill the log up to the guard of log_write; one more call trips it. */
  lemma {:induction false} GuardTrips(pr: Premise, procs: nat, c: Config) returns (es: seq<Event>)
    requires procs >= 3 && (c.size <= LOGSIZE || pr.Blocks?)
    ensures DisciplinedRun(pr, Init(procs), c, es) && Run(Init(procs), c, es) == Panic(TooBigATransaction)
  {
    var k := if c.size == 0 then 0 else if c.size - 1 < LOGSIZE then c.size - 1 else LOGSIZE;
    var last := [if k < LOGSIZE then LogWrite(k / MAXOPBLOCKS, k) else LogWrite(0, 0)];
    var fill := FillEvents(0, k);
    es := [BeginOp(0), BeginOp(1), BeginOp(2)] + (fill + last);
    BeginThree(pr, procs, c, fill + last);
    if k > 0 {
      Fill(pr, procs, c, 0, k, last);
    } else {
      assert fill + last == last;
    }
    OneTooMany(pr, procs, c, k);
    assert last[1..] == [];
    hide Step, Disciplined, FillEvents;
  }

  /** The log is full, or as full as its size allows. */
  lemma OneTooMany(pr: Premise, procs: nat, c: Config, k: nat)
    requires procs >= 3 && k <= LOGSIZE && (k == LOGSIZE || k >= c.size - 1) && (k == LOGSIZE ==> pr.Blocks?)
    ensures var e := if k < LOGSIZE then LogWrite(k / MAXOPBLOCKS, k) else LogWrite(0, 0);
            Step(Filled(procs, k), c, e) == Panic(TooBigATransaction) && Disciplined(pr, Filled(procs, k), e)
  {
    assert k == LOGSIZE ==> Filled(procs, k).log.blocks[0] == 0;
  }

  /** Full log, three operations ending one after another. */
  function Ending(procs: nat, k: nat): System
    requires procs >= 3 && k <= 3
  {
    System(Log(seq(LOGSIZE, (i: nat) => i), 3 - k, k == 3),
           seq(procs, (i: nat) => if k <= i < 3 then Active(MAXOPBLOCKS, MAXOPBLOCKS) else Idle))
  }

  lemma EndOne(procs: nat, c: Config, k: nat)
    requires procs >= 3 && k < 3
    ensures Step(Ending(procs, k), c, EndOp(k)) == Next(Ending(procs, k + 1))
  {
    assert Ending(procs, k).ops[k := Idle] == Ending(procs, k + 1).ops;
  }

  const ENDINGS: seq<Event> := [EndOp(0), EndOp(1), EndOp(2), CommitDone]

  lemma EndingsTrip(pr: Premise, procs: nat, c: Config)
    requires procs >= 3 && c.nbuf <= LOGSIZE
    ensures DisciplinedRun(pr, Ending(procs, 0), c, ENDINGS) && Run(Ending(procs, 0), c, ENDINGS) == Panic(NoBuffers)
  {
    var e3 := [CommitDone];
    var e2 := [EndOp(2)] + e3;
    var e1 := [EndOp(1)] + e2;
    LastOnes(pr, procs, c, ENDINGS, e1, 0);
    LastOnes(pr, procs, c, e1, e2, 1);
    LastOnes(pr, procs, c, e2, e3, 2);
    assert Step(Ending(procs, 3), c, CommitDone) == Panic(NoBuffers);
  }

  /** Three operations fill the log; the commit that follows the last end_op finds no buffer. */
  lemma {:induction false} CommitTrips(pr: Premise, procs: nat, c: Config) returns (es: seq<Event>)
    requires procs >= 3 && c.size > LOGSIZE && c.nbuf <= LOGSIZE
    ensures DisciplinedRun(pr, Init(procs), c, es) && Run(Init(procs), c, es) == Panic(NoBuffers)
  {
    hide Run, DisciplinedRun, Step;
    var fill := FillEvents(0, LOGSIZE);
    es := [BeginOp(0), BeginOp(1), BeginOp(2)] + (fill + ENDINGS);
    BeginThree(pr, procs, c, fill + ENDINGS);
    Fill(pr, procs, c, 0, LOGSIZE, ENDINGS);
    assert Filled(procs, LOGSIZE).ops == Ending(procs, 0).ops;
    EndingsTrip(pr, procs, c);
  }

  lemma LastOnes(pr: Premise, procs: nat, c: Config, es: seq<Event>, rest: seq<Event>, k: nat)
    requires procs >= 3 && k < 3 && es == [EndOp(k)] + rest
    ensures Run(Ending(procs, k), c, es) == Run(Ending(procs, k + 1), c, rest)
    ensures DisciplinedRun(pr, Ending(procs, k), c, es) == DisciplinedRun(pr, Ending(procs, k + 1), c, rest)
  {
    EndOne(procs, c, k);
    assert es[1..] == rest;
  }

  /** If operations are limited by log_write calls, no run panics exactly when the log area has
      LOGSIZE entry blocks beside its header and commit has a buffer beside the LOGSIZE it pins. */
  lemma PanicFreeIffRoom(procs: nat, c: Config)
    requires procs >= 3
    ensures (forall es :: DisciplinedRun(Calls, Init(procs), c, es) ==> !Run(Init(procs), c, es).Panic?)
            <==> c.size > LOGSIZE && c.nbuf > LOGSIZE
  {
    if c.size > LOGSIZE && c.nbuf > LOGSIZE {
      forall es | DisciplinedRun(Calls, Init(procs), c, es)
        ensures !Run(Init(procs), c, es).Panic?
      {
        IdleReserves(procs);
        RunKeepsInv(Calls, Init(procs), c, es);
      }
    } else if c.size <= LOGSIZE {
      var es := GuardTrips(Calls, procs, c);
    } else {
      var es := CommitTrips(Calls, procs, c);
    }
  }

  /** With the shipped number of buffers every log size has a run that panics, even if no other
      process holds a buffer. */
  lemma ShippedCanPanic(procs: nat, size: nat) returns (es: seq<Event>)
    requires procs >= 3
    ensures DisciplinedRun(Calls, Init(procs), Config(size, NBUF), es)
    ensures Run(Init(procs), Config(size, NBUF), es) == Panic(if size <= LOGSIZE then TooBigATransaction else NoBuffers)
  {
    if size <= LOGSIZE {
      es := GuardTrips(Calls, procs, Config(size, NBUF));
    } else {
      es := CommitTrips(Calls, procs, Config(size, NBUF));
    }
  }

  /** If operations are limited by the blocks they add, no log size is long enough:
      log_write tests for a full log before it looks for an entry to absorb into. */
  lemma AbsorbedWriteCanPanic(procs: nat, c: Config) returns (es: seq<Event>)
    requires procs >= 3
    ensures DisciplinedRun(Blocks, Init(procs), c, es)
    ensures Run(Init(procs), c, es) == Panic(TooBigATransaction)
  {
    es := GuardTrips(Blocks, procs, c);
  }

  // When begin_op admits.

  /** With no operation in progress and none being committed, the log is empty. */
  predicate Drained(s: System) {
    !s.log.committing && s.log.outstanding == 0 ==> s.log.blocks == []
  }

  lemma KeepsDrained(s: System, c: Config, e: Event)
    requires Drained(s)
    ensures Step(s, c, e).Next? ==> Drained(Step(s, c, e).s)
  {
  }

  lemma {:induction false} RunDrained(s: System, c: Config, es: seq<Event>)
    requires Drained(s)
    ensures Run(s, c, es).Next? ==> Drained(Run(s, c, es).s)
    decreases |es|
  {
    hide Step, Drained;
    if es != [] {
      KeepsDrained(s, c, es[0]);
      match Step(s, c, es[0]) {
        case Panic(_) =>
        case Sleep => RunDrained(s, c, es[1..]);
        case Next(s') => RunDrained(s', c, es[1..]);
      }
    }
  }

  /** In every run, a process outside operations is admitted by begin_op exactly if no commit is in
      progress and the log has room for what it holds and MAXOPBLOCKS for each operation, the new one
      included; in particular always when nothing is going on. */
  lemma AdmitsIff(pr: Premise, procs: nat, c: Config, es: seq<Event>, p: nat)
    requires DisciplinedRun(pr, Init(procs), c, es) && Run(Init(procs), c, es).Next? && p < |Run(Init(procs), c, es).s.ops|
    requires Run(Init(procs), c, es).s.ops[p].Idle?
    ensures var s := Run(Init(procs), c, es).s;
            && (Step(s, c, BeginOp(p)).Next? <==>
                  !s.log.committing && |s.log.blocks| + MAXOPBLOCKS * (ActiveOps(s.ops) + 1) <= LOGSIZE)
            && (!s.log.committing && (forall q :: 0 <= q < |s.ops| ==> s.ops[q].Idle?) ==> Step(s, c, BeginOp(p)).Next?)
  {
    ReachableIsSafe(pr, procs, c, es);
    RunDrained(Init(procs), c, es);
    NoneActive(Run(Init(procs), c, es).s.ops);
    hide Run, DisciplinedRun, Reserved, Distinct, ActiveOps;
  }

  lemma {:induction false} NoneActive(ops: seq<Op>)
    ensures ActiveOps(ops) == 0 <==> forall q :: 0 <= q < |ops| ==> ops[q].Idle?
  {
    if ops != [] {
      NoneActive(ops[1..]);
      assert forall q :: 0 <= q < |ops| - 1 ==> ops[1..][q] == ops[q + 1];
      assert (forall q :: 0 <= q < |ops| ==> ops[q].Idle?) <==> ops[0].Idle? && forall q :: 0 <= q < |ops[1..]| ==> ops[1..][q].Idle?;
    }
  }

  /** Who may call log_write: with room in the log, the call panics as outside a transaction exactly
      if no process is in an operation, whether or not the caller is. */
  lemma OutsideIff(s: System, c: Config, p: nat, b: nat)
    requires Inv(s) && p < |s.ops| && |s.log.blocks| < LOGSIZE && |s.log.blocks| < c.size - 1
    ensures Step(s, c, LogWrite(p, b)) == Panic(OutsideOfTrans) <==> forall q :: 0 <= q < |s.ops| ==> s.ops[q].Idle?
  {
    NoneActive(s.ops);
  }

  /** Every run, on any log size: either log_write found the log full or a commit found no buffer,
      or the log plus all unspent reservations fits, logged block numbers are distinct, and a commit is
      in progress only with no operation outstanding, so end_op never panics. */
  lemma ReachableIsSafe(pr: Premise, procs: nat, c: Config, es: seq<Event>)
    requires DisciplinedRun(pr, Init(procs), c, es)
    ensures var r := Run(Init(procs), c, es);
            && !r.Sleep?
            && (r.Panic? ==> r.cause.TooBigATransaction? || r.cause.NoBuffers?)
            && (r.Next? ==>
                  && 0 <= Reserved(r.s.ops) <= LOGSIZE - |r.s.log.blocks|
                  && Distinct(r.s.log.blocks)
                  && r.s.log.outstanding == ActiveOps(r.s.ops)
                  && (r.s.log.committing ==> r.s.log.outstanding == 0))
  {
    IdleReserves(procs);
    RunKeepsInv(pr, Init(procs), c, es);
    NeverSleep(Init(procs), c, es);
    if Run(Init(procs), c, es).Next? {
      ReservedBounds(Run(Init(procs), c, es).s.ops);
    }
  }

  lemma {:induction false} NeverSleep(s: System, c: Config, es: seq<Event>)
    ensures !Run(s, c, es).Sleep?
    decreases |es|
  {
    if es != [] {
      var r := Step(s, c, es[0]);
      NeverSleep(if r.Next? then r.s else s, c, es[1..]);
    }
  }
}
