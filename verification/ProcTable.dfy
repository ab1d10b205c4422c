/** The process table of HW3/proc.c: what one critical section under ptable.lock does to it.
    What every interleaving of them keeps is in ProcRuns. */
module ProcTable {
  datatype PState = Unused | Embryo | Sleeping | Runnable | Running | Zombie

  /** A sleep channel: a struct proc (wait) or anything else. */
  datatype Chan = Null | OnProc(i: nat) | Other(c: nat)

  /** The fields of struct proc that the scheduler-level code works on; parent is a table
      index, or -1 for a null pointer. */
  datatype Proc = Proc(state: PState, pid: nat, parent: int, chan: Chan, killed: bool,
                       ctime: nat, ttime: nat, stime: nat, retime: nat, rutime: nat)

  // The effects of the table scans, entry by entry.

  function Woken(p: Proc, chan: Chan): Proc {
    if p.state == Sleeping && p.chan == chan then p.(state := Runnable) else p
  }

  function WakeAll(ps: seq<Proc>, chan: Chan): (r: seq<Proc>)
    ensures |r| == |ps|
    ensures forall i :: 0 <= i < |ps| ==> r[i] == Woken(ps[i], chan)
  {
    seq(|ps|, i requires 0 <= i < |ps| => Woken(ps[i], chan))
  }

  function Adopted(p: Proc, old_: int, init: int): Proc {
    if p.parent == old_ then p.(parent := init) else p
  }

  function Reparent(ps: seq<Proc>, p: int, init: int): (r: seq<Proc>)
    ensures |r| == |ps|
    ensures forall i :: 0 <= i < |ps| ==> r[i] == Adopted(ps[i], p, init)
  {
    seq(|ps|, i requires 0 <= i < |ps| => Adopted(ps[i], p, init))
  }

  function Ticked(p: Proc): Proc {
    match p.state
    case Running => p.(rutime := p.rutime + 1)
    case Sleeping => p.(stime := p.stime + 1)
    case Runnable => p.(retime := p.retime + 1)
    case _ => p
  }

  function TickAll(ps: seq<Proc>): (r: seq<Proc>)
    ensures |r| == |ps|
    ensures forall i :: 0 <= i < |ps| ==> r[i] == Ticked(ps[i])
  {
    seq(|ps|, i requires 0 <= i < |ps| => Ticked(ps[i]))
  }

  predicate IsZombieChild(p: Proc, parent: int) {
    p.parent == parent && p.state == Zombie
  }

  /** The first entry at or after k that satisfies the scan's test, or |ps|. */
  function FirstUnused(ps: seq<Proc>, k: nat): (i: nat)
    requires k <= |ps|
    ensures k <= i <= |ps|
    ensures forall j :: k <= j < i ==> ps[j].state != Unused
    ensures i < |ps| ==> ps[i].state == Unused
    decreases |ps| - k
  {
    if k == |ps| || ps[k].state == Unused then k else FirstUnused(ps, k + 1)
  }

  function FirstZombieChild(ps: seq<Proc>, parent: int, k: nat): (i: nat)
    requires k <= |ps|
    ensures k <= i <= |ps|
    ensures forall j :: k <= j < i ==> !IsZombieChild(ps[j], parent)
    ensures i < |ps| ==> IsZombieChild(ps[i], parent)
    decreases |ps| - k
  {
    if k == |ps| || IsZombieChild(ps[k], parent) then k else FirstZombieChild(ps, parent, k + 1)
  }

  function FirstPid(ps: seq<Proc>, pid: nat, k: nat): (i: nat)
    requires k <= |ps|
    ensures k <= i <= |ps|
    ensures forall j :: k <= j < i ==> ps[j].pid != pid
    ensures i < |ps| ==> ps[i].pid == pid
    decreases |ps| - k
  {
    if k == |ps| || ps[k].pid == pid then k else FirstPid(ps, pid, k + 1)
  }

  predicate HasChild(ps: seq<Proc>, parent: int) {
    exists i :: 0 <= i < |ps| && ps[i].parent == parent
  }

  /** exit, from waking the parent to becoming a zombie. */
  function Exited(ps: seq<Proc>, p: nat, init: int, ticks: nat): (r: seq<Proc>)
    requires p < |ps|
    ensures |r| == |ps|
  {
    var woken := if ps[p].parent >= 0 then WakeAll(ps, OnProc(ps[p].parent)) else ps;
    var adopted := Reparent(woken, p, init);
    var heard := if FirstZombieChild(woken, p, 0) < |ps| && init >= 0 then WakeAll(adopted, OnProc(init)) else adopted;
    heard[p := heard[p].(state := Zombie, ttime := ticks)]
  }

  function Reaped(p: Proc, stat: bool): Proc {
    var q := p.(state := Unused, pid := 0, parent := -1, killed := false);
    if stat then q.(retime := 0, rutime := 0, ttime := 0, ctime := 0, stime := 0) else q
  }

  function Killed(p: Proc, ticks: nat): Proc {
    p.(killed := true, ttime := ticks, state := if p.state == Sleeping then Runnable else p.state)
  }

  /** allocproc, up to the release of ptable.lock. */
  function Alloced(ps: seq<Proc>, nextpid: nat): (r: seq<Proc>)
    ensures |r| == |ps|
  {
    var k := FirstUnused(ps, 0);
    if k < |ps| then ps[k := ps[k].(state := Embryo, pid := nextpid)] else ps
  }

  /** One scan of wait (stat false) or wait_stat (stat true) by process p. */
  function Waited(ps: seq<Proc>, p: nat, stat: bool): (r: seq<Proc>)
    requires p < |ps|
    ensures |r| == |ps|
  {
    var c := FirstZombieChild(ps, p, 0);
    if c < |ps| then ps[c := Reaped(ps[c], stat)]
    else if !HasChild(ps, p) || ps[p].killed then ps
    else ps[p := ps[p].(chan := OnProc(p), state := Sleeping)]
  }

  function KilledByPid(ps: seq<Proc>, pid: nat, ticks: nat): (r: seq<Proc>)
    ensures |r| == |ps|
  {
    var k := FirstPid(ps, pid, 0);
    if k < |ps| then ps[k := Killed(ps[k], ticks)] else ps
  }

  // The table as the kernel updates it.

  /** What wait and wait_stat come to after one scan. */
  datatype WaitResult = Reap(pid: nat, retime: nat, rutime: nat, stime: nat) | NoChildren | Slept

  class Ptable {
    var procs: seq<Proc>
    var nextpid: nat
    var ticks: nat
    var init: int

    constructor (procs: seq<Proc>, nextpid: nat, ticks: nat, init: int)
      ensures this.procs == procs && this.nextpid == nextpid && this.ticks == ticks && this.init == init
    {
      this.procs, this.nextpid, this.ticks, this.init := procs, nextpid, ticks, init;
    }

    /** allocproc, up to the release of ptable.lock. */
    method Allocproc() returns (i: int)
      modifies `procs, `nextpid
      ensures procs == Alloced(old(procs), old(nextpid))
      ensures var k := FirstUnused(old(procs), 0);
              if k < |old(procs)| then i == k && nextpid == old(nextpid) + 1 else i == -1 && nextpid == old(nextpid)
    {
      i := 0;
      while i < |procs|
        invariant 0 <= i <= |procs| && FirstUnused(procs, 0) == FirstUnused(procs, i)
      {
        if procs[i].state == Unused {
          procs := procs[i := procs[i].(state := Embryo, pid := nextpid)];
          nextpid := nextpid + 1;
          return;
        }
        i := i + 1;
      }
      i := -1;
    }

    /** wakeup1 */
    method Wakeup1(chan: Chan)
      modifies `procs
      ensures procs == WakeAll(old(procs), chan)
    {
      var i := 0;
      while i < |procs|
        invariant 0 <= i <= |procs| == |old(procs)|
        invariant forall j :: 0 <= j < |procs| ==> procs[j] == if j < i then Woken(old(procs)[j], chan) else old(procs)[j]
      {
        if procs[i].state == Sleeping && procs[i].chan == chan {
          procs := procs[i := procs[i].(state := Runnable)];
        }
        i := i + 1;
      }
    }

    /** update_stat, with the tick that precedes it. */
    method Tick()
      modifies `procs, `ticks
      ensures procs == TickAll(old(procs)) && ticks == old(ticks) + 1
    {
      ticks := ticks + 1;
      var i := 0;
      while i < |procs|
        invariant 0 <= i <= |procs| == |old(procs)|
        invariant forall j :: 0 <= j < |procs| ==> procs[j] == if j < i then Ticked(old(procs)[j]) else old(procs)[j]
        modifies `procs
      {
        if procs[i].state == Running {
          procs := procs[i := procs[i].(rutime := procs[i].rutime + 1)];
        } else if procs[i].state == Sleeping {
          procs := procs[i := procs[i].(stime := procs[i].stime + 1)];
        } else if procs[i].state == Runnable {
          procs := procs[i := procs[i].(retime := procs[i].retime + 1)];
        }
        i := i + 1;
      }
    }

    /** kill */
    method Kill(pid: nat) returns (r: int)
      modifies `procs
      ensures procs == KilledByPid(old(procs), pid, ticks)
      ensures r == if FirstPid(old(procs), pid, 0) < |old(procs)| then 0 else -1
    {
      var i := 0;
      while i < |procs|
        invariant 0 <= i <= |procs| && FirstPid(procs, pid, 0) == FirstPid(procs, pid, i)
      {
        if procs[i].pid == pid {
          var state := if procs[i].state == Sleeping then Runnable else procs[i].state;
          procs := procs[i := procs[i].(killed := true, ttime := ticks, state := state)];
          return 0;
        }
        i := i + 1;
      }
      return -1;
    }

    /** One pass of the loop of wait (stat false) or wait_stat (stat true), for process p. */
    method Wait(p: nat, stat: bool) returns (r: WaitResult)
      requires p < |procs|
      modifies `procs
      ensures procs == Waited(old(procs), p, stat)
      ensures var c := FirstZombieChild(old(procs), p, 0);
              if c < |old(procs)| then
                var z := old(procs)[c];
                r == Reap(z.pid, z.retime, z.rutime, z.stime)
              else r == if !HasChild(old(procs), p) || old(procs)[p].killed then NoChildren else Slept
    {
      var havekids := false;
      var i := 0;
      while i < |procs|
        invariant 0 <= i <= |procs|
        invariant FirstZombieChild(procs, p, 0) == FirstZombieChild(procs, p, i)
        invariant havekids <==> exists j :: 0 <= j < i && procs[j].parent == p
      {
        if procs[i].parent == p {
          havekids := true;
          if procs[i].state == Zombie {
            var z := procs[i];
            r := Reap(z.pid, z.retime, z.rutime, z.stime);
            procs := procs[i := Reaped(z, stat)];
            return;
          }
        }
        i := i + 1;
      }
      if !havekids || procs[p].killed {
        return NoChildren;
      }
      procs := procs[p := procs[p].(chan := OnProc(p), state := Sleeping)];
      return Slept;
    }

    /** The critical section of exit. */
    method Exit(p: nat)
      requires p < |procs| && 0 <= procs[p].parent && 0 <= init
      modifies `procs
      ensures procs == Exited(old(procs), p, init, ticks)
    {
      hide HalfWay, Exited, WakeAll;
      Wakeup1(OnProc(procs[p].parent));
      ghost var woken := procs;
      HalfNone(woken, p, init);
      var i := 0;
      while i < |procs|
        invariant 0 <= i <= |procs| == |woken| && HalfWay(woken, procs, p, init, i)
        modifies `procs
      {
        ghost var before := procs;
        HalfNext(woken, before, p, init, i);
        if procs[i].parent == p {
          procs := procs[i := procs[i].(parent := init)];
          if procs[i].state == Zombie {
            Wakeup1(OnProc(init));
          }
        }
        assert procs == Turn(before, p, init, i);
        i := i + 1;
      }
      HalfDone(old(procs), woken, procs, p, init, ticks);
      procs := procs[p := procs[p].(state := Zombie, ttime := ticks)];
    }
  }

  /** Entry j when exit's loop has passed i entries: children below i adopted, and init's
      sleep broken if one of them is a zombie. */
  function Half(woken: seq<Proc>, p: int, init: int, i: nat, j: nat): Proc
    requires j < |woken| && i <= |woken|
  {
    var q := if j < i then Adopted(woken[j], p, init) else woken[j];
    if FirstZombieChild(woken, p, 0) < i && init >= 0 then Woken(q, OnProc(init)) else q
  }

  /** One turn of exit's loop. */
  function Turn(ps: seq<Proc>, p: int, init: nat, i: nat): (r: seq<Proc>)
    requires i < |ps|
    ensures |r| == |ps|
  {
    if ps[i].parent != p then ps
    else
      var adopted := ps[i := ps[i].(parent := init)];
      if ps[i].state == Zombie then WakeAll(adopted, OnProc(init)) else adopted
  }

  lemma HalfNext(woken: seq<Proc>, ps: seq<Proc>, p: int, init: nat, i: nat)
    requires i < |ps| && HalfWay(woken, ps, p, init, i)
    ensures HalfWay(woken, Turn(ps, p, init, i), p, init, i + 1)
  {
    hide FirstZombieChild;
  }

  ghost predicate HalfWay(woken: seq<Proc>, ps: seq<Proc>, p: int, init: int, i: nat) {
    i <= |ps| == |woken| && forall j :: 0 <= j < |ps| ==> ps[j] == Half(woken, p, init, i, j)
  }

  lemma HalfNone(woken: seq<Proc>, p: int, init: int)
    ensures HalfWay(woken, woken, p, init, 0)
  {
  }

  lemma HalfDone(ps: seq<Proc>, woken: seq<Proc>, half: seq<Proc>, p: nat, init: nat, ticks: nat)
    requires p < |ps| && 0 <= ps[p].parent && woken == WakeAll(ps, OnProc(ps[p].parent)) && HalfWay(woken, half, p, init, |half|)
    ensures half[p := half[p].(state := Zombie, ttime := ticks)] == Exited(ps, p, init, ticks)
  {
    hide FirstZombieChild;
  }
}
