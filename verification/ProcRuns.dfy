/** Every run over the process table: the critical sections of ProcTable interleaved
    in any order by any processes, with fork's unlocked steps in between. */
module ProcRuns {
  import opened ProcTable

  /** How far fork has got with the entry it is building. */
  datatype Build = None | Allocated(who: nat) | Stamped(who: nat) | Parented(who: nat)

  /** Ticks at which an entry was seen running, sleeping and ready since its ctime. */
  datatype Seen = Seen(ran: nat, slept: nat, ready: nat)

  /** One tick more in this state. */
  function Saw(h: Seen, st: PState): Seen {
    if st == Running then h.(ran := h.ran + 1)
    else if st == Sleeping then h.(slept := h.slept + 1)
    else if st == Runnable then h.(ready := h.ready + 1)
    else h
  }

  /** The table, plus what the model remembers about it: who is building which entry, ticks
      spent as an embryo since ctime, in which states ticks have seen it, the tick of the last
      exit, the pids that have exited and the pids wait has returned, in order. */
  datatype System = System(ps: seq<Proc>, nextpid: nat, ticks: nat, init: nat,
                           build: seq<Build>, embryo: seq<nat>, seen: seq<Seen>, exited: seq<nat>, ended: set<nat>, reaped: seq<nat>)

  datatype Event =
    | ForkAlloc(p: nat)          // allocproc takes an entry
    | ForkStamp(i: nat)          // allocproc sets ctime and clears the counters
    | ForkParent(i: nat)         // fork sets parent
    | ForkFail(i: nat)           // out of memory: the entry is given back
    | ForkDone(i: nat)           // the child becomes runnable
    | Exit(p: nat)
    | Wait(p: nat, stat: bool)   // one scan of wait or wait_stat
    | SleepOn(p: nat, c: nat)
    | Wakeup(c: nat)
    | Kill(pid: nat)
    | Schedule(i: nat)
    | Yield(p: nat)
    | Tick

  predicate Forking(build: seq<Build>, p: int) {
    exists i :: 0 <= i < |build| && build[i].None? == false && build[i].who == p
  }

  /** The process is running its own code, outside fork. */
  predicate AtLarge(s: System, p: nat) {
    p < |s.ps| && s.ps[p].state == Running && !Forking(s.build, p)
  }

  predicate Enabled(s: System, e: Event) {
    match e
    case ForkAlloc(p) => AtLarge(s, p) && FirstUnused(s.ps, 0) < |s.ps|
    case ForkStamp(i) => i < |s.ps| == |s.build| && s.build[i].Allocated?
    case ForkParent(i) => i < |s.ps| == |s.build| && s.build[i].Stamped?
    case ForkFail(i) => i < |s.ps| == |s.build| && (s.build[i].Allocated? || s.build[i].Stamped?)
    case ForkDone(i) => i < |s.ps| == |s.build| && s.build[i].Parented?
    case Exit(p) => AtLarge(s, p) && p != s.init
    case Wait(p, _) => AtLarge(s, p)
    case SleepOn(p, _) => AtLarge(s, p)
    case Wakeup(_) => true
    case Kill(_) => true
    case Schedule(i) => i < |s.ps| && s.ps[i].state == Runnable
    case Yield(p) => p < |s.ps| && s.ps[p].state == Running
    case Tick => true
  }

  predicate Sized(s: System) {
    |s.ps| == |s.build| == |s.embryo| == |s.seen| == |s.exited|
  }

  function Next(s: System, e: Event): System
    requires Enabled(s, e) && Sized(s)
  {
    match e
    case ForkAlloc(p) =>
      var i := FirstUnused(s.ps, 0);
      s.(ps := Alloced(s.ps, s.nextpid), nextpid := s.nextpid + 1, build := s.build[i := Allocated(p)])
    case ForkStamp(i) =>
      s.(ps := s.ps[i := s.ps[i].(ctime := s.ticks, stime := 0, retime := 0, rutime := 0, ttime := 0)],
         build := s.build[i := Stamped(s.build[i].who)], embryo := s.embryo[i := 0], seen := s.seen[i := Seen(0, 0, 0)])
    case ForkParent(i) => s.(ps := s.ps[i := s.ps[i].(parent := s.build[i].who)], build := s.build[i := Parented(s.build[i].who)])
    case ForkFail(i) => s.(ps := s.ps[i := s.ps[i].(state := Unused)], build := s.build[i := None])
    case ForkDone(i) => s.(ps := s.ps[i := s.ps[i].(state := Runnable)], build := s.build[i := None])
    case Exit(p) => s.(ps := Exited(s.ps, p, s.init, s.ticks), exited := s.exited[p := s.ticks], ended := s.ended + {s.ps[p].pid})
    case Wait(p, stat) =>
      var c := FirstZombieChild(s.ps, p, 0);
      s.(ps := Waited(s.ps, p, stat), reaped := if c < |s.ps| then s.reaped + [s.ps[c].pid] else s.reaped)
    case SleepOn(p, c) => s.(ps := s.ps[p := s.ps[p].(chan := Other(c), state := Sleeping)])
    case Wakeup(c) => s.(ps := WakeAll(s.ps, Other(c)))
    case Kill(pid) => s.(ps := KilledByPid(s.ps, pid, s.ticks))
    case Schedule(i) => s.(ps := s.ps[i := s.ps[i].(state := Running, chan := Null)])
    case Yield(p) => s.(ps := s.ps[p := s.ps[p].(state := Runnable)])
    case Tick =>
      s.(ps := TickAll(s.ps), ticks := s.ticks + 1,
         embryo := seq(|s.embryo|, i requires 0 <= i < |s.embryo| => s.embryo[i] + if s.ps[i].state == Embryo then 1 else 0),
         seen := seq(|s.seen|, i requires 0 <= i < |s.seen| => Saw(s.seen[i], s.ps[i].state)))
  }

  // The invariant, entry by entry.

  predicate Alive(st: PState) {
    st == Sleeping || st == Runnable || st == Running
  }

  predicate Started(st: PState) {
    Alive(st) || st == Zombie
  }

  /** Asleep in wait or wait_stat. */
  predicate Waiting(p: Proc) {
    p.state == Sleeping && p.chan.OnProc?
  }

  ghost predicate Shape(s: System) {
    && Sized(s)
    && s.init < |s.ps| && Alive(s.ps[s.init].state) && s.ps[s.init].parent == -1
  }

  /** Entries under construction are embryos, each built by one live process that is not in wait. */
  ghost predicate Builds(ps: seq<Proc>, build: seq<Build>)
    requires |ps| == |build|
  {
    && (forall i :: 0 <= i < |ps| ==> (ps[i].state == Embryo <==> !build[i].None?))
    && (forall i :: 0 <= i < |ps| && !build[i].None? ==>
          build[i].who < |ps| && Alive(ps[build[i].who].state) && !Waiting(ps[build[i].who]))
    && (forall i, j :: 0 <= i < j < |ps| && !build[i].None? && !build[j].None? ==> build[i].who != build[j].who)
    && (forall i :: 0 <= i < |ps| && !build[i].None? ==> ps[i].parent == if build[i].Parented? then build[i].who else -1)
  }

  /** Every started process but init has a live parent; a free entry has none. */
  ghost predicate Parents(ps: seq<Proc>, init: nat) {
    && (forall i :: 0 <= i < |ps| && ps[i].state == Unused ==> ps[i].parent == -1)
    && (forall i :: 0 <= i < |ps| && i != init && Started(ps[i].state) ==>
          0 <= ps[i].parent < |ps| && ps[i].parent != i && Alive(ps[ps[i].parent].state))
  }

  /** A process asleep in wait has a child and no zombie child. */
  ghost predicate Waiters(ps: seq<Proc>) {
    forall i :: 0 <= i < |ps| && Waiting(ps[i]) ==>
      ps[i].chan == OnProc(i) && HasChild(ps, i) && forall c :: 0 <= c < |ps| ==> !IsZombieChild(ps[c], i)
  }

  ghost predicate Inv(s: System) {
    Shape(s) && Builds(s.ps, s.build) && Parents(s.ps, s.init) && Waiters(s.ps)
  }

  // Steps that move processes between live states only.

  /** No entry changes parent, enters or leaves the live states, or falls asleep in wait. */
  ghost predicate Similar(ps: seq<Proc>, ps': seq<Proc>) {
    && |ps'| == |ps|
    && forall i :: 0 <= i < |ps| ==>
         && ps'[i].parent == ps[i].parent
         && (if Alive(ps[i].state) then Alive(ps'[i].state) else ps'[i].state == ps[i].state)
         && (Waiting(ps'[i]) ==> Waiting(ps[i]) && ps'[i].chan == ps[i].chan)
  }

  lemma SimilarKeepsInv(s: System, s': System)
    requires Inv(s) && Similar(s.ps, s'.ps) && s'.init == s.init && |s'.embryo| == |s'.seen| == |s'.exited| == |s'.build| == |s.build|
    requires forall i :: 0 <= i < |s.build| ==>
               && (s.build[i].None? <==> s'.build[i].None?) && (s.build[i].Parented? <==> s'.build[i].Parented?)
               && (!s.build[i].None? ==> s'.build[i].who == s.build[i].who)
    ensures Inv(s')
  {
    hide Builds, Parents, Waiters;
    SimilarBuilds(s.ps, s.build, s'.ps, s'.build);
    SimilarParents(s.ps, s'.ps, s.init);
    SimilarWaiters(s.ps, s'.ps);
  }

  lemma SimilarBuilds(ps: seq<Proc>, build: seq<Build>, ps': seq<Proc>, build': seq<Build>)
    requires Similar(ps, ps') && |ps| == |build| == |build'| && Builds(ps, build)
    requires forall i :: 0 <= i < |build| ==>
               && (build[i].None? <==> build'[i].None?) && (build[i].Parented? <==> build'[i].Parented?)
               && (!build[i].None? ==> build'[i].who == build[i].who)
    ensures Builds(ps', build')
  {
    forall i | 0 <= i < |ps'| && !build'[i].None?
      ensures build'[i].who < |ps'| && Alive(ps'[build'[i].who].state) && !Waiting(ps'[build'[i].who])
    {
      assert build[i].who < |ps|;
    }
  }

  lemma SimilarParents(ps: seq<Proc>, ps': seq<Proc>, init: nat)
    requires Similar(ps, ps') && Parents(ps, init)
    ensures Parents(ps', init)
  {
  }

  lemma SimilarWaiters(ps: seq<Proc>, ps': seq<Proc>)
    requires Waiters(ps) && Similar(ps, ps')
    ensures Waiters(ps')
  {
    forall i | 0 <= i < |ps'| && Waiting(ps'[i])
      ensures ps'[i].chan == OnProc(i) && HasChild(ps', i) && forall c :: 0 <= c < |ps'| ==> !IsZombieChild(ps'[c], i)
    {
      var c :| 0 <= c < |ps| && ps[c].parent == i;
      assert ps'[c].parent == i;
      forall c | 0 <= c < |ps'| ensures !IsZombieChild(ps'[c], i) {
        assert !IsZombieChild(ps[c], i);
      }
    }
  }

  predicate IsLight(e: Event) {
    e.ForkStamp? || e.SleepOn? || e.Wakeup? || e.Kill? || e.Schedule? || e.Yield? || e.Tick?
  }

  lemma LightKeepsInv(s: System, e: Event)
    requires Inv(s) && Enabled(s, e) && IsLight(e)
    ensures Inv(Next(s, e))
  {
    hide Builds, Parents, Waiters;
    SimilarKeepsInv(s, Next(s, e));
  }

  // Steps that change one entry, and possibly its place in a construction.

  lemma UpdateBuilds(ps: seq<Proc>, build: seq<Build>, i: nat, q: Proc, b: Build)
    requires |ps| == |build| && Builds(ps, build) && i < |ps|
    requires q.state == Embryo <==> !b.None?
    requires !b.None? ==>
               && b.who < |ps| && b.who != i && Alive(ps[b.who].state) && !Waiting(ps[b.who])
               && q.parent == (if b.Parented? then b.who else -1)
               && forall j :: 0 <= j < |ps| && j != i && !build[j].None? ==> build[j].who != b.who
    requires (Alive(q.state) && !Waiting(q)) || (forall j :: 0 <= j < |ps| && j != i && !build[j].None? ==> build[j].who != i)
    ensures Builds(ps[i := q], build[i := b])
  {
  }

  lemma UpdateParents(ps: seq<Proc>, init: nat, i: nat, q: Proc)
    requires Parents(ps, init) && i < |ps|
    requires q.state == Unused ==> q.parent == -1
    requires i != init && Started(q.state) ==> 0 <= q.parent < |ps| && q.parent != i && Alive(ps[i := q][q.parent].state)
    requires Alive(q.state) || !Alive(ps[i].state)
    ensures Parents(ps[i := q], init)
  {
  }

  lemma UpdateWaiters(ps: seq<Proc>, i: nat, q: Proc)
    requires Waiters(ps) && i < |ps|
    requires Waiting(q) ==> q.chan == OnProc(i) && HasChild(ps, i) && forall c :: 0 <= c < |ps| ==> !IsZombieChild(ps[c], i)
    requires q.parent == ps[i].parent || forall k :: 0 <= k < |ps| && Waiting(ps[k]) ==> ps[i].parent != k
    requires q.state == Zombie ==> ps[i].state == Zombie && q.parent == ps[i].parent
    requires Waiting(q) ==> q.parent == ps[i].parent
    ensures Waiters(ps[i := q])
  {
    var ps' := ps[i := q];
    forall k | 0 <= k < |ps'| && Waiting(ps'[k])
      ensures ps'[k].chan == OnProc(k) && HasChild(ps', k) && forall c :: 0 <= c < |ps'| ==> !IsZombieChild(ps'[c], k)
    {
      var c :| 0 <= c < |ps| && ps[c].parent == k;
      assert ps'[c].parent == k;
      forall c | 0 <= c < |ps'| ensures !IsZombieChild(ps'[c], k) {
        assert !IsZombieChild(ps[c], k);
      }
    }
  }

  predicate IsFork(e: Event) {
    e.ForkAlloc? || e.ForkParent? || e.ForkFail? || e.ForkDone?
  }

  /** The entry that a step of fork or one scan of wait changes. */
  function Changed(s: System, e: Event): int
    requires IsFork(e) || e.Wait?
  {
    match e
    case ForkAlloc(_) => FirstUnused(s.ps, 0)
    case Wait(p, _) => var c := FirstZombieChild(s.ps, p, 0); if c < |s.ps| then c else p
    case _ => e.i
  }

  lemma ForkChanges(s: System, e: Event)
    requires Inv(s) && Enabled(s, e) && IsFork(e)
    ensures var i, s' := Changed(s, e), Next(s, e);
            && 0 <= i < |s.ps| == |s'.ps| == |s'.build| && s'.ps == s.ps[i := s'.ps[i]] && s'.build == s.build[i := s'.build[i]]
            && s.ps[i].state == (if e.ForkAlloc? then Unused else Embryo)
            && s'.ps[i].parent == (if e.ForkParent? then s.build[i].who else s.ps[i].parent)
            && s'.ps[i].state == (if e.ForkFail? then Unused else if e.ForkDone? then Runnable else Embryo)
            && (e.ForkFail? ==> s.ps[i].parent == -1)
            && (e.ForkDone? ==> 0 <= s.ps[i].parent < |s.ps| && s.ps[i].parent != i && Alive(s.ps[s.ps[i].parent].state))
  {
    hide Parents, Waiters;
  }

  lemma ForkBuilds(s: System, e: Event)
    requires Inv(s) && Enabled(s, e) && IsFork(e)
    ensures Builds(Next(s, e).ps, Next(s, e).build)
  {
    hide Waiters;
    var i, s' := Changed(s, e), Next(s, e);
    UpdateBuilds(s.ps, s.build, i, s'.ps[i], s'.build[i]);
    assert s'.ps == s.ps[i := s'.ps[i]] && s'.build == s.build[i := s'.build[i]];
  }

  lemma ForkParents(s: System, e: Event)
    requires Inv(s) && Enabled(s, e) && IsFork(e)
    ensures Parents(Next(s, e).ps, s.init) && Alive(Next(s, e).ps[s.init].state) && Next(s, e).ps[s.init].parent == -1
  {
    ForkChanges(s, e);
    hide Builds, Waiters, Next, FirstUnused, Changed;
    var i, s' := Changed(s, e), Next(s, e);
    UpdateParents(s.ps, s.init, i, s'.ps[i]);
  }

  lemma ForkWaiters(s: System, e: Event)
    requires Inv(s) && Enabled(s, e) && IsFork(e)
    ensures Waiters(Next(s, e).ps)
  {
    var i, s' := Changed(s, e), Next(s, e);
    UpdateWaiters(s.ps, i, s'.ps[i]);
    assert s'.ps == s.ps[i := s'.ps[i]];
  }

  lemma ForkKeepsInv(s: System, e: Event)
    requires Inv(s) && Enabled(s, e) && IsFork(e)
    ensures Inv(Next(s, e))
  {
    hide Builds, Parents, Waiters;
    ForkBuilds(s, e);
    ForkParents(s, e);
    ForkWaiters(s, e);
  }

  /** One scan of wait reaps a zombie child, goes to sleep, or changes nothing. */
  lemma WaitChanges(s: System, e: Event)
    requires Inv(s) && Enabled(s, e) && e.Wait?
    ensures var c, i, ps' := FirstZombieChild(s.ps, e.p, 0), Changed(s, e), Next(s, e).ps;
            && 0 <= i < |s.ps| == |ps'| && ps' == s.ps[i := ps'[i]]
            && (if c < |s.ps| then s.ps[i].state == Zombie && s.ps[i].parent == e.p && ps'[i].state == Unused && ps'[i].parent == -1
                else ps'[i] == s.ps[i] || ps'[i] == s.ps[i].(state := Sleeping, chan := OnProc(i)))
            && (c == |s.ps| && ps'[i] != s.ps[i] ==> HasChild(s.ps, i) && forall k :: 0 <= k < |s.ps| ==> !IsZombieChild(s.ps[k], i))
  {
    hide Builds, Parents, Waiters;
  }

  lemma WaitBuilds(s: System, e: Event)
    requires Inv(s) && Enabled(s, e) && e.Wait?
    ensures Builds(Next(s, e).ps, s.build)
  {
    var i, ps' := Changed(s, e), Next(s, e).ps;
    WaitChanges(s, e);
    assert s.build[i := s.build[i]] == s.build;
    hide Next, FirstZombieChild, Parents, Waiters;
    UpdateBuilds(s.ps, s.build, i, ps'[i], s.build[i]);
  }

  lemma WaitParents(s: System, e: Event)
    requires Inv(s) && Enabled(s, e) && e.Wait?
    ensures Parents(Next(s, e).ps, s.init) && Alive(Next(s, e).ps[s.init].state) && Next(s, e).ps[s.init].parent == -1
  {
    var i, ps' := Changed(s, e), Next(s, e).ps;
    WaitChanges(s, e);
    hide Next, FirstZombieChild, Builds, Waiters;
    UpdateParents(s.ps, s.init, i, ps'[i]);
  }

  lemma WaitWaiters(s: System, e: Event)
    requires Inv(s) && Enabled(s, e) && e.Wait?
    ensures Waiters(Next(s, e).ps)
  {
    var i, ps' := Changed(s, e), Next(s, e).ps;
    WaitChanges(s, e);
    hide Next, FirstZombieChild, Builds, Parents;
    UpdateWaiters(s.ps, i, ps'[i]);
  }

  lemma WaitKeepsInv(s: System, e: Event)
    requires Inv(s) && Enabled(s, e) && e.Wait?
    ensures Inv(Next(s, e))
  {
    hide Builds, Parents, Waiters;
    WaitBuilds(s, e);
    WaitParents(s, e);
    WaitWaiters(s, e);
  }

  // exit.

  /** Entry j after process p has exited. */
  lemma ExitedAt(ps: seq<Proc>, p: nat, init: nat, ticks: nat, j: nat)
    requires p < |ps| && j < |ps|
    ensures var q := Exited(ps, p, init, ticks)[j];
            var heard := ps[j].state == Sleeping &&
                         ((0 <= ps[p].parent && ps[j].chan == OnProc(ps[p].parent)) ||
                          (ps[j].chan == OnProc(init) && exists c :: 0 <= c < |ps| && IsZombieChild(ps[c], p)));
            && q.parent == (if ps[j].parent == p then init as int else ps[j].parent)
            && q.chan == ps[j].chan && q.pid == ps[j].pid && q.ctime == ps[j].ctime
            && q.stime == ps[j].stime && q.retime == ps[j].retime && q.rutime == ps[j].rutime
            && q.state == (if j == p then Zombie else if heard then Runnable else ps[j].state)
            && q.ttime == (if j == p then ticks else ps[j].ttime)
  {
    hide FirstZombieChild;
    var woken := if ps[p].parent >= 0 then WakeAll(ps, OnProc(ps[p].parent)) else ps;
    assert forall c :: 0 <= c < |ps| ==> (IsZombieChild(woken[c], p) <==> IsZombieChild(ps[c], p));
  }

  lemma ExitBuilds(s: System, p: nat)
    requires Inv(s) && Enabled(s, Exit(p))
    ensures Builds(Next(s, Exit(p)).ps, s.build)
  {
    hide Exited, Parents, Waiters;
    var ps' := Exited(s.ps, p, s.init, s.ticks);
    forall j | 0 <= j < |s.ps| ensures ps'[j].state == Embryo <==> !s.build[j].None? {
      ExitedAt(s.ps, p, s.init, s.ticks, j);
    }
    forall j | 0 <= j < |s.ps| && !s.build[j].None?
      ensures s.build[j].who < |ps'| && Alive(ps'[s.build[j].who].state) && !Waiting(ps'[s.build[j].who])
      ensures ps'[j].parent == if s.build[j].Parented? then s.build[j].who else -1
    {
      ExitedAt(s.ps, p, s.init, s.ticks, j);
      ExitedAt(s.ps, p, s.init, s.ticks, s.build[j].who);
      assert s.build[j].who != p;
    }
  }

  lemma ExitParents(s: System, p: nat)
    requires Inv(s) && Enabled(s, Exit(p))
    ensures Parents(Next(s, Exit(p)).ps, s.init)
    ensures var init := Next(s, Exit(p)).ps[s.init]; Alive(init.state) && init.parent == -1
  {
    var ps' := Exited(s.ps, p, s.init, s.ticks);
    ExitedAt(s.ps, p, s.init, s.ticks, s.init);
    forall j | 0 <= j < |s.ps|
      ensures ps'[j].state == Unused ==> ps'[j].parent == -1
      ensures j != s.init && Started(ps'[j].state) ==> 0 <= ps'[j].parent < |ps'| && ps'[j].parent != j && Alive(ps'[ps'[j].parent].state)
    {
      ExitedAt(s.ps, p, s.init, s.ticks, j);
      if 0 <= s.ps[j].parent < |s.ps| {
        ExitedAt(s.ps, p, s.init, s.ticks, s.ps[j].parent);
      }
    }
  }

  /** Whoever is still asleep in wait after p exits was asleep before, is not p's parent,
      and is not init if init adopted a zombie. */
  lemma StillWaiting(s: System, p: nat, k: nat)
    requires Inv(s) && Enabled(s, Exit(p)) && k < |s.ps| && Waiting(Exited(s.ps, p, s.init, s.ticks)[k])
    ensures Waiting(s.ps[k]) && s.ps[k].chan == Exited(s.ps, p, s.init, s.ticks)[k].chan == OnProc(k)
    ensures k != p && s.ps[p].parent != k && s.ps[p].parent != p
    ensures k == s.init ==> forall c :: 0 <= c < |s.ps| ==> !IsZombieChild(s.ps[c], p)
  {
    hide Exited, Builds;
    ExitedAt(s.ps, p, s.init, s.ticks, k);
  }

  lemma NoZombieForWaiter(s: System, p: nat, k: nat, c: nat)
    requires Inv(s) && Enabled(s, Exit(p)) && k < |s.ps| && Waiting(Exited(s.ps, p, s.init, s.ticks)[k]) && c < |s.ps|
    ensures !IsZombieChild(Exited(s.ps, p, s.init, s.ticks)[c], k)
  {
    StillWaiting(s, p, k);
    ExitedAt(s.ps, p, s.init, s.ticks, c);
    hide Exited, Builds;
    assert !IsZombieChild(s.ps[c], k);
    assert k == s.init ==> !IsZombieChild(s.ps[c], p);
  }

  lemma WaiterKeepsChild(s: System, p: nat, k: nat)
    requires Inv(s) && Enabled(s, Exit(p)) && k < |s.ps| && Waiting(Exited(s.ps, p, s.init, s.ticks)[k])
    ensures HasChild(Exited(s.ps, p, s.init, s.ticks), k)
  {
    hide Exited, Builds, Parents;
    StillWaiting(s, p, k);
    var c :| 0 <= c < |s.ps| && s.ps[c].parent == k;
    ExitedAt(s.ps, p, s.init, s.ticks, c);
    assert Exited(s.ps, p, s.init, s.ticks)[c].parent == k;
  }

  lemma ExitWaiters(s: System, p: nat)
    requires Inv(s) && Enabled(s, Exit(p))
    ensures Waiters(Next(s, Exit(p)).ps)
  {
    hide Exited, Builds, Parents, HasChild, IsZombieChild, Waiting;
    var ps' := Exited(s.ps, p, s.init, s.ticks);
    forall k | 0 <= k < |ps'| && Waiting(ps'[k])
      ensures ps'[k].chan == OnProc(k) && HasChild(ps', k) && forall c :: 0 <= c < |ps'| ==> !IsZombieChild(ps'[c], k)
    {
      StillWaiting(s, p, k);
      WaiterKeepsChild(s, p, k);
      forall c | 0 <= c < |ps'| ensures !IsZombieChild(ps'[c], k) {
        NoZombieForWaiter(s, p, k, c);
      }
    }
  }

  lemma KeepsInv(s: System, e: Event)
    requires Inv(s) && Enabled(s, e)
    ensures Inv(Next(s, e))
  {
    if IsLight(e) {
      LightKeepsInv(s, e);
    } else if IsFork(e) {
      ForkKeepsInv(s, e);
    } else if e.Wait? {
      WaitKeepsInv(s, e);
    } else {
      ExitBuilds(s, e.p);
      ExitParents(s, e.p);
      ExitWaiters(s, e.p);
      hide Builds, Parents, Waiters, Exited;
    }
  }

  // Process identifiers: every exit is answered by at most one wait.

  ghost predicate Pids(ps: seq<Proc>, nextpid: nat, ended: set<nat>, reaped: seq<nat>) {
    && (forall i :: 0 <= i < |ps| && ps[i].state != Unused ==> ps[i].pid < nextpid && ps[i].pid !in reaped)
    && (forall i, j :: 0 <= i < j < |ps| && ps[i].state != Unused && ps[j].state != Unused ==> ps[i].pid != ps[j].pid)
    && (forall i :: 0 <= i < |ps| && ps[i].state != Unused ==> (ps[i].pid in ended <==> ps[i].state == Zombie))
    && (forall a, b :: 0 <= a < b < |reaped| ==> reaped[a] != reaped[b])
    && (forall x :: x in reaped ==> x in ended)
    && (forall x :: x in ended ==> x < nextpid && (x in reaped || IsZombiePid(ps, x)))
  }

  ghost predicate IsZombiePid(ps: seq<Proc>, x: nat) {
    exists i :: 0 <= i < |ps| && ps[i].state == Zombie && ps[i].pid == x
  }

  /** Entries other than i keep their pid and stay free, in use or zombie. */
  ghost predicate SameBut(ps: seq<Proc>, ps': seq<Proc>, i: int) {
    && |ps'| == |ps|
    && forall j :: 0 <= j < |ps| && j != i ==>
         && ps'[j].pid == ps[j].pid
         && (ps'[j].state == Unused <==> ps[j].state == Unused)
         && (ps'[j].state == Zombie <==> ps[j].state == Zombie)
  }

  lemma SameZombies(ps: seq<Proc>, ps': seq<Proc>, i: int, x: nat)
    requires SameBut(ps, ps', i) && IsZombiePid(ps, x)
    requires 0 <= i < |ps| && ps[i].state == Zombie && ps[i].pid == x ==> ps'[i].state == Zombie && ps'[i].pid == x
    ensures IsZombiePid(ps', x)
  {
    var j :| 0 <= j < |ps| && ps[j].state == Zombie && ps[j].pid == x;
    assert ps'[j].state == Zombie && ps'[j].pid == x;
  }

  lemma PidsAlloc(ps: seq<Proc>, ps': seq<Proc>, i: nat, nextpid: nat, ended: set<nat>, reaped: seq<nat>)
    requires Pids(ps, nextpid, ended, reaped) && SameBut(ps, ps', i) && i < |ps|
    requires ps[i].state == Unused && ps'[i].state == Embryo && ps'[i].pid == nextpid
    ensures Pids(ps', nextpid + 1, ended, reaped)
  {
    forall x | x in ended ensures x in reaped || IsZombiePid(ps', x) {
      if x !in reaped {
        SameZombies(ps, ps', i, x);
      }
    }
  }

  /** No entry becomes a zombie or stops being one; some may be freed. */
  lemma PidsKept(ps: seq<Proc>, ps': seq<Proc>, i: int, nextpid: nat, ended: set<nat>, reaped: seq<nat>)
    requires Pids(ps, nextpid, ended, reaped) && SameBut(ps, ps', i)
    requires 0 <= i < |ps| ==> ps'[i].pid == ps[i].pid && ps[i].state == Embryo && ps'[i].state == Unused
    ensures Pids(ps', nextpid, ended, reaped)
  {
    forall x | x in ended ensures x in reaped || IsZombiePid(ps', x) {
      if x !in reaped {
        SameZombies(ps, ps', i, x);
      }
    }
  }

  lemma PidsExit(ps: seq<Proc>, ps': seq<Proc>, i: nat, nextpid: nat, ended: set<nat>, reaped: seq<nat>)
    requires Pids(ps, nextpid, ended, reaped) && SameBut(ps, ps', i) && i < |ps|
    requires ps[i].state == Running && ps'[i].state == Zombie && ps'[i].pid == ps[i].pid
    ensures Pids(ps', nextpid, ended + {ps[i].pid}, reaped)
  {
    forall x | x in ended + {ps[i].pid} ensures x in reaped || IsZombiePid(ps', x) {
      if x !in reaped && x != ps[i].pid {
        SameZombies(ps, ps', i, x);
      }
    }
  }

  lemma PidsReap(ps: seq<Proc>, ps': seq<Proc>, i: nat, nextpid: nat, ended: set<nat>, reaped: seq<nat>)
    requires Pids(ps, nextpid, ended, reaped) && SameBut(ps, ps', i) && i < |ps|
    requires ps[i].state == Zombie && ps'[i].state == Unused
    ensures Pids(ps', nextpid, ended, reaped + [ps[i].pid])
  {
    var reaped' := reaped + [ps[i].pid];
    assert forall x :: x in reaped' <==> x in reaped || x == ps[i].pid;
    forall x | x in ended ensures x in reaped' || IsZombiePid(ps', x) {
      if x !in reaped' {
        SameZombies(ps, ps', i, x);
      }
    }
  }

  ghost predicate PidInv(s: System) {
    Pids(s.ps, s.nextpid, s.ended, s.reaped)
  }

  lemma ExitSameBut(ps: seq<Proc>, p: nat, init: nat, ticks: nat)
    requires p < |ps|
    ensures SameBut(ps, Exited(ps, p, init, ticks), p)
    ensures var q := Exited(ps, p, init, ticks)[p]; q.state == Zombie && q.pid == ps[p].pid
  {
    forall j | 0 <= j < |ps| ensures ExitPid(ps[j], Exited(ps, p, init, ticks)[j], j == p) {
      ExitedAt(ps, p, init, ticks, j);
    }
    hide Exited;
  }

  ghost predicate ExitPid(q: Proc, q': Proc, self: bool) {
    && q'.pid == q.pid
    && (if self then q'.state == Zombie else (q'.state == Unused <==> q.state == Unused) && (q'.state == Zombie <==> q.state == Zombie))
  }

  predicate ChangesPids(s: System, e: Event) {
    e.ForkAlloc? || e.ForkFail? || e.Exit? || (e.Wait? && FirstZombieChild(s.ps, e.p, 0) < |s.ps|)
  }

  ghost predicate SamePid(q: Proc, q': Proc) {
    q'.pid == q.pid && (q'.state == Unused <==> q.state == Unused) && (q'.state == Zombie <==> q.state == Zombie)
  }

  lemma QuietAt(s: System, e: Event, j: nat)
    requires Sized(s) && Enabled(s, e) && !ChangesPids(s, e) && j < |s.ps|
    requires e.ForkDone? ==> s.ps[e.i].state == Embryo
    ensures |Next(s, e).ps| == |s.ps| && SamePid(s.ps[j], Next(s, e).ps[j])
  {
    hide Exited, HasChild, Reaped, Forking;
  }

  lemma QuietSameBut(s: System, e: Event)
    requires Inv(s) && Enabled(s, e) && !ChangesPids(s, e)
    ensures SameBut(s.ps, Next(s, e).ps, -1)
  {
    hide Parents, Waiters, Next, ChangesPids;
    assert e.ForkDone? ==> s.ps[e.i].state == Embryo;
    hide Builds;
    QuietAt(s, e, s.init);
    forall j | 0 <= j < |s.ps| ensures SamePid(s.ps[j], Next(s, e).ps[j]) {
      QuietAt(s, e, j);
    }
  }

  lemma KeepsPids(s: System, e: Event)
    requires Inv(s) && PidInv(s) && Enabled(s, e)
    ensures PidInv(Next(s, e))
  {
    hide Pids, Parents, Waiters;
    var s' := Next(s, e);
    if e.ForkAlloc? {
      PidsAlloc(s.ps, s'.ps, FirstUnused(s.ps, 0), s.nextpid, s.ended, s.reaped);
    } else if e.ForkFail? {
      assert s.ps[e.i].state == Embryo;
      PidsKept(s.ps, s'.ps, e.i, s.nextpid, s.ended, s.reaped);
    } else if e.Exit? {
      ExitSameBut(s.ps, e.p, s.init, s.ticks);
      PidsExit(s.ps, s'.ps, e.p, s.nextpid, s.ended, s.reaped);
      hide Exited, Builds;
    } else if e.Wait? && FirstZombieChild(s.ps, e.p, 0) < |s.ps| {
      PidsReap(s.ps, s'.ps, FirstZombieChild(s.ps, e.p, 0), s.nextpid, s.ended, s.reaped);
    } else {
      QuietSameBut(s, e);
      PidsKept(s.ps, s'.ps, -1, s.nextpid, s.ended, s.reaped);
      hide SameBut, Builds;
    }
  }

  // Clock ticks: the counters account for every tick of a lifetime.

  function Counted(p: Proc): nat {
    p.stime + p.retime + p.rutime
  }

  ghost predicate Timed(p: Proc, build: Build, embryo: nat, exited: nat, ticks: nat) {
    && (Alive(p.state) ==> p.ctime + Counted(p) + embryo == ticks)
    && (p.state == Embryo && !build.Allocated? ==> Counted(p) == 0 && p.ctime + embryo == ticks)
    && (p.state == Zombie ==> p.ctime + Counted(p) + embryo == exited <= p.ttime <= ticks)
  }

  ghost predicate TimeInv(s: System)
    requires Sized(s)
  {
    forall i :: 0 <= i < |s.ps| ==> Timed(s.ps[i], s.build[i], s.embryo[i], s.exited[i], s.ticks)
  }

  lemma ExitTime(s: System, p: nat, i: nat)
    requires Inv(s) && TimeInv(s) && Enabled(s, Exit(p)) && i < |s.ps|
    ensures Timed(Exited(s.ps, p, s.init, s.ticks)[i], s.build[i], s.embryo[i], if i == p then s.ticks else s.exited[i], s.ticks)
  {
    hide Exited, Builds, Parents, Waiters;
    assert Timed(s.ps[i], s.build[i], s.embryo[i], s.exited[i], s.ticks);
    ExitedAt(s.ps, p, s.init, s.ticks, i);
  }

  lemma TickTime(s: System, i: nat)
    requires Inv(s) && TimeInv(s) && i < |s.ps|
    ensures Timed(Ticked(s.ps[i]), s.build[i], s.embryo[i] + (if s.ps[i].state == Embryo then 1 else 0), s.exited[i], s.ticks + 1)
  {
    assert Timed(s.ps[i], s.build[i], s.embryo[i], s.exited[i], s.ticks);
    hide Builds, Parents, Waiters;
  }

  lemma ForkTime(s: System, e: Event, i: nat)
    requires Inv(s) && TimeInv(s) && Enabled(s, e) && i < |s.ps| && (IsFork(e) || e.ForkStamp?)
    ensures var s' := Next(s, e); Sized(s') && Timed(s'.ps[i], s'.build[i], s'.embryo[i], s'.exited[i], s'.ticks)
  {
    hide Parents, Waiters, HasChild, Killed, Exited, Reaped, AtLarge, Builds, Forking;
    assert Timed(s.ps[i], s.build[i], s.embryo[i], s.exited[i], s.ticks);
    EmbryoIff(s, i);
    hide TimeInv;
  }

  lemma EmbryoIff(s: System, i: nat)
    requires Inv(s) && i < |s.ps|
    ensures s.ps[i].state == Embryo <==> !s.build[i].None?
  {
    hide Parents, Waiters;
  }

  /** A step that leaves live processes live leaves their counters alone. */
  ghost predicate SameTime(p: Proc, p': Proc, ticks: nat) {
    && p'.ctime == p.ctime && Counted(p') == Counted(p)
    && (if Alive(p.state) then Alive(p'.state) else p'.state == p.state)
    && (p'.ttime == p.ttime || p'.ttime == ticks)
  }

  lemma LightTime(s: System, e: Event, i: nat)
    requires Sized(s) && Enabled(s, e) && i < |s.ps| && (IsLight(e) || e.Wait?) && !e.Tick? && !e.ForkStamp?
    ensures var s' := Next(s, e);
            && Sized(s') && s'.build == s.build && s'.embryo == s.embryo && s'.exited == s.exited && s'.ticks == s.ticks
            && (SameTime(s.ps[i], s'.ps[i], s.ticks) || s'.ps[i].state == Unused)
  {
    hide HasChild, Exited;
  }

  lemma StepTime(s: System, e: Event, i: nat)
    requires Inv(s) && TimeInv(s) && Enabled(s, e) && i < |s.ps| && !e.Tick? && !e.Exit?
    ensures var s' := Next(s, e); Sized(s') && Timed(s'.ps[i], s'.build[i], s'.embryo[i], s'.exited[i], s'.ticks)
  {
    hide Next, Builds, Parents, Waiters;
    if IsFork(e) || e.ForkStamp? {
      ForkTime(s, e, i);
    } else {
      LightTime(s, e, i);
      assert Timed(s.ps[i], s.build[i], s.embryo[i], s.exited[i], s.ticks);
    }
  }

  lemma KeepsTime(s: System, e: Event)
    requires Inv(s) && TimeInv(s) && Enabled(s, e)
    ensures Sized(Next(s, e)) && TimeInv(Next(s, e))
  {
    var s' := Next(s, e);
    hide Inv, Enabled, Timed;
    if e.Exit? {
      forall i | 0 <= i < |s.ps| ensures Timed(s'.ps[i], s'.build[i], s'.embryo[i], s'.exited[i], s'.ticks) {
        ExitTime(s, e.p, i);
      }
    } else if e.Tick? {
      forall i | 0 <= i < |s.ps| ensures Timed(s'.ps[i], s'.build[i], s'.embryo[i], s'.exited[i], s'.ticks) {
        TickTime(s, i);
      }
    } else {
      forall i | 0 <= i < |s.ps| ensures Timed(s'.ps[i], s'.build[i], s'.embryo[i], s'.exited[i], s'.ticks) {
        StepTime(s, e, i);
      }
      hide Next;
    }
  }

  /** When exit stamps ttime, the counters and the embryo ticks add up to ttime - ctime. */
  lemma ExitStampsLifetime(s: System, p: nat)
    requires Inv(s) && TimeInv(s) && Enabled(s, Exit(p))
    ensures var q := Next(s, Exit(p)).ps[p];
            q.state == Zombie && q.ttime == s.ticks && Counted(q) + s.embryo[p] == q.ttime - q.ctime
  {
    ExitedAt(s.ps, p, s.init, s.ticks, p);
    assert Timed(s.ps[p], s.build[p], s.embryo[p], s.exited[p], s.ticks);
    hide Exited;
  }

  /** The totals wait_stat copies out never exceed the child's lifetime. */
  lemma WaitStatWithinLifetime(s: System, p: nat)
    requires Inv(s) && TimeInv(s) && FirstZombieChild(s.ps, p, 0) < |s.ps|
    ensures var z := s.ps[FirstZombieChild(s.ps, p, 0)]; z.ctime <= z.ttime && Counted(z) <= z.ttime - z.ctime
  {
    var c := FirstZombieChild(s.ps, p, 0);
    assert Timed(s.ps[c], s.build[c], s.embryo[c], s.exited[c], s.ticks);
  }

  // Each counter is the number of ticks at which the process was seen in that state.

  ghost predicate Told(q: Proc, build: Build, h: Seen) {
    Started(q.state) || (q.state == Embryo && !build.Allocated?) ==> q.rutime == h.ran && q.stime == h.slept && q.retime == h.ready
  }

  ghost predicate SeenInv(s: System)
    requires Sized(s)
  {
    forall i :: 0 <= i < |s.ps| ==> Told(s.ps[i], s.build[i], s.seen[i])
  }

  lemma TickSeen(q: Proc, build: Build, h: Seen)
    requires Told(q, build, h)
    ensures Told(Ticked(q), build, Saw(h, q.state))
  {
  }

  lemma ExitSeen(s: System, p: nat, i: nat)
    requires Sized(s) && SeenInv(s) && Enabled(s, Exit(p)) && i < |s.ps|
    ensures Told(Exited(s.ps, p, s.init, s.ticks)[i], s.build[i], s.seen[i])
  {
    hide Exited;
    assert Told(s.ps[i], s.build[i], s.seen[i]);
    ExitedAt(s.ps, p, s.init, s.ticks, i);
  }

  lemma ForkSeen(s: System, e: Event, i: nat)
    requires Inv(s) && SeenInv(s) && Enabled(s, e) && i < |s.ps| && (IsFork(e) || e.ForkStamp?)
    ensures var s' := Next(s, e); Sized(s') && Told(s'.ps[i], s'.build[i], s'.seen[i])
  {
    hide Parents, Waiters, HasChild, Killed, Exited, Reaped, AtLarge, Builds, Forking;
    assert Told(s.ps[i], s.build[i], s.seen[i]);
    EmbryoIff(s, i);
    hide SeenInv;
  }

  lemma LightSeen(s: System, e: Event, i: nat)
    requires Sized(s) && Enabled(s, e) && i < |s.ps| && (IsLight(e) || e.Wait?) && !e.Tick? && !e.ForkStamp?
    ensures var s' := Next(s, e); var q, q' := s.ps[i], s'.ps[i];
            && Sized(s') && s'.build == s.build && s'.seen == s.seen
            && (q'.state == Unused || (q'.rutime == q.rutime && q'.stime == q.stime && q'.retime == q.retime &&
                                       (if Alive(q.state) then Alive(q'.state) else q'.state == q.state)))
  {
    hide HasChild, Exited;
  }

  lemma TickSeenAt(s: System, i: nat)
    requires Sized(s) && SeenInv(s) && i < |s.ps|
    ensures var s' := Next(s, Tick); Sized(s') && Told(s'.ps[i], s'.build[i], s'.seen[i])
  {
    hide Told, Ticked, Saw;
    TickSeen(s.ps[i], s.build[i], s.seen[i]);
  }

  lemma ExitSeenAt(s: System, p: nat, i: nat)
    requires Sized(s) && SeenInv(s) && Enabled(s, Exit(p)) && i < |s.ps|
    ensures var s' := Next(s, Exit(p)); Sized(s') && Told(s'.ps[i], s'.build[i], s'.seen[i])
  {
    hide Told, Exited;
    ExitSeen(s, p, i);
  }

  lemma StepSeen(s: System, e: Event, i: nat)
    requires Inv(s) && SeenInv(s) && Enabled(s, e) && i < |s.ps|
    ensures var s' := Next(s, e); Sized(s') && Told(s'.ps[i], s'.build[i], s'.seen[i])
  {
    hide Next, Builds, Parents, Waiters, Enabled;
    if e.Exit? {
      ExitSeenAt(s, e.p, i);
    } else if e.Tick? {
      TickSeenAt(s, i);
    } else if IsFork(e) || e.ForkStamp? {
      ForkSeen(s, e, i);
    } else {
      assert Told(s.ps[i], s.build[i], s.seen[i]);
      LightSeen(s, e, i);
    }
  }

  lemma KeepsSeen(s: System, e: Event)
    requires Inv(s) && SeenInv(s) && Enabled(s, e)
    ensures Sized(Next(s, e)) && SeenInv(Next(s, e))
  {
    hide Builds, Parents, Waiters, Enabled, Told, Next;
    SameSize(s, e);
    var s' := Next(s, e);
    forall i | 0 <= i < |s'.ps| ensures Told(s'.ps[i], s'.build[i], s'.seen[i]) {
      StepSeen(s, e, i);
    }
  }

  lemma SameSize(s: System, e: Event)
    requires Sized(s) && Enabled(s, e)
    ensures Sized(Next(s, e)) && |Next(s, e).ps| == |s.ps|
  {
  }

  // All runs.

  const FREE := Proc(Unused, 0, -1, Null, false, 0, 0, 0, 0, 0)

  /** After userinit: the first process runnable in entry 0 and the rest of the table free. */
  function Boot(n: nat): System
    requires n > 0
  {
    System(seq(n, i => if i == 0 then FREE.(state := Runnable, pid := 1) else FREE), 2, 0, 0,
           seq(n, i => None), seq(n, i => 0), seq(n, i => Seen(0, 0, 0)), seq(n, i => 0), {}, [])
  }

  /** An event that cannot happen leaves the table alone. */
  function Step(s: System, e: Event): System {
    if Sized(s) && Enabled(s, e) then Next(s, e) else s
  }

  function Run(s: System, es: seq<Event>): System
    decreases |es|
  {
    if es == [] then s else Step(Run(s, es[..|es| - 1]), es[|es| - 1])
  }

  /** One runnable process without a parent in entry 0, and free entries. */
  ghost predicate Fresh(ps: seq<Proc>) {
    |ps| > 0 && ps[0] == FREE.(state := Runnable, pid := 1) && forall i :: 0 < i < |ps| ==> ps[i] == FREE
  }

  lemma FreshTable(ps: seq<Proc>, build: seq<Build>)
    requires Fresh(ps) && |build| == |ps| && forall i :: 0 <= i < |build| ==> build[i] == None
    ensures Builds(ps, build)
  {
  }

  lemma FreshParents(ps: seq<Proc>)
    requires Fresh(ps)
    ensures Parents(ps, 0)
  {
  }

  lemma FreshWaiters(ps: seq<Proc>)
    requires Fresh(ps)
    ensures Waiters(ps)
  {
  }

  lemma FreshPids(ps: seq<Proc>)
    requires Fresh(ps)
    ensures Pids(ps, 2, {}, [])
  {
  }

  lemma FreshTimes(s: System)
    requires Sized(s) && Fresh(s.ps) && s.ticks == 0 && forall i :: 0 <= i < |s.ps| ==> s.embryo[i] == 0
    ensures TimeInv(s)
  {
    forall i | 0 <= i < |s.ps| ensures Timed(s.ps[i], s.build[i], s.embryo[i], s.exited[i], s.ticks) {
      FreshEntry(s.ps, i);
      FreshTime(s.ps[i], s.build[i], s.embryo[i], s.exited[i], s.ticks);
    }
  }

  lemma FreshEntry(ps: seq<Proc>, i: nat)
    requires Fresh(ps) && i < |ps|
    ensures (ps[i].state == Unused || ps[i].state == Runnable) && ps[i].ctime == 0 && Counted(ps[i]) == 0
  {
  }

  lemma FreshTime(q: Proc, build: Build, embryo: nat, exited: nat, ticks: nat)
    requires (q.state == Unused || q.state == Runnable) && q.ctime == 0 && Counted(q) == 0 && embryo == 0 && ticks == 0
    ensures Timed(q, build, embryo, exited, ticks)
  {
  }

  lemma BootIsSafe(n: nat)
    requires n > 0
    ensures Inv(Boot(n)) && PidInv(Boot(n)) && TimeInv(Boot(n)) && SeenInv(Boot(n))
  {
    hide Builds, Parents, Waiters, Pids, TimeInv;
    var s := Boot(n);
    FreshTable(s.ps, s.build);
    FreshParents(s.ps);
    FreshWaiters(s.ps);
    FreshPids(s.ps);
    FreshTimes(s);
  }

  /** The main result: after any events in any order, a process asleep in wait has a child and
      no zombie child, started processes have live parents, every exit has been answered by
      at most one wait, every tick is accounted for, and each counter is the number of ticks at which
      the process was seen in that state. */
  lemma {:induction false} EveryRunIsSafe(n: nat, es: seq<Event>)
    requires n > 0
    ensures var s := Run(Boot(n), es); Inv(s) && PidInv(s) && TimeInv(s) && SeenInv(s)
    decreases |es|
  {
    hide PidInv, TimeInv, SeenInv, Enabled, Next, Boot, Builds, Parents, Waiters;
    if es == [] {
      BootIsSafe(n);
    } else {
      EveryRunIsSafe(n, es[..|es| - 1]);
      var s, e := Run(Boot(n), es[..|es| - 1]), es[|es| - 1];
      if Enabled(s, e) {
        KeepsInv(s, e);
        KeepsPids(s, e);
        KeepsTime(s, e);
        KeepsSeen(s, e);
      }
    }
  }

  /** What wait_stat reports of the child it reaps, in any run: the ticks at which it was ready, ran and
      slept. */
  lemma WaitReports(n: nat, es: seq<Event>, p: nat)
    requires n > 0
    ensures var s := Run(Boot(n), es); var c := FirstZombieChild(s.ps, p, 0);
            c < |s.ps| == |s.seen| ==>
              && s.ps[c].retime == s.seen[c].ready && s.ps[c].rutime == s.seen[c].ran && s.ps[c].stime == s.seen[c].slept
  {
    hide Run, Boot, Builds, Parents, Waiters, PidInv, TimeInv, FirstZombieChild;
    EveryRunIsSafe(n, es);
    var s := Run(Boot(n), es);
    var c := FirstZombieChild(s.ps, p, 0);
    if c < |s.ps| {
      assert Told(s.ps[c], s.build[c], s.seen[c]);
    }
  }

  // Killing and waking.

  /** kill marks the first entry with the pid and leaves it awake, and touches no other. */
  lemma KillMarks(s: System, pid: nat)
    requires Sized(s)
    ensures var s' := Next(s, Kill(pid)); var k := FirstPid(s.ps, pid, 0);
            && |s'.ps| == |s.ps| && (forall i :: 0 <= i < |s.ps| && i != k ==> s'.ps[i] == s.ps[i])
            && (k < |s.ps| ==> s'.ps[k].pid == pid && s'.ps[k].killed && s'.ps[k].state != Sleeping && s'.ps[k].ttime == s.ticks
                               && (s.ps[k].state != Sleeping ==> s'.ps[k].state == s.ps[k].state))
            && (k == |s.ps| ==> s'.ps == s.ps && forall i :: 0 <= i < |s.ps| ==> s.ps[i].pid != pid)
  {
  }

  /** After a wakeup nobody sleeps on the channel; its sleepers are ready and no other entry changed. */
  lemma WakeupRouses(s: System, c: nat, i: nat)
    requires Sized(s) && i < |s.ps|
    ensures var q, q' := s.ps[i], Next(s, Wakeup(c)).ps[i];
            && !(q'.state == Sleeping && q'.chan == Other(c))
            && q' == if q.state == Sleeping && q.chan == Other(c) then q.(state := Runnable) else q
  {
  }

  /** A killed process stays killed until wait gives its entry back. */
  lemma KilledStays(s: System, e: Event, i: nat)
    requires Sized(s) && Enabled(s, e) && i < |s.ps| && s.ps[i].killed
    ensures |Next(s, e).ps| == |s.ps|
    ensures Next(s, e).ps[i].killed || (e.Wait? && s.ps[i].state == Zombie && Next(s, e).ps[i].state == Unused)
  {
    hide HasChild, Exited;
    if e.Exit? {
      ExitKilled(s.ps, e.p, s.init, s.ticks, i);
    }
  }

  lemma ExitKilled(ps: seq<Proc>, p: nat, init: nat, ticks: nat, i: nat)
    requires p < |ps| && i < |ps|
    ensures Exited(ps, p, init, ticks)[i].killed == ps[i].killed
  {
    hide FirstZombieChild;
  }

  // Whether a new process starts unmarked.

  /** No free entry is marked as killed. */
  ghost predicate Clean(ps: seq<Proc>) {
    forall i :: 0 <= i < |ps| && ps[i].state == Unused ==> !ps[i].killed
  }

  /** kill does not ask whether the entry is in use, and a fork that fails does not unmark it. */
  predicate Soils(s: System, e: Event) {
    || (e.Kill? && FirstPid(s.ps, e.pid, 0) < |s.ps| && s.ps[FirstPid(s.ps, e.pid, 0)].state == Unused)
    || (e.ForkFail? && e.i < |s.ps| && s.ps[e.i].killed)
  }

  lemma ExitUnused(s: System, p: nat)
    requires Inv(s) && Enabled(s, Exit(p)) && Clean(s.ps)
    ensures Clean(Next(s, Exit(p)).ps)
  {
    hide Builds, Parents, Waiters, Exited;
    forall i | 0 <= i < |s.ps| && Exited(s.ps, p, s.init, s.ticks)[i].state == Unused ensures !Exited(s.ps, p, s.init, s.ticks)[i].killed {
      ExitedAt(s.ps, p, s.init, s.ticks, i);
      ExitKilled(s.ps, p, s.init, s.ticks, i);
    }
  }

  /** Free entries stay unmarked over a step exactly if it is not such a kill or failed fork. */
  lemma KeepsCleanIff(s: System, e: Event)
    requires Inv(s) && Enabled(s, e) && Clean(s.ps)
    ensures Clean(Next(s, e).ps) <==> !Soils(s, e)
  {
    hide Builds, Parents, Waiters, Exited, HasChild, Forking;
    var s' := Next(s, e);
    if e.Exit? {
      ExitUnused(s, e.p);
    } else if Soils(s, e) {
      var k := if e.Kill? then FirstPid(s.ps, e.pid, 0) else e.i;
      assert s'.ps[k].state == Unused && s'.ps[k].killed;
    } else {
      forall i | 0 <= i < |s'.ps| && s'.ps[i].state == Unused ensures !s'.ps[i].killed {
        CleanAt(s, e, i);
      }
    }
  }

  lemma CleanAt(s: System, e: Event, i: nat)
    requires Sized(s) && Enabled(s, e) && Clean(s.ps) && !Soils(s, e) && !e.Exit? && i < |s.ps| && Next(s, e).ps[i].state == Unused
    ensures !Next(s, e).ps[i].killed
  {
    hide Exited, HasChild, Forking;
  }

  /** fork makes the child from a free entry as it is: marked if the entry was. */
  lemma BornAsFound(s: System, p: nat)
    requires Sized(s) && Enabled(s, ForkAlloc(p))
    ensures var k := FirstUnused(s.ps, 0); Next(s, ForkAlloc(p)).ps[k].killed == s.ps[k].killed
  {
  }

  /** The first process is at large, and entry 1, free, is marked. */
  ghost predicate Marked(s: System) {
    && Sized(s) && |s.ps| > 1 && s.nextpid == 2 && s.ps[0].state == Running
    && s.ps[1].state == Unused && s.ps[1].killed && forall i :: 0 <= i < |s.build| ==> s.build[i].None?
  }

  lemma MarkEntry(n: nat) returns (es: seq<Event>, s: System)
    requires n > 1
    ensures Run(Boot(n), es) == s && Marked(s) && |s.ps| == n
  {
    var s0 := Boot(n);
    assert Run(s0, []) == s0;
    assert FirstPid(s0.ps, 0, 0) == 1;
    var s1 := StepTo(n, [], s0, Kill(0));
    s := StepTo(n, [] + [Kill(0)], s1, Schedule(0));
    es := [] + [Kill(0)] + [Schedule(0)];
  }

  lemma ForkMarked(s: System)
    requires Marked(s)
    ensures Enabled(s, ForkAlloc(0))
    ensures var s' := Next(s, ForkAlloc(0));
            && Sized(s') && |s'.ps| == |s.ps| && s'.build[1].Allocated? && s'.ps[1].killed && s'.ps[1].pid == 2
  {
    assert FirstUnused(s.ps, 0) == 1;
    assert !Forking(s.build, 0);
  }

  lemma FinishMarked(n: nat, es: seq<Event>, s: System) returns (es': seq<Event>, s': System)
    requires n > 1 && Run(Boot(n), es) == s && Sized(s) && |s.ps| == n && s.build[1].Allocated? && s.ps[1].killed && s.ps[1].pid == 2
    ensures Run(Boot(n), es') == s' && |s'.ps| == n && s'.ps[1].state == Runnable && s'.ps[1].killed && s'.ps[1].pid == 2
  {
    hide Run, Boot;
    var s1 := StepTo(n, es, s, ForkStamp(1));
    var s2 := StepTo(n, es + [ForkStamp(1)], s1, ForkParent(1));
    s' := StepTo(n, es + [ForkStamp(1)] + [ForkParent(1)], s2, ForkDone(1));
    es' := es + [ForkStamp(1)] + [ForkParent(1)] + [ForkDone(1)];
  }

  /** kill(0) at boot marks a free entry, and the next process starts out killed. */
  lemma BornKilled(n: nat) returns (es: seq<Event>)
    requires n > 1
    ensures var s := Run(Boot(n), es); |s.ps| == n && s.ps[1].state == Runnable && s.ps[1].killed && s.ps[1].pid == 2
  {
    hide Run, Boot;
    var s;
    es, s := MarkEntry(n);
    ForkMarked(s);
    var s' := StepTo(n, es, s, ForkAlloc(0));
    hide Next;
    es, s := FinishMarked(n, es + [ForkAlloc(0)], s');
  }

  lemma StepTo(n: nat, es: seq<Event>, s: System, e: Event) returns (s': System)
    requires n > 0 && Run(Boot(n), es) == s && Sized(s) && Enabled(s, e)
    ensures Run(Boot(n), es + [e]) == s' == Next(s, e)
  {
    s' := Next(s, e);
    assert (es + [e])[..|es|] == es;
  }
}
