/** Pipes (HW3/pipe.c): the ring buffer with 32-bit counters as a queue, and what every
    interleaving of the regions that hold the pipe's lock keeps. */
module Pipe {
  import opened Basics

  const PIPESIZE: nat := 512

  // The queue a pipe stands for, with who is asleep on which channel.

  /** readers sleep on nread, writers on nwrite. */
  datatype State = State(queue: seq<int>, readopen: bool, writeopen: bool, readers: set<nat>, writers: set<nat>)

  /** How a region of pipewrite ends: all of it stored, given up, or asleep with taken bytes stored. */
  datatype Wrote = Done | Refused(taken: nat) | Blocked(taken: nat)

  /** How a region of piperead ends. */
  datatype Got = Bytes(bytes: seq<int>) | Interrupted | Waiting

  function Room(s: State, rest: seq<int>): nat
    requires |s.queue| <= PIPESIZE
  {
    if |rest| <= PIPESIZE - |s.queue| then |rest| else PIPESIZE - |s.queue|
  }

  /** Process p holds the lock with rest still to be stored. */
  function Write(s: State, p: nat, rest: seq<int>, killed: bool): (State, Wrote)
    requires |s.queue| <= PIPESIZE
  {
    var k := Room(s, rest);
    var s' := s.(queue := s.queue + rest[..k]);
    if k == |rest| then (s'.(readers := {}), Done)
    else if !s.readopen || killed then (s', Refused(k))
    else (s'.(readers := {}, writers := s.writers + {p}), Blocked(k))
  }

  /** Process p holds the lock and wants n bytes. */
  function Read(s: State, p: nat, n: nat, killed: bool): (State, Got) {
    if s.queue == [] && s.writeopen then
      if killed then (s, Interrupted) else (s.(readers := s.readers + {p}), Waiting)
    else
      var k := if n <= |s.queue| then n else |s.queue|;
      (s.(queue := s.queue[k..], writers := {}), Bytes(s.queue[..k]))
  }

  function Close(s: State, writable: bool): State {
    if writable then s.(writeopen := false, readers := {}) else s.(readopen := false, writers := {})
  }

  /** kill, or any other wakeup of one process. */
  function Rouse(s: State, p: nat): State {
    s.(readers := s.readers - {p}, writers := s.writers - {p})
  }

  // The ring buffer.

  /** The number of bytes between two counters that may have wrapped. */
  function Used(nread: nat, nwrite: nat): nat {
    (nwrite - nread) % UINT
  }

  function Slot(n: nat, k: nat): (i: nat)
    ensures i < PIPESIZE
  {
    (n + k) % PIPESIZE
  }

  function Ring(data: seq<int>, nread: nat, nwrite: nat): (q: seq<int>)
    requires |data| == PIPESIZE
    ensures |q| == Used(nread, nwrite)
  {
    seq(Used(nread, nwrite), k requires 0 <= k < Used(nread, nwrite) => data[Slot(nread, k)])
  }

  lemma CountersWrap(nread: nat, nwrite: nat)
    requires nread < UINT && nwrite < UINT && Used(nread, nwrite) <= PIPESIZE
    ensures nread == nwrite <==> Used(nread, nwrite) == 0
    ensures nwrite == (nread + PIPESIZE) % UINT <==> Used(nread, nwrite) == PIPESIZE
    ensures nwrite % PIPESIZE == Slot(nread, Used(nread, nwrite))
  {
  }

  lemma SlotsDistinct(n: nat, j: nat, k: nat)
    requires j < k < j + PIPESIZE
    ensures Slot(n, j) != Slot(n, k)
  {
  }

  lemma RingPush(data: seq<int>, nread: nat, nwrite: nat, b: int)
    requires |data| == PIPESIZE && nread < UINT && nwrite < UINT && Used(nread, nwrite) < PIPESIZE
    ensures var data' := data[nwrite % PIPESIZE := b];
            Ring(data', nread, (nwrite + 1) % UINT) == Ring(data, nread, nwrite) + [b]
  {
    var u := Used(nread, nwrite);
    CountersWrap(nread, nwrite);
    assert Used(nread, (nwrite + 1) % UINT) == u + 1;
    forall k: nat | k < u ensures Slot(nread, k) != nwrite % PIPESIZE {
      SlotsDistinct(nread, k, u);
    }
    hide Slot, Used;
  }

  lemma RingPop(data: seq<int>, nread: nat, nwrite: nat)
    requires |data| == PIPESIZE && nread < UINT && nwrite < UINT && 0 < Used(nread, nwrite) <= PIPESIZE
    ensures Ring(data, nread, nwrite)[0] == data[nread % PIPESIZE]
    ensures Ring(data, (nread + 1) % UINT, nwrite) == Ring(data, nread, nwrite)[1..]
  {
    var u := Used(nread, nwrite);
    assert Used((nread + 1) % UINT, nwrite) == u - 1;
    assert Slot(nread, 0) == nread % PIPESIZE;
    var old0, q := Ring(data, nread, nwrite), Ring(data, (nread + 1) % UINT, nwrite);
    forall k | 0 <= k < u - 1 ensures q[k] == old0[1..][k] {
      assert Slot((nread + 1) % UINT, k) == Slot(nread, k + 1);
    }
  }

  class Pipe {
    var data: array<int>
    var nread: nat
    var nwrite: nat
    var readopen: bool
    var writeopen: bool
    var readers: set<nat>
    var writers: set<nat>

    ghost predicate Valid()
      reads this
    {
      data.Length == PIPESIZE && nread < UINT && nwrite < UINT && Used(nread, nwrite) <= PIPESIZE
    }

    ghost function Value(): (s: State)
      requires Valid()
      reads this, data
      ensures |s.queue| <= PIPESIZE
    {
      State(Ring(data[..], nread, nwrite), readopen, writeopen, readers, writers)
    }

    /** The pipe half of pipealloc. */
    constructor ()
      ensures Valid() && fresh(data) && Value() == State([], true, true, {}, {})
    {
      data := new int[PIPESIZE];
      readopen, writeopen, nwrite, nread := true, true, 0, 0;
      readers, writers := {}, {};
    }

    method Push(b: int)
      requires Valid() && Used(nread, nwrite) < PIPESIZE
      modifies `nwrite, data
      ensures Valid() && data == old(data) && Value() == old(Value()).(queue := old(Value()).queue + [b])
    {
      RingPush(data[..], nread, nwrite, b);
      data[nwrite % PIPESIZE] := b;
      nwrite := (nwrite + 1) % UINT;
      assert data[..] == old(data[..])[old(nwrite) % PIPESIZE := b];
    }

    method Pop() returns (b: int)
      requires Valid() && 0 < Used(nread, nwrite)
      modifies `nread
      ensures Valid() && old(Value()).queue != [] && b == old(Value()).queue[0]
      ensures Value() == old(Value()).(queue := old(Value()).queue[1..])
    {
      RingPop(data[..], nread, nwrite);
      b := data[nread % PIPESIZE];
      nread := (nread + 1) % UINT;
    }

    /** pipewrite from the lock being acquired, or re-acquired after a sleep, to its release;
        the bytes of addr before from are already stored. */
    method WriteRegion(p: nat, addr: seq<int>, from: nat, killed: bool) returns (r: Wrote)
      requires Valid() && from <= |addr|
      modifies this, data
      ensures Valid() && data == old(data)
      ensures (Value(), r) == Write(old(Value()), p, addr[from..], killed)
      ensures var was, now := old(Value()), Value();
              var k := Min(|addr| - from, PIPESIZE - |was.queue|);
              && now.queue == was.queue + addr[from..from + k] && now.readopen == was.readopen && now.writeopen == was.writeopen
              && (from + k == |addr| ==> r == Done && now.readers == {} && now.writers == was.writers)
              && (from + k < |addr| ==>
                    if !was.readopen || killed then r == Refused(k) && now.readers == was.readers && now.writers == was.writers
                    else r == Blocked(k) && now.readers == {} && now.writers == was.writers + {p})
    {
      hide Ring, Slot, Used;
      ghost var s := Value();
      var i := from;
      assert addr[from..from] == [];
      while i < |addr|
        invariant from <= i <= |addr| && Valid() && data == old(data)
        invariant Value() == s.(queue := s.queue + addr[from..i])
        modifies `nwrite, `readers, `writers, data
      {
        CountersWrap(nread, nwrite);
        if nwrite == (nread + PIPESIZE) % UINT {
          assert addr[from..][..i - from] == addr[from..i];
          if !readopen || killed {
            return Refused(i - from);
          }
          readers := {};
          writers := writers + {p};
          return Blocked(i - from);
        }
        Push(addr[i]);
        assert addr[from..i + 1] == addr[from..i] + [addr[i]];
        i := i + 1;
      }
      assert addr[from..i] == addr[from..][..|addr| - from] == addr[from..];
      readers := {};
      return Done;
    }

    /** The copying loop of piperead. */
    method Take(n: nat) returns (bytes: seq<int>)
      requires Valid()
      modifies `nread
      ensures Valid() && |bytes| == Min(n, |old(Value()).queue|) && bytes + Value().queue == old(Value()).queue
      ensures Value() == old(Value()).(queue := Value().queue)
    {
      hide Ring, Slot, Used;
      ghost var s := Value();
      bytes := [];
      var i := 0;
      while i < n
        invariant 0 <= i <= n && i <= |s.queue| && Valid()
        invariant bytes == s.queue[..i] && Value() == s.(queue := s.queue[i..])
      {
        CountersWrap(nread, nwrite);
        if nread == nwrite {
          break;
        }
        var b := Pop();
        assert s.queue[i..][1..] == s.queue[i + 1..] && s.queue[..i + 1] == s.queue[..i] + [b];
        bytes := bytes + [b];
        i := i + 1;
      }
    }

    /** piperead from the lock being acquired, or re-acquired after a sleep, to its release. */
    method ReadRegion(p: nat, n: nat, killed: bool) returns (r: Got)
      requires Valid()
      modifies this
      ensures Valid() && data == old(data) && (Value(), r) == Read(old(Value()), p, n, killed)
      ensures var was, now := old(Value()), Value();
              if was.queue == [] && was.writeopen then
                now == (if killed then was else was.(readers := was.readers + {p})) && r == if killed then Interrupted else Waiting
              else
                && r.Bytes? && |r.bytes| == Min(n, |was.queue|) && r.bytes + now.queue == was.queue
                && now == was.(queue := now.queue, writers := {})
    {
      hide Ring, Slot, Used;
      ghost var s := Value();
      CountersWrap(nread, nwrite);
      if nread == nwrite && writeopen {
        if killed {
          return Interrupted;
        }
        readers := readers + {p};
        return Waiting;
      }
      var bytes := Take(n);
      writers := {};
      assert bytes == s.queue[..|bytes|] && Value().queue == s.queue[|bytes|..];
      return Bytes(bytes);
    }

    /** pipeclose; freed tells whether the page goes back to the allocator. */
    method CloseEnd(writable: bool) returns (freed: bool)
      requires Valid()
      modifies this
      ensures Valid() && data == old(data) && Value() == Close(old(Value()), writable)
      ensures readopen == (old(readopen) && writable) && writeopen == (old(writeopen) && !writable)
      ensures (if writable then readers else writers) == {} && Value().queue == old(Value()).queue
      ensures freed <==> !Value().readopen && !Value().writeopen
    {
      if writable {
        writeopen := false;
        readers := {};
      } else {
        readopen := false;
        writers := {};
      }
      freed := !readopen && !writeopen;
    }
  }

  // Every interleaving of regions.

  datatype Event =
    | Writing(p: nat, rest: seq<int>, killed: bool)
    | Reading(p: nat, n: nat, killed: bool)
    | Closing(writable: bool)
    | Rousing(p: nat)

  function Next(s: State, e: Event): State
    requires |s.queue| <= PIPESIZE
  {
    match e
    case Writing(p, rest, killed) => Write(s, p, rest, killed).0
    case Reading(p, n, killed) => Read(s, p, n, killed).0
    case Closing(writable) => Close(s, writable)
    case Rousing(p) => Rouse(s, p)
  }

  /** The bytes an event stores, and the bytes it delivers. */
  function Stored(s: State, e: Event): seq<int>
    requires |s.queue| <= PIPESIZE
  {
    if e.Writing? then e.rest[..Room(s, e.rest)] else []
  }

  function Delivered(s: State, e: Event): seq<int>
    requires |s.queue| <= PIPESIZE
  {
    if e.Reading? && Read(s, e.p, e.n, e.killed).1.Bytes? then Read(s, e.p, e.n, e.killed).1.bytes else []
  }

  /** Where a run ends, with all the bytes stored and all the bytes delivered on the way. */
  datatype Trace = Trace(end: State, stored: seq<int>, delivered: seq<int>)

  function Run(s: State, es: seq<Event>): (t: Trace)
    requires |s.queue| <= PIPESIZE
    ensures |t.end.queue| <= PIPESIZE
    decreases |es|
  {
    if es == [] then Trace(s, [], [])
    else
      var t := Run(s, es[..|es| - 1]);
      var e := es[|es| - 1];
      Trace(Next(t.end, e), t.stored + Stored(t.end, e), t.delivered + Delivered(t.end, e))
  }

  lemma StepIsFifo(s: State, e: Event)
    requires |s.queue| <= PIPESIZE
    ensures Delivered(s, e) + Next(s, e).queue == s.queue + Stored(s, e)
  {
    if e.Writing? {
      assert [] + Next(s, e).queue == s.queue + Stored(s, e);
    } else if e.Reading? {
      assert s.queue + [] == s.queue;
    }
  }

  /** FIFO: what was delivered followed by what is in the pipe is what was stored. */
  lemma {:induction false} RunIsFifo(s: State, es: seq<Event>)
    requires s.queue == []
    ensures var t := Run(s, es);
            t.delivered + t.end.queue == t.stored && t.delivered <= t.stored && |t.end.queue| <= PIPESIZE
    decreases |es|
  {
    hide Next, Stored, Delivered;
    if es != [] {
      RunIsFifo(s, es[..|es| - 1]);
      var t, e := Run(s, es[..|es| - 1]), es[|es| - 1];
      StepIsFifo(t.end, e);
      Regroup(t.delivered, Delivered(t.end, e), Next(t.end, e).queue, t.end.queue, Stored(t.end, e));
    }
  }

  lemma Regroup(a: seq<int>, b: seq<int>, q': seq<int>, q: seq<int>, d: seq<int>)
    requires b + q' == q + d
    ensures (a + b) + q' == (a + q) + d
  {
    assert (a + b) + q' == a + (b + q');
    assert (a + q) + d == a + (q + d);
  }

  /** In every run, a read that returns bytes returns as many as were asked for or are there, and they
      are the next ones stored that have not been delivered. */
  lemma ReadsInOrder(s: State, es: seq<Event>, p: nat, n: nat, killed: bool)
    requires s.queue == []
    ensures var t := Run(s, es); var r := Read(t.end, p, n, killed).1;
            var d, u := |t.delivered|, |t.stored| - |t.delivered|;
            && u >= 0
            && (r.Bytes? ==> |r.bytes| == Min(n, u) && r.bytes == t.stored[d..d + |r.bytes|])
            && (r.Bytes? <==> u > 0 || !t.end.writeopen)
  {
    RunIsFifo(s, es);
    var t := Run(s, es);
    hide Run;
    var r := Read(t.end, p, n, killed).1;
    if r.Bytes? {
      var k, d := |r.bytes|, |t.delivered|;
      assert t.stored[d..] == t.end.queue;
      assert t.stored[d..d + k] == t.stored[d..][..k];
    }
  }

  // One call of pipewrite, over all its regions.

  /** Bytes of addr that the regions of process p have stored in a run. */
  function Put(s: State, es: seq<Event>, p: nat): seq<int>
    requires |s.queue| <= PIPESIZE
    decreases |es|
  {
    if es == [] then []
    else
      var n := |es| - 1;
      Put(s, es[..n], p) + if es[n].Writing? && es[n].p == p then Stored(Run(s, es[..n]).end, es[n]) else []
  }

  /** Every region of p in the run belongs to one call that writes addr: the first starts at its
      beginning, and the next one goes on where the one before, asleep, had stopped. */
  ghost predicate OneCall(s: State, es: seq<Event>, p: nat, addr: seq<int>, at: int)
    requires |s.queue| <= PIPESIZE
    decreases |es|
  {
    if es == [] then at == 0
    else
      var n := |es| - 1;
      var e := es[n];
      if e.Writing? && e.p == p then
        exists from: nat :: from <= |addr| && OneCall(s, es[..n], p, addr, from) && e.rest == addr[from..] &&
          match Write(Run(s, es[..n]).end, p, e.rest, e.killed).1
          case Blocked(k) => at == from + k
          case _ => at == -1
      else OneCall(s, es[..n], p, addr, at)
  }

  /** How the call ended, if it did: its last region's result. */
  function Ended(s: State, es: seq<Event>, p: nat): Option<Wrote>
    requires |s.queue| <= PIPESIZE
    decreases |es|
  {
    if es == [] then None
    else
      var n := |es| - 1;
      if es[n].Writing? && es[n].p == p then Some(Write(Run(s, es[..n]).end, p, es[n].rest, es[n].killed).1)
      else Ended(s, es[..n], p)
  }

  /** One region more of the call. */
  lemma RegionStores(s: State, p: nat, addr: seq<int>, from: nat, killed: bool)
    requires |s.queue| <= PIPESIZE && from <= |addr|
    ensures var rest := addr[from..]; var put := addr[..from] + rest[..Room(s, rest)];
            match Write(s, p, rest, killed).1
            case Blocked(k) => from + k <= |addr| && put == addr[..from + k]
            case Done => put == addr
            case Refused(_) => put <= addr
  {
    var rest := addr[from..];
    var k := Room(s, rest);
    assert addr[..from] + rest[..k] == addr[..from + k];
    assert addr[..|addr|] == addr;
  }

  /** Whatever happens in between, the regions of a call store addr once and in order: up to at while
      the call sleeps, all of it once it is done, a prefix if it gives up. */
  lemma {:induction false} CallStoresOnce(s: State, es: seq<Event>, p: nat, addr: seq<int>, at: int)
    requires |s.queue| <= PIPESIZE && OneCall(s, es, p, addr, at)
    ensures at >= 0 ==> at <= |addr| && Put(s, es, p) == addr[..at]
    ensures at < 0 ==> Put(s, es, p) <= addr
    ensures Ended(s, es, p) == Some(Done) ==> Put(s, es, p) == addr
    decreases |es|
  {
    if es != [] {
      hide Run, Write, Room, OneCall, Put, Ended;
      var n := |es| - 1;
      var e := es[n];
      PutNext(s, es, p, addr, at);
      if e.Writing? && e.p == p {
        var from := Resumed(s, es, p, addr, at);
        CallStoresOnce(s, es[..n], p, addr, from);
        RegionStores(Run(s, es[..n]).end, p, addr, from, e.killed);
      } else {
        CallStoresOnce(s, es[..n], p, addr, at);
      }
    }
  }

  lemma PutNext(s: State, es: seq<Event>, p: nat, addr: seq<int>, at: int)
    requires |s.queue| <= PIPESIZE && es != []
    ensures var n := |es| - 1; var e, now := es[n], Run(s, es[..n]).end;
            if e.Writing? && e.p == p then
              && Put(s, es, p) == Put(s, es[..n], p) + e.rest[..Room(now, e.rest)]
              && Ended(s, es, p) == Some(Write(now, p, e.rest, e.killed).1)
            else Put(s, es, p) == Put(s, es[..n], p) && Ended(s, es, p) == Ended(s, es[..n], p) && OneCall(s, es, p, addr, at) == OneCall(s, es[..n], p, addr, at)
  {
    hide Run, Write, Room;
    assert Put(s, es[..|es| - 1], p) + [] == Put(s, es[..|es| - 1], p);
  }

  lemma Resumed(s: State, es: seq<Event>, p: nat, addr: seq<int>, at: int) returns (from: nat)
    requires |s.queue| <= PIPESIZE && OneCall(s, es, p, addr, at) && es != [] && es[|es| - 1].Writing? && es[|es| - 1].p == p
    ensures var n := |es| - 1; var e := es[n];
            && from <= |addr| && OneCall(s, es[..n], p, addr, from) && e.rest == addr[from..]
            && match Write(Run(s, es[..n]).end, p, e.rest, e.killed).1
               case Blocked(k) => at == from + k
               case _ => at == -1
  {
    hide Run, Write, Room;
    var n := |es| - 1;
    var e := es[n];
    from :| from <= |addr| && OneCall(s, es[..n], p, addr, from) && e.rest == addr[from..] &&
      match Write(Run(s, es[..n]).end, p, e.rest, e.killed).1
      case Blocked(k) => at == from + k
      case _ => at == -1;
  }

  /** End of file is the only way a read of a positive number of bytes returns none. */
  lemma ZeroMeansClosed(s: State, p: nat, n: nat, killed: bool)
    requires n > 0
    ensures Read(s, p, n, killed).1 == Bytes([]) <==> s.queue == [] && !s.writeopen
  {
  }

  // Lost wakeups.

  /** A sleeper has a reason to sleep. */
  ghost predicate Justified(s: State) {
    && |s.queue| <= PIPESIZE
    && (s.readers != {} ==> s.queue == [] && s.writeopen)
    && (s.writers != {} ==> |s.queue| == PIPESIZE && s.readopen)
  }

  /** A write that gives up after filling a pipe that readers are waiting on: pipewrite's error
      return does not wake them. */
  predicate LosesWakeup(s: State, e: Event) {
    e.Writing? && s.readers != {} && |e.rest| > PIPESIZE && (e.killed || !s.readopen)
  }

  /** One step keeps every sleeper justified exactly when it is not such a write. */
  lemma StepJustifiedIff(s: State, e: Event)
    requires Justified(s)
    ensures Justified(Next(s, e)) <==> !LosesWakeup(s, e)
  {
  }

  /** A writer killed after filling the pipe leaves a reader asleep with data to read. */
  lemma WakeupCanBeLost(big: seq<int>)
    requires |big| == PIPESIZE + 1
    ensures var s := State([], true, true, {1}, {});
            var s' := Next(s, Writing(2, big, true));
            Justified(s) && s'.readers == {1} && s'.queue == big[..PIPESIZE]
  {
    assert [] + big[..PIPESIZE] == big[..PIPESIZE];
  }

  /** The runs the design allows: no killed process acts, nobody reads once the read end is closed,
      and processes asleep do not act. */
  ghost predicate Orderly(s: State, e: Event) {
    match e
    case Writing(p, _, killed) => !killed && p !in s.readers && p !in s.writers
    case Reading(p, _, killed) => !killed && s.readopen && p !in s.readers && p !in s.writers
    case Closing(writable) => !writable ==> s.readers == {}
    case Rousing(_) => true
  }

  ghost predicate OrderlyRun(s: State, es: seq<Event>)
    requires |s.queue| <= PIPESIZE
    decreases |es|
  {
    es != [] ==> OrderlyRun(s, es[..|es| - 1]) && Orderly(Run(s, es[..|es| - 1]).end, es[|es| - 1])
  }

  const EMPTY := State([], true, true, {}, {})

  /** No lost wakeup in any orderly run. */
  lemma {:induction false} NoLostWakeup(es: seq<Event>)
    requires OrderlyRun(EMPTY, es)
    ensures var s := Run(EMPTY, es).end; Justified(s) && (!s.readopen ==> s.readers == {})
    decreases |es|
  {
    if es != [] {
      NoLostWakeup(es[..|es| - 1]);
      StepJustifiedIff(Run(EMPTY, es[..|es| - 1]).end, es[|es| - 1]);
    }
  }
}
