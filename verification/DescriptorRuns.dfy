/** File descriptors again (HW3/file.c, HW3/sysfile.c, HW3/proc.c, HW3/pipe.c), now with the system
    calls of different processes interleaved at every region that holds ftable.lock or a pipe's
    lock, and at every store into a descriptor slot. */
module DescriptorRuns {
  import opened Descriptors

  /** A slot whose reference does not count: sys_dup fills the slot before filedup, and exit empties
      it after fileclose. */
  datatype Owe = Nothing | Duping(f: nat) | Exiting(f: nat)

  /** mine are references taken that are in no slot; closing are pipe ends whose last reference is
      gone but on which pipeclose has not run. */
  datatype Proc = Proc(slots: seq<int>, mine: multiset<nat>, owe: Owe, closing: multiset<(nat, bool)>)

  /** taken and freed are the pipe pages taken from and given back to the allocator so far. */
  datatype System = System(files: seq<File>, procs: seq<Proc>, pipes: map<nat, Ends>, taken: multiset<nat>, freed: multiset<nat>)

  datatype Event =
    | Alloc(p: nat, f: nat)                    // filealloc
    | SetInode(p: nat, f: nat, readable: bool, writable: bool)
    | SetPipe(p: nat, f: nat, g: nat, page: nat)
    | Fill(p: nat, q: nat, fd: nat, f: nat)    // fdalloc, or fork filling a slot of its child
    | DupSlot(p: nat, from: nat, fd: nat)      // sys_dup's fdalloc
    | DupRef(p: nat)                           // its filedup
    | ForkRef(p: nat, fd: nat)                 // fork's filedup
    | Clear(p: nat, fd: nat)                   // sys_close and sys_pipe emptying a slot
    | Close(p: nat, f: nat)                    // fileclose, up to the release of ftable.lock
    | ExitClose(p: nat, fd: nat)               // the same in exit, before the slot is emptied
    | ExitClear(p: nat, fd: nat)
    | PipeClose(p: nat, page: nat, writable: bool)

  predicate InSlot(s: System, p: nat, fd: nat) {
    p < |s.procs| && fd < |s.procs[p].slots| && 0 <= s.procs[p].slots[fd] < |s.files|
  }

  predicate Enabled(s: System, e: Event) {
    e.p < |s.procs| &&
    var q := s.procs[e.p];
    match e
    case Alloc(_, f) => f < |s.files| && s.files[f].ref == 0
    case SetInode(_, f, _, _) => f in q.mine && f < |s.files| && s.files[f].kind == None
    case SetPipe(_, f, g, page) =>
      f != g && f in q.mine && g in q.mine && f < |s.files| && g < |s.files| && s.files[f].kind == s.files[g].kind == None && page !in s.pipes
    case Fill(_, c, fd, f) => f in q.mine && f < |s.files| && c < |s.procs| && fd < |s.procs[c].slots| && s.procs[c].slots[fd] == -1
    case DupSlot(p, from, fd) => q.owe.Nothing? && InSlot(s, p, from) && fd < |q.slots| && q.slots[fd] == -1
    case DupRef(_) => q.owe.Duping? && q.owe.f < |s.files|
    case ForkRef(p, fd) => q.owe.Nothing? && InSlot(s, p, fd)
    case Clear(p, fd) => q.owe.Nothing? && InSlot(s, p, fd)
    case Close(_, f) => f in q.mine && f < |s.files|
    case ExitClose(p, fd) => q.owe.Nothing? && InSlot(s, p, fd)
    case ExitClear(p, fd) => q.owe.Exiting? && InSlot(s, p, fd) && q.slots[fd] == q.owe.f
    case PipeClose(_, page, writable) => (page, writable) in q.closing
  }

  /** filedup and fileclose panic on a file that is not in use. */
  predicate Panics(s: System, e: Event)
    requires Enabled(s, e)
  {
    match e
    case DupRef(p) => s.files[s.procs[p].owe.f].ref < 1
    case ForkRef(p, fd) => s.files[s.procs[p].slots[fd]].ref < 1
    case Close(_, f) => s.files[f].ref < 1
    case ExitClose(p, fd) => s.files[s.procs[p].slots[fd]].ref < 1
    case _ => false
  }

  function With(s: System, p: nat, q: Proc): System
    requires p < |s.procs|
  {
    s.(procs := s.procs[p := q])
  }

  /** fileclose on f: the last reference frees the file and leaves a pipe end to close. */
  function Drop(s: System, p: nat, q: Proc, f: nat): System
    requires p < |s.procs| && f < |s.files| && s.files[f].ref > 0
  {
    var kind := s.files[f].kind;
    var last := s.files[f].ref == 1 && kind.PipeEnd?;
    With(s.(files := Dropped(s.files, f)), p, if last then q.(closing := q.closing + multiset{(kind.page, kind.writable)}) else q)
  }

  function Counted(files: seq<File>, f: nat): seq<File>
    requires f < |files|
  {
    files[f := files[f].(ref := files[f].ref + 1)]
  }

  function Next(s: System, e: Event): System
    requires Enabled(s, e) && !Panics(s, e)
  {
    var p, q := e.p, s.procs[e.p];
    match e
    case Alloc(_, f) => With(s.(files := Counted(s.files, f)), p, q.(mine := q.mine + multiset{f}))
    case SetInode(_, f, readable, writable) => s.(files := s.files[f := s.files[f].(kind := Inode(readable, writable))])
    case SetPipe(_, f, g, page) =>
      s.(files := s.files[f := s.files[f].(kind := PipeEnd(page, false))][g := s.files[g].(kind := PipeEnd(page, true))],
         pipes := s.pipes[page := Ends(true, true)], taken := s.taken + multiset{page})
    case Fill(_, c, fd, f) =>
      var s' := With(s, p, q.(mine := q.mine - multiset{f}));
      With(s', c, s'.procs[c].(slots := s'.procs[c].slots[fd := f]))
    case DupSlot(_, from, fd) => With(s, p, q.(slots := q.slots[fd := q.slots[from]], owe := Duping(q.slots[from])))
    case DupRef(_) => With(s.(files := Counted(s.files, q.owe.f)), p, q.(owe := Nothing))
    case ForkRef(_, fd) => With(s.(files := Counted(s.files, q.slots[fd])), p, q.(mine := q.mine + multiset{q.slots[fd] as nat}))
    case Clear(_, fd) => With(s, p, q.(slots := q.slots[fd := -1], mine := q.mine + multiset{q.slots[fd] as nat}))
    case Close(_, f) => Drop(s, p, q.(mine := q.mine - multiset{f}), f)
    case ExitClose(_, fd) => Drop(s, p, q.(owe := Exiting(q.slots[fd])), q.slots[fd])
    case ExitClear(_, fd) => With(s, p, q.(slots := q.slots[fd := -1], owe := Nothing))
    case PipeClose(_, page, writable) =>
      var pipes := Shut(s.pipes, page, writable);
      With(s.(pipes := pipes, freed := if page in s.pipes && page !in pipes then s.freed + multiset{page} else s.freed),
           p, q.(closing := q.closing - multiset{(page, writable)}))
  }

  // Counting references.

  function Owed(o: Owe, f: int): nat {
    if !o.Nothing? && o.f == f then 1 else 0
  }

  /** References to f that process q accounts for. */
  function Net(q: Proc, f: int): int {
    multiset(q.slots)[f] + (if f >= 0 then q.mine[f] else 0) - Owed(q.owe, f)
  }

  function Nets(procs: seq<Proc>, f: int): int {
    if procs == [] then 0 else Nets(procs[..|procs| - 1], f) + Net(procs[|procs| - 1], f)
  }

  lemma {:induction false} NetsUpdate(procs: seq<Proc>, p: nat, q: Proc, f: int)
    requires p < |procs|
    ensures Nets(procs[p := q], f) == Nets(procs, f) - Net(procs[p], f) + Net(q, f)
    decreases |procs|
  {
    hide Net;
    var last := |procs| - 1;
    if p == last {
      assert procs[p := q][..last] == procs[..last];
    } else {
      assert procs[p := q][..last] == procs[..last][p := q];
      NetsUpdate(procs[..last], p, q, f);
    }
  }

  /** A process that owes for a slot has that slot, and if it is about to duplicate, the original. */
  ghost predicate Sound(q: Proc, n: nat) {
    && (forall i :: 0 <= i < |q.slots| ==> -1 <= q.slots[i] < n)
    && (forall f :: f in q.mine ==> f < n)
    && (q.owe.Duping? ==> multiset(q.slots)[q.owe.f] >= 2 && q.owe.f < n)
    && (q.owe.Exiting? ==> multiset(q.slots)[q.owe.f] >= 1 && q.owe.f < n)
  }

  lemma {:induction false} NetsAtLeast(procs: seq<Proc>, n: nat, p: nat, f: nat)
    requires p < |procs| && forall k :: 0 <= k < |procs| ==> Sound(procs[k], n)
    ensures Nets(procs, f) >= Net(procs[p], f) >= 0
    decreases |procs|
  {
    var last := |procs| - 1;
    if p < last {
      NetsAtLeast(procs[..last], n, p, f);
    } else if last > 0 {
      NetsAtLeast(procs[..last], n, 0, f);
    }
  }

  // Counting who stands for an end of a pipe: a file, or a process about to close it.

  function Files(files: seq<File>, page: nat, w: bool): nat {
    if files == [] then 0
    else Files(files[..|files| - 1], page, w) + if files[|files| - 1].kind == PipeEnd(page, w) then 1 else 0
  }

  function Closing(procs: seq<Proc>, page: nat, w: bool): nat {
    if procs == [] then 0 else Closing(procs[..|procs| - 1], page, w) + procs[|procs| - 1].closing[(page, w)]
  }

  lemma {:induction false} FilesUpdate(files: seq<File>, f: nat, g: File, page: nat, w: bool)
    requires f < |files|
    ensures Files(files[f := g], page, w) + (if files[f].kind == PipeEnd(page, w) then 1 else 0)
            == Files(files, page, w) + if g.kind == PipeEnd(page, w) then 1 else 0
    decreases |files|
  {
    var last := |files| - 1;
    if f == last {
      assert files[f := g][..last] == files[..last];
    } else {
      assert files[f := g][..last] == files[..last][f := g];
      FilesUpdate(files[..last], f, g, page, w);
    }
  }

  lemma {:induction false} ClosingUpdate(procs: seq<Proc>, p: nat, q: Proc, page: nat, w: bool)
    requires p < |procs|
    ensures Closing(procs[p := q], page, w) + procs[p].closing[(page, w)] == Closing(procs, page, w) + q.closing[(page, w)]
    decreases |procs|
  {
    var last := |procs| - 1;
    if p == last {
      assert procs[p := q][..last] == procs[..last];
    } else {
      assert procs[p := q][..last] == procs[..last][p := q];
      ClosingUpdate(procs[..last], p, q, page, w);
    }
  }

  // The invariant.

  ghost predicate Shape(s: System) {
    && (forall k :: 0 <= k < |s.procs| ==> Sound(s.procs[k], |s.files|))
    && (forall f :: 0 <= f < |s.files| && s.files[f].ref == 0 ==> s.files[f].kind == None)
  }

  /** Every reference count is the number of slots that hold the file, plus references in flight,
      less slots whose reference does not count. */
  ghost predicate Counts(s: System) {
    forall f :: 0 <= f < |s.files| ==> s.files[f].ref == Nets(s.procs, f)
  }

  /** An end is open exactly if one file or one process about to close it stands for it. */
  ghost predicate Stands(s: System) {
    && (forall page, w :: Files(s.files, page, w) + Closing(s.procs, page, w) == if Open(s.pipes, page, w) then 1 else 0)
    && (forall page :: page in s.pipes ==> s.pipes[page].readopen || s.pipes[page].writeopen)
  }

  ghost predicate Inv(s: System) {
    Shape(s) && Counts(s) && Stands(s) && Balanced(s.pipes, s.taken, s.freed)
  }

  // No panic.

  lemma NoPanic(s: System, e: Event)
    requires Inv(s) && Enabled(s, e)
    ensures !Panics(s, e)
  {
    hide Stands, Balanced, Nets;
    var f := match e
      case DupRef(p) => s.procs[p].owe.f
      case ForkRef(p, fd) => s.procs[p].slots[fd]
      case Close(_, f) => f
      case ExitClose(p, fd) => s.procs[p].slots[fd]
      case _ => 0;
    NetsAtLeast(s.procs, |s.files|, e.p, f);
    if e.ForkRef? || e.ExitClose? {
      assert s.procs[e.p].slots[e.fd] in multiset(s.procs[e.p].slots);
    }
  }

  // Every step keeps the invariant.

  lemma SlotCount(slots: seq<int>, fd: nat, g: int, f: int)
    requires fd < |slots|
    ensures multiset(slots[fd := g])[f] == multiset(slots)[f] - (if slots[fd] == f then 1 else 0) + if g == f then 1 else 0
    ensures slots[fd] == f ==> multiset(slots)[f] >= 1
  {
    assert slots[fd] in multiset(slots);
  }

  /** One slot filled, or emptied with nothing owed. */
  lemma SlotStep(q: Proc, n: nat, fd: nat, g: int)
    requires Sound(q, n) && fd < |q.slots| && -1 <= g < n && (q.slots[fd] == -1 || q.owe.Nothing?)
    ensures Sound(q.(slots := q.slots[fd := g]), n)
    ensures forall f :: Net(q.(slots := q.slots[fd := g]), f) == Net(q, f) - (if q.slots[fd] == f then 1 else 0) + if g == f then 1 else 0
  {
    forall f ensures multiset(q.slots[fd := g])[f] == multiset(q.slots)[f] - (if q.slots[fd] == f then 1 else 0) + if g == f then 1 else 0 {
      SlotCount(q.slots, fd, g, f);
    }
  }

  /** One reference in flight more or less. */
  lemma MineStep(q: Proc, n: nat, f: nat)
    requires Sound(q, n) && f < n
    ensures Sound(q.(mine := q.mine + multiset{f}), n) && Sound(q.(mine := q.mine - multiset{f}), n)
    ensures forall g :: Net(q.(mine := q.mine + multiset{f}), g) == Net(q, g) + if f == g then 1 else 0
    ensures f in q.mine ==> forall g :: Net(q.(mine := q.mine - multiset{f}), g) == Net(q, g) - if f == g then 1 else 0
  {
  }

  lemma OweStep(q: Proc, n: nat, fd: nat)
    requires Sound(q, n) && q.owe.Nothing? && fd < |q.slots| && 0 <= q.slots[fd]
    ensures Sound(q.(owe := Exiting(q.slots[fd])), n)
    ensures forall g :: Net(q.(owe := Exiting(q.slots[fd])), g) == Net(q, g) - if q.slots[fd] == g then 1 else 0
  {
    SlotCount(q.slots, fd, q.slots[fd], q.slots[fd]);
  }

  lemma DupStep(q: Proc, n: nat, from: nat, fd: nat)
    requires Sound(q, n) && q.owe.Nothing? && fd < |q.slots| && from < |q.slots| && 0 <= q.slots[from] && q.slots[fd] == -1
    ensures var q' := q.(slots := q.slots[fd := q.slots[from]], owe := Duping(q.slots[from]));
            Sound(q', n) && forall g :: Net(q', g) == Net(q, g) - if g == -1 then 1 else 0
  {
    SlotStep(q, n, fd, q.slots[from]);
    SlotCount(q.slots, fd, q.slots[from], q.slots[from]);
    SlotCount(q.slots, from, q.slots[from], q.slots[from]);
  }

  lemma PaidStep(q: Proc, n: nat)
    requires Sound(q, n) && !q.owe.Nothing?
    ensures Sound(q.(owe := Nothing), n) && forall g :: Net(q.(owe := Nothing), g) == Net(q, g) + if g == q.owe.f then 1 else 0
  {
  }

  lemma ClosingStep(q: Proc, n: nat, closing: multiset<(nat, bool)>)
    ensures Sound(q.(closing := closing), n) <==> Sound(q, n)
    ensures forall g :: Net(q.(closing := closing), g) == Net(q, g)
  {
  }

  /** A step of process p: it stays sound, the others are untouched, and what p accounts for changes as
      the counts of the files do. */
  ghost predicate Steps(s: System, s': System, p: nat) {
    && p < |s.procs| == |s'.procs| && |s'.files| == |s.files| && s'.procs == s.procs[p := s'.procs[p]] && Sound(s'.procs[p], |s.files|)
    && forall f :: 0 <= f < |s.files| ==> s'.files[f].ref - s.files[f].ref == Net(s'.procs[p], f) - Net(s.procs[p], f)
  }

  lemma TakeStep(s: System, e: Event)
    requires Shape(s) && Enabled(s, e) && !Panics(s, e) && (e.Alloc? || e.DupRef? || e.ForkRef?)
    ensures Steps(s, Next(s, e), e.p)
  {
    hide Sound, Net;
    var q, n := s.procs[e.p], |s.files|;
    assert Sound(q, n);
    match e {
      case Alloc(_, f) => MineStep(q, n, f);
      case DupRef(_) => PaidStep(q, n);
      case ForkRef(_, fd) => MineStep(q, n, q.slots[fd]);
    }
  }

  lemma MoveStep(s: System, e: Event)
    requires Shape(s) && Enabled(s, e) && !Panics(s, e) && (e.DupSlot? || e.Clear?)
    ensures Steps(s, Next(s, e), e.p)
  {
    hide Sound, Net;
    var q, n := s.procs[e.p], |s.files|;
    assert Sound(q, n);
    match e {
      case DupSlot(_, from, fd) => DupStep(q, n, from, fd);
      case Clear(_, fd) =>
        MineStep(q, n, q.slots[fd]);
        SlotStep(q.(mine := q.mine + multiset{q.slots[fd] as nat}), n, fd, -1);
    }
  }

  lemma EndStep(s: System, e: Event)
    requires Shape(s) && Enabled(s, e) && !Panics(s, e) && (e.ExitClear? || e.PipeClose?)
    ensures Steps(s, Next(s, e), e.p)
  {
    hide Sound, Net;
    var q, n := s.procs[e.p], |s.files|;
    assert Sound(q, n);
    match e {
      case ExitClear(_, fd) =>
        PaidStep(q, n);
        SlotStep(q.(owe := Nothing), n, fd, -1);
      case PipeClose(_, page, w) => ClosingStep(q, n, q.closing - multiset{(page, w)});
    }
  }

  lemma DropStep(s: System, e: Event)
    requires Shape(s) && Enabled(s, e) && !Panics(s, e) && (e.Close? || e.ExitClose?)
    ensures Steps(s, Next(s, e), e.p)
  {
    hide Sound, Net;
    var q, n := s.procs[e.p], |s.files|;
    assert Sound(q, n);
    match e {
      case Close(_, f) =>
        MineStep(q, n, f);
        ClosingStep(q.(mine := q.mine - multiset{f}), n, Next(s, e).procs[e.p].closing);
      case ExitClose(_, fd) =>
        OweStep(q, n, fd);
        ClosingStep(q.(owe := Exiting(q.slots[fd])), n, Next(s, e).procs[e.p].closing);
    }
  }

  lemma ProcStep(s: System, e: Event)
    requires Shape(s) && Enabled(s, e) && !Panics(s, e) && !e.Fill? && !e.SetInode? && !e.SetPipe?
    ensures Steps(s, Next(s, e), e.p)
  {
    hide Shape, Enabled, Steps;
    if e.Alloc? || e.DupRef? || e.ForkRef? {
      TakeStep(s, e);
    } else if e.Close? || e.ExitClose? {
      DropStep(s, e);
    } else if e.DupSlot? || e.Clear? {
      MoveStep(s, e);
    } else {
      EndStep(s, e);
    }
  }

  lemma FillStep(s: System, e: Event, f: nat)
    requires Shape(s) && Enabled(s, e) && e.Fill?
    ensures var s' := Next(s, e);
            && s'.files == s.files && |s'.procs| == |s.procs| && Nets(s'.procs, f) == Nets(s.procs, f)
            && forall k :: 0 <= k < |s.procs| ==> Sound(s'.procs[k], |s.files|)
  {
    hide Sound, Net, Nets;
    var p, n, g := e.p, |s.files|, e.f;
    assert Sound(s.procs[p], n) && Sound(s.procs[e.q], n);
    MineStep(s.procs[p], n, g);
    var s1 := With(s, p, s.procs[p].(mine := s.procs[p].mine - multiset{g}));
    SlotStep(s1.procs[e.q], n, e.fd, g);
    NetsUpdate(s.procs, p, s1.procs[p], f);
    NetsUpdate(s1.procs, e.q, Next(s, e).procs[e.q], f);
  }

  lemma KeepsShape(s: System, e: Event)
    requires Inv(s) && Enabled(s, e) && !Panics(s, e)
    ensures Shape(Next(s, e))
  {
    hide Counts, Stands, Balanced, Sound, Net, Nets;
    KeepsKinds(s, e);
    KeepsSizes(s, e);
    if e.Fill? {
      FillStep(s, e, 0);
    } else if !e.SetInode? && !e.SetPipe? {
      ProcStep(s, e);
    }
  }

  lemma KeepsSizes(s: System, e: Event)
    requires Enabled(s, e) && !Panics(s, e)
    ensures |Next(s, e).procs| == |s.procs| && |Next(s, e).files| == |s.files|
  {
  }

  lemma KeepsKinds(s: System, e: Event)
    requires Inv(s) && Enabled(s, e) && !Panics(s, e)
    ensures var s' := Next(s, e); forall f :: 0 <= f < |s'.files| && s'.files[f].ref == 0 ==> s'.files[f].kind == None
  {
    hide Stands, Balanced, Nets;
    if e.SetInode? || e.SetPipe? {
      NetsAtLeast(s.procs, |s.files|, e.p, e.f);
      if e.SetPipe? {
        NetsAtLeast(s.procs, |s.files|, e.p, e.g);
      }
    }
  }

  /** The change to a file's count is the change to what the processes account for. */
  lemma CountStep(s: System, e: Event, f: nat)
    requires Shape(s) && Enabled(s, e) && !Panics(s, e) && f < |s.files|
    ensures var s' := Next(s, e); |s'.files| == |s.files| && s'.files[f].ref - s.files[f].ref == Nets(s'.procs, f) - Nets(s.procs, f)
  {
    hide Nets, Net, Sound;
    if e.Fill? {
      FillStep(s, e, f);
    } else if !e.SetInode? && !e.SetPipe? {
      ProcStep(s, e);
      NetsUpdate(s.procs, e.p, Next(s, e).procs[e.p], f);
      hide Next;
    }
  }

  lemma KeepsCounts(s: System, e: Event)
    requires Inv(s) && Enabled(s, e) && !Panics(s, e)
    ensures Counts(Next(s, e))
  {
    hide Stands, Balanced, Nets, Next, Sound;
    KeepsSizes(s, e);
    forall f: nat | f < |s.files| ensures Next(s, e).files[f].ref == Nets(Next(s, e).procs, f) {
      CountStep(s, e, f);
    }
  }

  // Pipe ends and pages.

  /** Who stands for an end. */
  function Standing(s: System, page: nat, w: bool): nat {
    Files(s.files, page, w) + Closing(s.procs, page, w)
  }

  lemma SetPipeStands(s: System, e: Event, page: nat, w: bool)
    requires Enabled(s, e) && e.SetPipe?
    ensures Standing(Next(s, e), page, w) == Standing(s, page, w) + if page == e.page then 1 else 0
  {
    var files1 := s.files[e.f := s.files[e.f].(kind := PipeEnd(e.page, false))];
    FilesUpdate(s.files, e.f, files1[e.f], page, w);
    FilesUpdate(files1, e.g, files1[e.g].(kind := PipeEnd(e.page, true)), page, w);
  }

  /** fileclose hands the end over from the file to the process. */
  lemma DropStands(s: System, p: nat, q: Proc, f: nat, page: nat, w: bool)
    requires p < |s.procs| && f < |s.files| && s.files[f].ref > 0 && q.closing == s.procs[p].closing
    ensures Standing(Drop(s, p, q, f), page, w) == Standing(s, page, w)
  {
    FilesUpdate(s.files, f, Dropped(s.files, f)[f], page, w);
    ClosingUpdate(s.procs, p, Drop(s, p, q, f).procs[p], page, w);
  }

  lemma PipeCloseStands(s: System, e: Event, page: nat, w: bool)
    requires Enabled(s, e) && e.PipeClose?
    ensures Standing(Next(s, e), page, w) == Standing(s, page, w) - if (page, w) == (e.page, e.writable) then 1 else 0
  {
    ClosingUpdate(s.procs, e.p, Next(s, e).procs[e.p], page, w);
  }

  /** The other steps change no kind and no pending close. */
  lemma OtherStands(s: System, e: Event, page: nat, w: bool)
    requires Enabled(s, e) && !Panics(s, e) && !e.SetPipe? && !e.PipeClose? && !e.Close? && !e.ExitClose?
    ensures Standing(Next(s, e), page, w) == Standing(s, page, w) && Next(s, e).pipes == s.pipes
  {
    hide Files, Closing;
    var s', q := Next(s, e), s.procs[e.p];
    match e
    case Alloc(p, f) =>
      FilesUpdate(s.files, f, s'.files[f], page, w);
      ClosingUpdate(s.procs, p, s'.procs[p], page, w);
    case SetInode(_, f, _, _) => FilesUpdate(s.files, f, s'.files[f], page, w);
    case Fill(p, c, fd, f) =>
      var s1 := With(s, p, q.(mine := q.mine - multiset{f}));
      ClosingUpdate(s.procs, p, s1.procs[p], page, w);
      ClosingUpdate(s1.procs, c, s'.procs[c], page, w);
    case DupRef(p) =>
      FilesUpdate(s.files, q.owe.f, s'.files[q.owe.f], page, w);
      ClosingUpdate(s.procs, p, s'.procs[p], page, w);
    case ForkRef(p, fd) =>
      FilesUpdate(s.files, q.slots[fd], s'.files[q.slots[fd]], page, w);
      ClosingUpdate(s.procs, p, s'.procs[p], page, w);
    case DupSlot(p, _, _) => ClosingUpdate(s.procs, p, s'.procs[p], page, w);
    case Clear(p, _) => ClosingUpdate(s.procs, p, s'.procs[p], page, w);
    case ExitClear(p, _) => ClosingUpdate(s.procs, p, s'.procs[p], page, w);
  }

  lemma KeepsStands(s: System, e: Event)
    requires Inv(s) && Enabled(s, e) && !Panics(s, e)
    ensures Stands(Next(s, e))
  {
    hide Shape, Counts, Balanced, Files, Closing;
    var s' := Next(s, e);
    forall page, w ensures Standing(s', page, w) == if Open(s'.pipes, page, w) then 1 else 0 {
      assert Standing(s, page, w) == if Open(s.pipes, page, w) then 1 else 0;
      match e
      case SetPipe(_, _, _, _) => SetPipeStands(s, e, page, w);
      case PipeClose(_, _, _) =>
        PipeCloseStands(s, e, page, w);
        ShutOpen(s.pipes, e.page, e.writable, page, w);
      case Close(p, f) => DropStands(s, p, s.procs[p].(mine := s.procs[p].mine - multiset{f}), f, page, w);
      case ExitClose(p, fd) =>
        DropStands(s, p, s.procs[p].(owe := Exiting(s.procs[p].slots[fd])), s.procs[p].slots[fd], page, w);
      case _ => OtherStands(s, e, page, w);
    }
  }

  lemma KeepsBalance(s: System, e: Event)
    requires Inv(s) && Enabled(s, e) && !Panics(s, e)
    ensures Balanced(Next(s, e).pipes, Next(s, e).taken, Next(s, e).freed)
  {
    hide Shape, Counts, Stands;
  }

  lemma KeepsInv(s: System, e: Event)
    requires Inv(s) && Enabled(s, e)
    ensures !Panics(s, e) && Inv(Next(s, e))
  {
    NoPanic(s, e);
    KeepsShape(s, e);
    KeepsCounts(s, e);
    KeepsStands(s, e);
    KeepsBalance(s, e);
    hide Shape, Counts, Stands, Balanced, Next;
  }

  // Runs.

  function Start(nproc: nat): System {
    System(seq(NFILE, _ => FREE), seq(nproc, _ => Proc(seq(NOFILE, _ => -1), multiset{}, Nothing, multiset{})), map[], multiset{}, multiset{})
  }

  ghost predicate IsRun(nproc: nat, es: seq<Event>, ss: seq<System>) {
    && |ss| == |es| + 1 && ss[0] == Start(nproc)
    && forall k :: 0 <= k < |es| ==> Enabled(ss[k], es[k]) && (Panics(ss[k], es[k]) || ss[k + 1] == Next(ss[k], es[k]))
  }

  lemma {:induction false} NoNets(procs: seq<Proc>, f: nat)
    requires forall p :: 0 <= p < |procs| ==> Net(procs[p], f) == 0
    ensures Nets(procs, f) == 0
    decreases |procs|
  {
    if procs != [] {
      NoNets(procs[..|procs| - 1], f);
    }
  }

  lemma {:induction false} NoFiles(files: seq<File>, page: nat, w: bool)
    requires forall f :: 0 <= f < |files| ==> files[f].kind == None
    ensures Files(files, page, w) == 0
    decreases |files|
  {
    if files != [] {
      NoFiles(files[..|files| - 1], page, w);
    }
  }

  lemma {:induction false} NoClosing(procs: seq<Proc>, page: nat, w: bool)
    requires forall p :: 0 <= p < |procs| ==> (page, w) !in procs[p].closing
    ensures Closing(procs, page, w) == 0
    decreases |procs|
  {
    if procs != [] {
      NoClosing(procs[..|procs| - 1], page, w);
    }
  }

  lemma StartInv(nproc: nat)
    ensures Inv(Start(nproc))
  {
    var s := Start(nproc);
    forall f: nat | f < NFILE ensures Nets(s.procs, f) == 0 {
      forall p | 0 <= p < |s.procs| ensures Net(s.procs[p], f) == 0 {
        assert f !in multiset(s.procs[p].slots);
      }
      NoNets(s.procs, f);
    }
    forall page, w ensures Files(s.files, page, w) + Closing(s.procs, page, w) == 0 {
      NoFiles(s.files, page, w);
      NoClosing(s.procs, page, w);
    }
  }

  /** In every interleaving, at every point: the invariant holds, and no step panics. */
  lemma {:induction false} EveryRun(nproc: nat, es: seq<Event>, ss: seq<System>, k: nat)
    requires IsRun(nproc, es, ss) && k <= |es|
    ensures Inv(ss[k]) && (k < |es| ==> !Panics(ss[k], es[k]))
    decreases k
  {
    hide Inv, Enabled, Panics, Next;
    if k == 0 {
      StartInv(nproc);
    } else {
      EveryRun(nproc, es, ss, k - 1);
      KeepsInv(ss[k - 1], es[k - 1]);
    }
    if k < |es| {
      KeepsInv(ss[k], es[k]);
    }
  }

  /** A page has been given back as often as it was taken exactly if no file and no pending close
      stands for one of its ends; otherwise once less. */
  lemma PageFreedOnce(nproc: nat, es: seq<Event>, ss: seq<System>, k: nat, page: nat)
    requires IsRun(nproc, es, ss) && k <= |es|
    ensures var s := ss[k];
            s.taken[page] == s.freed[page] + if Standing(s, page, false) + Standing(s, page, true) > 0 then 1 else 0
  {
    EveryRun(nproc, es, ss, k);
    var s := ss[k];
    hide IsRun, Shape, Counts, Files, Closing;
    assert Standing(s, page, false) == if Open(s.pipes, page, false) then 1 else 0;
    assert Standing(s, page, true) == if Open(s.pipes, page, true) then 1 else 0;
  }

  // Between system calls.

  ghost predicate Quiet(s: System) {
    forall p :: 0 <= p < |s.procs| ==> s.procs[p].mine == multiset{} && s.procs[p].owe.Nothing? && s.procs[p].closing == multiset{}
  }

  function Slots(procs: seq<Proc>): seq<seq<int>> {
    seq(|procs|, p requires 0 <= p < |procs| => procs[p].slots)
  }

  lemma {:induction false} QuietNets(procs: seq<Proc>, f: nat)
    requires forall p :: 0 <= p < |procs| ==> procs[p].mine == multiset{} && procs[p].owe.Nothing?
    ensures Nets(procs, f) == Refs(Slots(procs), f)
    decreases |procs|
  {
    if procs != [] {
      var last := |procs| - 1;
      QuietNets(procs[..last], f);
      assert Slots(procs)[..last] == Slots(procs[..last]);
    }
  }

  /** Whenever no process is inside a system call, every reference count is the number of slots. */
  lemma QuietCounts(nproc: nat, es: seq<Event>, ss: seq<System>, k: nat, f: nat)
    requires IsRun(nproc, es, ss) && k <= |es| && Quiet(ss[k]) && f < |ss[k].files|
    ensures ss[k].files[f].ref == Refs(Slots(ss[k].procs), f)
  {
    EveryRun(nproc, es, ss, k);
    QuietNets(ss[k].procs, f);
  }
}
