/** File descriptors (HW3/file.c, the descriptor parts of HW3/sysfile.c and HW3/proc.c, and the
    pipe pages of HW3/pipe.c), one system call at a time. */
module Descriptors {
  const NFILE: nat := 100
  const NOFILE: nat := 16

  datatype Kind = None | Inode(readable: bool, writable: bool) | PipeEnd(page: nat, writable: bool)

  datatype File = File(ref: nat, kind: Kind)

  /** Which ends of a pipe are open. */
  datatype Ends = Ends(readopen: bool, writeopen: bool)

  const FREE := File(0, None)

  // Counting the descriptors of a file.

  /** Slots, over all processes, that hold file f; -1 is an empty slot. */
  ghost function Refs(ofile: seq<seq<int>>, f: int): nat {
    if ofile == [] then 0 else Refs(ofile[..|ofile| - 1], f) + multiset(ofile[|ofile| - 1])[f]
  }

  lemma {:induction false} RefsUpdate(ofile: seq<seq<int>>, p: nat, row: seq<int>, f: int)
    requires p < |ofile|
    ensures Refs(ofile[p := row], f) + multiset(ofile[p])[f] == Refs(ofile, f) + multiset(row)[f]
    decreases |ofile|
  {
    var last := |ofile| - 1;
    if p == last {
      assert ofile[p := row][..last] == ofile[..last];
    } else {
      assert ofile[p := row][..last] == ofile[..last][p := row];
      RefsUpdate(ofile[..last], p, row, f);
    }
  }

  /** Filling or emptying one slot. */
  lemma RefsSlot(ofile: seq<seq<int>>, p: nat, fd: nat, g: int, f: int)
    requires p < |ofile| && fd < |ofile[p]|
    ensures Refs(ofile[p := ofile[p][fd := g]], f) + (if ofile[p][fd] == f then 1 else 0) == Refs(ofile, f) + if g == f then 1 else 0
  {
    RefsUpdate(ofile, p, ofile[p][fd := g], f);
  }

  lemma {:induction false} RefsPositive(ofile: seq<seq<int>>, p: nat, fd: nat)
    requires p < |ofile| && fd < |ofile[p]|
    ensures Refs(ofile, ofile[p][fd]) > 0
    decreases |ofile|
  {
    if p < |ofile| - 1 {
      RefsPositive(ofile[..|ofile| - 1], p, fd);
    } else {
      assert ofile[p][fd] in multiset(ofile[p]);
    }
  }

  // The invariant.

  /** Each file's reference count is the number of slots that hold it; an unused file has no kind. */
  ghost predicate Tally(files: seq<File>, ofile: seq<seq<int>>) {
    && (forall f :: 0 <= f < |files| ==> files[f].ref == Refs(ofile, f))
    && (forall p, fd :: 0 <= p < |ofile| && 0 <= fd < |ofile[p]| ==> -1 <= ofile[p][fd] < |files|)
    && (forall f :: 0 <= f < |files| ==> (files[f].ref == 0 <==> files[f].kind == None))
  }

  predicate IsEnd(files: seq<File>, f: int, page: nat, writable: bool) {
    0 <= f < |files| && files[f].kind == PipeEnd(page, writable)
  }

  predicate Open(pipes: map<nat, Ends>, page: nat, writable: bool) {
    page in pipes && if writable then pipes[page].writeopen else pipes[page].readopen
  }

  /** An end of a pipe is open exactly when one file stands for it; a page with no open end is gone. */
  ghost predicate Pipes(files: seq<File>, pipes: map<nat, Ends>) {
    && (forall f, q, w :: IsEnd(files, f, q, w) ==> Open(pipes, q, w))
    && (forall q, w :: Open(pipes, q, w) ==> exists f :: IsEnd(files, f, q, w))
    && (forall f, g, q, w :: IsEnd(files, f, q, w) && IsEnd(files, g, q, w) ==> f == g)
    && (forall q :: q in pipes ==> pipes[q].readopen || pipes[q].writeopen)
  }

  /** A page is held exactly when it was taken once more often than it was given back. */
  ghost predicate Balanced(pipes: map<nat, Ends>, taken: multiset<nat>, freed: multiset<nat>) {
    forall q :: taken[q] == freed[q] + if q in pipes then 1 else 0
  }

  // Closing a reference.

  function Shut(pipes: map<nat, Ends>, page: nat, writable: bool): map<nat, Ends> {
    if page !in pipes then pipes
    else
      var e := if writable then pipes[page].(writeopen := false) else pipes[page].(readopen := false);
      if !e.readopen && !e.writeopen then pipes - {page} else pipes[page := e]
  }

  lemma ShutOpen(pipes: map<nat, Ends>, page: nat, writable: bool, q: nat, w: bool)
    ensures Open(Shut(pipes, page, writable), q, w) <==> Open(pipes, q, w) && !(q == page && w == writable)
  {
  }

  lemma ShutPipes(files: seq<File>, pipes: map<nat, Ends>, f: nat)
    requires f < |files| && files[f].kind.PipeEnd? && Pipes(files, pipes)
    ensures Pipes(files[f := FREE], Shut(pipes, files[f].kind.page, files[f].kind.writable))
  {
    var page, writable := files[f].kind.page, files[f].kind.writable;
    var files', pipes' := files[f := FREE], Shut(pipes, page, writable);
    assert IsEnd(files, f, page, writable);
    forall q, w ensures Open(pipes', q, w) <==> Open(pipes, q, w) && !(q == page && w == writable) {
      ShutOpen(pipes, page, writable, q, w);
    }
    forall q, w | Open(pipes', q, w) ensures exists g :: IsEnd(files', g, q, w) {
      assert Open(pipes, q, w);
      var g :| IsEnd(files, g, q, w);
      assert IsEnd(files', g, q, w);
    }
    assert forall g, q, w :: IsEnd(files', g, q, w) ==> IsEnd(files, g, q, w);
    forall g, q, w | IsEnd(files', g, q, w) ensures Open(pipes', q, w) {
      assert IsEnd(files, g, q, w) && g != f;
    }
    assert forall q :: q in pipes' && q != page ==> pipes'[q] == pipes[q];
  }

  /** Giving back a file that stands for no pipe end, or changing it to another such kind. */
  lemma PlainPipes(files: seq<File>, pipes: map<nat, Ends>, f: nat, g: File)
    requires f < |files| && Pipes(files, pipes) && !files[f].kind.PipeEnd? && !g.kind.PipeEnd?
    ensures Pipes(files[f := g], pipes)
  {
    SamePipes(files, files[f := g], pipes);
  }

  /** Only the kinds of pipe ends matter. */
  lemma SamePipes(files: seq<File>, files': seq<File>, pipes: map<nat, Ends>)
    requires Pipes(files, pipes) && |files'| == |files|
    requires forall f :: 0 <= f < |files| ==> files'[f].kind == files[f].kind || (!files'[f].kind.PipeEnd? && !files[f].kind.PipeEnd?)
    ensures Pipes(files', pipes)
  {
    forall q, w | Open(pipes, q, w) ensures exists f :: IsEnd(files', f, q, w) {
      var f :| IsEnd(files, f, q, w);
      assert IsEnd(files', f, q, w);
    }
    assert forall f, q, w :: IsEnd(files', f, q, w) ==> IsEnd(files, f, q, w);
  }

  lemma TallyAt(files: seq<File>, ofile: seq<seq<int>>, p: nat, fd: nat)
    requires Tally(files, ofile) && p < |ofile| && fd < |ofile[p]|
    ensures -1 <= ofile[p][fd] < |files|
    ensures ofile[p][fd] >= 0 ==> files[ofile[p][fd]].ref > 0 && files[ofile[p][fd]].kind != None
  {
    RefsPositive(ofile, p, fd);
  }

  lemma TallyKinds(files: seq<File>, ofile: seq<seq<int>>)
    requires Tally(files, ofile)
    ensures forall f :: 0 <= f < |files| ==> (files[f].ref == 0 <==> files[f].kind == None)
  {
  }

  // One descriptor more or one less.

  lemma TallyFill(files: seq<File>, ofile: seq<seq<int>>, p: nat, fd: nat, f: nat, kind: Kind)
    requires Tally(files, ofile) && p < |ofile| && fd < |ofile[p]| && ofile[p][fd] == -1 && f < |files| && kind != None
    ensures Tally(files[f := File(files[f].ref + 1, kind)], ofile[p := ofile[p][fd := f]])
  {
    var files', ofile' := files[f := File(files[f].ref + 1, kind)], ofile[p := ofile[p][fd := f]];
    forall g | 0 <= g < |files'| ensures files'[g].ref == Refs(ofile', g) {
      RefsSlot(ofile, p, fd, f, g);
    }
  }

  function Dropped(files: seq<File>, f: nat): seq<File>
    requires f < |files| && files[f].ref > 0
  {
    files[f := if files[f].ref > 1 then files[f].(ref := files[f].ref - 1) else FREE]
  }

  lemma TallyEmpty(files: seq<File>, ofile: seq<seq<int>>, p: nat, fd: nat)
    requires Tally(files, ofile) && p < |ofile| && fd < |ofile[p]| && ofile[p][fd] >= 0
    ensures files[ofile[p][fd]].ref > 0 && Tally(Dropped(files, ofile[p][fd]), ofile[p := ofile[p][fd := -1]])
  {
    RefsPositive(ofile, p, fd);
    var f := ofile[p][fd];
    var files', ofile' := Dropped(files, f), ofile[p := ofile[p][fd := -1]];
    forall g | 0 <= g < |files'| ensures files'[g].ref == Refs(ofile', g) {
      RefsSlot(ofile, p, fd, -1, g);
    }
  }

  /** The kinds of the files that stay in use do not change. */
  ghost predicate SameKinds(files: seq<File>, files': seq<File>) {
    |files'| == |files| && forall f :: 0 <= f < |files| && files[f].ref > 0 && files'[f].ref > 0 ==> files'[f].kind == files[f].kind
  }

  /** The first empty slot of a row, or its length. */
  function FirstEmpty(row: seq<int>, k: nat): (i: nat)
    requires k <= |row|
    ensures k <= i <= |row| && (i < |row| ==> row[i] == -1) && forall j :: k <= j < i ==> row[j] != -1
    decreases |row| - k
  {
    if k == |row| || row[k] == -1 then k else FirstEmpty(row, k + 1)
  }

  predicate TwoFree(files: seq<File>) {
    exists f, g :: 0 <= f < g < |files| && files[f].ref == 0 && files[g].ref == 0
  }

  predicate TwoEmpty(row: seq<int>) {
    exists i, j :: 0 <= i < j < |row| && row[i] == -1 && row[j] == -1
  }

  class Kernel {
    var files: seq<File>
    var ofile: seq<seq<int>>
    var pipes: map<nat, Ends>
    // Pipe pages taken from and given back to the page allocator so far.
    ghost var taken: multiset<nat>
    ghost var freed: multiset<nat>

    ghost predicate Shape()
      reads this
    {
      |files| == NFILE && forall p :: 0 <= p < |ofile| ==> |ofile[p]| == NOFILE
    }

    ghost predicate Valid()
      reads this
    {
      Shape() && Tally(files, ofile) && Pipes(files, pipes) && Balanced(pipes, taken, freed)
    }

    constructor (nproc: nat)
      ensures Valid() && |ofile| == nproc && pipes == map[] && forall p :: 0 <= p < nproc ==> ofile[p] == seq(NOFILE, i => -1)
    {
      files, ofile, pipes := seq(NFILE, i => FREE), seq(nproc, p => seq(NOFILE, i => -1)), map[];
      taken, freed := multiset{}, multiset{};
      new;
      forall f | 0 <= f < NFILE ensures Refs(ofile, f) == 0 {
        NoRefs(ofile, f);
      }
    }

    method Filealloc() returns (f: int)
      requires Shape()
      modifies `files
      ensures f == -1 ==> files == old(files) && forall g :: 0 <= g < NFILE ==> files[g].ref != 0
      ensures f != -1 ==> 0 <= f < NFILE && old(files)[f].ref == 0 && files == old(files)[f := old(files)[f].(ref := 1)]
    {
      f := 0;
      while f < NFILE
        invariant 0 <= f <= NFILE && forall g :: 0 <= g < f ==> files[g].ref != 0
      {
        if files[f].ref == 0 {
          files := files[f := files[f].(ref := 1)];
          return;
        }
        f := f + 1;
      }
      f := -1;
    }

    /** Panics unless the file is in use. */
    method Filedup(f: nat)
      requires f < |files| && files[f].ref >= 1
      modifies `files
      ensures files == old(files)[f := old(files)[f].(ref := old(files)[f].ref + 1)]
    {
      files := files[f := files[f].(ref := files[f].ref + 1)];
    }

    /** fileclose with pipeclose; panics unless the file is in use. */
    method Fileclose(f: nat)
      requires f < |files| && files[f].ref >= 1 && Pipes(files, pipes) && Balanced(pipes, taken, freed)
      modifies `files, `pipes, `freed
      ensures files == Dropped(old(files), f) && Pipes(files, pipes) && Balanced(pipes, taken, freed)
      ensures pipes == if old(files)[f].ref == 1 && old(files)[f].kind.PipeEnd?
                       then Shut(old(pipes), old(files)[f].kind.page, old(files)[f].kind.writable) else old(pipes)
      ensures SameKinds(old(files), files)
    {
      files := files[f := files[f].(ref := files[f].ref - 1)];
      if files[f].ref > 0 {
        SamePipes(old(files), files, pipes);
        return;
      }
      var kind := files[f].kind;
      files := files[f := FREE];
      if kind.PipeEnd? {
        ShutPipes(old(files), pipes, f);
        assert IsEnd(old(files), f, kind.page, kind.writable);
        Pipeclose(kind.page, kind.writable);
      } else {
        PlainPipes(old(files), pipes, f, FREE);
      }
      assert files == Dropped(old(files), f);
    }

    method Pipeclose(page: nat, writable: bool)
      requires page in pipes && Balanced(pipes, taken, freed)
      modifies `pipes, `freed
      ensures pipes == Shut(old(pipes), page, writable) && Balanced(pipes, taken, freed)
    {
      if writable {
        pipes := pipes[page := pipes[page].(writeopen := false)];
      } else {
        pipes := pipes[page := pipes[page].(readopen := false)];
      }
      if !pipes[page].readopen && !pipes[page].writeopen {
        pipes := pipes - {page};
        freed := freed + multiset{page};
        assert pipes == old(pipes) - {page};
      }
    }

    method Fdalloc(p: nat, f: int) returns (fd: int)
      requires p < |ofile|
      modifies `ofile
      ensures var k := FirstEmpty(old(ofile)[p], 0);
              if k < |old(ofile)[p]| then fd == k && ofile == old(ofile)[p := old(ofile)[p][k := f]]
              else fd == -1 && ofile == old(ofile)
    {
      fd := 0;
      while fd < |ofile[p]|
        invariant 0 <= fd <= |ofile[p]| && FirstEmpty(ofile[p], 0) == FirstEmpty(ofile[p], fd)
      {
        if ofile[p][fd] == -1 {
          ofile := ofile[p := ofile[p][fd := f]];
          return;
        }
        fd := fd + 1;
      }
      fd := -1;
    }

    /** argfd: the file behind descriptor fd of process p, or -1. */
    function FileAt(p: nat, fd: int): int
      requires p < |ofile| && |ofile[p]| == NOFILE
      reads this
    {
      if 0 <= fd < NOFILE then ofile[p][fd] else -1
    }

    method SysDup(p: nat, fd: int) returns (r: int)
      requires Valid() && p < |ofile|
      modifies `files, `ofile
      ensures Valid() && SameKinds(old(files), files)
      ensures var f, k := old(FileAt(p, fd)), FirstEmpty(old(ofile)[p], 0);
              if f == -1 || k == NOFILE then r == -1 && ofile == old(ofile) && files == old(files)
              else r == k && ofile == old(ofile)[p := old(ofile)[p][k := f]]
    {
      var f := FileAt(p, fd);
      if f == -1 {
        return -1;
      }
      RefsPositive(ofile, p, fd);
      r := Fdalloc(p, f);
      if r < 0 {
        return -1;
      }
      TallyFill(files, old(ofile), p, r, f, files[f].kind);
      Filedup(f);
      SamePipes(old(files), files, pipes);
    }

    method SysClose(p: nat, fd: int) returns (r: int)
      requires Valid() && p < |ofile|
      modifies `files, `ofile, `pipes, `freed
      ensures Valid() && SameKinds(old(files), files)
      ensures if old(FileAt(p, fd)) == -1 then r == -1 && ofile == old(ofile) && files == old(files) && pipes == old(pipes)
              else r == 0 && ofile == old(ofile)[p := old(ofile)[p][fd := -1]]
    {
      var f := FileAt(p, fd);
      if f == -1 {
        return -1;
      }
      TallyEmpty(files, ofile, p, fd);
      ofile := ofile[p := ofile[p][fd := -1]];
      Fileclose(f);
      return 0;
    }

    /** The descriptor part of sys_open; found says whether the path names a file that may be
        opened. A failed call leaves every table as it was. */
    method SysOpen(p: nat, found: bool, readable: bool, writable: bool) returns (r: int)
      requires Valid() && p < |ofile|
      modifies `files, `ofile, `pipes, `freed
      ensures Valid() && SameKinds(old(files), files) && pipes == old(pipes)
      ensures r == -1 ==> files == old(files) && ofile == old(ofile)
      ensures r == -1 <==> !found || FirstEmpty(old(ofile)[p], 0) == NOFILE || forall g :: 0 <= g < NFILE ==> old(files)[g].ref != 0
      ensures r != -1 ==>
                && r == FirstEmpty(old(ofile)[p], 0)
                && exists f :: 0 <= f < NFILE && old(files)[f].ref == 0 && files[f] == File(1, Inode(readable, writable))
                     && ofile == old(ofile)[p := old(ofile)[p][r := f]]
    {
      if !found {
        return -1;
      }
      var f := Filealloc();
      if f == -1 {
        return -1;
      }
      SamePipes(old(files), files, pipes);
      r := Fdalloc(p, f);
      if r < 0 {
        Fileclose(f);
        assert files == old(files);
        return -1;
      }
      TallyFill(old(files), old(ofile), p, r, f, Inode(readable, writable));
      PlainPipes(old(files), pipes, f, File(1, Inode(readable, writable)));
      files := files[f := files[f].(kind := Inode(readable, writable))];
      assert files == old(files)[f := File(1, Inode(readable, writable))];
    }

    /** Gives back the files taken since was. */
    method PipeUndo(f0: nat, f1: int, ghost was: seq<File>)
      requires |was| == NFILE && f0 < NFILE && was[f0] == FREE && -1 <= f1 < NFILE && f1 != f0 && (f1 != -1 ==> was[f1] == FREE)
      requires files == if f1 == -1 then was[f0 := File(1, None)] else was[f0 := File(1, None)][f1 := File(1, None)]
      requires Pipes(files, pipes) && Balanced(pipes, taken, freed)
      modifies `files, `pipes, `freed
      ensures files == was && pipes == old(pipes) && Balanced(pipes, taken, freed)
    {
      hide Pipes, Balanced;
      Fileclose(f0);
      if f1 != -1 {
        Fileclose(f1);
      }
      assert files == was;
    }

    /** pipealloc; mem is the page the allocator has to offer, or -1. */
    method Pipealloc(mem: int) returns (f0: int, f1: int)
      requires Shape() && Pipes(files, pipes) && Balanced(pipes, taken, freed) && (forall f :: 0 <= f < NFILE && files[f].ref == 0 ==> files[f].kind == None)
      requires mem >= 0 ==> mem !in pipes
      modifies `files, `pipes, `taken, `freed
      ensures f0 == -1 <==> mem < 0 || !TwoFree(old(files))
      ensures f0 == -1 <==> f1 == -1
      ensures f0 == -1 ==> files == old(files) && pipes == old(pipes) && Balanced(pipes, taken, freed)
      ensures f0 != -1 ==>
                && 0 <= f0 < NFILE && 0 <= f1 < NFILE && f0 != f1 && mem >= 0 && old(files)[f0].ref == old(files)[f1].ref == 0
                && files == old(files)[f0 := File(1, PipeEnd(mem, false))][f1 := File(1, PipeEnd(mem, true))]
                && pipes == old(pipes)[mem := Ends(true, true)] && Pipes(files, pipes) && Balanced(pipes, taken, freed)
    {
      hide Pipes, Balanced, TwoFree;
      f0 := Filealloc();
      if f0 == -1 {
        NoFreePair(files, files, 0);
        return -1, -1;
      }
      f1 := Filealloc();
      if f1 == -1 || mem < 0 {
        if f1 == -1 {
          NoFreePair(old(files), files, f0);
        }
        SamePipes(old(files), files, pipes);
        PipeUndo(f0, f1, old(files));
        return -1, -1;
      }
      FreePair(old(files), f0, f1);
      TakePage(pipes, taken, freed, mem);
      taken := taken + multiset{mem};
      pipes := pipes[mem := Ends(true, true)];
      files := files[f0 := File(1, PipeEnd(mem, false))];
      files := files[f1 := File(1, PipeEnd(mem, true))];
      NewPipe(old(files), old(pipes), f0, f1, mem);
      assert files == old(files)[f0 := File(1, PipeEnd(mem, false))][f1 := File(1, PipeEnd(mem, true))];
    }

    /** A failed call leaves every table as it was, with its page given back. */
    method SysPipe(p: nat, mem: int) returns (r: int, fd0: int, fd1: int)
      requires Valid() && p < |ofile| && (mem >= 0 ==> mem !in pipes)
      modifies this
      ensures Valid() && SameKinds(old(files), files)
      ensures r == -1 <==> mem < 0 || !TwoFree(old(files)) || !TwoEmpty(old(ofile)[p])
      ensures r == -1 ==> files == old(files) && ofile == old(ofile) && pipes == old(pipes)
      ensures r != -1 ==>
                && r == 0 && mem >= 0 && pipes == old(pipes)[mem := Ends(true, true)]
                && 0 <= fd0 < fd1 < NOFILE && old(ofile)[p][fd0] == -1 && old(ofile)[p][fd1] == -1
                && exists f0, f1 :: IsEnd(files, f0, mem, false) && IsEnd(files, f1, mem, true)
                     && ofile == old(ofile)[p := old(ofile)[p][fd0 := f0][fd1 := f1]]
    {
      hide Pipes, Tally, IsEnd, Balanced;
      fd0, fd1 := -1, -1;
      TallyKinds(files, ofile);
      var f0, f1 := Pipealloc(mem);
      if f0 == -1 {
        return -1, fd0, fd1;
      }
      fd0 := Fdalloc(p, f0);
      if fd0 >= 0 {
        fd1 := Fdalloc(p, f1);
        SecondSlot(old(ofile)[p], f0);
      }
      if fd0 < 0 || fd1 < 0 {
        if fd0 >= 0 {
          ofile := ofile[p := ofile[p][fd0 := -1]];
          assert ofile[p] == old(ofile)[p];
          assert ofile == old(ofile);
        }
        DropPipe(f0, f1, mem, old(files), old(pipes));
        return -1, fd0, fd1;
      }
      TwoSlots(old(files), old(ofile), p, fd0, fd1, f0, f1, mem);
      assert IsEnd(files, f0, mem, false) && IsEnd(files, f1, mem, true);
      r := 0;
    }

    /** sys_pipe's way out: both ends closed again. */
    method DropPipe(f0: nat, f1: nat, mem: nat, ghost files0: seq<File>, ghost pipes0: map<nat, Ends>)
      requires f0 < |files0| && f1 < |files0| && f0 != f1 && files0[f0] == files0[f1] == FREE && mem !in pipes0
      requires files == files0[f0 := File(1, PipeEnd(mem, false))][f1 := File(1, PipeEnd(mem, true))]
      requires pipes == pipes0[mem := Ends(true, true)] && Pipes(files, pipes) && Balanced(pipes, taken, freed)
      modifies `files, `pipes, `freed
      ensures files == files0 && pipes == pipes0 && Pipes(files, pipes) && Balanced(pipes, taken, freed)
    {
      hide Pipes, Balanced;
      Fileclose(f0);
      Fileclose(f1);
      assert files == files0;
      assert pipes == pipes0;
    }

    /** One slot of fork's loop. */
    method ForkSlot(p: nat, np: nat, i: nat)
      requires Valid() && p < |ofile| && np < |ofile| && p != np && i < NOFILE && ofile[np][i] == -1
      modifies `files, `ofile
      ensures Valid() && SameKinds(old(files), files) && forall f :: 0 <= f < NFILE && old(files)[f].ref > 0 ==> files[f].ref > 0
      ensures ofile == old(ofile)[np := old(ofile)[np][i := old(ofile)[p][i]]]
    {
      hide Tally, Pipes, Balanced;
      var f := ofile[p][i];
      TallyAt(files, ofile, p, i);
      if f != -1 {
        TallyFill(files, ofile, np, i, f, files[f].kind);
        Filedup(f);
        SamePipes(old(files), files, pipes);
        ofile := ofile[np := ofile[np][i := f]];
      } else {
        assert ofile[np][i := -1] == ofile[np];
      }
    }

    /** The descriptors of fork: np is the new process's entry, whose slots are empty. */
    method ForkFiles(p: nat, np: nat)
      requires Valid() && p < |ofile| && np < |ofile| && p != np && (forall i :: 0 <= i < NOFILE ==> ofile[np][i] == -1)
      modifies `files, `ofile
      ensures Valid() && SameKinds(old(files), files) && ofile == old(ofile)[np := old(ofile)[p]]
    {
      hide Tally, Pipes, Balanced;
      var i := 0;
      while i < NOFILE
        invariant 0 <= i <= NOFILE && Valid() && SameKinds(old(files), files)
        invariant forall f :: 0 <= f < NFILE && old(files)[f].ref > 0 ==> files[f].ref > 0
        invariant |ofile| == |old(ofile)| && ofile == old(ofile)[np := ofile[np]]
        invariant forall j :: 0 <= j < NOFILE ==> ofile[np][j] == if j < i then old(ofile)[p][j] else -1
      {
        ForkSlot(p, np, i);
        i := i + 1;
      }
      assert ofile[np] == old(ofile)[p];
    }

    /** One slot of exit's loop. */
    method ExitSlot(p: nat, fd: nat)
      requires Valid() && p < |ofile| && fd < NOFILE
      modifies `files, `ofile, `pipes, `freed
      ensures Valid() && SameKinds(old(files), files) && forall f :: 0 <= f < NFILE && old(files)[f].ref == 0 ==> files[f].ref == 0
      ensures ofile == old(ofile)[p := old(ofile)[p][fd := -1]]
    {
      hide Tally, Pipes, Balanced;
      TallyAt(files, ofile, p, fd);
      if ofile[p][fd] != -1 {
        TallyEmpty(files, ofile, p, fd);
        Fileclose(ofile[p][fd]);
        ofile := ofile[p := ofile[p][fd := -1]];
      } else {
        assert ofile[p][fd := -1] == ofile[p];
      }
    }

    /** The descriptors of exit. */
    method ExitFiles(p: nat)
      requires Valid() && p < |ofile|
      modifies `files, `ofile, `pipes, `freed
      ensures Valid() && SameKinds(old(files), files) && ofile == old(ofile)[p := seq(NOFILE, i => -1)]
    {
      hide Tally, Pipes, Balanced;
      var fd := 0;
      while fd < NOFILE
        invariant 0 <= fd <= NOFILE && Valid() && SameKinds(old(files), files)
        invariant forall f :: 0 <= f < NFILE && old(files)[f].ref == 0 ==> files[f].ref == 0
        invariant |ofile| == |old(ofile)| && ofile == old(ofile)[p := ofile[p]]
        invariant forall j :: 0 <= j < NOFILE ==> ofile[p][j] == if j < fd then -1 else old(ofile)[p][j]
      {
        ExitSlot(p, fd);
        fd := fd + 1;
      }
      assert ofile[p] == seq(NOFILE, i => -1);
    }
  }

  /** A pipe's page is held exactly as long as some descriptor refers to one of its ends. */
  lemma PageHeldIff(files: seq<File>, ofile: seq<seq<int>>, pipes: map<nat, Ends>, page: nat)
    requires Tally(files, ofile) && Pipes(files, pipes)
    ensures page in pipes <==> exists p, fd, w :: 0 <= p < |ofile| && 0 <= fd < |ofile[p]| && IsEnd(files, ofile[p][fd], page, w)
  {
    if page in pipes {
      var w := pipes[page].writeopen;
      assert Open(pipes, page, w);
      var f :| IsEnd(files, f, page, w);
      var p, fd := RefsWitness(ofile, f);
    }
  }

  lemma {:induction false} RefsWitness(ofile: seq<seq<int>>, f: int) returns (p: nat, fd: nat)
    requires Refs(ofile, f) > 0
    ensures p < |ofile| && fd < |ofile[p]| && ofile[p][fd] == f
    decreases |ofile|
  {
    var last := |ofile| - 1;
    if f in ofile[last] {
      p := last;
      fd :| 0 <= fd < |ofile[last]| && ofile[last][fd] == f;
    } else {
      assert f !in multiset(ofile[last]);
      p, fd := RefsWitness(ofile[..last], f);
    }
  }

  lemma TakePage(pipes: map<nat, Ends>, taken: multiset<nat>, freed: multiset<nat>, page: nat)
    requires Balanced(pipes, taken, freed) && page !in pipes
    ensures Balanced(pipes[page := Ends(true, true)], taken + multiset{page}, freed)
  {
  }

  lemma FreePair(files: seq<File>, f: nat, g: nat)
    requires f < |files| && g < |files| && f != g && files[f].ref == 0 && files[g].ref == 0
    ensures TwoFree(files)
  {
    assert f < g || g < f;
  }

  lemma NoFreePair(files: seq<File>, files': seq<File>, f: nat)
    requires |files'| == |files| && forall g :: 0 <= g < |files| && g != f ==> files'[g] == files[g]
    ensures (forall g :: 0 <= g < |files'| ==> files'[g].ref != 0) ==> !TwoFree(files)
  {
  }

  lemma SecondSlot(row: seq<int>, f: nat)
    requires FirstEmpty(row, 0) < |row|
    ensures var k := FirstEmpty(row, 0); FirstEmpty(row[k := f], 0) < |row| <==> TwoEmpty(row)
    ensures var k := FirstEmpty(row, 0); k < FirstEmpty(row[k := f], 0)
  {
    var k := FirstEmpty(row, 0);
    var m := FirstEmpty(row[k := f], 0);
    var row' := row[k := f];
    if m < |row| {
      assert row'[m] == -1 && row[m] == -1 && k < m;
    }
    if TwoEmpty(row) {
      var i, j :| 0 <= i < j < |row| && row[i] == -1 && row[j] == -1;
      assert row'[j] == -1;
    }
  }

  lemma TwoSlots(files: seq<File>, ofile: seq<seq<int>>, p: nat, fd0: nat, fd1: nat, f0: nat, f1: nat, page: nat)
    requires Tally(files, ofile) && p < |ofile| && fd0 < |ofile[p]| && fd1 < |ofile[p]| && fd0 != fd1
    requires ofile[p][fd0] == ofile[p][fd1] == -1 && f0 < |files| && f1 < |files| && f0 != f1 && files[f0].ref == files[f1].ref == 0
    ensures var files' := files[f0 := File(1, PipeEnd(page, false))][f1 := File(1, PipeEnd(page, true))];
            var ofile' := ofile[p := ofile[p][fd0 := f0]];
            var ofile2 := ofile'[p := ofile'[p][fd1 := f1]];
            && Tally(files', ofile2) && IsEnd(files', f0, page, false) && IsEnd(files', f1, page, true)
            && ofile2 == ofile[p := ofile[p][fd0 := f0][fd1 := f1]]
  {
    TallyFill(files, ofile, p, fd0, f0, PipeEnd(page, false));
    var files1, ofile1 := files[f0 := File(1, PipeEnd(page, false))], ofile[p := ofile[p][fd0 := f0]];
    TallyFill(files1, ofile1, p, fd1, f1, PipeEnd(page, true));
    hide Tally;
  }

  lemma NewPipe(files: seq<File>, pipes: map<nat, Ends>, f0: nat, f1: nat, page: nat)
    requires Pipes(files, pipes) && f0 < |files| && f1 < |files| && f0 != f1 && page !in pipes
    requires !files[f0].kind.PipeEnd? && !files[f1].kind.PipeEnd?
    ensures Pipes(files[f0 := File(1, PipeEnd(page, false))][f1 := File(1, PipeEnd(page, true))], pipes[page := Ends(true, true)])
  {
    var files' := files[f0 := File(1, PipeEnd(page, false))][f1 := File(1, PipeEnd(page, true))];
    var pipes' := pipes[page := Ends(true, true)];
    assert IsEnd(files', f0, page, false) && IsEnd(files', f1, page, true);
    forall f, q, w | IsEnd(files', f, q, w) ensures Open(pipes', q, w) && (q == page ==> f == if w then f1 else f0) {
      if f != f0 && f != f1 {
        assert IsEnd(files, f, q, w);
      }
    }
    forall q, w | Open(pipes', q, w) ensures exists f :: IsEnd(files', f, q, w) {
      if q != page {
        assert Open(pipes, q, w);
        var f :| IsEnd(files, f, q, w);
        assert IsEnd(files', f, q, w);
      }
    }
    forall f, g, q, w | IsEnd(files', f, q, w) && IsEnd(files', g, q, w) ensures f == g {
      if q != page {
        assert IsEnd(files, f, q, w) && IsEnd(files, g, q, w);
      }
    }
  }

  lemma {:induction false} NoRefs(ofile: seq<seq<int>>, f: nat)
    requires forall p :: 0 <= p < |ofile| ==> f !in ofile[p]
    ensures Refs(ofile, f) == 0
    decreases |ofile|
  {
    if ofile != [] {
      NoRefs(ofile[..|ofile| - 1], f);
      assert f !in multiset(ofile[|ofile| - 1]);
    }
  }

  // Any sequence of system calls by any processes.

  datatype Call =
    | Dup(p: nat, fd: int)
    | CloseFd(p: nat, fd: int)
    | OpenFile(p: nat, found: bool, readable: bool, writable: bool)
    | MakePipe(p: nat, mem: int)
    | Fork(p: nat, np: nat)
    | Exit(p: nat)

  /** The call can be made: its process exists, a page on offer is not in use, a forked entry is empty. */
  predicate CanMake(ofile: seq<seq<int>>, pipes: map<nat, Ends>, c: Call) {
    && c.p < |ofile|
    && (c.MakePipe? && c.mem >= 0 ==> c.mem !in pipes)
    && (c.Fork? ==> c.np < |ofile| && c.np != c.p && forall i :: 0 <= i < |ofile[c.np]| ==> ofile[c.np][i] == -1)
  }

  /** At every system-call boundary the counts, the pipe ends and the pages agree with the slots:
      a page has been given back exactly as often as it was taken iff no slot refers to it. */
  method Session(nproc: nat, calls: seq<Call>) returns (k: Kernel)
    ensures k.Valid()
    ensures forall q :: k.taken[q] == k.freed[q] <==>
              !exists p, fd, w :: 0 <= p < |k.ofile| && 0 <= fd < |k.ofile[p]| && IsEnd(k.files, k.ofile[p][fd], q, w)
  {
    hide Tally, Pipes, Balanced, IsEnd;
    k := new Kernel(nproc);
    var i := 0;
    while i < |calls|
      invariant 0 <= i <= |calls| && k.Valid() && fresh(k)
    {
      if CanMake(k.ofile, k.pipes, calls[i]) {
        Make(k, calls[i]);
      }
      i := i + 1;
    }
    forall q: nat
      ensures k.taken[q] == k.freed[q] <==>
        !exists p, fd, w :: 0 <= p < |k.ofile| && 0 <= fd < |k.ofile[p]| && IsEnd(k.files, k.ofile[p][fd], q, w)
    {
      PageHeldIff(k.files, k.ofile, k.pipes, q);
      BalancedAt(k.pipes, k.taken, k.freed, q);
    }
  }

  lemma BalancedAt(pipes: map<nat, Ends>, taken: multiset<nat>, freed: multiset<nat>, q: nat)
    requires Balanced(pipes, taken, freed)
    ensures taken[q] == freed[q] + if q in pipes then 1 else 0
  {
  }

  method Make(k: Kernel, c: Call)
    requires k.Valid() && CanMake(k.ofile, k.pipes, c)
    modifies k
    ensures k.Valid()
  {
    hide Tally, Pipes, Balanced;
    match c {
      case Dup(p, fd) => var _ := k.SysDup(p, fd);
      case CloseFd(p, fd) => var _ := k.SysClose(p, fd);
      case OpenFile(p, found, readable, writable) => var _ := k.SysOpen(p, found, readable, writable);
      case MakePipe(p, mem) => var _, _, _ := k.SysPipe(p, mem);
      case Fork(p, np) => k.ForkFiles(p, np);
      case Exit(p) => k.ExitFiles(p);
    }
  }
}
