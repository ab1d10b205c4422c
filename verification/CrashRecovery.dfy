/** Crash atomicity of the redo log (HW3/log.c).  A commit and a recovery are
    sequences of block transfers; a crash keeps a prefix of them. */
module CrashRecovery {
  import opened Blocks
  import opened BufferCache
  import opened LogProtocol

  /** The log area: a header block at `start` and `size` - 1 entry blocks after it. */
  datatype Area = Area(start: nat, size: nat) {
    predicate Has(b: int) { start <= b < start + size }
  }

  ghost predicate FitsOn(a: Area, d: seq<Block>) {
    0 < a.size && a.start + a.size <= |d|
  }

  /** The disk after a sequence of block transfers. */
  function Apply(d: seq<Block>, ws: seq<Write>): (r: seq<Block>)
    ensures |r| == |d|
  {
    if ws == [] then d
    else
      var w := ws[|ws| - 1];
      var r := Apply(d, ws[..|ws| - 1]);
      if w.blockno < |d| then r[w.blockno := w.data] else r
  }

  /** A header block with lh.n entries stored into it; later words keep their value. */
  function WithHead(h: Block, blocks: seq<nat>): (r: Block)
    requires |h| == BSIZE && |blocks| <= LOGSIZE
    ensures |r| == BSIZE && Word(r, 0) == |blocks|
    ensures forall i :: 0 <= i < |blocks| ==> Word(r, i + 1) == blocks[i]
  {
    PutEntries(SetWord(h, 0, |blocks|), blocks, |blocks|)
  }

  function PutEntries(h: Block, blocks: seq<nat>, k: nat): (r: Block)
    requires |h| == BSIZE && k <= |blocks| <= LOGSIZE
    ensures |r| == BSIZE && Word(r, 0) == Word(h, 0)
    ensures forall i :: 0 <= i < k ==> Word(r, i + 1) == blocks[i]
  {
    if k == 0 then h else SetWord(PutEntries(h, blocks, k - 1), k, blocks[k - 1])
  }

  /** A header that read_head can read: a block count within bounds. */
  ghost predicate IsHead(h: Block) {
    |h| == BSIZE && 0 <= Word(h, 0) <= LOGSIZE
  }

  function Entries(h: Block): (blocks: seq<int>)
    requires IsHead(h)
  {
    seq(Word(h, 0), i requires 0 <= i < Word(h, 0) => Word(h, i + 1))
  }

  /** Commit and recovery targets: distinct home blocks, few enough for the log area. */
  ghost predicate Targets(a: Area, d: seq<Block>, blocks: seq<int>) {
    && FitsOn(a, d)
    && |blocks| <= LOGSIZE && |blocks| < a.size
    && (forall i :: 0 <= i < |blocks| ==> 0 <= blocks[i] < |d| && !a.Has(blocks[i]))
    && (forall i, j :: 0 <= i < j < |blocks| ==> blocks[i] != blocks[j])
  }

  /** A disk from which recovery can start. */
  ghost predicate Recoverable(a: Area, d: seq<Block>) {
    FitsOn(a, d) && IsHead(d[a.start]) && Targets(a, d, Entries(d[a.start]))
  }

  ghost predicate Clear(a: Area, d: seq<Block>) {
    FitsOn(a, d) && |d[a.start]| == BSIZE && Word(d[a.start], 0) == 0
  }

  ghost predicate SameHome(a: Area, d: seq<Block>, d': seq<Block>) {
    |d| == |d'| && forall b :: 0 <= b < |d| && !a.Has(b) ==> d[b] == d'[b]
  }

  /** write_log: the logged blocks as cached in `view`, into the log. */
  function LogWrites(a: Area, blocks: seq<nat>, view: seq<Block>, k: nat): (ws: seq<Write>)
    requires k <= |blocks| && forall i :: 0 <= i < |blocks| ==> blocks[i] < |view|
  {
    seq(k, t requires 0 <= t < k => Write(a.start + t + 1, view[blocks[t]]))
  }

  /** install_trans: log blocks of `d` to their home locations. */
  function Installs(a: Area, blocks: seq<int>, d: seq<Block>, k: nat): (ws: seq<Write>)
    requires Targets(a, d, blocks) && k <= |blocks|
  {
    seq(k, t requires 0 <= t < k => Write(blocks[t], d[a.start + t + 1]))
  }

  /** recover_from_log: install whatever the header lists, then clear the header. */
  function RecoveryWrites(a: Area, d: seq<Block>): (ws: seq<Write>)
    requires Recoverable(a, d)
  {
    var blocks := Entries(d[a.start]);
    Installs(a, blocks, d, |blocks|) + [Write(a.start, SetWord(d[a.start], 0, 0))]
  }

  function Recovered(a: Area, d: seq<Block>): (r: seq<Block>)
    requires Recoverable(a, d)
  {
    Apply(d, RecoveryWrites(a, d))
  }

  /** commit: log blocks, header, home blocks, cleared header, in that order. */
  function CommitWrites(a: Area, blocks: seq<nat>, view: seq<Block>): (ws: seq<Write>)
    requires Targets(a, view, blocks) && |view[a.start]| == BSIZE
  {
    if blocks == [] then []
    else
      var head := WithHead(view[a.start], blocks);
      LogWrites(a, blocks, view, |blocks|) + [Write(a.start, head)] +
      Homes(blocks, view, |blocks|) + [Write(a.start, SetWord(head, 0, 0))]
  }

  function Homes(blocks: seq<nat>, view: seq<Block>, k: nat): (ws: seq<Write>)
    requires k <= |blocks| && forall i :: 0 <= i < |blocks| ==> blocks[i] < |view|
  {
    seq(k, t requires 0 <= t < k => Write(blocks[t], view[blocks[t]]))
  }

  /** The cache before a commit: it differs from the disk at logged blocks only. */
  ghost predicate Pending(a: Area, blocks: seq<nat>, d: seq<Block>, view: seq<Block>) {
    && |d| == |view|
    && Targets(a, d, blocks)
    && Clear(a, d)
    && view[a.start] == d[a.start]
    && forall b :: 0 <= b < |d| && !a.Has(b) && b !in blocks ==> view[b] == d[b]
  }

  // Facts about Apply.

  lemma {:induction false} ApplyConcat(d: seq<Block>, ws: seq<Write>, vs: seq<Write>)
    ensures Apply(d, ws + vs) == Apply(Apply(d, ws), vs)
  {
    if vs == [] {
      assert ws + vs == ws;
    } else {
      var n := |vs| - 1;
      ApplyConcat(d, ws, vs[..n]);
      assert (ws + vs)[..|ws| + n] == ws + vs[..n];
    }
  }

  lemma {:induction false} Untouched(d: seq<Block>, ws: seq<Write>, b: nat)
    requires b < |d| && forall t :: 0 <= t < |ws| ==> ws[t].blockno != b
    ensures Apply(d, ws)[b] == d[b]
  {
    if ws != [] {
      Untouched(d, ws[..|ws| - 1], b);
    }
  }

  lemma {:induction false} Touched(d: seq<Block>, ws: seq<Write>, t: nat)
    requires t < |ws| && ws[t].blockno < |d|
    requires forall u :: t < u < |ws| ==> ws[u].blockno != ws[t].blockno
    ensures Apply(d, ws)[ws[t].blockno] == ws[t].data
  {
    if t < |ws| - 1 {
      Touched(d, ws[..|ws| - 1], t);
    }
  }

  // Recovery.

  /** The transfers of a recovery, one by one. */
  lemma RecoverySteps(a: Area, d: seq<Block>)
    requires Recoverable(a, d)
    ensures var blocks, ws := Entries(d[a.start]), RecoveryWrites(a, d);
            && |ws| == |blocks| + 1 && ws[|blocks|] == Write(a.start, SetWord(d[a.start], 0, 0))
            && forall t :: 0 <= t < |blocks| ==> ws[t] == Write(blocks[t], d[a.start + t + 1])
  {
    hide Apply, Entries, Word, SetWord;
  }

  /** What a completed recovery leaves: listed blocks from the log, the rest as it was. */
  lemma RecoveredBlocks(a: Area, d: seq<Block>)
    requires Recoverable(a, d)
    ensures Clear(a, Recovered(a, d))
    ensures var blocks := Entries(d[a.start]);
            && (forall t :: 0 <= t < |blocks| ==> Recovered(a, d)[blocks[t]] == d[a.start + t + 1])
            && (forall b :: 0 <= b < |d| && !a.Has(b) && b !in blocks ==> Recovered(a, d)[b] == d[b])
  {
    hide Apply, Entries, Word, SetWord, RecoveryWrites, Installs;
    var blocks := Entries(d[a.start]);
    var ws := RecoveryWrites(a, d);
    RecoverySteps(a, d);
    Touched(d, ws, |blocks|);
    forall t | 0 <= t < |blocks| ensures Recovered(a, d)[blocks[t]] == d[a.start + t + 1] {
      Touched(d, ws, t);
    }
    forall b | 0 <= b < |d| && !a.Has(b) && b !in blocks ensures Recovered(a, d)[b] == d[b] {
      Untouched(d, ws, b);
    }
  }

  /** Recovery cut short after k block transfers and run again ends where an
      uninterrupted recovery does. */
  lemma RecoveryIsReplayable(a: Area, d: seq<Block>, k: nat)
    requires Recoverable(a, d) && k <= |RecoveryWrites(a, d)|
    ensures var d' := Apply(d, RecoveryWrites(a, d)[..k]);
            Recoverable(a, d') && SameHome(a, Recovered(a, d'), Recovered(a, d))
  {
    hide RecoveryWrites, Apply, Installs, Entries, Targets, IsHead, Word;
    var ws := RecoveryWrites(a, d);
    if k == |ws| {
      assert ws[..k] == ws;
      RecoveredBlocks(a, d);
      ClearRecovers(a, Recovered(a, d));
    } else {
      RecoveryPrefix(a, d, k);
      PartialInstall(a, d, Entries(d[a.start]), k);
    }
  }

  /** Short of its last transfer, a recovery has only installed blocks. */
  lemma RecoveryPrefix(a: Area, d: seq<Block>, k: nat)
    requires Recoverable(a, d) && k < |RecoveryWrites(a, d)|
    ensures var blocks := Entries(d[a.start]);
            k <= |blocks| && RecoveryWrites(a, d)[..k] == Installs(a, blocks, d, k)
  {
    hide Entries, Targets, IsHead, Word, Apply;
  }

  lemma InstallsSpare(a: Area, d: seq<Block>, blocks: seq<int>, k: nat, b: nat)
    requires Targets(a, d, blocks) && k <= |blocks| && b < |d| && (a.Has(b) || b !in blocks)
    ensures Apply(d, Installs(a, blocks, d, k))[b] == d[b]
  {
    Untouched(d, Installs(a, blocks, d, k), b);
  }

  lemma StillRecoverable(a: Area, d: seq<Block>, blocks: seq<int>, k: nat)
    requires Recoverable(a, d) && blocks == Entries(d[a.start]) && k <= |blocks|
    ensures var d' := Apply(d, Installs(a, blocks, d, k));
            Recoverable(a, d') && d'[a.start] == d[a.start] && |d'| == |d|
  {
    hide Installs, Entries, Apply, Word;
    InstallsSpare(a, d, blocks, k, a.start);
  }

  lemma PartialInstall(a: Area, d: seq<Block>, blocks: seq<int>, k: nat)
    requires Recoverable(a, d) && blocks == Entries(d[a.start]) && k <= |blocks|
    ensures var d' := Apply(d, Installs(a, blocks, d, k));
            Recoverable(a, d') && SameHome(a, Recovered(a, d'), Recovered(a, d))
  {
    hide Apply, Installs, Entries, RecoveryWrites, Word, IsHead;
    StillRecoverable(a, d, blocks, k);
    var d' := Apply(d, Installs(a, blocks, d, k));
    RecoveredBlocks(a, d);
    RecoveredBlocks(a, d');
    forall b | 0 <= b < |d| && !a.Has(b) ensures Recovered(a, d')[b] == Recovered(a, d)[b] {
      if b in blocks {
        var t :| 0 <= t < |blocks| && blocks[t] == b;
        InstallsSpare(a, d, blocks, k, a.start + t + 1);
      } else {
        InstallsSpare(a, d, blocks, k, b);
      }
    }
  }

  /** The disk after any number of recoveries, the i-th cut short after crashes[i] transfers. */
  ghost function Reboots(a: Area, d: seq<Block>, crashes: seq<nat>): (r: seq<Block>)
    requires Recoverable(a, d)
    decreases |crashes|
    ensures Recoverable(a, r)
  {
    if crashes == [] then d
    else
      var ws := RecoveryWrites(a, d);
      var k := if crashes[0] <= |ws| then crashes[0] else |ws|;
      RecoveryIsReplayable(a, d, k);
      Reboots(a, Apply(d, ws[..k]), crashes[1..])
  }

  lemma {:induction false} RebootsConverge(a: Area, d: seq<Block>, crashes: seq<nat>)
    requires Recoverable(a, d)
    ensures SameHome(a, Recovered(a, Reboots(a, d, crashes)), Recovered(a, d))
    decreases |crashes|
  {
    if crashes != [] {
      var ws := RecoveryWrites(a, d);
      var k := if crashes[0] <= |ws| then crashes[0] else |ws|;
      RecoveryIsReplayable(a, d, k);
      RebootsConverge(a, Apply(d, ws[..k]), crashes[1..]);
    }
  }

  // Commit.

  /** A commit cut short before the header reaches the disk: home blocks untouched. */
  lemma BeforeHeader(a: Area, blocks: seq<nat>, d: seq<Block>, view: seq<Block>, k: nat)
    requires Pending(a, blocks, d, view) && k <= |blocks|
    ensures var d' := Apply(d, LogWrites(a, blocks, view, k));
            && SameHome(a, d', d) && d'[a.start] == d[a.start]
            && forall t :: 0 <= t < k ==> d'[a.start + t + 1] == view[blocks[t]]
  {
    var ws := LogWrites(a, blocks, view, k);
    forall b | 0 <= b < |d| && (!a.Has(b) || b == a.start) ensures Apply(d, ws)[b] == d[b] {
      Untouched(d, ws, b);
    }
    forall t | 0 <= t < k ensures Apply(d, ws)[a.start + t + 1] == view[blocks[t]] {
      Touched(d, ws, t);
    }
  }

  /** The transaction is in the log: the header lists its blocks, the entries hold their
      new contents, and every other home block is current. */
  ghost predicate InLog(a: Area, blocks: seq<nat>, view: seq<Block>, d: seq<Block>) {
    && |d| == |view|
    && Targets(a, d, blocks)
    && IsHead(d[a.start]) && Entries(d[a.start]) == blocks
    && (forall t :: 0 <= t < |blocks| ==> d[a.start + t + 1] == view[blocks[t]])
    && (forall b :: 0 <= b < |d| && !a.Has(b) && b !in blocks ==> d[b] == view[b])
  }

  lemma InLogRecovers(a: Area, blocks: seq<nat>, view: seq<Block>, d: seq<Block>)
    requires InLog(a, blocks, view, d)
    ensures Recoverable(a, d) && SameHome(a, Recovered(a, d), view)
  {
    RecoveredBlocks(a, d);
    forall b | 0 <= b < |d| && !a.Has(b) ensures Recovered(a, d)[b] == view[b] {
      if b in blocks {
        var t :| 0 <= t < |blocks| && blocks[t] == b;
        assert d[a.start + t + 1] == view[blocks[t]];
      }
    }
  }

  /** The disk once write_log and write_head are done. */
  function Headed(a: Area, blocks: seq<nat>, d: seq<Block>, view: seq<Block>): seq<Block>
    requires |d| == |view| && Targets(a, view, blocks) && |view[a.start]| == BSIZE
  {
    Apply(d, LogWrites(a, blocks, view, |blocks|))[a.start := WithHead(view[a.start], blocks)]
  }

  lemma HeadEntries(a: Area, blocks: seq<nat>, d: seq<Block>, view: seq<Block>)
    requires Pending(a, blocks, d, view)
    ensures var head := WithHead(view[a.start], blocks); IsHead(head) && Entries(head) == blocks
  {
  }

  lemma HeaderCommits(a: Area, blocks: seq<nat>, d: seq<Block>, view: seq<Block>)
    requires Pending(a, blocks, d, view)
    ensures InLog(a, blocks, view, Headed(a, blocks, d, view))
  {
    hide Apply, LogWrites, WithHead, Entries, IsHead;
    BeforeHeader(a, blocks, d, view, |blocks|);
    HeadEntries(a, blocks, d, view);
  }

  /** Installing blocks leaves the transaction in the log; installing all makes home current. */
  lemma InstallKeepsLog(a: Area, blocks: seq<nat>, view: seq<Block>, d: seq<Block>, k: nat)
    requires InLog(a, blocks, view, d) && k <= |blocks|
    ensures var d' := Apply(d, Homes(blocks, view, k));
            && d'[a.start] == d[a.start]
            && InLog(a, blocks, view, d')
            && (k == |blocks| ==> SameHome(a, d', view))
  {
    var ws := Homes(blocks, view, k);
    var d' := Apply(d, ws);
    forall b | 0 <= b < |d| && (a.Has(b) || b !in blocks) ensures d'[b] == d[b] {
      Untouched(d, ws, b);
    }
    forall t | 0 <= t < k ensures d'[blocks[t]] == view[blocks[t]] {
      Touched(d, ws, t);
    }
  }

  /** Replaying the first transfers of a commit, up to k home blocks. */
  lemma ReplayCommit(a: Area, blocks: seq<nat>, d: seq<Block>, view: seq<Block>, k: nat)
    requires Pending(a, blocks, d, view) && k <= |blocks|
    ensures var upToHead := LogWrites(a, blocks, view, |blocks|) + [Write(a.start, WithHead(view[a.start], blocks))];
            Apply(d, upToHead + Homes(blocks, view, k)) == Apply(Headed(a, blocks, d, view), Homes(blocks, view, k))
  {
    var head := [Write(a.start, WithHead(view[a.start], blocks))];
    var logs := LogWrites(a, blocks, view, |blocks|);
    ApplyConcat(d, logs, head);
    var d1 := Apply(d, logs);
    assert head[..0] == [];
    assert Apply(d1, head) == Headed(a, blocks, d, view);
    ApplyConcat(d, logs + head, Homes(blocks, view, k));
  }

  /** The disk after the first k block transfers of a commit. */
  function AfterCrash(a: Area, blocks: seq<nat>, d: seq<Block>, view: seq<Block>, k: nat): seq<Block>
    requires Targets(a, view, blocks) && |view[a.start]| == BSIZE
    requires k <= |CommitWrites(a, blocks, view)|
  {
    Apply(d, CommitWrites(a, blocks, view)[..k])
  }

  lemma PrefixOfThree(u: seq<Write>, w: Write, v: seq<Write>, x: Write, k: nat)
    requires k <= |u| + |v| + 2
    ensures var ws := u + [w] + v + [x];
            && (k <= |u| ==> ws[..k] == u[..k])
            && (|u| < k <= |u| + |v| + 1 ==> ws[..k] == u + [w] + v[..k - |u| - 1])
            && (k == |u| + |v| + 2 ==> ws[..k] == ws)
  {
    var ws := u + [w] + v + [x];
    if |u| < k <= |u| + |v| + 1 {
      var m := k - |u| - 1;
      assert v == v[..m] + v[m..];
      assert ws == (u + [w] + v[..m]) + (v[m..] + [x]);
    }
  }

  lemma LogWritesPrefix(a: Area, blocks: seq<nat>, view: seq<Block>, k: nat)
    requires k <= |blocks| && forall i :: 0 <= i < |blocks| ==> blocks[i] < |view|
    ensures LogWrites(a, blocks, view, |blocks|)[..k] == LogWrites(a, blocks, view, k)
    ensures Homes(blocks, view, |blocks|)[..k] == Homes(blocks, view, k)
  {
  }

  lemma CommitPrefix(a: Area, blocks: seq<nat>, view: seq<Block>, k: nat)
    requires Targets(a, view, blocks) && |view[a.start]| == BSIZE
    requires k <= |CommitWrites(a, blocks, view)|
    ensures var ws := CommitWrites(a, blocks, view);
            var n := |blocks|;
            && (k <= n ==> ws[..k] == LogWrites(a, blocks, view, k))
            && (n < k <= 2 * n + 1 ==>
                  ws[..k] == LogWrites(a, blocks, view, n) + [Write(a.start, WithHead(view[a.start], blocks))] + Homes(blocks, view, k - n - 1))
            && (k > 2 * n + 1 ==> ws[..k] == ws)
  {
    hide WithHead;
    var n := |blocks|;
    if blocks != [] {
      hide LogWrites, Homes;
      var head := WithHead(view[a.start], blocks);
      LogWritesPrefix(a, blocks, view, if k <= n then k else if k <= 2 * n + 1 then k - n - 1 else n);
      Lengths(a, blocks, view);
      PrefixOfThree(LogWrites(a, blocks, view, n), Write(a.start, head), Homes(blocks, view, n), Write(a.start, SetWord(head, 0, 0)), k);
    } else {
      assert k == 0;
    }
  }

  lemma Lengths(a: Area, blocks: seq<nat>, view: seq<Block>)
    requires forall i :: 0 <= i < |blocks| ==> blocks[i] < |view|
    ensures |LogWrites(a, blocks, view, |blocks|)| == |Homes(blocks, view, |blocks|)| == |blocks|
  {
  }

  /** Nothing of the transaction has reached home or header. */
  lemma UncommittedRecovers(a: Area, blocks: seq<nat>, d: seq<Block>, view: seq<Block>, k: nat)
    requires Pending(a, blocks, d, view) && k <= |blocks|
    ensures var d' := Apply(d, LogWrites(a, blocks, view, k));
            Recoverable(a, d') && SameHome(a, Recovered(a, d'), d)
  {
    BeforeHeader(a, blocks, d, view, k);
    ClearRecovers(a, Apply(d, LogWrites(a, blocks, view, k)));
  }

  /** With a clear header, recovery leaves home blocks alone. */
  lemma ClearRecovers(a: Area, d: seq<Block>)
    requires Clear(a, d)
    ensures Recoverable(a, d) && SameHome(a, Recovered(a, d), d)
  {
    RecoveredBlocks(a, d);
  }

  lemma CommittedRecovers(a: Area, blocks: seq<nat>, d: seq<Block>, view: seq<Block>, m: nat)
    requires Pending(a, blocks, d, view) && m <= |blocks|
    ensures var ws := LogWrites(a, blocks, view, |blocks|) + [Write(a.start, WithHead(view[a.start], blocks))] + Homes(blocks, view, m);
            var d' := Apply(d, ws);
            Recoverable(a, d') && SameHome(a, Recovered(a, d'), view)
  {
    ReplayCommit(a, blocks, d, view, m);
    HeaderCommits(a, blocks, d, view);
    var d2 := Headed(a, blocks, d, view);
    InstallKeepsLog(a, blocks, view, d2, m);
    InLogRecovers(a, blocks, view, Apply(d2, Homes(blocks, view, m)));
  }

  /** A commit cut short after k transfers: recovery yields the old home blocks if the
      header had not been written, and the new ones from then on. */
  lemma CommitCrash(a: Area, blocks: seq<nat>, d: seq<Block>, view: seq<Block>, k: nat)
    requires Pending(a, blocks, d, view) && k <= |CommitWrites(a, blocks, view)|
    ensures var d' := AfterCrash(a, blocks, d, view, k);
            && Recoverable(a, d')
            && SameHome(a, Recovered(a, d'), if k <= |blocks| then d else view)
  {
    var n := |blocks|;
    CommitPrefix(a, blocks, view, k);
    if k <= n {
      UncommittedRecovers(a, blocks, d, view, k);
    } else if k <= 2 * n + 1 {
      CommittedRecovers(a, blocks, d, view, k - n - 1);
    } else {
      CommitCompletes(a, blocks, d, view);
      ClearRecovers(a, AfterCrash(a, blocks, d, view, k));
    }
  }

  /** Crash atomicity.  Cut a commit short anywhere, then cut short any number of
      recoveries anywhere: the recovery that completes leaves every block outside the log
      area old, or every one new, by whether the header write happened; and it clears
      the header. */
  lemma CrashAtomicity(a: Area, blocks: seq<nat>, d: seq<Block>, view: seq<Block>, k: nat, crashes: seq<nat>)
    requires Pending(a, blocks, d, view) && k <= |CommitWrites(a, blocks, view)|
    ensures Recoverable(a, AfterCrash(a, blocks, d, view, k))
    ensures var r := Recovered(a, Reboots(a, AfterCrash(a, blocks, d, view, k), crashes));
            Clear(a, r) && SameHome(a, r, if k <= |blocks| then d else view)
  {
    CommitCrash(a, blocks, d, view, k);
    var d' := AfterCrash(a, blocks, d, view, k);
    RebootsConverge(a, d', crashes);
    RecoveredBlocks(a, Reboots(a, d', crashes));
  }

  /** A commit that completes leaves the new blocks at home and the header clear. */
  lemma CommitCompletes(a: Area, blocks: seq<nat>, d: seq<Block>, view: seq<Block>)
    requires Pending(a, blocks, d, view)
    ensures var d' := Apply(d, CommitWrites(a, blocks, view));
            Clear(a, d') && SameHome(a, d', view)
  {
    var n := |blocks|;
    if n > 0 {
      var head := WithHead(view[a.start], blocks);
      var most := LogWrites(a, blocks, view, n) + [Write(a.start, head)] + Homes(blocks, view, n);
      ReplayCommit(a, blocks, d, view, n);
      HeaderCommits(a, blocks, d, view);
      InstallKeepsLog(a, blocks, view, Headed(a, blocks, d, view), n);
      ApplyConcat(d, most, [Write(a.start, SetWord(head, 0, 0))]);
    }
  }
}
