/** HW3/mkfs.c builds the same layout a second time: blocks are handed out by a counter,
    and the bitmap is written once at the end. */
module Mkfs {
  import opened Basics
  import opened Blocks
  import opened Inodes
  import opened FileSystem
  import opened DiskLayout

  const FSSIZE: nat := 1000
  const NINODES: nat := 200
  const NLOG: nat := 30                        // LOGSIZE
  const NBITMAP: nat := FSSIZE / BPB + 1
  const NINODEBLOCKS: nat := NINODES / IPB + 1
  const NMETA: nat := 2 + NLOG + NINODEBLOCKS + NBITMAP

  /** The superblock that main writes. */
  function TheSuper(): Super {
    Super(FSSIZE, FSSIZE - NMETA, NINODES, NLOG, 2, 2 + NLOG, 2 + NLOG + NINODEBLOCKS)
  }

  /** Boot block, superblock, log, inodes and bitmap lie below the first block a file can own, apart
      from one another. */
  lemma MetadataApart(x: nat)
    ensures Laid(TheSuper(), NMETA) && Laid(TheSuper(), FSSIZE)
    ensures var sb := TheSuper();
            && sb.nblocks == sb.size - NMETA
            && (InLog(sb, x) ==> 1 < x < NMETA && !InInodes(sb, x) && !InBitmap(sb, x))
            && (InInodes(sb, x) ==> 1 < x < NMETA && !InLog(sb, x) && !InBitmap(sb, x))
            && (InBitmap(sb, x) ==> 1 < x < NMETA && !InLog(sb, x) && !InInodes(sb, x))
  {
    RegionsApart(TheSuper(), NMETA, x);
  }

  /** The blocks one turn of iappend's loop takes: none inside a block, one at a boundary, and the
      indirect block with the first block past the direct ones. */
  lemma NeedStep(off: nat, m: nat)
    requires 0 < m <= BSIZE - off % BSIZE
    ensures Need(off + m) == Need(off) + (if off % BSIZE == 0 then 1 else 0) + if off == NDIRECT * BSIZE then 1 else 0
  {
  }

  lemma NeedMono(m: nat, n: nat)
    requires m <= n
    ensures Need(m) <= Need(n)
  {
  }

  ghost predicate TailZero(disk: seq<Block>, inodes: seq<Inode>) {
    forall k, o: nat :: 0 <= k < |inodes| && inodes[k].size <= o ==> ByteAt(disk, inodes[k], o) == 0
  }

  /** Blocks that looking up block fbn of a file allocates. */
  function Missing(disk: seq<Block>, ip: Inode, fbn: nat): nat {
    (if Ref(disk, ip, SlotOf(fbn)) == 0 then 1 else 0) + if fbn >= NDIRECT && Ref(disk, ip, INDIRECT) == 0 then 1 else 0
  }

  lemma MissingIsNeed(disk: seq<Block>, ip: Inode, off: nat, m: nat)
    requires Tight(disk, ip, off) && off / BSIZE < MAXFILE && 0 < m <= BSIZE - off % BSIZE
    ensures Need(off + m) == Need(off) + Missing(disk, ip, off / BSIZE)
  {
    hide Ref, Need;
    NeedStep(off, m);
    var fbn := off / BSIZE;
    assert Ref(disk, ip, SlotOf(fbn)) != 0 <==> fbn * BSIZE < off;
  }

  /** The file's blocks once its next block has been looked up. */
  lemma TightMore(disk: seq<Block>, inodes: seq<Inode>, disk': seq<Block>, inodes': seq<Inode>, i: nat, off: nat, m: nat)
    requires i < |inodes| && Tight(disk, inodes[i], off) && off / BSIZE < MAXFILE && 0 < m <= BSIZE - off % BSIZE
    requires var fbn := off / BSIZE;
             && RefsBut(disk, inodes, disk', inodes', i, SlotOf(fbn), if fbn < NDIRECT then SlotOf(fbn) else INDIRECT)
             && Ref(disk', inodes'[i], SlotOf(fbn)) != 0 && (fbn >= NDIRECT ==> Ref(disk', inodes'[i], INDIRECT) != 0)
    ensures Tight(disk', inodes'[i], off + m)
  {
    hide Ref;
    var fbn := off / BSIZE;
    forall bn | 0 <= bn < MAXFILE ensures Ref(disk', inodes'[i], SlotOf(bn)) != 0 <==> bn * BSIZE < off + m {
      if bn != fbn {
        assert SlotOf(bn) != SlotOf(fbn) && SlotOf(bn) != INDIRECT;
        assert Ref(disk', inodes'[i], SlotOf(bn)) == Ref(disk, inodes[i], SlotOf(bn));
        assert Ref(disk, inodes[i], SlotOf(bn)) != 0 <==> bn * BSIZE < off;
      }
    }
    if fbn < NDIRECT {
      assert Ref(disk', inodes'[i], INDIRECT) == Ref(disk, inodes[i], INDIRECT);
    }
  }

  lemma TightSame(disk: seq<Block>, inodes: seq<Inode>, disk': seq<Block>, inodes': seq<Inode>, i: nat, n: nat, k: nat, s: int, t: int)
    requires k < |inodes| && Tight(disk, inodes[k], n) && RefsBut(disk, inodes, disk', inodes', i, s, t) && k != i
    ensures Tight(disk', inodes'[k], n)
  {
    hide Ref;
    forall bn | 0 <= bn < MAXFILE ensures Ref(disk', inodes'[k], SlotOf(bn)) != 0 <==> bn * BSIZE < n {
      assert Ref(disk', inodes'[k], SlotOf(bn)) == Ref(disk, inodes[k], SlotOf(bn));
    }
    assert Ref(disk', inodes'[k], INDIRECT) == Ref(disk, inodes[k], INDIRECT);
  }

  lemma TightRefs(disk: seq<Block>, inodes: seq<Inode>, disk': seq<Block>, k: nat, n: nat)
    requires k < |inodes| && Tight(disk, inodes[k], n) && SameRefs(disk, inodes, disk', inodes)
    ensures Tight(disk', inodes[k], n)
  {
    hide Ref;
    forall bn | 0 <= bn < MAXFILE ensures Ref(disk', inodes[k], SlotOf(bn)) != 0 <==> bn * BSIZE < n {
      assert Ref(disk', inodes[k], SlotOf(bn)) == Ref(disk, inodes[k], SlotOf(bn));
    }
    assert Ref(disk', inodes[k], INDIRECT) == Ref(disk, inodes[k], INDIRECT);
  }

  lemma TightSized(disk: seq<Block>, ip: Inode, n: nat)
    requires Tight(disk, ip, n)
    ensures Tight(disk, ip.(size := n), n)
  {
    forall bn | 0 <= bn < MAXFILE ensures Ref(disk, ip.(size := n), SlotOf(bn)) != 0 <==> bn * BSIZE < n {
      assert Ref(disk, ip.(size := n), SlotOf(bn)) == Ref(disk, ip, SlotOf(bn));
    }
    assert Ref(disk, ip.(size := n), INDIRECT) == Ref(disk, ip, INDIRECT);
  }

  /** Every file but inode i has exactly the blocks its size needs. */
  ghost predicate TightBut(disk: seq<Block>, inodes: seq<Inode>, i: int) {
    forall k :: 0 <= k < |inodes| && k != i ==> Tight(disk, inodes[k], inodes[k].size)
  }

  lemma TightButSame(disk: seq<Block>, inodes: seq<Inode>, disk': seq<Block>, inodes': seq<Inode>, i: nat, s: int, t: int)
    requires TightBut(disk, inodes, i) && |inodes'| == |inodes| && RefsBut(disk, inodes, disk', inodes', i, s, t)
    requires forall k :: 0 <= k < |inodes| ==> inodes'[k].size == inodes[k].size
    ensures TightBut(disk', inodes', i)
  {
    hide Tight, RefsBut;
    forall k | 0 <= k < |inodes'| && k != i ensures Tight(disk', inodes'[k], inodes'[k].size) {
      TightSame(disk, inodes, disk', inodes', i, inodes[k].size, k, s, t);
    }
  }

  class Image {
    var disk: seq<Block>
    var inodes: seq<Inode>
    var bitmap: seq<bv8>
    var freeblock: nat
    var freeinode: nat
    ghost var owner: Owners

    /** Blocks NMETA .. freeblock-1 are owned, one slot each; later blocks are still zero. */
    ghost predicate Valid()
      reads this
    {
      && |disk| == FSSIZE && Owned(disk, inodes, owner, NMETA, FSSIZE)
      && NMETA <= freeblock <= FSSIZE
      && (forall b :: b in owner <==> NMETA <= b < freeblock)
      && (forall b :: freeblock <= b < FSSIZE ==> disk[b] == Zeroed())
      && |inodes| == NINODES && (forall k :: freeinode <= k < NINODES ==> inodes[k] == EMPTY)
    }

    constructor ()
      ensures Valid() && freeblock == NMETA && freeinode == 1 && forall k :: 0 <= k < NINODES ==> inodes[k] == EMPTY
    {
      disk := seq(FSSIZE, _ => Zeroed());
      inodes := seq(NINODES, _ => EMPTY);
      bitmap := [];
      freeblock, freeinode := NMETA, 1;
      owner := map[];
    }

    /** ialloc: inode numbers in order. */
    method Ialloc() returns (inum: nat)
      requires Valid() && freeinode < NINODES
      modifies `freeinode
      ensures Valid() && inum == old(freeinode) && freeinode == inum + 1 && inodes[inum] == EMPTY
    {
      inum := freeinode;
      freeinode := freeinode + 1;
    }

    /** A fresh block for slot s of the inode itself, if it has none. */
    method TakeAddr(inum: nat, s: nat)
      requires Valid() && inum < freeinode <= NINODES && s <= INDIRECT && (inodes[inum].addrs[s] == 0 ==> freeblock < FSSIZE)
      modifies `inodes, `freeblock, `owner
      ensures Valid() && SameBytes(old(disk), old(inodes), disk, inodes) && RefsBut(old(disk), old(inodes), disk, inodes, inum, s, s)
      ensures inodes[inum].addrs[s] != 0 && Ref(disk, inodes[inum], s) == inodes[inum].addrs[s]
      ensures freeblock == old(freeblock) + if old(inodes)[inum].addrs[s] == 0 then 1 else 0
    {
      if inodes[inum].addrs[s] == 0 {
        var z := freeblock;
        AssignAddr(disk, inodes, owner, NMETA, FSSIZE, inum, s, z);
        assert disk[z := Zeroed()] == disk;
        inodes := inodes[inum := inodes[inum].(addrs := inodes[inum].addrs[s := z])];
        freeblock := freeblock + 1;
        owner := owner[z := (inum, s)];
      }
    }

    /** A fresh block for an entry of the indirect block, if it has none. */
    method TakeEntry(inum: nat, j: nat)
      requires Valid() && inum < |inodes| && j < NINDIRECT && inodes[inum].addrs[INDIRECT] != 0
      requires Ref(disk, inodes[inum], INDIRECT + 1 + j) == 0 ==> freeblock < FSSIZE
      modifies `disk, `freeblock, `owner
      ensures Valid() && SameBytes(old(disk), inodes, disk, inodes)
      ensures RefsBut(old(disk), inodes, disk, inodes, inum, INDIRECT + 1 + j, INDIRECT + 1 + j)
      ensures Ref(disk, inodes[inum], INDIRECT + 1 + j) != 0
      ensures freeblock == old(freeblock) + if Ref(old(disk), inodes[inum], INDIRECT + 1 + j) == 0 then 1 else 0
    {
      var a := inodes[inum].addrs[INDIRECT];
      assert Ref(disk, inodes[inum], INDIRECT) == a;
      assert Ref(disk, inodes[inum], INDIRECT + 1 + j) == Word(disk[a], j);
      if Word(disk[a], j) == 0 {
        var z := freeblock;
        AssignEntry(disk, inodes, owner, NMETA, FSSIZE, inum, j, z);
        assert disk[z := Zeroed()] == disk;
        disk := disk[a := SetWord(disk[a], j, z)];
        freeblock := freeblock + 1;
        owner := owner[z := (inum, INDIRECT + 1 + j)];
      }
    }

    /** The block lookup of iappend. */
    method Lookup(inum: nat, fbn: nat) returns (x: nat)
      requires Valid() && inum < freeinode <= NINODES && fbn < MAXFILE
      requires freeblock + Missing(disk, inodes[inum], fbn) <= FSSIZE
      modifies `disk, `inodes, `freeblock, `owner
      ensures Valid() && SameBytes(old(disk), old(inodes), disk, inodes)
      ensures RefsBut(old(disk), old(inodes), disk, inodes, inum, SlotOf(fbn), if fbn < NDIRECT then SlotOf(fbn) else INDIRECT)
      ensures x > 0 && x == Ref(disk, inodes[inum], SlotOf(fbn)) && (fbn >= NDIRECT ==> Ref(disk, inodes[inum], INDIRECT) != 0)
      ensures freeblock == old(freeblock) + Missing(old(disk), old(inodes)[inum], fbn)
    {
      if fbn < NDIRECT {
        assert Ref(disk, inodes[inum], fbn) == inodes[inum].addrs[fbn];
        TakeAddr(inum, fbn);
        x := inodes[inum].addrs[fbn];
      } else {
        assert Ref(disk, inodes[inum], INDIRECT) == inodes[inum].addrs[INDIRECT];
        TakeAddr(inum, INDIRECT);
        ghost var disk1, inodes1 := disk, inodes;
        assert Ref(disk1, inodes1[inum], INDIRECT + 1 + (fbn - NDIRECT)) == Ref(old(disk), old(inodes)[inum], SlotOf(fbn));
        TakeEntry(inum, fbn - NDIRECT);
        SameBytesTrans(old(disk), old(inodes), disk1, inodes1, disk, inodes);
        RefsButTwo(old(disk), old(inodes), disk1, inodes1, disk, inodes, inum, INDIRECT, SlotOf(fbn));
        assert Ref(disk, inodes[inum], INDIRECT) == inodes[inum].addrs[INDIRECT];
        x := Word(disk[inodes[inum].addrs[INDIRECT]], fbn - NDIRECT);
      }
    }

    /** rsect, bcopy, wsect: overwrite part of the block that holds offset off. */
    method Store(inum: nat, x: nat, off: nat, data: seq<int>)
      requires Valid() && inum < |inodes| && off % BSIZE + |data| <= BSIZE
      requires 0 < x == Ref(disk, inodes[inum], SlotOf(off / BSIZE))
      modifies `disk
      ensures Valid() && SameRefs(old(disk), inodes, disk, inodes)
      ensures forall k, o: nat :: 0 <= k < |inodes| ==>
                ByteAt(disk, inodes[k], o) == if k == inum && off <= o < off + |data| then data[o - off] else ByteAt(old(disk), inodes[k], o)
    {
      StoreBytes(disk, inodes, owner, NMETA, FSSIZE, inum, off, data);
      assert x in owner;
      disk := disk[x := Splice(disk[x], off % BSIZE, data)];
    }

    /** One turn of iappend's loop: at most the rest of one block. */
    method AppendSome(inum: nat, data: seq<int>, off0: nat, tot: nat, ghost disk0: seq<Block>, ghost inodes0: seq<Inode>) returns (n1: nat)
      requires Valid() && inum < freeinode <= NINODES && tot < |data| && (off0 + tot) / BSIZE < MAXFILE
      requires freeblock + Need(off0 + |data|) - Need(off0 + tot) <= FSSIZE
      requires Written(disk0, inodes0, disk, inodes, inum, off0, data[..tot])
      requires Tight(disk, inodes[inum], off0 + tot) && TightBut(disk, inodes, inum)
      modifies `disk, `inodes, `freeblock, `owner
      ensures Valid()
      ensures Tight(disk, inodes[inum], off0 + tot + n1) && TightBut(disk, inodes, inum)
      ensures 0 < n1 && tot + n1 <= |data|
      ensures off0 + tot + n1 <= ((off0 + tot) / BSIZE + 1) * BSIZE
      ensures freeblock == old(freeblock) + Need(off0 + tot + n1) - Need(off0 + tot)
      ensures Written(disk0, inodes0, disk, inodes, inum, off0, data[..tot + n1])
    {
      hide Ref, ByteAt, Owned, Tight, Need, RefsBut, Missing, TightBut;
      var off := off0 + tot;
      var fbn := off / BSIZE;
      n1 := Min(|data| - tot, (fbn + 1) * BSIZE - off);
      assert off - fbn * BSIZE == off % BSIZE && 0 < n1 <= BSIZE - off % BSIZE;
      MissingIsNeed(disk, inodes[inum], off, n1);
      NeedMono(off + n1, off0 + |data|);
      ghost var disk1, inodes1 := disk, inodes;
      var x := Lookup(inum, fbn);
      ghost var disk2 := disk;
      TightMore(disk1, inodes1, disk, inodes, inum, off, n1);
      SizesSame(disk1, inodes1, disk, inodes);
      TightButSame(disk1, inodes1, disk, inodes, inum, SlotOf(fbn), if fbn < NDIRECT then SlotOf(fbn) else INDIRECT);
      Store(inum, x, off, data[tot..tot + n1]);
      WrittenMore(disk0, inodes0, disk1, inodes1, disk2, inodes, disk, inum, off0, data[..tot], data[tot..tot + n1]);
      assert data[..tot] + data[tot..tot + n1] == data[..tot + n1];
      TightRefs(disk2, inodes, disk, inum, off + n1);
      TightButRefs(disk2, inodes, disk, inum);
    }

    /** The closing winode of iappend: the bytes written become part of the file. */
    method SetSize(inum: nat, off0: nat, data: seq<int>, ghost disk0: seq<Block>, ghost inodes0: seq<Inode>)
      requires Valid() && inum < freeinode <= NINODES && |inodes0| == NINODES && off0 == inodes0[inum].size
      requires Written(disk0, inodes0, disk, inodes, inum, off0, data) && TailZero(disk0, inodes0)
      modifies `inodes
      ensures Valid() && TailZero(disk, inodes)
      ensures inodes == old(inodes)[inum := old(inodes)[inum].(size := off0 + |data|)]
      ensures Content(disk, inodes[inum]) == Content(disk0, inodes0[inum]) + data
      ensures forall k :: 0 <= k < NINODES && k != inum ==> Content(disk, inodes[k]) == Content(disk0, inodes0[k])
    {
      hide Owned, ByteAt, Content, Written, TailZero;
      GrownFile(disk0, inodes0, disk, inodes, owner, inum, data);
      inodes := inodes[inum := inodes[inum].(size := off0 + |data|)];
    }

    /** iappend: the file grows by exactly these bytes, no other file changes, and exactly the blocks
        needed are taken.  It aborts if the file would exceed MAXFILE blocks. */
    method Iappend(inum: nat, data: seq<int>) returns (ok: bool)
      requires Valid() && TailZero(disk, inodes) && TightBut(disk, inodes, -1) && inum < freeinode <= NINODES
      requires inodes[inum].size <= MAXBYTES && freeblock + Need(inodes[inum].size + |data|) - Need(inodes[inum].size) <= FSSIZE
      modifies `disk, `inodes, `freeblock, `owner
      ensures Valid()
      ensures ok <==> old(inodes)[inum].size + |data| <= MAXBYTES
      ensures ok ==> TailZero(disk, inodes) && TightBut(disk, inodes, -1)
      ensures ok ==> Content(disk, inodes[inum]) == Content(old(disk), old(inodes)[inum]) + data
      ensures ok ==> forall k :: 0 <= k < NINODES && k != inum ==> Content(disk, inodes[k]) == Content(old(disk), old(inodes)[k])
      ensures ok ==> freeblock == old(freeblock) + Need(inodes[inum].size) - Need(old(inodes)[inum].size)
    {
      hide Owned, Tight, Need, Content, ByteAt;
      ghost var disk0, inodes0 := disk, inodes;
      var off0 := inodes[inum].size;
      var tot := 0;
      while tot < |data|
        invariant 0 <= tot <= |data| && Valid() && off0 + tot <= MAXBYTES
        invariant freeblock == old(freeblock) + Need(off0 + tot) - Need(off0)
        invariant Written(disk0, inodes0, disk, inodes, inum, off0, data[..tot])
        invariant Tight(disk, inodes[inum], off0 + tot) && TightBut(disk, inodes, inum)
      {
        if (off0 + tot) / BSIZE >= MAXFILE {
          return false;
        }
        var n1 := AppendSome(inum, data, off0, tot, disk0, inodes0);
        tot := tot + n1;
      }
      assert data[..tot] == data;
      TightSized(disk, inodes[inum], off0 + |data|);
      SetSize(inum, off0, data, disk0, inodes0);
      ContentSize(disk, inodes[inum]);
      return true;
    }

    /** main rounds the root directory's size up past the next block boundary; the file
        gains zeros only, whether or not a block is allocated for them. */
    method FixRootSize(inum: nat)
      requires Valid() && TailZero(disk, inodes) && inum < freeinode <= NINODES
      modifies `inodes
      ensures Valid() && TailZero(disk, inodes)
      ensures inodes[inum] == old(inodes)[inum].(size := (old(inodes)[inum].size / BSIZE + 1) * BSIZE)
      ensures Content(disk, inodes[inum]) ==
              Content(disk, old(inodes)[inum]) + seq(inodes[inum].size - old(inodes)[inum].size, _ => 0)
      ensures forall k :: 0 <= k < NINODES && k != inum ==> inodes[k] == old(inodes)[k]
    {
      var size := (inodes[inum].size / BSIZE + 1) * BSIZE;
      Resize(disk, inodes, owner, NMETA, FSSIZE, inum, size);
      hide Owned, ByteAt;
      inodes := inodes[inum := inodes[inum].(size := size)];
    }

    /** balloc: bits 0 .. freeblock-1, which is what the kernel's allocator expects. */
    method Balloc() returns (ok: bool)
      requires Valid()
      modifies `bitmap
      ensures Valid() && (ok <==> freeblock < BSIZE * 8) && (ok ==> |bitmap| == BSIZE)
      ensures ok ==> BitsMatch(bitmap, owner, NMETA, FSSIZE)
      ensures ok ==> forall b :: 0 <= b < BSIZE * 8 ==> (Used(bitmap, b) <==> b < freeblock)
    {
      hide Owned;
      if !(freeblock < BSIZE * 8) {
        return false;
      }
      bitmap := seq(BSIZE, _ => 0);
      assert forall x :: !Used(bitmap, x) by {
        BitsOfZero();
      }
      var i := 0;
      while i < freeblock
        invariant 0 <= i <= freeblock && |bitmap| == BSIZE
        invariant forall x :: Used(bitmap, x) <==> 0 <= x < i
        modifies `bitmap
      {
        ghost var before := bitmap;
        MarkUsed(before, i);
        bitmap := bitmap[i / 8 := WithBit(bitmap[i / 8], i % 8)];
        assert bitmap == Mark(before, i);
        i := i + 1;
      }
      return true;
    }
  }

  lemma GrownFile(disk0: seq<Block>, inodes0: seq<Inode>, disk: seq<Block>, inodes: seq<Inode>, owner: Owners, inum: nat, data: seq<int>)
    requires Owned(disk, inodes, owner, NMETA, FSSIZE) && inum < NINODES == |inodes| == |inodes0|
    requires Written(disk0, inodes0, disk, inodes, inum, inodes0[inum].size, data) && TailZero(disk0, inodes0)
    ensures var inodes' := inodes[inum := inodes[inum].(size := inodes0[inum].size + |data|)];
            && Owned(disk, inodes', owner, NMETA, FSSIZE) && TailZero(disk, inodes')
            && Content(disk, inodes'[inum]) == Content(disk0, inodes0[inum]) + data
            && forall k :: 0 <= k < NINODES && k != inum ==> Content(disk, inodes'[k]) == Content(disk0, inodes0[k])
  {
    hide Owned, ByteAt, Content;
    var off := inodes0[inum].size;
    var inodes' := inodes[inum := inodes[inum].(size := off + |data|)];
    Resize(disk, inodes, owner, NMETA, FSSIZE, inum, off + |data|);
    WrittenContents(disk0, inodes0, disk, inodes', inum, off, data);
    var c := Content(disk0, inodes0[inum]);
    assert c[..off] == c;
  }

  lemma RefsButTwo(disk: seq<Block>, inodes: seq<Inode>, disk1: seq<Block>, inodes1: seq<Inode>,
                   disk2: seq<Block>, inodes2: seq<Inode>, i: nat, s: int, t: int)
    requires RefsBut(disk, inodes, disk1, inodes1, i, s, s) && RefsBut(disk1, inodes1, disk2, inodes2, i, t, t)
    ensures RefsBut(disk, inodes, disk2, inodes2, i, t, s)
  {
    hide Ref;
  }

  lemma SizesSame(disk: seq<Block>, inodes: seq<Inode>, disk': seq<Block>, inodes': seq<Inode>)
    requires SameBytes(disk, inodes, disk', inodes')
    ensures |inodes'| == |inodes| && forall k :: 0 <= k < |inodes| ==> inodes'[k].size == inodes[k].size
  {
  }

  lemma TightButRefs(disk: seq<Block>, inodes: seq<Inode>, disk': seq<Block>, i: nat)
    requires TightBut(disk, inodes, i) && SameRefs(disk, inodes, disk', inodes)
    ensures TightBut(disk', inodes, i)
  {
    hide Tight, SameRefs;
    forall k | 0 <= k < |inodes| && k != i ensures Tight(disk', inodes[k], inodes[k].size) {
      TightRefs(disk, inodes, disk', k, inodes[k].size);
    }
  }

  lemma ContentSize(disk: seq<Block>, ip: Inode)
    ensures |Content(disk, ip)| == ip.size
  {
  }

  lemma BitsOfZero()
    ensures forall k :: 0 <= k < 8 ==> !Bit(0, k)
  {
  }

  // Whole images: any sequence of ialloc and iappend calls, then what main does at the end, then
  // the kernel's readi.

  const ROOTINO: nat := 1

  datatype Call = Alloc | Append(inum: nat, data: seq<int>)

  /** The data appended to inode k, in order. */
  function Appended(calls: seq<Call>, k: nat): seq<int> {
    if calls == [] then []
    else
      var c := calls[|calls| - 1];
      Appended(calls[..|calls| - 1], k) + if c.Append? && c.inum == k then c.data else []
  }

  function Allocs(calls: seq<Call>): nat {
    if calls == [] then 0 else Allocs(calls[..|calls| - 1]) + if calls[|calls| - 1].Alloc? then 1 else 0
  }

  /** Data and indirect blocks taken by all the files. */
  function BlocksUsed(calls: seq<Call>): int {
    if calls == [] then 0
    else
      var n := |calls| - 1;
      var c := calls[n];
      BlocksUsed(calls[..n]) +
      if c.Append? then Need(|Appended(calls, c.inum)|) - Need(|Appended(calls[..n], c.inum)|) else 0
  }

  /** Inodes are allocated before use, files stay within MAXFILE blocks and everything fits on the disk. */
  ghost predicate Buildable(calls: seq<Call>) {
    calls != [] ==>
      var n := |calls| - 1;
      var c := calls[n];
      && Buildable(calls[..n])
      && match c
         case Alloc => Allocs(calls) < NINODES
         case Append(inum, data) =>
           1 <= inum <= Allocs(calls[..n]) && |Appended(calls, inum)| <= MAXBYTES && NMETA + BlocksUsed(calls) <= FSSIZE
  }

  lemma {:induction false} BuildablePrefix(calls: seq<Call>, k: nat)
    requires Buildable(calls) && k <= |calls|
    ensures Buildable(calls[..k])
    decreases |calls|
  {
    if k < |calls| {
      var n := |calls| - 1;
      BuildablePrefix(calls[..n], k);
      assert calls[..n][..k] == calls[..k];
    } else {
      assert calls[..k] == calls;
    }
  }

  /** Where the image stands after some calls. */
  ghost predicate Built(disk: seq<Block>, inodes: seq<Inode>, calls: seq<Call>) {
    && TailZero(disk, inodes) && TightBut(disk, inodes, -1) && |inodes| == NINODES
    && forall k :: 0 <= k < NINODES ==> Content(disk, inodes[k]) == Appended(calls, k)
  }

  lemma EmptyFiles(disk: seq<Block>, inodes: seq<Inode>)
    requires |inodes| == NINODES && forall k :: 0 <= k < NINODES ==> inodes[k] == EMPTY
    ensures Built(disk, inodes, [])
  {
    forall k | 0 <= k < NINODES ensures Tight(disk, inodes[k], inodes[k].size) && Content(disk, inodes[k]) == [] {
      EmptyFile(disk);
    }
  }

  lemma EmptyFile(disk: seq<Block>)
    ensures Content(disk, EMPTY) == [] && Tight(disk, EMPTY, 0) && forall o: nat :: ByteAt(disk, EMPTY, o) == 0
  {
  }

  lemma {:induction false} AllocsBound(calls: seq<Call>)
    requires Buildable(calls)
    ensures Allocs(calls) < NINODES
  {
    if calls != [] {
      AllocsBound(calls[..|calls| - 1]);
    }
  }

  /** What the last of n + 1 calls adds. */
  lemma LastCall(calls: seq<Call>, n: nat)
    requires n < |calls| && Buildable(calls[..n + 1])
    ensures Buildable(calls[..n])
    ensures Allocs(calls[..n + 1]) == Allocs(calls[..n]) + if calls[n].Alloc? then 1 else 0
    ensures calls[n].Alloc? ==> Allocs(calls[..n + 1]) < NINODES && BlocksUsed(calls[..n + 1]) == BlocksUsed(calls[..n])
    ensures forall k: nat :: Appended(calls[..n + 1], k) ==
              Appended(calls[..n], k) + if calls[n].Append? && calls[n].inum == k then calls[n].data else []
    ensures calls[n].Append? ==>
              var inum := calls[n].inum;
              && 1 <= inum <= Allocs(calls[..n]) && |Appended(calls[..n + 1], inum)| <= MAXBYTES
              && NMETA + BlocksUsed(calls[..n + 1]) <= FSSIZE
              && BlocksUsed(calls[..n + 1]) ==
                 BlocksUsed(calls[..n]) + Need(|Appended(calls[..n + 1], inum)|) - Need(|Appended(calls[..n], inum)|)
  {
    hide Need;
    assert calls[..n + 1][..n] == calls[..n] && calls[..n + 1][n] == calls[n];
  }

  /** One call of main. */
  method Perform(image: Image, calls: seq<Call>, n: nat)
    requires image.Valid() && n < |calls| && Buildable(calls[..n + 1]) && Built(image.disk, image.inodes, calls[..n])
    requires image.freeinode == 1 + Allocs(calls[..n]) && image.freeblock == NMETA + BlocksUsed(calls[..n])
    modifies image
    ensures image.Valid() && Built(image.disk, image.inodes, calls[..n + 1])
    ensures image.freeinode == 1 + Allocs(calls[..n + 1]) && image.freeblock == NMETA + BlocksUsed(calls[..n + 1])
  {
    hide Owned, Content, Need, Tight, TailZero, ByteAt, Appended, Allocs, BlocksUsed, Buildable, TightBut;
    LastCall(calls, n);
    AllocsBound(calls[..n]);
    ghost var before, after := calls[..n], calls[..n + 1];
    ghost var disk0, inodes0 := image.disk, image.inodes;
    if calls[n].Alloc? {
      var _ := image.Ialloc();
      assert forall k: nat :: Appended(after, k) == Appended(before, k);
    } else {
      var inum, data := calls[n].inum, calls[n].data;
      assert Content(disk0, inodes0[inum]) == Appended(before, inum);
      ContentSize(disk0, inodes0[inum]);
      var ok := image.Iappend(inum, data);
      ContentSize(image.disk, image.inodes[inum]);
      forall k | 0 <= k < NINODES ensures Content(image.disk, image.inodes[k]) == Appended(after, k) {
        assert Content(disk0, inodes0[k]) == Appended(before, k);
        assert k != inum ==> Appended(after, k) == Appended(before, k);
      }
    }
  }

  method Build(calls: seq<Call>) returns (image: Image)
    requires Buildable(calls)
    ensures fresh(image) && image.Valid() && Built(image.disk, image.inodes, calls)
    ensures image.freeinode == 1 + Allocs(calls) && image.freeblock == NMETA + BlocksUsed(calls)
  {
    hide Owned, Content, Need, Built;
    image := new Image();
    EmptyFiles(image.disk, image.inodes);
    var n := 0;
    while n < |calls|
      invariant 0 <= n <= |calls| && fresh(image) && image.Valid() && Built(image.disk, image.inodes, calls[..n])
      invariant image.freeinode == 1 + Allocs(calls[..n]) && image.freeblock == NMETA + BlocksUsed(calls[..n])
    {
      BuildablePrefix(calls, n + 1);
      Perform(image, calls, n);
      n := n + 1;
    }
    assert calls[..n] == calls;
  }

  lemma {:induction false} AppendedBound(calls: seq<Call>, k: nat)
    requires Buildable(calls)
    ensures |Appended(calls, k)| <= MAXBYTES
  {
    if calls != [] {
      AppendedBound(calls[..|calls| - 1], k);
    }
  }

  /** A file lacks nothing of the blocks it has. */
  lemma {:induction false} TightLacks(disk: seq<Block>, ip: Inode, n: nat, hi: nat)
    requires Tight(disk, ip, n) && hi <= MAXFILE && (hi == 0 || (hi - 1) * BSIZE < n)
    ensures Gaps(disk, ip, 0, hi) == 0 && Lacks(disk, ip, 0, hi) == 0
  {
    hide Ref;
    if hi > 0 {
      TightLacks(disk, ip, n, hi - 1);
    }
  }

  /** The block past the end of a file that fills its last block, with the indirect block it may need. */
  lemma NextLacks(disk: seq<Block>, ip: Inode, q: nat)
    requires Tight(disk, ip, q * BSIZE) && q < MAXFILE
    ensures Lacks(disk, ip, 0, q + 1) == Need(q * BSIZE + 1) - Need(q * BSIZE) > 0
  {
    hide Ref;
    TightLacks(disk, ip, q * BSIZE, q);
    assert Need(q * BSIZE + 1) - Need(q * BSIZE) == if q == NDIRECT then 2 else 1;
  }

  lemma {:induction false} FreeAbove(bitmap: seq<bv8>, freeblock: nat, n: nat)
    requires forall b :: 0 <= b < n ==> (Used(bitmap, b) <==> b < freeblock)
    ensures Free(bitmap, n) == if n <= freeblock then 0 else n - freeblock
  {
    hide Used;
    if n > 0 {
      FreeAbove(bitmap, freeblock, n - 1);
    }
  }

  /** With the size rounded up, the blocks of the root cannot all be had exactly if its contents fill
      their last block and there is no room for one block more, or no transaction to take it in. */
  lemma RootStuck(disk: seq<Block>, ip: Inode, ip': Inode, bitmap: seq<bv8>, freeblock: nat, inop: bool)
    requires Tight(disk, ip, ip.size) && ip.size <= MAXBYTES && ip' == ip.(size := (ip.size / BSIZE + 1) * BSIZE)
    requires freeblock <= FSSIZE && forall b :: 0 <= b < FSSIZE ==> (Used(bitmap, b) <==> b < freeblock)
    ensures Stuck(bitmap, FSSIZE, inop, disk, ip', 0, BlocksEnd(0, ip'.size)) <==> NoRoom(ip.size, freeblock, inop)
  {
    hide Ref, Tight, Used, Free, Lacks, Need;
    var q := ip.size / BSIZE;
    SizeIgnored(disk, ip, ip'.size, ip.size);
    FreeAbove(bitmap, freeblock, FSSIZE);
    assert BlocksEnd(0, ip'.size) == q + 1;
    if ip.size % BSIZE != 0 {
      assert q < MAXFILE;
      TightLacks(disk, ip', ip.size, q + 1);
    } else if q < MAXFILE {
      NextLacks(disk, ip', q);
    }
  }

  lemma SizeIgnored(disk: seq<Block>, ip: Inode, size: nat, n: nat)
    requires Tight(disk, ip, n)
    ensures Tight(disk, ip.(size := size), n)
  {
    assert forall s :: Ref(disk, ip.(size := size), s) == Ref(disk, ip, s);
    hide Ref;
  }

  /** A file of this size fills its last block, and one block more cannot be allocated outside a
      transaction, or would not fit into the file or, with the blocks below freeblock taken, onto
      the disk. */
  predicate NoRoom(size: nat, freeblock: int, inop: bool) {
    size % BSIZE == 0 && (!inop || size >= MAXBYTES || freeblock + Need(size + 1) - Need(size) > FSSIZE)
  }

  // From the image to the running kernel, by way of the sectors.

  /** Blocks below the data do not matter to files. */
  lemma DataOnly(disk: seq<Block>, disk': seq<Block>, inodes: seq<Inode>, owner: Owners, lo: nat, hi: nat)
    requires Owned(disk, inodes, owner, lo, hi) && |disk'| == |disk| && Whole(disk') && forall b :: lo <= b < |disk| ==> disk'[b] == disk[b]
    ensures SameRefs(disk, inodes, disk', inodes) && Owned(disk', inodes, owner, lo, hi) && SameBytes(disk, inodes, disk', inodes)
  {
    forall i, s | 0 <= i < |inodes| ensures Ref(disk', inodes[i], s) == Ref(disk, inodes[i], s) {
      assert Ref(disk, inodes[i], INDIRECT) == inodes[i].addrs[INDIRECT];
    }
    SameRefsOwned(disk, inodes, disk', inodes, owner, lo, hi);
    hide Ref;
    forall i, o: nat | 0 <= i < |inodes| ensures ByteAt(disk', inodes[i], o) == ByteAt(disk, inodes[i], o) {
      assert Ref(disk', inodes[i], SlotOf(o / BSIZE)) == Ref(disk, inodes[i], SlotOf(o / BSIZE));
    }
  }

  lemma BytesContent(disk: seq<Block>, inodes: seq<Inode>, disk': seq<Block>, k: nat)
    requires SameBytes(disk, inodes, disk', inodes) && k < |inodes|
    ensures Content(disk', inodes[k]) == Content(disk, inodes[k])
  {
    hide ByteAt;
  }

  lemma BackedRefs(disk: seq<Block>, inodes: seq<Inode>, disk': seq<Block>, k: nat)
    requires SameRefs(disk, inodes, disk', inodes) && k < |inodes| && Backed(disk, inodes[k], inodes[k].size)
    ensures Backed(disk', inodes[k], inodes[k].size)
  {
    hide Ref;
  }

  lemma {:induction false} GapsRefs(disk: seq<Block>, inodes: seq<Inode>, disk': seq<Block>, k: nat, lo: nat, hi: nat)
    requires SameRefs(disk, inodes, disk', inodes) && k < |inodes|
    ensures Gaps(disk', inodes[k], lo, hi) == Gaps(disk, inodes[k], lo, hi)
    decreases hi
  {
    hide Ref;
    if hi > lo {
      GapsRefs(disk, inodes, disk', k, lo, hi - 1);
    }
  }

  lemma LacksRefs(disk: seq<Block>, inodes: seq<Inode>, disk': seq<Block>, k: nat, lo: nat, hi: nat)
    requires SameRefs(disk, inodes, disk', inodes) && k < |inodes|
    ensures Lacks(disk', inodes[k], lo, hi) == Lacks(disk, inodes[k], lo, hi)
  {
    hide Ref;
    GapsRefs(disk, inodes, disk', k, lo, hi);
  }

  lemma StuckRefs(disk: seq<Block>, inodes: seq<Inode>, disk': seq<Block>, k: nat, bitmap: seq<bv8>, inop: bool, lo: nat, hi: nat)
    requires SameRefs(disk, inodes, disk', inodes) && k < |inodes|
    ensures Stuck(bitmap, FSSIZE, inop, disk', inodes[k], lo, hi) <==> Stuck(bitmap, FSSIZE, inop, disk, inodes[k], lo, hi)
  {
    hide Ref, Lacks, Free;
    LacksRefs(disk, inodes, disk', k, lo, hi);
  }

  /** The kernel starts on the sectors of the image: it reads the superblock, the bitmap and the inodes
      where the superblock says they are, and finds the files as mkfs left them. */
  method Mount(image: Image, inop: bool) returns (fs: FileSys)
    requires image.Valid() && |image.bitmap| == BSIZE && BitsMatch(image.bitmap, image.owner, NMETA, FSSIZE)
    ensures fresh(fs) && fs.Valid() && fs.hi == FSSIZE && fs.inop == inop
    ensures fs.bitmap == image.bitmap && fs.inodes == fs.dinodes == image.inodes && |image.inodes| == NINODES
    ensures SameRefs(image.disk, image.inodes, fs.disk, image.inodes)
    ensures forall k :: 0 <= k < NINODES ==> Content(fs.disk, image.inodes[k]) == Content(image.disk, image.inodes[k])
  {
    hide Owned, BitsMatch, Laid, Sectors, BitmapOn, ReadSuper, SameRefs, SameBytes, Content, Shaped, TheSuper, IBlock, BBlock, InodeOn, GetInode;
    MetadataApart(0);
    OwnedShapes(image.disk, image.inodes, image.owner);
    SuperPlace();
    var sectors := Sectors(image.disk, TheSuper(), image.inodes, image.bitmap);
    SectorsBack(image.disk, TheSuper(), image.inodes, image.bitmap, NMETA);
    DataOnly(image.disk, sectors, image.inodes, image.owner, NMETA, FSSIZE);
    var sb := ReadSuper(sectors[1]);
    var bitmap := BitmapOn(sectors[BBlock(0, sb)]);
    var inodes := ReadInodes(sectors, sb, image.inodes);
    forall k | 0 <= k < NINODES ensures Content(sectors, image.inodes[k]) == Content(image.disk, image.inodes[k]) {
      BytesContent(image.disk, image.inodes, sectors, k);
    }
    fs := new FileSys(NMETA, FSSIZE, inop, bitmap, sectors, inodes, image.owner);
  }

  lemma SuperPlace()
    ensures var sb := TheSuper();
            sb.ninodes == NINODES && sb.size == FSSIZE && sb.bmapstart < NMETA < FSSIZE && BBlock(0, sb) == sb.bmapstart
  {
  }

  lemma OwnedShapes(disk: seq<Block>, inodes: seq<Inode>, owner: Owners)
    requires Owned(disk, inodes, owner, NMETA, FSSIZE)
    ensures Whole(disk) && forall k :: 0 <= k < |inodes| ==> |inodes[k].addrs| == NDIRECT + 1
  {
  }

  /** Every inode from its place. */
  method ReadInodes(sectors: seq<Block>, sb: Super, ghost expected: seq<Inode>) returns (inodes: seq<Inode>)
    requires Whole(sectors) && |expected| == sb.ninodes
    requires forall k: nat :: k < sb.ninodes ==> IBlock(k, sb) < |sectors| && InodeOn(sectors, sb, k) == expected[k]
    ensures inodes == expected
  {
    hide GetInode, IBlock;
    inodes := [];
    while |inodes| < sb.ninodes
      invariant |inodes| <= sb.ninodes && inodes == expected[..|inodes|]
    {
      inodes := inodes + [InodeOn(sectors, sb, |inodes|)];
    }
  }

  /** The kernel reads back what mkfs wrote: any calls on any files, the root's size rounded up, the
      bitmap written, the image mounted; readi on any inode returns the data appended to it.
      The root's rounded tail reads as zeros.  If the root directory ended exactly on a block
      boundary, readi has to allocate that tail, and panics exactly if there is no room for it or no
      operation is outstanding (inop), as in fileread, which begins none. */
  method BuildThenRead(calls: seq<Call>, k: nat, inop: bool) returns (r: IO, dst: seq<int>)
    requires Buildable(calls) && Allocs(calls) >= ROOTINO && k < NINODES
    ensures k != ROOTINO ==> r == Done(|dst|) && dst == Appended(calls, k)
    ensures var root := Appended(calls, ROOTINO);
            k == ROOTINO ==>
              && (r == Done(|dst|) || r.Panic?)
              && (r.Panic? <==> NoRoom(|root|, NMETA + BlocksUsed(calls), inop))
              && (r.Done? ==> dst == root + seq((|root| / BSIZE + 1) * BSIZE - |root|, _ => 0))
  {
    hide Owned, Need, Tight, Backed, Appended, BlocksUsed, Stuck, Used, NoRoom, Content, InPlace, BlocksEnd, SameBytes, Buildable, Allocs;
    AllocsBound(calls);
    var image := Build(calls);
    ghost var inodes0 := image.inodes;
    image.FixRootSize(ROOTINO);
    ContentSize(image.disk, inodes0[k]);
    AppendedBound(calls, k);
    var ok := image.Balloc();
    if k != ROOTINO {
      TightBacked(image.disk, image.inodes[k], image.inodes[k].size);
    } else {
      RootStuck(image.disk, inodes0[k], image.inodes[k], image.bitmap, image.freeblock, inop);
    }
    var fs := Mount(image, inop);
    ghost var c := Content(image.disk, image.inodes[k]);
    if k != ROOTINO {
      BackedRefs(image.disk, image.inodes, fs.disk, k);
    } else {
      StuckRefs(image.disk, image.inodes, fs.disk, k, image.bitmap, inop, 0, BlocksEnd(0, image.inodes[k].size));
    }
    r, dst := fs.Readi(k, 0, image.inodes[k].size);
    assert r.Done? ==> dst == c[0..|c|] == c;
  }

  // The missing block of the root.

  /** Rounding the size up makes the root end in a missing block exactly if its contents end on a
      block boundary. */
  lemma RootHoleIff(disk: seq<Block>, ip: Inode, ip': Inode)
    requires Tight(disk, ip, ip.size) && ip.size <= MAXBYTES && ip' == ip.(size := (ip.size / BSIZE + 1) * BSIZE)
    ensures Backed(disk, ip', ip'.size) <==> ip.size % BSIZE != 0
  {
    var q := ip.size / BSIZE;
    SizeIgnored(disk, ip, ip'.size, ip.size);
    if ip.size % BSIZE == 0 {
      assert q == MAXFILE ==> Ref(disk, ip', SlotOf(q)) == 0;
      hide Ref;
      assert q * BSIZE < ip'.size && Ref(disk, ip', SlotOf(q)) == 0;
    } else {
      hide Ref;
      forall bn: nat | bn * BSIZE < ip'.size ensures Ref(disk, ip', SlotOf(bn)) != 0 {
        assert bn < MAXFILE && bn * BSIZE < ip.size;
      }
    }
  }

  /** A directory entry, as bytes. */
  function Dirent(): (d: seq<int>)
    ensures |d| == 16
  {
    seq(16, _ => 7)
  }

  /** The calls of main for n empty files: the root with its two entries, then an inode and an entry
      for each file. */
  function MainCalls(n: nat): seq<Call> {
    if n == 0 then [Alloc, Append(ROOTINO, Dirent()), Append(ROOTINO, Dirent())]
    else MainCalls(n - 1) + [Alloc] + [Append(ROOTINO, Dirent())]
  }

  lemma EntryCall(calls: seq<Call>, m: nat)
    requires Buildable(calls) && Allocs(calls) >= ROOTINO && |Appended(calls, ROOTINO)| == 16 * m && m < 32
    requires BlocksUsed(calls) == Need(16 * m)
    ensures var calls' := calls + [Append(ROOTINO, Dirent())];
            && Buildable(calls') && Allocs(calls') == Allocs(calls) && |Appended(calls', ROOTINO)| == 16 * (m + 1)
            && BlocksUsed(calls') == Need(16 * (m + 1))
  {
    var calls' := calls + [Append(ROOTINO, Dirent())];
    assert calls'[..|calls|] == calls;
    assert |Appended(calls', ROOTINO)| == 16 * (m + 1);
  }

  lemma AllocCall(calls: seq<Call>)
    requires Buildable(calls) && Allocs(calls) + 1 < NINODES
    ensures var calls' := calls + [Alloc];
            && Buildable(calls') && Allocs(calls') == Allocs(calls) + 1 && Appended(calls', ROOTINO) == Appended(calls, ROOTINO)
            && BlocksUsed(calls') == BlocksUsed(calls)
  {
    assert (calls + [Alloc])[..|calls|] == calls;
  }

  lemma {:induction false} MainBuildable(n: nat)
    requires n <= 30
    ensures var calls := MainCalls(n);
            && Buildable(calls) && Allocs(calls) == n + 1 && |Appended(calls, ROOTINO)| == 16 * (n + 2)
            && BlocksUsed(calls) == Need(16 * (n + 2))
  {
    hide Need, Buildable, Appended, BlocksUsed, Allocs;
    if n == 0 {
      NoCalls();
      AllocCall([]);
      EntryCall([] + [Alloc], 0);
      EntryCall([] + [Alloc] + [Append(ROOTINO, Dirent())], 1);
      assert [] + [Alloc] + [Append(ROOTINO, Dirent())] + [Append(ROOTINO, Dirent())] == MainCalls(0);
    } else {
      MainBuildable(n - 1);
      AllocCall(MainCalls(n - 1));
      EntryCall(MainCalls(n - 1) + [Alloc], n + 1);
    }
  }

  lemma NoCalls()
    ensures Buildable([]) && Allocs([]) == 0 && Appended([], ROOTINO) == [] && BlocksUsed([]) == Need(0) == 0
  {
  }

  /** What the rounded root of 32 entries lacks. */
  lemma HoleLacks(disk: seq<Block>, ip: Inode)
    requires Tight(disk, ip, BSIZE) && |ip.addrs| == NDIRECT + 1
    ensures ip.addrs[1] == 0 && Lacks(disk, ip, 1, 2) == 1 && !InPlace(ip, BSIZE, 16)
  {
    assert Ref(disk, ip, SlotOf(1)) == ip.addrs[1];
    LacksOne(disk, ip, 1);
    assert Uses(1, 1, BlocksEnd(BSIZE, 16));
  }

  /** From mkfs on: the root directory of thirty files fills its block, and a directory entry written
      behind it shows in the inode in memory but not in the one on disk. */
  method WriteIntoHole() returns (fs: FileSys, r: IO)
    ensures fs.Valid() && |fs.inodes| == NINODES && r == Done(16) && fs.dinodes[ROOTINO] != fs.inodes[ROOTINO]
    ensures ByteAt(fs.disk, fs.inodes[ROOTINO], BSIZE) == 7 && ByteAt(fs.disk, fs.dinodes[ROOTINO], BSIZE) == 0
  {
    hide Owned, Need, Tight, Appended, BlocksUsed, Used, ByteAt, InPlace, SameBytes, Buildable, Allocs, Free, Lacks;
    MainBuildable(30);
    var image := Build(MainCalls(30));
    ghost var root := image.inodes[ROOTINO];
    ContentSize(image.disk, root);
    image.FixRootSize(ROOTINO);
    SizeIgnored(image.disk, root, 2 * BSIZE, BSIZE);
    AddrRef(image.disk, image.inodes, image.owner, NMETA, FSSIZE, ROOTINO, 1);
    HoleLacks(image.disk, image.inodes[ROOTINO]);
    var ok := image.Balloc();
    FreeAbove(image.bitmap, image.freeblock, FSSIZE);
    NeedOne();
    fs := Mount(image, true);
    LacksRefs(image.disk, image.inodes, fs.disk, ROOTINO, 1, 2);
    assert BlocksEnd(BSIZE, 16) == 2 && AddrOf(1) == 1;
    r := fs.Writei(ROOTINO, Dirent(), BSIZE);
    assert Content(fs.disk, fs.inodes[ROOTINO])[BSIZE] == Dirent()[0];
  }

  lemma NeedOne()
    ensures Need(16 * 32) == 1
  {
  }
}
