/** The block allocator and inode contents of HW3/fs.c: balloc, bfree, bmap, itrunc,
    readi and writei over the block map that the buffer cache presents. */
module FileSystem {
  import opened Basics
  import opened Blocks
  import opened Inodes


  // The free bitmap, bytes of consecutive bitmap blocks laid end to end.

  function Mask(k: nat): (m: bv8)
    requires k < 8
    ensures m == (1 as bv8) << k
  {
    if k == 0 then 0x01 else if k == 1 then 0x02 else if k == 2 then 0x04 else if k == 3 then 0x08
    else if k == 4 then 0x10 else if k == 5 then 0x20 else if k == 6 then 0x40 else 0x80
  }

  predicate Bit(v: bv8, k: nat)
    requires k < 8
  {
    v & Mask(k) != 0
  }

  function WithBit(v: bv8, k: nat): bv8
    requires k < 8
  {
    v | Mask(k)
  }

  function SansBit(v: bv8, k: nat): bv8
    requires k < 8
  {
    v & !Mask(k)
  }

  lemma BitSet(v: bv8, k: nat, j: nat)
    requires k < 8 && j < 8
    ensures Bit(WithBit(v, k), j) <==> j == k || Bit(v, j)
  {
  }

  lemma BitCleared(v: bv8, k: nat, j: nat)
    requires k < 8 && j < 8
    ensures Bit(SansBit(v, k), j) <==> j != k && Bit(v, j)
  {
  }

  predicate Used(bitmap: seq<bv8>, b: int) {
    0 <= b && b / 8 < |bitmap| && Bit(bitmap[b / 8], b % 8)
  }

  function Mark(bitmap: seq<bv8>, b: nat): seq<bv8>
    requires b / 8 < |bitmap|
  {
    bitmap[b / 8 := WithBit(bitmap[b / 8], b % 8)]
  }

  function Unmark(bitmap: seq<bv8>, b: nat): seq<bv8>
    requires b / 8 < |bitmap|
  {
    bitmap[b / 8 := SansBit(bitmap[b / 8], b % 8)]
  }

  lemma MarkUsed(bitmap: seq<bv8>, b: nat)
    requires b / 8 < |bitmap|
    ensures forall x :: Used(Mark(bitmap, b), x) <==> x == b || Used(bitmap, x)
  {
    forall x ensures Used(Mark(bitmap, b), x) <==> x == b || Used(bitmap, x) {
      if 0 <= x && x / 8 == b / 8 {
        BitSet(bitmap[b / 8], b % 8, x % 8);
      }
    }
  }

  lemma UnmarkUsed(bitmap: seq<bv8>, b: nat)
    requires b / 8 < |bitmap|
    ensures forall x :: Used(Unmark(bitmap, b), x) <==> x != b && Used(bitmap, x)
  {
    forall x ensures Used(Unmark(bitmap, b), x) <==> x != b && Used(bitmap, x) {
      if 0 <= x && x / 8 == b / 8 {
        BitCleared(bitmap[b / 8], b % 8, x % 8);
      }
    }
  }

  /** Free blocks among the first n. */
  function Free(bitmap: seq<bv8>, n: nat): nat {
    if n == 0 then 0 else Free(bitmap, n - 1) + if Used(bitmap, n - 1) then 0 else 1
  }

  /** Blocks that balloc can hand out: none outside a transaction, where its log_write panics. */
  function Avail(bitmap: seq<bv8>, n: nat, inop: bool): nat {
    if inop then Free(bitmap, n) else 0
  }

  lemma {:induction false} FreeSame(bitmap: seq<bv8>, bitmap': seq<bv8>, z: int, n: nat)
    requires forall x :: Used(bitmap', x) <==> x == z || Used(bitmap, x)
    requires 0 <= z && !Used(bitmap, z)
    ensures Free(bitmap, n) == Free(bitmap', n) + if z < n then 1 else 0
  {
    hide Used;
    if n > 0 {
      FreeSame(bitmap, bitmap', z, n - 1);
    }
  }

  lemma FreeMark(bitmap: seq<bv8>, z: nat, n: nat)
    requires z / 8 < |bitmap| && !Used(bitmap, z) && z < n
    ensures Free(bitmap, n) == Free(Mark(bitmap, z), n) + 1
  {
    hide Used, Mark;
    MarkUsed(bitmap, z);
    FreeSame(bitmap, Mark(bitmap, z), z, n);
  }

  lemma {:induction false} FreeNone(bitmap: seq<bv8>, n: nat)
    ensures Free(bitmap, n) == 0 <==> forall x :: 0 <= x < n ==> Used(bitmap, x)
  {
    hide Used;
    if n > 0 {
      FreeNone(bitmap, n - 1);
      assert (forall x :: 0 <= x < n ==> Used(bitmap, x)) <==> (forall x :: 0 <= x < n - 1 ==> Used(bitmap, x)) && Used(bitmap, n - 1);
    }
  }

  /** The set bits are exactly the metadata blocks and the blocks some slot refers to. */
  ghost predicate BitsMatch(bitmap: seq<bv8>, owner: Owners, lo: nat, hi: nat) {
    hi <= 8 * |bitmap| && forall b :: 0 <= b < hi ==> (Used(bitmap, b) <==> b < lo || b in owner)
  }

  lemma MarkMatches(bitmap: seq<bv8>, owner: Owners, lo: nat, hi: nat, z: nat, at: (nat, int))
    requires BitsMatch(bitmap, owner, lo, hi) && z < hi
    ensures BitsMatch(Mark(bitmap, z), owner[z := at], lo, hi)
  {
    MarkUsed(bitmap, z);
  }

  lemma UnmarkMatches(bitmap: seq<bv8>, owner: Owners, lo: nat, hi: nat, z: nat)
    requires BitsMatch(bitmap, owner, lo, hi) && lo <= z < hi
    ensures BitsMatch(Unmark(bitmap, z), owner - {z}, lo, hi)
  {
    UnmarkUsed(bitmap, z);
  }

  /** Return value of readi and writei: a byte count, -1, or a panic in bmap. */
  datatype IO = Done(n: nat) | Error | Panic

  class FileSys {
    const lo: nat  // first data block
    const hi: nat  // sb.size
    const inop: bool  // an operation is outstanding
    var bitmap: seq<bv8>
    var disk: seq<Block>
    var inodes: seq<Inode>   // in memory
    var dinodes: seq<Inode>  // as iupdate last wrote them
    ghost var owner: Owners

    /** The invariant: every block belongs to at most one slot of one inode, and the bitmap
        says exactly which blocks are metadata or belong to one. */
    ghost predicate Valid()
      reads this
    {
      Owned(disk, inodes, owner, lo, hi) && BitsMatch(bitmap, owner, lo, hi) && |dinodes| == |inodes|
    }

    /** The file system found on a disk image, its inodes read into memory. */
    constructor (lo: nat, hi: nat, inop: bool, bitmap: seq<bv8>, disk: seq<Block>, inodes: seq<Inode>, ghost owner: Owners)
      requires Owned(disk, inodes, owner, lo, hi) && BitsMatch(bitmap, owner, lo, hi)
      ensures Valid() && this.lo == lo && this.hi == hi && this.inop == inop && this.disk == disk && this.inodes == this.dinodes == inodes && this.bitmap == bitmap
    {
      this.lo, this.hi, this.inop := lo, hi, inop;
      this.bitmap, this.disk, this.inodes, this.dinodes, this.owner := bitmap, disk, inodes, inodes, owner;
    }

    /** balloc: mark the first free block and zero it; panic if there is none.  Outside a transaction
        the log_write that follows the marking panics, and the bit, set in a buffer only, is lost. */
    method Balloc() returns (r: Option<nat>)
      requires hi <= 8 * |bitmap| && hi <= |disk|
      modifies `bitmap, `disk
      ensures r.None? ==> bitmap == old(bitmap) && disk == old(disk) && (inop ==> forall x :: 0 <= x < hi ==> Used(bitmap, x))
      ensures r.Some? ==> inop && r.value < hi && !Used(old(bitmap), r.value) && forall x :: 0 <= x < r.value ==> Used(old(bitmap), x)
      ensures r.Some? ==> bitmap == Mark(old(bitmap), r.value) && disk == old(disk)[r.value := Zeroed()]
      ensures if r.Some? then Avail(old(bitmap), hi, inop) == Avail(bitmap, hi, inop) + 1 else Avail(old(bitmap), hi, inop) == 0
    {
      hide Free, Bit, WithBit, Zeroed, Used, Mark;
      FreeNone(bitmap, hi);
      var b := 0;
      while b < hi
        invariant 0 <= b && b % BPB == 0
        invariant forall x :: 0 <= x < b && x < hi ==> Used(bitmap, x)
        invariant bitmap == old(bitmap) && disk == old(disk)
      {
        var bi := FirstClear(b);
        if bi < BPB && b + bi < hi {
          if !inop {
            return None;
          }
          BitAt(bitmap, b, bi);
          FreeMark(bitmap, b + bi, hi);
          bitmap := bitmap[b / 8 + bi / 8 := WithBit(bitmap[b / 8 + bi / 8], bi % 8)];
          disk := disk[b + bi := Zeroed()];
          return Some(b + bi);
        }
        b := b + BPB;
      }
      return None;
    }

    /** The inner loop of balloc, over one block of the bitmap. */
    method FirstClear(b: nat) returns (bi: nat)
      requires hi <= 8 * |bitmap| && b % BPB == 0 && b < hi
      ensures bi <= BPB && forall x :: b <= x < b + bi && x < hi ==> Used(bitmap, x)
      ensures if bi < BPB && b + bi < hi then !Used(bitmap, b + bi) else forall x :: b <= x < b + BPB && x < hi ==> Used(bitmap, x)
    {
      hide Bit, Used;
      bi := 0;
      while bi < BPB && b + bi < hi
        invariant 0 <= bi <= BPB && forall x :: b <= x < b + bi && x < hi ==> Used(bitmap, x)
      {
        BitAt(bitmap, b, bi);
        if !Bit(bitmap[b / 8 + bi / 8], bi % 8) {
          return;
        }
        bi := bi + 1;
      }
    }

    /** bfree: panics on a block that is already free, and in log_write outside a transaction. */
    method Bfree(b: nat) returns (ok: bool)
      requires b < hi <= 8 * |bitmap|
      modifies `bitmap
      ensures ok <==> Used(old(bitmap), b) && inop
      ensures bitmap == if ok then Unmark(old(bitmap), b) else old(bitmap)
    {
      hide Bit, SansBit;
      FlatBit(b);
      var bi := b % BPB;
      if !Bit(bitmap[b / BPB * 512 + bi / 8], bi % 8) {
        return false;
      }
      if !inop {
        return false;
      }
      bitmap := bitmap[b / BPB * 512 + bi / 8 := SansBit(bitmap[b / BPB * 512 + bi / 8], bi % 8)];
      return true;
    }

    /** bmap: the address of the bn-th block of inode i, allocating it, and the indirect
        block before it, if necessary.  No file changes its contents.  Out of range, out of
        blocks, or allocating outside a transaction is a panic. */
    method Bmap(i: nat, bn: nat) returns (r: Option<nat>)
      requires Valid() && i < |inodes|
      modifies `bitmap, `disk, `inodes, `owner
      ensures Valid() && SameBytes(old(disk), old(inodes), disk, inodes)
      ensures r.Some? ==> bn < MAXFILE && r.value > 0 && Ref(disk, inodes[i], SlotOf(bn)) == r.value
      ensures r.None? && bn < MAXFILE && inop ==> forall x :: 0 <= x < hi ==> Used(bitmap, x)
      ensures bn < MAXFILE && Ref(old(disk), old(inodes)[i], SlotOf(bn)) != 0 ==>
                r.Some? && disk == old(disk) && inodes == old(inodes) && bitmap == old(bitmap)
      ensures r.Some? ==> Loaded(old(inodes), inodes, i, bn, bn + 1)
      ensures r.Some? <==> bn < MAXFILE && Avail(old(bitmap), hi, inop) >= Lacks(old(disk), old(inodes)[i], bn, bn + 1)
      ensures r.Some? ==> Avail(bitmap, hi, inop) + Lacks(old(disk), old(inodes)[i], bn, bn + 1) == Avail(old(bitmap), hi, inop)
      ensures r.Some? ==> Filled(old(disk), old(inodes)[i], disk, inodes[i], bn, bn + 1)
    {
      hide Owned, BitsMatch, SameBytes, Used, Loaded, Filled, Lacks, Ref, Avail, Free;
      SameBytesRefl(disk, inodes);
      LacksOne(disk, inodes[i], bn);
      if bn < NDIRECT {
        AddrRef(disk, inodes, owner, lo, hi, i, bn);
        r := Direct(i, bn);
        if r.Some? {
          FilledDirect(old(disk), old(inodes)[i], disk, inodes[i], bn, r.value);
        }
        return;
      }
      if bn - NDIRECT < NINDIRECT {
        RefLevels(disk, inodes[i], bn);
        AddrRef(disk, inodes, owner, lo, hi, i, INDIRECT);
        r := Direct(i, INDIRECT);
        if r.None? {
          return;
        }
        ghost var disk1, inodes1 := disk, inodes;
        r := Indirect(i, bn - NDIRECT);
        SameBytesTrans(old(disk), old(inodes), disk1, inodes1, disk, inodes);
        LoadedIndirect(old(inodes), inodes, i, bn);
        if r.Some? {
          FilledIndirect(old(disk), old(inodes)[i], disk1, inodes1[i], disk, inodes[i], bn);
        }
        return;
      }
      return None;
    }

    /** Load an address stored in the inode, allocating a block if it is zero. */
    method Direct(i: nat, s: nat) returns (r: Option<nat>)
      requires Valid() && i < |inodes| && s <= INDIRECT
      modifies `bitmap, `disk, `inodes, `owner
      ensures Valid() && SameBytes(old(disk), old(inodes), disk, inodes)
      ensures r.Some? ==> r.value > 0 && Ref(disk, inodes[i], s) == r.value == inodes[i].addrs[s]
      ensures r.None? && inop ==> forall x :: 0 <= x < hi ==> Used(bitmap, x)
      ensures old(inodes)[i].addrs[s] != 0 ==> r.Some? && disk == old(disk) && inodes == old(inodes) && bitmap == old(bitmap)
      ensures r.Some? ==> Loaded(old(inodes), inodes, i, s, s + 1)
      ensures r.Some? <==> old(inodes)[i].addrs[s] != 0 || Avail(old(bitmap), hi, inop) > 0
      ensures Avail(old(bitmap), hi, inop) == Avail(bitmap, hi, inop) + if r.Some? && old(inodes)[i].addrs[s] == 0 then 1 else 0
      ensures r.Some? ==> forall t :: Ref(disk, inodes[i], t) == if t == s then r.value else Ref(old(disk), old(inodes)[i], t)
    {
      hide Owned, BitsMatch, SameBytes, Loaded, Used, Free, Avail, Ref, Assigned, Mark;
      AddrRef(disk, inodes, owner, lo, hi, i, s);
      SameBytesRefl(disk, inodes);
      LoadedSame(inodes, i, s);
      BitsSize(bitmap, owner, lo, hi);
      var addr := inodes[i].addrs[s];
      if addr != 0 {
        return Some(addr);
      }
      r := Balloc();
      if r.Some? {
        var z := r.value;
        FreeBlock(old(disk), inodes, old(bitmap), owner, lo, hi, z);
        AssignAddr(old(disk), inodes, owner, lo, hi, i, s, z);
        AssignedRef(old(disk), inodes, disk, inodes[i := inodes[i].(addrs := inodes[i].addrs[s := z])], i, s, z);
        LoadedAddr(inodes, i, s, z);
        MarkMatches(old(bitmap), owner, lo, hi, z, (i, s));
        inodes := inodes[i := inodes[i].(addrs := inodes[i].addrs[s := z])];
        owner := owner[z := (i, s)];
      }
    }

    /** Load an entry of the indirect block, allocating a block if it is zero. */
    method Indirect(i: nat, j: nat) returns (r: Option<nat>)
      requires Valid() && i < |inodes| && j < NINDIRECT && inodes[i].addrs[INDIRECT] != 0
      modifies `bitmap, `disk, `owner
      ensures Valid() && SameBytes(old(disk), old(inodes), disk, inodes)
      ensures r.Some? ==> r.value > 0 && Ref(disk, inodes[i], INDIRECT + 1 + j) == r.value
      ensures r.None? && inop ==> forall x :: 0 <= x < hi ==> Used(bitmap, x)
      ensures Ref(old(disk), inodes[i], INDIRECT + 1 + j) != 0 ==> r.Some? && disk == old(disk) && bitmap == old(bitmap)
      ensures r.Some? <==> Ref(old(disk), inodes[i], INDIRECT + 1 + j) != 0 || Avail(old(bitmap), hi, inop) > 0
      ensures Avail(old(bitmap), hi, inop) ==
              Avail(bitmap, hi, inop) + if r.Some? && Ref(old(disk), inodes[i], INDIRECT + 1 + j) == 0 then 1 else 0
      ensures r.Some? ==> forall t :: Ref(disk, inodes[i], t) == if t == INDIRECT + 1 + j then r.value else Ref(old(disk), inodes[i], t)
    {
      hide Owned, BitsMatch, SameBytes, Used, Free, Avail, Ref, Assigned, Mark, Word, SetWord;
      AddrRef(disk, inodes, owner, lo, hi, i, INDIRECT);
      EntryRefs(disk, inodes, owner, lo, hi, i);
      SameBytesRefl(disk, inodes);
      BitsSize(bitmap, owner, lo, hi);
      var a := inodes[i].addrs[INDIRECT];
      var addr := Word(disk[a], j);
      EntryPositive(disk, inodes, owner, lo, hi, i, j);
      if addr != 0 {
        return Some(addr);
      }
      r := Balloc();
      if r.Some? {
        var z := r.value;
        FreeBlock(old(disk), inodes, old(bitmap), owner, lo, hi, z);
        AssignEntry(old(disk), inodes, owner, lo, hi, i, j, z);
        HasOwner(old(disk), inodes, owner, lo, hi, i, INDIRECT);
        AssignedRef(old(disk), inodes, disk[a := SetWord(disk[a], j, z)], inodes, i, INDIRECT + 1 + j, z);
        MarkMatches(old(bitmap), owner, lo, hi, z, (i, INDIRECT + 1 + j));
        assert a != z;
        disk := disk[a := SetWord(disk[a], j, z)];
        owner := owner[z := (i, INDIRECT + 1 + j)];
      }
    }

    /** One turn of writei's loop: at most the rest of one block. */
    method WriteSome(i: nat, src: seq<int>, off0: nat, tot: nat, ghost disk0: seq<Block>, ghost inodes0: seq<Inode>, ghost free0: nat) returns (m: nat)
      requires Valid() && i < |inodes| && tot < |src|
      requires Written(disk0, inodes0, disk, inodes, i, off0, src[..tot])
      requires Loaded(inodes0, inodes, i, off0 / BSIZE, BlocksEnd(off0, tot)) && |inodes0| == |inodes|
      requires Progress(disk0, inodes0[i], free0, disk, inodes[i], Avail(bitmap, hi, inop), off0 / BSIZE, BlocksEnd(off0, tot))
      requires (off0 + tot) / BSIZE < MAXFILE
      modifies `bitmap, `disk, `inodes, `owner
      ensures Valid() && |inodes| == |old(inodes)|
      ensures m > 0 ==> tot + m <= |src| && Written(disk0, inodes0, disk, inodes, i, off0, src[..tot + m])
      ensures m > 0 ==> Loaded(inodes0, inodes, i, off0 / BSIZE, BlocksEnd(off0, tot + m))
      ensures m > 0 ==> Progress(disk0, inodes0[i], free0, disk, inodes[i], Avail(bitmap, hi, inop), off0 / BSIZE, BlocksEnd(off0, tot + m))
      ensures m == 0 && inop ==> free0 < Lacks(disk0, inodes0[i], off0 / BSIZE, BlocksEnd(off0, |src|))
      ensures m == 0 && inop ==> forall x :: 0 <= x < hi ==> Used(bitmap, x)
      ensures m > 0 ==> inop
    {
      hide Owned, BitsMatch, Ref, ByteAt, Written, Loaded, Used, BlocksEnd, Progress, Filled, Lacks, Avail, Free;
      var off := off0 + tot;
      ghost var disk1, inodes1, free1 := disk, inodes, Avail(bitmap, hi, inop);
      BlocksAhead(off0, tot, |src|);
      var r := Bmap(i, off / BSIZE);
      if r.None? {
        ProgressStuck(disk0, inodes0[i], free0, disk1, inodes1[i], free1, off0 / BSIZE, BlocksEnd(off0, tot), off / BSIZE, BlocksEnd(off0, |src|));
        return 0;
      }
      if !inop {
        return 0;
      }
      m := Min(|src| - tot, BSIZE - off % BSIZE);
      BlocksNext(off0, tot, m);
      ProgressNext(disk0, inodes0[i], free0, disk1, inodes1[i], free1, disk, inodes[i], Avail(bitmap, hi, inop), off0 / BSIZE, BlocksEnd(off0, tot), off / BSIZE);
      LoadedNext(inodes0, inodes1, inodes, i, off0 / BSIZE, BlocksEnd(off0, tot), off / BSIZE);
      ghost var disk2 := disk;
      BlockShape(disk, inodes, owner, lo, hi, i, SlotOf(off / BSIZE));
      StoreBytes(disk, inodes, owner, lo, hi, i, off, src[tot..tot + m]);
      disk := disk[r.value := Splice(disk[r.value], off % BSIZE, src[tot..tot + m])];
      ProgressStore(disk0, inodes0[i], free0, disk2, inodes[i], Avail(bitmap, hi, inop), disk, off0 / BSIZE, BlocksEnd(off0, tot + m));
      WrittenMore(disk0, inodes0, disk1, inodes1, disk2, inodes, disk, i, off0, src[..tot], src[tot..tot + m]);
      assert src[..tot] + src[tot..tot + m] == src[..tot + m];
    }

    /** writei, for a regular file.  It refuses an offset past the end, 32-bit overflow and
        too large a file; otherwise it splices src in at off, growing the file as needed.
        Outside a transaction its log_write panics.
        The inode goes to disk only if the file grew: a write into a block that was missing
        inside the file leaves the inode on disk without it. */
    method Writei(i: nat, src: seq<int>, off0: nat) returns (r: IO)
      requires Valid() && i < |inodes| && off0 < UINT && |src| < UINT
      modifies `bitmap, `disk, `inodes, `dinodes, `owner
      ensures Valid()
      ensures r.Error? <==> off0 > old(inodes)[i].size || off0 + |src| >= UINT || off0 + |src| > MAXBYTES
      ensures r.Error? ==> disk == old(disk) && inodes == old(inodes) && bitmap == old(bitmap)
      ensures !r.Done? ==> dinodes == old(dinodes)
      ensures r.Panic? && inop ==> forall x :: 0 <= x < hi ==> Used(bitmap, x)
      ensures r.Panic? <==> !r.Error? && |src| > 0 &&
                            (!inop || Free(old(bitmap), hi) < Lacks(old(disk), old(inodes)[i], off0 / BSIZE, BlocksEnd(off0, |src|)))
      ensures r.Done? ==> r.n == |src| && |inodes| == |old(inodes)|
      ensures r.Done? ==> var c := Content(old(disk), old(inodes)[i]);
                          Content(disk, inodes[i]) == c[..off0] + src + if off0 + |src| < |c| then c[off0 + |src|..] else []
      ensures r.Done? ==> forall k :: 0 <= k < |inodes| && k != i ==> Content(disk, inodes[k]) == Content(old(disk), old(inodes)[k])
      ensures r.Done? ==> dinodes == if off0 + |src| > old(inodes)[i].size then old(dinodes)[i := inodes[i]] else old(dinodes)
      ensures r.Done? && off0 + |src| <= old(inodes)[i].size ==>
                && (inodes[i] == old(inodes)[i] <==> InPlace(old(inodes)[i], off0, |src|))
                && Stale(disk, old(inodes)[i], off0, src)
      ensures r.Done? && old(dinodes[i] == inodes[i]) ==>
                (dinodes[i] == inodes[i] <==> off0 + |src| > old(inodes)[i].size || InPlace(old(inodes)[i], off0, |src|))
    {
      hide Owned, BitsMatch, Ref, ByteAt, Written, Loaded, Used, BlocksEnd, InPlace, Content, Stale, Progress, Lacks, Free;
      var n := |src|;
      if off0 > inodes[i].size || (off0 + n) % UINT < off0 {
        return Error;
      }
      if off0 + n > MAXBYTES {
        return Error;
      }
      ghost var disk0, inodes0, free0 := disk, inodes, Avail(bitmap, hi, inop);
      WrittenNone(disk, inodes, owner, lo, hi, i, off0);
      ProgressNone(disk, inodes[i], free0, off0);
      assert src[..0] == [];
      var tot := 0;
      while tot < n
        invariant 0 <= tot <= n && Valid() && dinodes == old(dinodes) && |inodes| == |inodes0| && (tot > 0 ==> inop)
        invariant Written(disk0, inodes0, disk, inodes, i, off0, src[..tot])
        invariant Loaded(inodes0, inodes, i, off0 / BSIZE, BlocksEnd(off0, tot))
        invariant Progress(disk0, inodes0[i], free0, disk, inodes[i], Avail(bitmap, hi, inop), off0 / BSIZE, BlocksEnd(off0, tot))
      {
        assert (off0 + tot) / BSIZE < MAXFILE;
        var m := WriteSome(i, src, off0, tot, disk0, inodes0, free0);
        if m == 0 {
          return Panic;
        }
        tot := tot + m;
      }
      assert src[..n] == src;
      ProgressDone(disk0, inodes0[i], free0, disk, inodes[i], Avail(bitmap, hi, inop), off0 / BSIZE, BlocksEnd(off0, n));
      LoadedIff(inodes0, inodes, i, off0, n);
      StaleBytes(disk0, inodes0, disk, inodes, i, off0, src);
      WrittenAll(disk0, inodes0, disk, inodes, owner, lo, hi, i, off0, src);
      if n > 0 && off0 + n > inodes[i].size {
        inodes := inodes[i := inodes[i].(size := off0 + n)];
        dinodes := dinodes[i := inodes[i]];
      }
      return Done(n);
    }

    /** One turn of readi's loop, tot bytes of n from off0 having been read. */
    method ReadSome(i: nat, off0: nat, n: nat, tot: nat, ghost disk0: seq<Block>, ghost inodes0: seq<Inode>, ghost free0: nat) returns (r: Option<seq<int>>)
      requires Valid() && i < |inodes0| && tot < n && off0 + n <= inodes0[i].size
      requires Reading(disk0, inodes0, free0, disk, inodes, Avail(bitmap, hi, inop), i, off0, tot)
      modifies `bitmap, `disk, `inodes, `owner
      ensures Valid() && SameBytes(disk0, inodes0, disk, inodes) && |inodes| == |inodes0|
      ensures r.Some? ==> var m := |r.value|;
                          && m > 0 && tot + m <= n && BlocksEnd(off0, tot + m) <= MAXFILE
                          && r.value == Content(disk0, inodes0[i])[off0 + tot..off0 + tot + m]
                          && Reading(disk0, inodes0, free0, disk, inodes, Avail(bitmap, hi, inop), i, off0, tot + m)
      ensures r.None? ==> BlocksEnd(off0, n) > MAXFILE || free0 < Lacks(disk0, inodes0[i], off0 / BSIZE, BlocksEnd(off0, n))
      ensures r.None? && inop ==> inodes0[i].size > MAXBYTES || forall x :: 0 <= x < hi ==> Used(bitmap, x)
      ensures inodes0[i].size <= MAXBYTES && Ref(old(disk), old(inodes)[i], SlotOf((off0 + tot) / BSIZE)) != 0 ==>
                r.Some? && disk == old(disk) && inodes == old(inodes) && bitmap == old(bitmap)
    {
      hide Owned, BitsMatch, SameBytes, Ref, ByteAt, Loaded, Used, BlocksEnd, Content, BytesFrom, Progress, Filled, Lacks, Avail, Free;
      var off := off0 + tot;
      ghost var disk1, inodes1, free1 := disk, inodes, Avail(bitmap, hi, inop);
      BlocksAhead(off0, tot, n);
      if off / BSIZE >= MAXFILE {
        Beyond(off, inodes0[i].size);
      }
      var b := Bmap1(i, off / BSIZE, disk0, inodes0);
      if b.None? {
        if off / BSIZE < MAXFILE {
          ProgressStuck(disk0, inodes0[i], free0, disk1, inodes1[i], free1, off0 / BSIZE, BlocksEnd(off0, tot), off / BSIZE, BlocksEnd(off0, n));
        }
        return None;
      }
      var m := Min(n - tot, BSIZE - off % BSIZE);
      BlocksNext(off0, tot, m);
      ProgressNext(disk0, inodes0[i], free0, disk1, inodes1[i], free1, disk, inodes[i], Avail(bitmap, hi, inop), off0 / BSIZE, BlocksEnd(off0, tot), off / BSIZE);
      LoadedNext(inodes0, inodes1, inodes, i, off0 / BSIZE, BlocksEnd(off0, tot), off / BSIZE);
      LoadBytes(disk, inodes, owner, lo, hi, i, off, m);
      BytesAreContent(disk0, inodes0, disk, inodes, i, off, m);
      return Some(disk[b.value][off % BSIZE..off % BSIZE + m]);
    }

    /** The loop of readi, over n bytes that the file has. */
    method ReadAll(i: nat, off0: nat, n: nat) returns (r: IO, dst: seq<int>)
      requires Valid() && i < |inodes| && off0 + n <= inodes[i].size
      modifies `bitmap, `disk, `inodes, `owner
      ensures Valid() && SameBytes(old(disk), old(inodes), disk, inodes) && |inodes| == |old(inodes)|
      ensures !r.Error? && (r.Done? ==> r.n == |dst| == n && dst == Content(old(disk), old(inodes)[i])[off0..off0 + n])
      ensures r.Panic? && inop ==> old(inodes)[i].size > MAXBYTES || forall x :: 0 <= x < hi ==> Used(bitmap, x)
      ensures r.Panic? <==> n > 0 && Stuck(old(bitmap), hi, inop, old(disk), old(inodes)[i], off0 / BSIZE, BlocksEnd(off0, n))
      ensures var ip := old(inodes)[i];
              ip.size <= MAXBYTES && Backed(old(disk), ip, ip.size) ==>
                !r.Panic? && disk == old(disk) && inodes == old(inodes) && bitmap == old(bitmap)
      ensures r.Done? ==> (inodes[i] == old(inodes)[i] <==> |old(inodes)[i].addrs| == NDIRECT + 1 && InPlace(old(inodes)[i], off0, n))
    {
      hide Owned, BitsMatch, SameBytes, Ref, Backed, Used, Content, BlocksEnd, InPlace, Reading, Avail, Free, Stuck;
      dst := [];
      ghost var disk0, inodes0, free0 := disk, inodes, Avail(bitmap, hi, inop);
      ghost var c := Content(disk, inodes[i]);
      SameBytesRefl(disk, inodes);
      ReadingNone(disk, inodes, owner, lo, hi, free0, i, off0);
      var tot := 0;
      while tot < n
        invariant 0 <= tot <= n && |inodes| == |inodes0|
        invariant Valid() && SameBytes(disk0, inodes0, disk, inodes)
        invariant dst == c[off0..off0 + tot] && Reading(disk0, inodes0, free0, disk, inodes, Avail(bitmap, hi, inop), i, off0, tot)
        invariant tot > 0 ==> BlocksEnd(off0, tot) <= MAXFILE
        invariant inodes0[i].size <= MAXBYTES && Backed(disk0, inodes0[i], inodes0[i].size) ==>
                    disk == disk0 && inodes == inodes0 && bitmap == old(bitmap)
      {
        BackedAt(disk0, inodes0[i], off0 + tot);
        var b := ReadSome(i, off0, n, tot, disk0, inodes0, free0);
        if b.None? {
          StuckHere(old(bitmap), hi, inop, disk0, inodes0[i], off0 / BSIZE, BlocksEnd(off0, n));
          return Panic, dst;
        }
        var m := |b.value|;
        Adjoin(c, off0, off0 + tot, off0 + tot + m);
        dst := dst + b.value;
        tot := tot + m;
      }
      ReadingDone(disk0, inodes0, free0, disk, inodes, Avail(bitmap, hi, inop), i, off0, n);
      StuckHere(old(bitmap), hi, inop, disk0, inodes0[i], off0 / BSIZE, BlocksEnd(off0, n));
      return Done(n), dst;
    }

    /** readi, for a regular file: the slice of the file from off, clipped at its end.  Reading
        a missing block allocates it, and then the inode on disk lacks it; outside a
        transaction that panics. */
    method Readi(i: nat, off0: nat, n0: nat) returns (r: IO, dst: seq<int>)
      requires Valid() && i < |inodes| && off0 < UINT && n0 < UINT
      modifies `bitmap, `disk, `inodes, `owner
      ensures Valid() && SameBytes(old(disk), old(inodes), disk, inodes) && |inodes| == |old(inodes)|
      ensures r.Error? <==> off0 > old(inodes)[i].size || off0 + n0 >= UINT
      ensures r.Done? ==> var c := Content(old(disk), old(inodes)[i]);
                          r.n == |dst| && off0 <= |c| && dst == c[off0..Min(off0 + n0, |c|)]
      ensures r.Panic? && inop ==> old(inodes)[i].size > MAXBYTES || forall x :: 0 <= x < hi ==> Used(bitmap, x)
      ensures !r.Error? && off0 <= old(inodes)[i].size ==>
                var n := Min(n0, old(inodes)[i].size - off0);
                r.Panic? <==> n > 0 && Stuck(old(bitmap), hi, inop, old(disk), old(inodes)[i], off0 / BSIZE, BlocksEnd(off0, n))
      ensures var ip := old(inodes)[i];
              ip.size <= MAXBYTES && Backed(old(disk), ip, ip.size) ==>
                !r.Panic? && disk == old(disk) && inodes == old(inodes) && bitmap == old(bitmap)
      ensures r.Done? ==>
                (inodes[i] == old(inodes)[i] <==> InPlace(old(inodes)[i], off0, Min(n0, old(inodes)[i].size - off0)))
    {
      hide Owned, BitsMatch, SameBytes, Ref, Backed, Used, Content, BlocksEnd, InPlace, Free, Stuck;
      SameBytesRefl(disk, inodes);
      AddrRef(disk, inodes, owner, lo, hi, i, 0);
      var n := n0;
      if off0 > inodes[i].size || (off0 + n) % UINT < off0 {
        return Error, [];
      }
      if off0 + n > inodes[i].size {
        n := inodes[i].size - off0;
      }
      r, dst := ReadAll(i, off0, n);
    }

    method Bmap1(i: nat, bn: nat, ghost disk0: seq<Block>, ghost inodes0: seq<Inode>) returns (r: Option<nat>)
      requires Valid() && i < |inodes| && SameBytes(disk0, inodes0, disk, inodes)
      modifies `bitmap, `disk, `inodes, `owner
      ensures Valid() && SameBytes(disk0, inodes0, disk, inodes) && i < |inodes|
      ensures r.Some? ==> bn < MAXFILE && r.value > 0 && Ref(disk, inodes[i], SlotOf(bn)) == r.value
      ensures r.None? && bn < MAXFILE && inop ==> forall x :: 0 <= x < hi ==> Used(bitmap, x)
      ensures bn < MAXFILE && Ref(old(disk), old(inodes)[i], SlotOf(bn)) != 0 ==>
                r.Some? && disk == old(disk) && inodes == old(inodes) && bitmap == old(bitmap)
      ensures r.Some? ==> Loaded(old(inodes), inodes, i, bn, bn + 1)
      ensures r.Some? <==> bn < MAXFILE && Avail(old(bitmap), hi, inop) >= Lacks(old(disk), old(inodes)[i], bn, bn + 1)
      ensures r.Some? ==> Avail(bitmap, hi, inop) + Lacks(old(disk), old(inodes)[i], bn, bn + 1) == Avail(old(bitmap), hi, inop)
      ensures r.Some? ==> Filled(old(disk), old(inodes)[i], disk, inodes[i], bn, bn + 1)
    {
      hide Owned, BitsMatch, SameBytes, Ref, Loaded, Used, Filled, Lacks, Avail, Free;
      ghost var disk1, inodes1 := disk, inodes;
      r := Bmap(i, bn);
      SameBytesTrans(disk0, inodes0, disk1, inodes1, disk, inodes);
    }

    /** First loop of itrunc: free the direct blocks. */
    method TruncDirect(i: nat) returns (ok: bool)
      requires Valid() && inop && i < |inodes|
      modifies `bitmap, `inodes, `owner
      ensures ok && Valid() && owner == Minus(old(owner), i, 0, INDIRECT)
      ensures |inodes| == |old(inodes)| && forall s :: 0 <= s < INDIRECT ==> inodes[i].addrs[s] == 0
      ensures inodes == old(inodes)[i := Inode(old(inodes)[i].size, inodes[i].addrs)]
      ensures inodes[i].addrs[INDIRECT] == old(inodes)[i].addrs[INDIRECT]
    {
      ghost var owner0, inodes0 := owner, inodes;
      ok := true;
      var s := 0;
      while s < NDIRECT
        invariant 0 <= s <= NDIRECT && ok && Valid() && |inodes| == |inodes0|
        invariant owner == Minus(owner0, i, 0, s)
        invariant forall t :: 0 <= t < s ==> inodes[i].addrs[t] == 0
        invariant inodes == inodes0[i := Inode(inodes0[i].size, inodes[i].addrs)]
        invariant inodes[i].addrs[INDIRECT] == inodes0[i].addrs[INDIRECT]
      {
        ok := TruncOne(i, s);
        MinusMore(owner0, i, 0, s);
        s := s + 1;
      }
    }

    /** Free the block of one direct slot. */
    method TruncOne(i: nat, s: nat) returns (ok: bool)
      requires Valid() && inop && i < |inodes| && s < INDIRECT
      modifies `bitmap, `inodes, `owner
      ensures ok && Valid() && owner == Minus(old(owner), i, s, s + 1)
      ensures inodes == old(inodes)[i := old(inodes)[i].(addrs := old(inodes)[i].addrs[s := 0])]
    {
      DropAddr(disk, inodes, owner, lo, hi, i, s);
      MinusOne(disk, inodes, owner, lo, hi, i, s, s);
      MinusNone(owner, i, s);
      var a := inodes[i].addrs[s];
      assert Ref(disk, inodes[i], s) == a;
      ok := true;
      if a != 0 {
        UnmarkMatches(bitmap, owner, lo, hi, a);
        ok := Bfree(a);
      }
      inodes := inodes[i := inodes[i].(addrs := inodes[i].addrs[s := 0])];
      owner := Minus(owner, i, s, s + 1);
    }

    /** Second loop of itrunc: free the blocks listed in the indirect block. */
    method TruncEntries(i: nat) returns (ok: bool)
      requires Valid() && inop && i < |inodes| && inodes[i].addrs[INDIRECT] != 0
      modifies `bitmap
      ensures ok && BitsMatch(bitmap, Minus(owner, i, INDIRECT + 1, MAXFILE + 1), lo, hi)
    {
      var a := inodes[i].addrs[INDIRECT];
      assert Ref(disk, inodes[i], INDIRECT) == a;
      EntryRefs(disk, inodes, owner, lo, hi, i);
      BitsSize(bitmap, owner, lo, hi);
      hide Owned, BitsMatch, Minus, Ref, Word, Used, Unmark;
      MinusNone(owner, i, INDIRECT + 1);
      ok := true;
      var j := 0;
      while j < NINDIRECT
        invariant 0 <= j <= NINDIRECT && ok && hi <= 8 * |bitmap|
        invariant BitsMatch(bitmap, Minus(owner, i, INDIRECT + 1, INDIRECT + 1 + j), lo, hi)
      {
        ok := TruncEntry(i, a, j);
        j := j + 1;
      }
    }

    /** One turn of that loop. */
    method TruncEntry(i: nat, a: nat, j: nat) returns (ok: bool)
      requires Owned(disk, inodes, owner, lo, hi) && inop && i < |inodes| && j < NINDIRECT && hi <= 8 * |bitmap|
      requires a < |disk| && |disk[a]| == BSIZE && Ref(disk, inodes[i], INDIRECT + 1 + j) == Word(disk[a], j)
      requires BitsMatch(bitmap, Minus(owner, i, INDIRECT + 1, INDIRECT + 1 + j), lo, hi)
      modifies `bitmap
      ensures ok && hi <= 8 * |bitmap| && BitsMatch(bitmap, Minus(owner, i, INDIRECT + 1, INDIRECT + 1 + j + 1), lo, hi)
    {
      hide Owned, BitsMatch, Minus, Ref, Word, Used, Unmark;
      ghost var left := Minus(owner, i, INDIRECT + 1, INDIRECT + 1 + j);
      MinusOne(disk, inodes, owner, lo, hi, i, INDIRECT + 1, INDIRECT + 1 + j);
      var b := Word(disk[a], j);
      ok := true;
      if b != 0 {
        UnmarkMatches(bitmap, left, lo, hi, b);
        OwnedUsed(bitmap, left, lo, hi, b);
        BitsSize(Unmark(bitmap, b), left - {b as int}, lo, hi);
        ok := Bfree(b);
      }
    }

    /** The indirect half of itrunc. */
    method TruncIndirect(i: nat) returns (ok: bool)
      requires Valid() && inop && i < |inodes|
      modifies `bitmap, `inodes, `owner
      ensures ok && Valid() && owner == Minus(old(owner), i, INDIRECT, MAXFILE + 1)
      ensures inodes == old(inodes)[i := old(inodes)[i].(addrs := old(inodes)[i].addrs[INDIRECT := 0])]
    {
      DropIndirect(disk, inodes, owner, lo, hi, i);
      var a := inodes[i].addrs[INDIRECT];
      assert Ref(disk, inodes[i], INDIRECT) == a;
      ok := true;
      if a != 0 {
        MinusOne(disk, inodes, owner, lo, hi, i, INDIRECT, INDIRECT);
        MinusNone(owner, i, INDIRECT);
        ok := TruncEntries(i);
        hide Owned;
        ghost var rest := Minus(owner, i, INDIRECT + 1, MAXFILE + 1);
        LastBlock(owner, i, a);
        UnmarkMatches(bitmap, rest, lo, hi, a);
        ok := Bfree(a);
      } else {
        NoEntries(disk, inodes, owner, lo, hi, i);
      }
      inodes := inodes[i := inodes[i].(addrs := inodes[i].addrs[INDIRECT := 0])];
      owner := Minus(owner, i, INDIRECT, MAXFILE + 1);
    }

    /** itrunc: frees exactly the blocks the inode refers to, never a free one, and leaves
        every other inode and every block's contents alone.  It ends in iupdate, so outside a
        transaction it always panics, there or in an earlier log_write. */
    method Itrunc(i: nat) returns (ok: bool)
      requires Valid() && i < |inodes|
      modifies `bitmap, `inodes, `dinodes, `owner
      ensures Valid() && (ok <==> inop)
      ensures ok ==> inodes == old(inodes)[i := EMPTY] && dinodes == old(dinodes)[i := EMPTY]
      ensures ok ==> forall b :: 0 < b < hi ==> (Used(bitmap, b) <==> Used(old(bitmap), b) && !RefersTo(old(disk), old(inodes)[i], b))
    {
      if !inop {
        return false;
      }
      ghost var owner0 := owner;
      ghost var bitmap0 := bitmap;
      AllSlots(disk, inodes, owner, lo, hi, i);
      forall b | 0 < b < hi ensures RefersTo(disk, inodes[i], b) <==> b in owner && owner[b].0 == i {
        WhoRefers(disk, inodes, owner, lo, hi, i, b);
      }
      assert BitsMatch(bitmap, owner, lo, hi);
      ok := TruncDirect(i);
      ok := TruncIndirect(i);
      MinusTwice(owner0, i);
      Resize(disk, inodes, owner, lo, hi, i, 0);
      inodes := inodes[i := inodes[i].(size := 0)];
      assert inodes[i].addrs == EMPTY.addrs;
      dinodes := dinodes[i := inodes[i]];
      hide Owned, RefersTo, Used;
      assert BitsMatch(bitmap, owner, lo, hi);
    }
  }

  lemma LoadedSame(inodes: seq<Inode>, i: nat, s: nat)
    requires i < |inodes| && s <= INDIRECT && |inodes[i].addrs| == NDIRECT + 1
    ensures inodes[i].addrs[s] != 0 ==> Loaded(inodes, inodes, i, s, s + 1)
  {
  }

  lemma LoadedAddr(inodes: seq<Inode>, i: nat, s: nat, z: nat)
    requires i < |inodes| && s <= INDIRECT && |inodes[i].addrs| == NDIRECT + 1 && inodes[i].addrs[s] == 0 < z
    ensures Loaded(inodes, inodes[i := inodes[i].(addrs := inodes[i].addrs[s := z])], i, s, s + 1)
  {
  }

  lemma AssignedRef(disk: seq<Block>, inodes: seq<Inode>, disk': seq<Block>, inodes': seq<Inode>, i: nat, s: int, z: int)
    requires Assigned(disk, inodes, disk', inodes', i, s, z) && i < |inodes|
    ensures |inodes'| == |inodes| && forall t :: Ref(disk', inodes'[i], t) == if t == s then z else Ref(disk, inodes[i], t)
  {
    hide Ref;
  }

  /** A block whose bit is clear is a data block without an owner. */
  lemma FreeBlock(disk: seq<Block>, inodes: seq<Inode>, bitmap: seq<bv8>, owner: Owners, lo: nat, hi: nat, z: nat)
    requires Owned(disk, inodes, owner, lo, hi) && BitsMatch(bitmap, owner, lo, hi) && z < hi && !Used(bitmap, z)
    ensures 0 < lo <= z && z !in owner
  {
  }

  lemma EntryPositive(disk: seq<Block>, inodes: seq<Inode>, owner: Owners, lo: nat, hi: nat, i: nat, j: nat)
    requires Owned(disk, inodes, owner, lo, hi) && i < |inodes|
    ensures Ref(disk, inodes[i], INDIRECT + 1 + j) >= 0
  {
    hide Ref;
  }

  lemma HasOwner(disk: seq<Block>, inodes: seq<Inode>, owner: Owners, lo: nat, hi: nat, i: nat, s: nat)
    requires Owned(disk, inodes, owner, lo, hi) && i < |inodes| && Ref(disk, inodes[i], s) != 0
    ensures Ref(disk, inodes[i], s) in owner
  {
    hide Ref;
  }

  lemma AddrRef(disk: seq<Block>, inodes: seq<Inode>, owner: Owners, lo: nat, hi: nat, i: nat, s: nat)
    requires Owned(disk, inodes, owner, lo, hi) && i < |inodes| && s <= INDIRECT
    ensures |inodes[i].addrs| == NDIRECT + 1 && Ref(disk, inodes[i], s) == inodes[i].addrs[s] && hi <= |disk|
  {
  }

  lemma LacksOne(disk: seq<Block>, ip: Inode, bn: nat)
    ensures Lacks(disk, ip, bn, bn + 1) ==
            (if Ref(disk, ip, SlotOf(bn)) == 0 then 1 else 0) + if bn >= NDIRECT && Ref(disk, ip, INDIRECT) == 0 then 1 else 0
  {
    hide Ref;
    assert Gaps(disk, ip, bn, bn) == 0;
  }

  lemma FilledDirect(disk: seq<Block>, ip: Inode, disk': seq<Block>, ip': Inode, bn: nat, z: nat)
    requires bn < NDIRECT && z > 0 && (Ref(disk, ip, bn) != 0 ==> Ref(disk, ip, bn) == z)
    requires forall t :: Ref(disk', ip', t) == if t == bn then z else Ref(disk, ip, t)
    ensures Filled(disk, ip, disk', ip', bn, bn + 1)
  {
    hide Ref;
  }

  lemma FilledIndirect(disk: seq<Block>, ip: Inode, disk1: seq<Block>, ip1: Inode, disk2: seq<Block>, ip2: Inode, bn: nat)
    requires NDIRECT <= bn < MAXFILE && Ref(disk1, ip1, INDIRECT) != 0 && Ref(disk2, ip2, bn + 1) != 0
    requires forall t :: t != INDIRECT || Ref(disk, ip, t) != 0 ==> Ref(disk1, ip1, t) == Ref(disk, ip, t)
    requires forall t :: t != bn + 1 || Ref(disk1, ip1, t) != 0 ==> Ref(disk2, ip2, t) == Ref(disk1, ip1, t)
    ensures Filled(disk, ip, disk2, ip2, bn, bn + 1)
  {
    hide Ref;
  }

  /** The blocks from lo up to hi cannot all be had: they reach past the largest file, lack more
      blocks than are free, or lack any outside a transaction. */
  predicate Stuck(bitmap: seq<bv8>, size: nat, inop: bool, disk: seq<Block>, ip: Inode, lo: nat, hi: nat) {
    hi > MAXFILE || Free(bitmap, size) < Lacks(disk, ip, lo, hi) || (!inop && Lacks(disk, ip, lo, hi) > 0)
  }

  lemma StuckHere(bitmap: seq<bv8>, size: nat, inop: bool, disk: seq<Block>, ip: Inode, lo: nat, hi: nat)
    ensures Stuck(bitmap, size, inop, disk, ip, lo, hi) <==> hi > MAXFILE || Avail(bitmap, size, inop) < Lacks(disk, ip, lo, hi)
  {
    hide Free, Lacks;
  }

  /** tot bytes from off have been read: no file changed, and exactly the missing blocks were taken. */
  ghost predicate Reading(disk0: seq<Block>, inodes0: seq<Inode>, free0: nat, disk: seq<Block>, inodes: seq<Inode>, free: nat, i: nat, off: nat, tot: nat) {
    && i < |inodes0| == |inodes| && SameBytes(disk0, inodes0, disk, inodes)
    && Loaded(inodes0, inodes, i, off / BSIZE, BlocksEnd(off, tot))
    && Progress(disk0, inodes0[i], free0, disk, inodes[i], free, off / BSIZE, BlocksEnd(off, tot))
  }

  lemma ReadingNone(disk: seq<Block>, inodes: seq<Inode>, owner: Owners, lo: nat, hi: nat, free: nat, i: nat, off: nat)
    requires Owned(disk, inodes, owner, lo, hi) && i < |inodes|
    ensures Reading(disk, inodes, free, disk, inodes, free, i, off, 0)
  {
    hide Owned, SameBytes, Loaded, Progress, BlocksEnd, Written;
    SameBytesRefl(disk, inodes);
    WrittenNone(disk, inodes, owner, lo, hi, i, off);
    ProgressNone(disk, inodes[i], free, off);
  }

  lemma ReadingDone(disk0: seq<Block>, inodes0: seq<Inode>, free0: nat, disk: seq<Block>, inodes: seq<Inode>, free: nat, i: nat, off: nat, n: nat)
    requires Reading(disk0, inodes0, free0, disk, inodes, free, i, off, n)
    ensures i < |inodes0| == |inodes| && (inodes[i] == inodes0[i] <==> |inodes0[i].addrs| == NDIRECT + 1 && InPlace(inodes0[i], off, n))
    ensures |inodes0[i].addrs| == NDIRECT + 1 && free + Lacks(disk0, inodes0[i], off / BSIZE, BlocksEnd(off, n)) == free0
  {
    hide SameBytes, BlocksEnd, InPlace, Filled, Lacks;
    LoadedIff(inodes0, inodes, i, off, n);
  }

  /** Looking up the blocks from lo up to hi has taken exactly the free blocks they lacked. */
  ghost predicate Progress(disk: seq<Block>, ip: Inode, free: nat, disk': seq<Block>, ip': Inode, free': nat, lo: nat, hi: nat) {
    Filled(disk, ip, disk', ip', lo, hi) && free' + Lacks(disk, ip, lo, hi) == free
  }

  lemma ProgressNext(disk: seq<Block>, ip: Inode, free: nat, disk1: seq<Block>, ip1: Inode, free1: nat, disk2: seq<Block>, ip2: Inode, free2: nat,
                     lo: nat, hi: nat, bn: nat)
    requires Progress(disk, ip, free, disk1, ip1, free1, lo, hi) && lo <= bn <= hi <= bn + 1 && bn < MAXFILE
    requires Filled(disk1, ip1, disk2, ip2, bn, bn + 1) && free2 + Lacks(disk1, ip1, bn, bn + 1) == free1
    ensures Progress(disk, ip, free, disk2, ip2, free2, lo, bn + 1)
  {
    hide Filled, Lacks;
    FilledNext(disk, ip, disk1, ip1, disk2, ip2, lo, hi, bn);
    LacksNext(disk, ip, disk1, ip1, lo, hi, bn);
  }

  lemma ProgressNone(disk: seq<Block>, ip: Inode, free: nat, off: nat)
    ensures Progress(disk, ip, free, disk, ip, free, off / BSIZE, BlocksEnd(off, 0))
  {
    FilledNone(disk, ip, off / BSIZE);
  }

  lemma ProgressStore(disk: seq<Block>, ip: Inode, free: nat, disk1: seq<Block>, ip': Inode, free': nat, disk2: seq<Block>, lo: nat, hi: nat)
    requires Progress(disk, ip, free, disk1, ip', free', lo, hi) && forall s :: Ref(disk2, ip', s) == Ref(disk1, ip', s)
    ensures Progress(disk, ip, free, disk2, ip', free', lo, hi)
  {
    hide Ref, Filled, Lacks;
    FilledStore(disk, ip, disk1, ip', disk2, lo, hi);
  }

  lemma ProgressDone(disk: seq<Block>, ip: Inode, free: nat, disk': seq<Block>, ip': Inode, free': nat, lo: nat, hi: nat)
    requires Progress(disk, ip, free, disk', ip', free', lo, hi)
    ensures free' + Lacks(disk, ip, lo, hi) == free
  {
  }

  /** Where the next block stands. */
  lemma BlocksAhead(off: nat, tot: nat, n: nat)
    requires tot < n
    ensures off / BSIZE <= (off + tot) / BSIZE <= BlocksEnd(off, tot) <= (off + tot) / BSIZE + 1 <= BlocksEnd(off, n)
  {
  }

  lemma ProgressStuck(disk: seq<Block>, ip: Inode, free: nat, disk1: seq<Block>, ip1: Inode, free1: nat, lo: nat, hi: nat, bn: nat, end: nat)
    requires Progress(disk, ip, free, disk1, ip1, free1, lo, hi) && lo <= bn <= hi <= bn + 1 && bn < MAXFILE && bn < end
    requires free1 < Lacks(disk1, ip1, bn, bn + 1)
    ensures free < Lacks(disk, ip, lo, end)
  {
    hide Filled, Lacks;
    LacksNext(disk, ip, disk1, ip1, lo, hi, bn);
    LacksMono(disk, ip, lo, bn + 1, end);
  }

  /** Every indirect block is found through the same address. */
  lemma LoadedIndirect(inodes: seq<Inode>, inodes': seq<Inode>, i: nat, bn: nat)
    requires Loaded(inodes, inodes', i, INDIRECT, INDIRECT + 1) && bn >= NDIRECT
    ensures Loaded(inodes, inodes', i, bn, bn + 1)
  {
  }

  /** The entries of the indirect block are references. */
  lemma EntryRefs(disk: seq<Block>, inodes: seq<Inode>, owner: Owners, lo: nat, hi: nat, i: nat)
    requires Owned(disk, inodes, owner, lo, hi) && i < |inodes| && inodes[i].addrs[INDIRECT] != 0
    ensures var a := inodes[i].addrs[INDIRECT];
            && 0 < a < |disk| && |disk[a]| == BSIZE
            && forall j: nat :: j < NINDIRECT ==> Ref(disk, inodes[i], INDIRECT + 1 + j) == Word(disk[a], j)
  {
    assert Ref(disk, inodes[i], INDIRECT) == inodes[i].addrs[INDIRECT];
  }

  lemma BitsSize(bitmap: seq<bv8>, owner: Owners, lo: nat, hi: nat)
    requires BitsMatch(bitmap, owner, lo, hi)
    ensures hi <= 8 * |bitmap|
  {
  }

  lemma OwnedUsed(bitmap: seq<bv8>, owner: Owners, lo: nat, hi: nat, b: nat)
    requires BitsMatch(bitmap, owner, lo, hi) && b < hi && b in owner
    ensures Used(bitmap, b)
  {
  }

  lemma RefLevels(disk: seq<Block>, ip: Inode, bn: nat)
    requires NDIRECT <= bn < MAXFILE
    ensures Ref(disk, ip, SlotOf(bn)) != 0 ==> |ip.addrs| == NDIRECT + 1 && ip.addrs[INDIRECT] != 0
  {
  }

  lemma BackedAt(disk: seq<Block>, ip: Inode, off: nat)
    ensures Backed(disk, ip, ip.size) && off < ip.size ==> Ref(disk, ip, SlotOf(off / BSIZE)) != 0
  {
    hide Ref;
    assert off / BSIZE * BSIZE <= off;
  }

  lemma BlockShape(disk: seq<Block>, inodes: seq<Inode>, owner: Owners, lo: nat, hi: nat, i: nat, s: nat)
    requires Owned(disk, inodes, owner, lo, hi) && i < |inodes| && Ref(disk, inodes[i], s) != 0
    ensures 0 < Ref(disk, inodes[i], s) < |disk| && |disk[Ref(disk, inodes[i], s)]| == BSIZE
  {
  }

  lemma WrittenNone(disk: seq<Block>, inodes: seq<Inode>, owner: Owners, lo: nat, hi: nat, i: nat, off: nat)
    requires Owned(disk, inodes, owner, lo, hi) && i < |inodes|
    ensures Written(disk, inodes, disk, inodes, i, off, []) && Loaded(inodes, inodes, i, off / BSIZE, BlocksEnd(off, 0))
  {
    hide ByteAt, Ref;
    LoadedNone(inodes, i, off / BSIZE);
  }

  /** A whole write, including the new size. */
  lemma WrittenAll(disk0: seq<Block>, inodes0: seq<Inode>, disk: seq<Block>, inodes: seq<Inode>, owner: Owners, lo: nat, hi: nat, i: nat, off: nat, data: seq<int>)
    requires Written(disk0, inodes0, disk, inodes, i, off, data) && i < |inodes0| && off <= inodes0[i].size
    requires Owned(disk, inodes, owner, lo, hi)
    ensures |inodes| == |inodes0| && inodes[i].size == inodes0[i].size
    ensures var inodes' := if off + |data| > inodes[i].size then inodes[i := inodes[i].(size := off + |data|)] else inodes;
            && Owned(disk, inodes', owner, lo, hi)
            && (var c := Content(disk0, inodes0[i]);
                Content(disk, inodes'[i]) == c[..off] + data + if off + |data| < |c| then c[off + |data|..] else [])
            && forall k :: 0 <= k < |inodes'| && k != i ==> Content(disk, inodes'[k]) == Content(disk0, inodes0[k])
  {
    hide Owned, Ref, ByteAt, Content;
    var inodes' := if off + |data| > inodes[i].size then inodes[i := inodes[i].(size := off + |data|)] else inodes;
    Resize(disk, inodes, owner, lo, hi, i, off + |data|);
    WrittenContents(disk0, inodes0, disk, inodes', i, off, data);
  }

  /** What the inode ip, as it was before data was written at off, finds of it: the bytes reached
      through an address it had, and zeros in place of the others. */
  ghost predicate Stale(disk: seq<Block>, ip: Inode, off: nat, data: seq<int>) {
    && |ip.addrs| == NDIRECT + 1 && off + |data| <= MAXBYTES
    && forall o :: off <= o < off + |data| ==>
         ByteAt(disk, ip, o) == if ip.addrs[AddrOf(o / BSIZE)] != 0 then data[o - off] else 0
  }

  lemma StaleBytes(disk: seq<Block>, inodes: seq<Inode>, disk': seq<Block>, inodes': seq<Inode>, i: nat, off: nat, data: seq<int>)
    requires Written(disk, inodes, disk', inodes', i, off, data) && i < |inodes| && off + |data| <= MAXBYTES
    requires Loaded(inodes, inodes', i, off / BSIZE, BlocksEnd(off, |data|))
    ensures Stale(disk', inodes[i], off, data)
  {
    forall o | off <= o < off + |data|
      ensures ByteAt(disk', inodes[i], o) == if inodes[i].addrs[AddrOf(o / BSIZE)] != 0 then data[o - off] else 0
    {
      StaleByte(disk', inodes, inodes', i, off / BSIZE, BlocksEnd(off, |data|), o);
      assert ByteAt(disk', inodes'[i], o) == data[o - off];
      hide ByteAt, Loaded, Written, BlocksEnd;
    }
  }

  lemma Beyond(off: nat, size: nat)
    requires off < size && off / BSIZE >= MAXFILE
    ensures size > MAXBYTES
  {
  }

  function BytesFrom(disk: seq<Block>, ip: Inode, off: nat, m: nat): seq<int> {
    seq(m, (k: nat) => ByteAt(disk, ip, off + k))
  }

  /** Part of the block that holds offset off, as the file shows it. */
  lemma LoadBytes(disk: seq<Block>, inodes: seq<Inode>, owner: Owners, lo: nat, hi: nat, i: nat, off: nat, m: nat)
    requires Owned(disk, inodes, owner, lo, hi) && i < |inodes| && off % BSIZE + m <= BSIZE
    requires Ref(disk, inodes[i], SlotOf(off / BSIZE)) != 0
    ensures var a := Ref(disk, inodes[i], SlotOf(off / BSIZE));
            0 < a < |disk| && |disk[a]| == BSIZE &&
            disk[a][off % BSIZE..off % BSIZE + m] == BytesFrom(disk, inodes[i], off, m)
  {
    var a := Ref(disk, inodes[i], SlotOf(off / BSIZE));
    var bytes := BytesFrom(disk, inodes[i], off, m);
    forall k: nat | k < m ensures disk[a][off % BSIZE + k] == bytes[k] {
      OtherBlock(off + k, off, m);
      SameBlock(off + k, off, m);
      assert bytes[k] == ByteAt(disk, inodes[i], off + k) == disk[a][(off + k) % BSIZE];
    }
  }

  lemma BytesAreContent(disk0: seq<Block>, inodes0: seq<Inode>, disk: seq<Block>, inodes: seq<Inode>, i: nat, off: nat, m: nat)
    requires SameBytes(disk0, inodes0, disk, inodes) && i < |inodes| && off + m <= inodes0[i].size
    ensures BytesFrom(disk, inodes[i], off, m) == Content(disk0, inodes0[i])[off..off + m]
  {
    hide ByteAt;
  }

  lemma SameBytesRefl(disk: seq<Block>, inodes: seq<Inode>)
    ensures SameBytes(disk, inodes, disk, inodes)
  {
  }

  lemma SameBytesTrans(disk: seq<Block>, inodes: seq<Inode>, disk1: seq<Block>, inodes1: seq<Inode>, disk2: seq<Block>, inodes2: seq<Inode>)
    requires SameBytes(disk, inodes, disk1, inodes1) && SameBytes(disk1, inodes1, disk2, inodes2)
    ensures SameBytes(disk, inodes, disk2, inodes2)
  {
    hide ByteAt;
  }

  lemma Adjoin(c: seq<int>, a: nat, b: nat, e: nat)
    requires a <= b <= e <= |c|
    ensures c[a..b] + c[b..e] == c[a..e]
  {
  }

  lemma FlatBit(b: nat)
    ensures b / BPB * 512 + b % BPB / 8 == b / 8 && b % BPB % 8 == b % 8
  {
  }

  /** The bit that balloc looks at, and what setting it does. */
  lemma BitAt(bitmap: seq<bv8>, b: nat, bi: nat)
    requires b % BPB == 0 && b + bi < 8 * |bitmap|
    ensures var k := b / 8 + bi / 8;
            && k < |bitmap| && (b + bi) / 8 < |bitmap| && (Bit(bitmap[k], bi % 8) <==> Used(bitmap, b + bi))
            && bitmap[k := WithBit(bitmap[k], bi % 8)] == Mark(bitmap, b + bi)
  {
    hide Bit, WithBit;
    Flat(b, bi);
  }

  lemma Eighths(q: nat, bi: nat)
    ensures 8 * q / 8 == q && (8 * q + bi) / 8 == q + bi / 8 && (8 * q + bi) % 8 == bi % 8
  {
  }

  lemma Multiple(b: nat) returns (q: nat)
    requires b % BPB == 0
    ensures b == 8 * q
  {
    q := 512 * (b / BPB);
  }

  lemma Flat(b: nat, bi: nat)
    requires b % BPB == 0
    ensures b / 8 + bi / 8 == (b + bi) / 8 && bi % 8 == (b + bi) % 8
  {
    var q := Multiple(b);
    Eighths(q, bi);
  }
}
