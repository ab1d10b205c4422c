/** The disk layout of HW3/fs.h: where the superblock, the log, the inodes and the bitmap lie, and how
    inodes and bitmap are stored there; as mkfs writes it and the kernel reads it. */
module DiskLayout {
  import opened Blocks
  import opened Inodes

  const IPB: nat := 8          // inodes per block: 512 / 64
  const DWORDS: nat := 16      // words of a struct dinode

  datatype Super = Super(size: nat, nblocks: nat, ninodes: nat, nlog: nat, logstart: nat, inodestart: nat, bmapstart: nat)

  /** The block that holds inode i, and the one that holds the bitmap's bit for block b. */
  function IBlock(i: nat, sb: Super): nat {
    i / IPB + sb.inodestart
  }

  function BBlock(b: nat, sb: Super): nat {
    b / BPB + sb.bmapstart
  }

  predicate InLog(sb: Super, x: nat) {
    sb.logstart <= x < sb.logstart + sb.nlog
  }

  ghost predicate InInodes(sb: Super, x: nat) {
    exists i: nat :: i < sb.ninodes && x == IBlock(i, sb)
  }

  ghost predicate InBitmap(sb: Super, x: nat) {
    exists b: nat :: b < sb.size && x == BBlock(b, sb)
  }

  /** The regions follow one another, without overlap, below the first data block: boot block, superblock,
      log, inodes, bitmap. */
  predicate Laid(sb: Super, data: nat) {
    && 2 <= sb.logstart && sb.logstart + sb.nlog <= sb.inodestart
    && (sb.ninodes > 0 ==> IBlock(sb.ninodes - 1, sb) < sb.bmapstart)
    && (sb.size > 0 ==> BBlock(sb.size - 1, sb) < data)
    && sb.inodestart <= sb.bmapstart <= data <= sb.size
  }

  /** Every block that the kernel uses for something other than data lies below data, and has one use. */
  lemma RegionsApart(sb: Super, data: nat, x: nat)
    requires Laid(sb, data)
    ensures InLog(sb, x) ==> 1 < x < data && !InInodes(sb, x) && !InBitmap(sb, x)
    ensures InInodes(sb, x) ==> 1 < x < data && !InLog(sb, x) && !InBitmap(sb, x)
    ensures InBitmap(sb, x) ==> 1 < x < data && !InLog(sb, x) && !InInodes(sb, x)
  {
    if InInodes(sb, x) {
      var i: nat :| i < sb.ninodes && x == IBlock(i, sb);
      assert i / IPB <= (sb.ninodes - 1) / IPB;
    }
    if InBitmap(sb, x) {
      var b: nat :| b < sb.size && x == BBlock(b, sb);
      assert b / BPB <= (sb.size - 1) / BPB;
    }
  }

  // A struct dinode inside its block: size and addresses after four shorts.

  function PutAddrs(b: Block, at: nat, addrs: seq<nat>, k: nat): (r: Block)
    requires |b| == BSIZE && k <= |addrs| && 4 * (at + |addrs|) <= BSIZE
    ensures |r| == BSIZE
    ensures forall j :: 0 <= j < BSIZE / 4 ==> Word(r, j) == if at <= j < at + k then addrs[j - at] else Word(b, j)
  {
    if k == 0 then b else SetWord(PutAddrs(b, at, addrs, k - 1), at + k - 1, addrs[k - 1])
  }

  function PutInode(b: Block, slot: nat, ip: Inode): (r: Block)
    requires |b| == BSIZE && slot < IPB && |ip.addrs| == NDIRECT + 1
    ensures |r| == BSIZE
  {
    PutAddrs(SetWord(b, DWORDS * slot + 2, ip.size), DWORDS * slot + 3, ip.addrs, NDIRECT + 1)
  }

  function Unsigned(w: int): nat {
    if w < 0 then 0 else w
  }

  /** n words from at on. */
  function GetAddrs(b: Block, at: nat, n: nat): (addrs: seq<nat>)
    requires |b| == BSIZE && 4 * (at + n) <= BSIZE
    ensures |addrs| == n && forall j :: 0 <= j < n ==> addrs[j] == Unsigned(Word(b, at + j))
  {
    if n == 0 then [] else GetAddrs(b, at, n - 1) + [Unsigned(Word(b, at + n - 1))]
  }

  function GetInode(b: Block, slot: nat): Inode
    requires |b| == BSIZE && slot < IPB
  {
    Inode(Unsigned(Word(b, DWORDS * slot + 2)), GetAddrs(b, DWORDS * slot + 3, NDIRECT + 1))
  }

  /** Storing an inode in its slot gives it back from there and leaves the other slots alone. */
  lemma PutGet(b: Block, slot: nat, ip: Inode, k: nat)
    requires |b| == BSIZE && slot < IPB && k < IPB && |ip.addrs| == NDIRECT + 1
    ensures GetInode(PutInode(b, slot, ip), k) == if k == slot then ip else GetInode(b, k)
  {
    hide Word, SetWord, PutAddrs, GetAddrs;
    var b1 := SetWord(b, DWORDS * slot + 2, ip.size);
    var r := PutInode(b, slot, ip);
    var at := DWORDS * k + 3;
    assert Word(r, DWORDS * k + 2) == Word(b1, DWORDS * k + 2);
    var addrs := GetAddrs(r, at, NDIRECT + 1);
    forall j | 0 <= j < NDIRECT + 1 ensures addrs[j] == if k == slot then ip.addrs[j] else Unsigned(Word(b, at + j)) {
      assert addrs[j] == Unsigned(Word(r, at + j));
    }
    if k == slot {
      assert addrs == ip.addrs;
    } else {
      assert addrs == GetAddrs(b, at, NDIRECT + 1);
    }
  }

  // The whole disk.

  ghost predicate Whole(disk: seq<Block>) {
    forall b :: 0 <= b < |disk| ==> |disk[b]| == BSIZE
  }

  function InodeOn(disk: seq<Block>, sb: Super, i: nat): Inode
    requires IBlock(i, sb) < |disk| && |disk[IBlock(i, sb)]| == BSIZE
  {
    GetInode(disk[IBlock(i, sb)], i % IPB)
  }

  /** winode */
  function WithInode(disk: seq<Block>, sb: Super, i: nat, ip: Inode): (r: seq<Block>)
    requires IBlock(i, sb) < |disk| && |disk[IBlock(i, sb)]| == BSIZE && |ip.addrs| == NDIRECT + 1
    ensures |r| == |disk|
  {
    disk[IBlock(i, sb) := PutInode(disk[IBlock(i, sb)], i % IPB, ip)]
  }

  lemma WithInodeOn(disk: seq<Block>, sb: Super, i: nat, ip: Inode, k: nat)
    requires Whole(disk) && IBlock(i, sb) < |disk| && IBlock(k, sb) < |disk| && |ip.addrs| == NDIRECT + 1
    ensures Whole(WithInode(disk, sb, i, ip))
    ensures InodeOn(WithInode(disk, sb, i, ip), sb, k) == if k == i then ip else InodeOn(disk, sb, k)
  {
    hide PutInode, GetInode;
    if IBlock(k, sb) == IBlock(i, sb) {
      assert k == i <==> k % IPB == i % IPB;
      PutGet(disk[IBlock(i, sb)], i % IPB, ip, k % IPB);
    }
  }

  /** The first n inodes written. */
  function WithInodes(disk: seq<Block>, sb: Super, inodes: seq<Inode>, n: nat): (r: seq<Block>)
    requires n <= |inodes| <= sb.ninodes && Laid(sb, sb.size) && |disk| == sb.size
    requires (forall b :: 0 <= b < |disk| ==> |disk[b]| == BSIZE) && forall k :: 0 <= k < |inodes| ==> |inodes[k].addrs| == NDIRECT + 1
    ensures |r| == |disk| && forall b :: 0 <= b < |r| ==> |r[b]| == BSIZE
  {
    if n == 0 then disk
    else
      IBlockIn(sb, n - 1);
      WithInode(WithInodes(disk, sb, inodes, n - 1), sb, n - 1, inodes[n - 1])
  }

  lemma IBlockIn(sb: Super, i: nat)
    requires i < sb.ninodes && Laid(sb, sb.size)
    ensures sb.inodestart <= IBlock(i, sb) < sb.bmapstart <= sb.size
  {
    assert i / IPB <= (sb.ninodes - 1) / IPB;
  }

  lemma {:induction false} WithInodesOn(disk: seq<Block>, sb: Super, inodes: seq<Inode>, n: nat, k: nat)
    requires n <= |inodes| <= sb.ninodes && Laid(sb, sb.size) && |disk| == sb.size && Whole(disk) && k < sb.ninodes
    requires forall j :: 0 <= j < |inodes| ==> |inodes[j].addrs| == NDIRECT + 1
    ensures IBlock(k, sb) < |disk| && InodeOn(WithInodes(disk, sb, inodes, n), sb, k) == if k < n then inodes[k] else InodeOn(disk, sb, k)
    decreases n
  {
    hide InodeOn, WithInode, IBlock, Laid;
    IBlockIn(sb, k);
    if n > 0 {
      IBlockIn(sb, n - 1);
      WithInodesOn(disk, sb, inodes, n - 1, k);
      WithInodeOn(WithInodes(disk, sb, inodes, n - 1), sb, n - 1, inodes[n - 1], k);
    }
  }

  lemma {:induction false} WithInodesElsewhere(disk: seq<Block>, sb: Super, inodes: seq<Inode>, n: nat, b: nat)
    requires n <= |inodes| <= sb.ninodes && Laid(sb, sb.size) && |disk| == sb.size && Whole(disk) && b < |disk|
    requires forall j :: 0 <= j < |inodes| ==> |inodes[j].addrs| == NDIRECT + 1
    requires b < sb.inodestart || sb.bmapstart <= b
    ensures WithInodes(disk, sb, inodes, n)[b] == disk[b]
    decreases n
  {
    if n > 0 {
      IBlockIn(sb, n - 1);
      WithInodesElsewhere(disk, sb, inodes, n - 1, b);
    }
  }

  // The bitmap's block, and the superblock's.

  function BitmapBlock(bitmap: seq<bv8>): (b: Block)
    ensures |b| == |bitmap|
  {
    seq(|bitmap|, i requires 0 <= i < |bitmap| => bitmap[i] as int)
  }

  function BitmapOn(b: Block): seq<bv8> {
    seq(|b|, i requires 0 <= i < |b| => if 0 <= b[i] < 256 then b[i] as bv8 else 0)
  }

  lemma BitmapBack(bitmap: seq<bv8>)
    ensures BitmapOn(BitmapBlock(bitmap)) == bitmap
  {
    forall i | 0 <= i < |bitmap| ensures BitmapOn(BitmapBlock(bitmap))[i] == bitmap[i] {
      ByteBack(bitmap[i]);
    }
  }

  lemma ByteBack(x: bv8)
    ensures 0 <= x as int < 256 && (x as int) as bv8 == x
  {
  }

  function SuperWords(sb: Super): (ws: seq<nat>)
    ensures |ws| == 7
  {
    [sb.size, sb.nblocks, sb.ninodes, sb.nlog, sb.logstart, sb.inodestart, sb.bmapstart]
  }

  function SuperBlock(sb: Super): (b: Block)
    ensures |b| == BSIZE
  {
    PutAddrs(Zeroed(), 0, SuperWords(sb), 7)
  }

  /** readsb */
  function ReadSuper(b: Block): Super
    requires |b| == BSIZE
  {
    Super(Unsigned(Word(b, 0)), Unsigned(Word(b, 1)), Unsigned(Word(b, 2)), Unsigned(Word(b, 3)), Unsigned(Word(b, 4)), Unsigned(Word(b, 5)), Unsigned(Word(b, 6)))
  }

  lemma SuperBack(sb: Super)
    ensures ReadSuper(SuperBlock(sb)) == sb
  {
    hide Word;
    var ws := SuperWords(sb);
    assert forall j :: 0 <= j < 7 ==> Word(SuperBlock(sb), j) == ws[j];
  }

  // An image as its sectors.

  function Sectors(disk: seq<Block>, sb: Super, inodes: seq<Inode>, bitmap: seq<bv8>): (r: seq<Block>)
    requires |inodes| == sb.ninodes && Laid(sb, sb.size) && |disk| == sb.size && sb.bmapstart < sb.size && |bitmap| == BSIZE
    requires (forall b :: 0 <= b < |disk| ==> |disk[b]| == BSIZE) && forall k :: 0 <= k < |inodes| ==> |inodes[k].addrs| == NDIRECT + 1
    ensures |r| == |disk| && forall b :: 0 <= b < |r| ==> |r[b]| == BSIZE
  {
    WithInodes(disk, sb, inodes, |inodes|)[sb.bmapstart := BitmapBlock(bitmap)][1 := SuperBlock(sb)]
  }

  /** Everything the kernel looks up on those sectors is what mkfs had in mind, and the data blocks are
      untouched. */
  lemma SectorsBack(disk: seq<Block>, sb: Super, inodes: seq<Inode>, bitmap: seq<bv8>, data: nat)
    requires |inodes| == sb.ninodes && Laid(sb, data) && Laid(sb, sb.size) && |disk| == sb.size && sb.bmapstart < data && |bitmap| == BSIZE && Whole(disk)
    requires forall k :: 0 <= k < |inodes| ==> |inodes[k].addrs| == NDIRECT + 1
    ensures var r := Sectors(disk, sb, inodes, bitmap);
            && ReadSuper(r[1]) == sb && BitmapOn(r[BBlock(0, sb)]) == bitmap
            && (forall k: nat :: k < sb.ninodes ==> IBlock(k, sb) < |r| && InodeOn(r, sb, k) == inodes[k])
            && (forall b :: data <= b < |disk| ==> r[b] == disk[b])
  {
    hide SuperBlock, ReadSuper, BitmapOn, BitmapBlock, WithInodes, GetInode, IBlock;
    var r := Sectors(disk, sb, inodes, bitmap);
    SuperBack(sb);
    BitmapBack(bitmap);
    forall k: nat | k < sb.ninodes ensures IBlock(k, sb) < |r| && InodeOn(r, sb, k) == inodes[k] {
      IBlockIn(sb, k);
      WithInodesOn(disk, sb, inodes, |inodes|, k);
    }
    forall b | data <= b < |disk| ensures r[b] == disk[b] {
      WithInodesElsewhere(disk, sb, inodes, |inodes|, b);
    }
    assert BBlock(0, sb) == sb.bmapstart;
  }
}
