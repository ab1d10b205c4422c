/** The layout shared by HW3/fs.c and HW3/mkfs.c: inodes with direct and indirect
    block addresses, who owns which block, and the bytes of a file. */
module Inodes {
  import opened Blocks

  const NDIRECT: nat := 12
  const NINDIRECT: nat := 128
  const MAXFILE: nat := 140       // NDIRECT + NINDIRECT
  const MAXBYTES: nat := 71680    // MAXFILE * BSIZE

  /** The parts of struct inode that name blocks; addrs has NDIRECT + 1 entries. */
  datatype Inode = Inode(size: nat, addrs: seq<nat>)

  const EMPTY := Inode(0, seq(NDIRECT + 1, _ => 0))

  /** A place that can refer to a block: direct addresses are slots 0 .. 11, the indirect
      block's address is slot 12, its entries are slots 13 .. 140. */
  const INDIRECT: nat := 12

  function Ref(disk: seq<Block>, ip: Inode, s: int): int {
    if |ip.addrs| != NDIRECT + 1 then 0
    else if 0 <= s <= INDIRECT then ip.addrs[s]
    else if INDIRECT < s <= INDIRECT + NINDIRECT && 0 < ip.addrs[INDIRECT] < |disk| && |disk[ip.addrs[INDIRECT]]| == BSIZE then
      Word(disk[ip.addrs[INDIRECT]], s - INDIRECT - 1)
    else 0
  }

  /** The slot for the bn-th block of a file. */
  function SlotOf(bn: nat): nat {
    if bn < NDIRECT then bn else bn + 1
  }

  /** The byte at offset o of a file; blocks that were never allocated read as zeros. */
  function ByteAt(disk: seq<Block>, ip: Inode, o: nat): int {
    var a := Ref(disk, ip, SlotOf(o / BSIZE));
    if 0 < a < |disk| && |disk[a]| == BSIZE then disk[a][o % BSIZE] else 0
  }

  type Owners = map<int, (nat, int)>

  /** Every block that a slot refers to is a data block of the disk, and no block is
      referred to from two slots. */
  ghost predicate Owned(disk: seq<Block>, inodes: seq<Inode>, owner: Owners, lo: nat, hi: nat) {
    && 0 < lo && hi <= |disk|
    && Shaped(disk, inodes)
    && (forall i, s :: 0 <= i < |inodes| && Ref(disk, inodes[i], s) != 0 ==>
          Ref(disk, inodes[i], s) in owner && owner[Ref(disk, inodes[i], s)] == (i, s))
    && (forall b :: b in owner ==>
          lo <= b < hi && owner[b].0 < |inodes| && Ref(disk, inodes[owner[b].0], owner[b].1) == b)
  }

  ghost predicate SameBytes(disk: seq<Block>, inodes: seq<Inode>, disk': seq<Block>, inodes': seq<Inode>) {
    && |inodes'| == |inodes|
    && (forall i :: 0 <= i < |inodes| ==> inodes'[i].size == inodes[i].size)
    && (forall i, o: nat :: 0 <= i < |inodes| ==> ByteAt(disk', inodes'[i], o) == ByteAt(disk, inodes[i], o))
  }

  ghost predicate SameRefs(disk: seq<Block>, inodes: seq<Inode>, disk': seq<Block>, inodes': seq<Inode>) {
    && Shaped(disk', inodes') && |disk'| == |disk| && |inodes'| == |inodes|
    && (forall i, s :: 0 <= i < |inodes| ==> Ref(disk', inodes'[i], s) == Ref(disk, inodes[i], s))
  }

  lemma SameRefsOwned(disk: seq<Block>, inodes: seq<Inode>, disk': seq<Block>, inodes': seq<Inode>, owner: Owners, lo: nat, hi: nat)
    requires Owned(disk, inodes, owner, lo, hi) && SameRefs(disk, inodes, disk', inodes')
    ensures Owned(disk', inodes', owner, lo, hi)
  {
    hide Ref;
    forall i, s | 0 <= i < |inodes'| && Ref(disk', inodes'[i], s) != 0
      ensures Ref(disk', inodes'[i], s) in owner && owner[Ref(disk', inodes'[i], s)] == (i, s)
    {
      assert Ref(disk', inodes'[i], s) == Ref(disk, inodes[i], s);
    }
  }

  /** Rewriting a block that is no inode's indirect block leaves all references alone. */
  lemma RefsKept(disk: seq<Block>, inodes: seq<Inode>, owner: Owners, lo: nat, hi: nat, z: nat, data: Block)
    requires Owned(disk, inodes, owner, lo, hi) && z < |disk| && |data| == BSIZE
    requires z in owner ==> owner[z].1 != INDIRECT
    ensures SameRefs(disk, inodes, disk[z := data], inodes)
  {
    var disk' := disk[z := data];
    forall b | 0 <= b < |disk'| ensures |disk'[b]| == BSIZE {
      assert b != z ==> disk'[b] == disk[b];
    }
    forall i, s | 0 <= i < |inodes| ensures Ref(disk', inodes[i], s) == Ref(disk, inodes[i], s) {
      assert Ref(disk, inodes[i], INDIRECT) == inodes[i].addrs[INDIRECT];
    }
  }

  ghost predicate Shaped(disk: seq<Block>, inodes: seq<Inode>) {
    && (forall b :: 0 <= b < |disk| ==> |disk[b]| == BSIZE)
    && (forall i :: 0 <= i < |inodes| ==> |inodes[i].addrs| == NDIRECT + 1)
  }

  /** Slot s of inode i now refers to z, and nothing else changed its reference. */
  ghost predicate Assigned(disk: seq<Block>, inodes: seq<Inode>, disk': seq<Block>, inodes': seq<Inode>, i: nat, s: int, z: int) {
    && Shaped(disk', inodes') && |disk'| == |disk| && |inodes'| == |inodes|
    && (forall i', s' :: 0 <= i' < |inodes| ==>
          Ref(disk', inodes'[i'], s') == if i' == i && s' == s then z else Ref(disk, inodes[i'], s'))
  }

  /** Only slots s and t of inode i may have changed their reference. */
  ghost predicate RefsBut(disk: seq<Block>, inodes: seq<Inode>, disk': seq<Block>, inodes': seq<Inode>, i: nat, s: int, t: int) {
    && |inodes'| == |inodes|
    && (forall k, u :: 0 <= k < |inodes| && !(k == i && (u == s || u == t)) ==> Ref(disk', inodes'[k], u) == Ref(disk, inodes[k], u))
  }

  /** Every block of the file's first n bytes is allocated. */
  ghost predicate Backed(disk: seq<Block>, ip: Inode, n: nat) {
    forall bn: nat :: bn * BSIZE < n ==> Ref(disk, ip, SlotOf(bn)) != 0
  }

  /** Blocks a file of n bytes takes: its data blocks, and the indirect block once it has outgrown
      the direct ones. */
  function Need(n: nat): nat {
    (n + BSIZE - 1) / BSIZE + if n > NDIRECT * BSIZE then 1 else 0
  }

  /** Exactly the blocks that n bytes need are allocated. */
  ghost predicate Tight(disk: seq<Block>, ip: Inode, n: nat) {
    && (forall bn :: 0 <= bn < MAXFILE ==> (Ref(disk, ip, SlotOf(bn)) != 0 <==> bn * BSIZE < n))
    && (Ref(disk, ip, INDIRECT) != 0 <==> n > NDIRECT * BSIZE)
  }

  lemma TightBacked(disk: seq<Block>, ip: Inode, n: nat)
    requires Tight(disk, ip, n) && n <= MAXBYTES
    ensures Backed(disk, ip, n)
  {
    hide Ref;
    forall bn: nat | bn * BSIZE < n ensures Ref(disk, ip, SlotOf(bn)) != 0 {
      assert bn < MAXFILE;
    }
  }

  lemma AssignKeepsOwned(disk: seq<Block>, inodes: seq<Inode>, disk': seq<Block>, inodes': seq<Inode>, owner: Owners, lo: nat, hi: nat, i: nat, s: int, z: nat)
    requires Owned(disk, inodes, owner, lo, hi) && Assigned(disk, inodes, disk', inodes', i, s, z)
    requires i < |inodes| && Ref(disk, inodes[i], s) == 0
    requires lo <= z < hi && z !in owner
    ensures Owned(disk', inodes', owner[z := (i, s)], lo, hi)
  {
  }

  lemma AssignKeepsBytes(disk: seq<Block>, inodes: seq<Inode>, disk': seq<Block>, inodes': seq<Inode>, owner: Owners, lo: nat, hi: nat, i: nat, s: int, z: nat)
    requires Owned(disk, inodes, owner, lo, hi) && Assigned(disk, inodes, disk', inodes', i, s, z)
    requires i < |inodes| && Ref(disk, inodes[i], s) == 0
    requires lo <= z < hi && z !in owner && disk'[z] == Zeroed()
    requires forall b :: b in owner && owner[b].1 != INDIRECT ==> disk'[b] == disk[b]
    requires forall k :: 0 <= k < |inodes| ==> inodes'[k].size == inodes[k].size
    ensures SameBytes(disk, inodes, disk', inodes')
  {
    forall k, o: nat | 0 <= k < |inodes| ensures ByteAt(disk', inodes'[k], o) == ByteAt(disk, inodes[k], o) {
      var t := SlotOf(o / BSIZE);
      assert Ref(disk', inodes'[k], t) == if k == i && t == s then z else Ref(disk, inodes[k], t);
    }
  }

  /** A fresh block z, zeroed, becomes the target of an empty direct or indirect-pointer slot. */
  lemma AssignAddr(disk: seq<Block>, inodes: seq<Inode>, owner: Owners, lo: nat, hi: nat, i: nat, s: nat, z: nat)
    requires Owned(disk, inodes, owner, lo, hi) && i < |inodes| && s <= INDIRECT && inodes[i].addrs[s] == 0
    requires lo <= z < hi && z !in owner
    ensures var disk' := disk[z := Zeroed()];
            var inodes' := inodes[i := inodes[i].(addrs := inodes[i].addrs[s := z])];
            && Owned(disk', inodes', owner[z := (i, s)], lo, hi)
            && SameBytes(disk, inodes, disk', inodes')
            && Assigned(disk, inodes, disk', inodes', i, s, z)
  {
    var disk' := disk[z := Zeroed()];
    var inodes' := inodes[i := inodes[i].(addrs := inodes[i].addrs[s := z])];
    RefsKept(disk, inodes, owner, lo, hi, z, Zeroed());
    assert Assigned(disk, inodes, disk', inodes', i, s, z) by {
      forall i', s' | 0 <= i' < |inodes|
        ensures Ref(disk', inodes'[i'], s') == if i' == i && s' == s then z else Ref(disk, inodes[i'], s')
      {
        assert Ref(disk', inodes[i'], s') == Ref(disk, inodes[i'], s');
      }
    }
    AssignKeepsOwned(disk, inodes, disk', inodes', owner, lo, hi, i, s, z);
    AssignKeepsBytes(disk, inodes, disk', inodes', owner, lo, hi, i, s, z);
  }

  /** A fresh block z, zeroed, becomes the target of an empty entry of an indirect block. */
  lemma AssignEntry(disk: seq<Block>, inodes: seq<Inode>, owner: Owners, lo: nat, hi: nat, i: nat, j: nat, z: nat)
    requires Owned(disk, inodes, owner, lo, hi) && i < |inodes| && j < NINDIRECT
    requires inodes[i].addrs[INDIRECT] != 0 && Ref(disk, inodes[i], INDIRECT + 1 + j) == 0
    requires lo <= z < hi && z !in owner
    ensures inodes[i].addrs[INDIRECT] < |disk|
    ensures var a := inodes[i].addrs[INDIRECT];
            var disk' := disk[z := Zeroed()][a := SetWord(disk[a], j, z)];
            && Owned(disk', inodes, owner[z := (i, INDIRECT + 1 + j)], lo, hi)
            && SameBytes(disk, inodes, disk', inodes)
            && Assigned(disk, inodes, disk', inodes, i, INDIRECT + 1 + j, z)
  {
    var a := inodes[i].addrs[INDIRECT];
    assert Ref(disk, inodes[i], INDIRECT) == a;
    var disk1 := disk[z := Zeroed()];
    var disk' := disk1[a := SetWord(disk[a], j, z)];
    RefsKept(disk, inodes, owner, lo, hi, z, Zeroed());
    assert Assigned(disk, inodes, disk', inodes, i, INDIRECT + 1 + j, z) by {
      forall i', s' | 0 <= i' < |inodes|
        ensures Ref(disk', inodes[i'], s') == if i' == i && s' == INDIRECT + 1 + j then z else Ref(disk, inodes[i'], s')
      {
        assert Ref(disk1, inodes[i'], s') == Ref(disk, inodes[i'], s');
        assert Ref(disk, inodes[i'], INDIRECT) == inodes[i'].addrs[INDIRECT];
      }
    }
    AssignKeepsOwned(disk, inodes, disk', inodes, owner, lo, hi, i, INDIRECT + 1 + j, z);
    AssignKeepsBytes(disk, inodes, disk', inodes, owner, lo, hi, i, INDIRECT + 1 + j, z);
  }

  /** Bytes copied into block a at offset k. */
  function Splice(b: Block, k: nat, data: seq<int>): (r: Block)
    requires k + |data| <= |b|
    ensures |r| == |b|
  {
    b[..k] + data + b[k + |data|..]
  }

  /** Writing part of a block of file i changes those bytes of that file and no others. */
  lemma StoreBytes(disk: seq<Block>, inodes: seq<Inode>, owner: Owners, lo: nat, hi: nat, i: nat, off: nat, data: seq<int>)
    requires Owned(disk, inodes, owner, lo, hi) && i < |inodes| && off % BSIZE + |data| <= BSIZE
    requires Ref(disk, inodes[i], SlotOf(off / BSIZE)) != 0
    ensures 0 < Ref(disk, inodes[i], SlotOf(off / BSIZE)) < |disk|
    ensures var a := Ref(disk, inodes[i], SlotOf(off / BSIZE));
            var disk' := disk[a := Splice(disk[a], off % BSIZE, data)];
            && Owned(disk', inodes, owner, lo, hi) && SameRefs(disk, inodes, disk', inodes)
            && (forall k, o: nat :: 0 <= k < |inodes| ==>
                  ByteAt(disk', inodes[k], o) == if k == i && off <= o < off + |data| then data[o - off] else ByteAt(disk, inodes[k], o))
  {
    var t := SlotOf(off / BSIZE);
    var a := Ref(disk, inodes[i], t);
    var disk' := disk[a := Splice(disk[a], off % BSIZE, data)];
    RefsKept(disk, inodes, owner, lo, hi, a, Splice(disk[a], off % BSIZE, data));
    SameRefsOwned(disk, inodes, disk', inodes, owner, lo, hi);
    forall k, o: nat | 0 <= k < |inodes|
      ensures ByteAt(disk', inodes[k], o) == if k == i && off <= o < off + |data| then data[o - off] else ByteAt(disk, inodes[k], o)
    {
      var b := Ref(disk, inodes[k], SlotOf(o / BSIZE));
      assert Ref(disk', inodes[k], SlotOf(o / BSIZE)) == b;
      if b == a {
        assert k == i && SlotOf(o / BSIZE) == t;
        SameBlock(o, off, |data|);
      } else {
        OtherBlock(o, off, |data|);
      }
    }
  }

  lemma SameBlock(o: nat, off: nat, n: nat)
    requires o / BSIZE == off / BSIZE && off % BSIZE + n <= BSIZE
    ensures off <= o < off + n <==> off % BSIZE <= o % BSIZE < off % BSIZE + n
    ensures o - off == o % BSIZE - off % BSIZE
  {
  }

  lemma OtherBlock(o: nat, off: nat, n: nat)
    requires off % BSIZE + n <= BSIZE
    ensures off <= o < off + n ==> o / BSIZE == off / BSIZE
  {
  }

  /** The contents of a file as a byte sequence. */
  function Content(disk: seq<Block>, ip: Inode): (c: seq<int>)
    ensures |c| == ip.size
  {
    seq(ip.size, (o: nat) => ByteAt(disk, ip, o))
  }

  /** All files keep their bytes and sizes, except that file i has `data` at offset off. */
  ghost predicate Written(disk: seq<Block>, inodes: seq<Inode>, disk': seq<Block>, inodes': seq<Inode>, i: nat, off: nat, data: seq<int>) {
    && |inodes'| == |inodes|
    && (forall k :: 0 <= k < |inodes| ==> inodes'[k].size == inodes[k].size)
    && (forall k, o: nat :: 0 <= k < |inodes| ==>
          ByteAt(disk', inodes'[k], o) == if k == i && off <= o < off + |data| then data[o - off] else ByteAt(disk, inodes[k], o))
  }

  /** A write of one piece after another is a write of their concatenation. */
  lemma WrittenMore(disk0: seq<Block>, inodes0: seq<Inode>, disk1: seq<Block>, inodes1: seq<Inode>, disk2: seq<Block>, inodes2: seq<Inode>,
                    disk3: seq<Block>, i: nat, off: nat, data: seq<int>, more: seq<int>)
    requires Written(disk0, inodes0, disk1, inodes1, i, off, data)
    requires SameBytes(disk1, inodes1, disk2, inodes2)
    requires forall k, o: nat :: 0 <= k < |inodes2| ==>
               ByteAt(disk3, inodes2[k], o) == if k == i && off + |data| <= o < off + |data| + |more| then more[o - off - |data|] else ByteAt(disk2, inodes2[k], o)
    ensures Written(disk0, inodes0, disk3, inodes2, i, off, data + more)
  {
    hide ByteAt;
    forall k, o: nat | 0 <= k < |inodes0|
      ensures ByteAt(disk3, inodes2[k], o) == if k == i && off <= o < off + |data + more| then (data + more)[o - off] else ByteAt(disk0, inodes0[k], o)
    {
      assert ByteAt(disk2, inodes2[k], o) == ByteAt(disk1, inodes1[k], o);
    }
  }

  /** Only the size of inode i changes: references, bytes and ownership do not. */
  lemma Resize(disk: seq<Block>, inodes: seq<Inode>, owner: Owners, lo: nat, hi: nat, i: nat, size: nat)
    requires Owned(disk, inodes, owner, lo, hi) && i < |inodes|
    ensures var inodes' := inodes[i := inodes[i].(size := size)];
            && Owned(disk, inodes', owner, lo, hi)
            && forall k, o: nat :: 0 <= k < |inodes| ==> ByteAt(disk, inodes'[k], o) == ByteAt(disk, inodes[k], o)
  {
    var inodes' := inodes[i := inodes[i].(size := size)];
    assert SameRefs(disk, inodes, disk, inodes');
    SameRefsOwned(disk, inodes, disk, inodes', owner, lo, hi);
  }

  /** What a write means for the byte sequences: file i has the data spliced in, growing as
      needed, and every other file is untouched. */
  lemma WrittenContents(disk: seq<Block>, inodes: seq<Inode>, disk': seq<Block>, inodes': seq<Inode>, i: nat, off: nat, data: seq<int>)
    requires i < |inodes| == |inodes'| && off <= inodes[i].size
    requires forall k :: 0 <= k < |inodes| ==>
               inodes'[k].size == if k == i && off + |data| > inodes[k].size then off + |data| else inodes[k].size
    requires forall k, o: nat :: 0 <= k < |inodes| ==>
               ByteAt(disk', inodes'[k], o) == if k == i && off <= o < off + |data| then data[o - off] else ByteAt(disk, inodes[k], o)
    ensures var c := Content(disk, inodes[i]);
            Content(disk', inodes'[i]) == c[..off] + data + if off + |data| < |c| then c[off + |data|..] else []
    ensures forall k :: 0 <= k < |inodes| && k != i ==> Content(disk', inodes'[k]) == Content(disk, inodes[k])
  {
    hide ByteAt;
  }

  // Truncation.

  /** The owners left once slots from .. to-1 of inode i are given up. */
  ghost function Minus(owner: Owners, i: nat, first: int, last: int): Owners {
    map b | b in owner && !(owner[b].0 == i && first <= owner[b].1 < last) :: owner[b]
  }

  /** Inode ip refers to block b from some slot. */
  ghost predicate RefersTo(disk: seq<Block>, ip: Inode, b: int) {
    exists s :: Ref(disk, ip, s) == b
  }

  lemma WhoRefers(disk: seq<Block>, inodes: seq<Inode>, owner: Owners, lo: nat, hi: nat, i: nat, b: int)
    requires Owned(disk, inodes, owner, lo, hi) && i < |inodes| && b != 0
    ensures RefersTo(disk, inodes[i], b) <==> b in owner && owner[b].0 == i
  {
    hide Ref;
    if b in owner && owner[b].0 == i {
      assert Ref(disk, inodes[i], owner[b].1) == b;
    }
  }

  /** Giving up one slot takes away at most one block. */
  lemma MinusOne(disk: seq<Block>, inodes: seq<Inode>, owner: Owners, lo: nat, hi: nat, i: nat, first: int, s: int)
    requires Owned(disk, inodes, owner, lo, hi) && i < |inodes| && first <= s
    ensures var b := Ref(disk, inodes[i], s);
            && (b == 0 ==> Minus(owner, i, first, s + 1) == Minus(owner, i, first, s))
            && (b != 0 ==> lo <= b < hi && b in Minus(owner, i, first, s) &&
                           Minus(owner, i, first, s + 1) == Minus(owner, i, first, s) - {b})
  {
    hide Ref;
    var b := Ref(disk, inodes[i], s);
    assert b != 0 ==> b in owner && owner[b] == (i, s);
    forall x | x in owner && owner[x] == (i, s) ensures x == b {
      assert Ref(disk, inodes[owner[x].0], owner[x].1) == x;
    }
  }

  lemma DropAddr(disk: seq<Block>, inodes: seq<Inode>, owner: Owners, lo: nat, hi: nat, i: nat, s: nat)
    requires Owned(disk, inodes, owner, lo, hi) && i < |inodes| && s < INDIRECT
    ensures var inodes' := inodes[i := inodes[i].(addrs := inodes[i].addrs[s := 0])];
            Owned(disk, inodes', Minus(owner, i, s, s + 1), lo, hi)
  {
    var inodes' := inodes[i := inodes[i].(addrs := inodes[i].addrs[s := 0])];
    assert Assigned(disk, inodes, disk, inodes', i, s, 0);
    DropKeepsOwned(disk, inodes, inodes', owner, lo, hi, i, s, s + 1);
  }

  lemma DropIndirect(disk: seq<Block>, inodes: seq<Inode>, owner: Owners, lo: nat, hi: nat, i: nat)
    requires Owned(disk, inodes, owner, lo, hi) && i < |inodes|
    ensures var inodes' := inodes[i := inodes[i].(addrs := inodes[i].addrs[INDIRECT := 0])];
            Owned(disk, inodes', Minus(owner, i, INDIRECT, MAXFILE + 1), lo, hi)
  {
    var inodes' := inodes[i := inodes[i].(addrs := inodes[i].addrs[INDIRECT := 0])];
    DropKeepsOwned(disk, inodes, inodes', owner, lo, hi, i, INDIRECT, MAXFILE + 1);
  }

  lemma DropKeepsOwned(disk: seq<Block>, inodes: seq<Inode>, inodes': seq<Inode>, owner: Owners, lo: nat, hi: nat, i: nat, first: int, last: int)
    requires Owned(disk, inodes, owner, lo, hi) && i < |inodes| == |inodes'| && Shaped(disk, inodes')
    requires forall k, s :: 0 <= k < |inodes| ==>
               Ref(disk, inodes'[k], s) == if k == i && first <= s < last then 0 else Ref(disk, inodes[k], s)
    ensures Owned(disk, inodes', Minus(owner, i, first, last), lo, hi)
  {
    hide Ref;
    var owner' := Minus(owner, i, first, last);
    forall k, s | 0 <= k < |inodes'| && Ref(disk, inodes'[k], s) != 0
      ensures Ref(disk, inodes'[k], s) in owner' && owner'[Ref(disk, inodes'[k], s)] == (k, s)
    {
      assert Ref(disk, inodes'[k], s) == Ref(disk, inodes[k], s);
    }
  }

  lemma MinusNone(owner: Owners, i: nat, s: int)
    ensures Minus(owner, i, s, s) == owner
  {
  }

  lemma MinusMore(owner: Owners, i: nat, first: int, s: int)
    requires first <= s
    ensures Minus(Minus(owner, i, first, s), i, s, s + 1) == Minus(owner, i, first, s + 1)
  {
  }

  lemma MinusTwice(owner: Owners, i: nat)
    ensures Minus(Minus(owner, i, 0, INDIRECT), i, INDIRECT, MAXFILE + 1) == Minus(owner, i, 0, MAXFILE + 1)
  {
  }

  /** The indirect block itself goes last. */
  lemma LastBlock(owner: Owners, i: nat, a: int)
    requires a in owner && Minus(owner, i, INDIRECT, INDIRECT + 1) == owner - {a}
    ensures Minus(owner, i, INDIRECT, MAXFILE + 1) == Minus(owner, i, INDIRECT + 1, MAXFILE + 1) - {a}
    ensures a in Minus(owner, i, INDIRECT + 1, MAXFILE + 1)
  {
    assert a !in Minus(owner, i, INDIRECT, INDIRECT + 1);
    forall b | b in owner && owner[b].0 == i && owner[b].1 == INDIRECT ensures b == a {
      assert b !in Minus(owner, i, INDIRECT, INDIRECT + 1);
    }
  }

  /** An inode's references all come from its 141 slots. */
  lemma AllSlots(disk: seq<Block>, inodes: seq<Inode>, owner: Owners, lo: nat, hi: nat, i: nat)
    requires Owned(disk, inodes, owner, lo, hi) && i < |inodes|
    ensures forall b :: b in owner && owner[b].0 == i ==> 0 <= owner[b].1 <= MAXFILE
  {
    forall b | b in owner && owner[b].0 == i ensures 0 <= owner[b].1 <= MAXFILE {
      assert Ref(disk, inodes[i], owner[b].1) == b;
    }
  }

  /** Without an indirect block there are no indirect entries. */
  lemma NoEntries(disk: seq<Block>, inodes: seq<Inode>, owner: Owners, lo: nat, hi: nat, i: nat)
    requires Owned(disk, inodes, owner, lo, hi) && i < |inodes| && inodes[i].addrs[INDIRECT] == 0
    ensures Minus(owner, i, INDIRECT, MAXFILE + 1) == owner
  {
    forall b | b in owner && owner[b].0 == i ensures owner[b].1 < INDIRECT {
      assert Ref(disk, inodes[i], owner[b].1) == b;
    }
  }

  // The in-memory inode and its copy on disk.

  /** The address of the inode through which the bn-th block is found. */
  function AddrOf(bn: nat): nat {
    if bn < NDIRECT then bn else INDIRECT
  }

  /** One past the last block of n bytes at off. */
  function BlocksEnd(off: nat, n: nat): nat {
    if n == 0 then off / BSIZE else (off + n - 1) / BSIZE + 1
  }

  /** Address s is used to find the blocks from lo up to hi. */
  predicate Uses(s: nat, lo: nat, hi: nat) {
    if s < NDIRECT then lo <= s < hi else s == INDIRECT && lo < hi && NDIRECT < hi
  }

  /** Looking up the blocks from lo up to hi of inode i filled in the addresses they use, where
      those were missing, and changed nothing else. */
  ghost predicate Loaded(inodes: seq<Inode>, inodes': seq<Inode>, i: nat, lo: nat, hi: nat) {
    && |inodes'| == |inodes| && i < |inodes| && (forall k :: 0 <= k < |inodes| && k != i ==> inodes'[k] == inodes[k])
    && inodes'[i].size == inodes[i].size && |inodes[i].addrs| == |inodes'[i].addrs| == NDIRECT + 1
    && (forall s :: 0 <= s <= INDIRECT ==>
          if inodes[i].addrs[s] == 0 && Uses(s, lo, hi) then inodes'[i].addrs[s] != 0 else inodes'[i].addrs[s] == inodes[i].addrs[s])
  }

  /** Every address that n bytes at off need is there. */
  predicate InPlace(ip: Inode, off: nat, n: nat)
    requires |ip.addrs| == NDIRECT + 1
  {
    forall s :: 0 <= s <= INDIRECT && Uses(s, off / BSIZE, BlocksEnd(off, n)) ==> ip.addrs[s] != 0
  }

  lemma LoadedNone(inodes: seq<Inode>, i: nat, lo: nat)
    requires i < |inodes| && |inodes[i].addrs| == NDIRECT + 1
    ensures Loaded(inodes, inodes, i, lo, lo)
  {
  }

  lemma LoadedNext(inodes: seq<Inode>, inodes1: seq<Inode>, inodes2: seq<Inode>, i: nat, lo: nat, hi: nat, bn: nat)
    requires Loaded(inodes, inodes1, i, lo, hi) && Loaded(inodes1, inodes2, i, bn, bn + 1) && lo <= bn <= hi <= bn + 1
    ensures Loaded(inodes, inodes2, i, lo, bn + 1)
  {
    assert forall s: nat :: Uses(s, lo, bn + 1) <==> Uses(s, lo, hi) || Uses(s, bn, bn + 1);
    hide Uses;
  }

  /** Nothing changed exactly if nothing was missing. */
  lemma LoadedIff(inodes: seq<Inode>, inodes': seq<Inode>, i: nat, off: nat, n: nat)
    requires Loaded(inodes, inodes', i, off / BSIZE, BlocksEnd(off, n))
    ensures inodes'[i] == inodes[i] <==> InPlace(inodes[i], off, n)
  {
    hide Uses, BlocksEnd;
    if InPlace(inodes[i], off, n) {
      assert inodes'[i].addrs == inodes[i].addrs;
    }
  }

  /** What the inode as it was before finds on the disk as it is now: the bytes reached through an
      address it has, and zeros elsewhere. */
  lemma StaleByte(disk: seq<Block>, inodes: seq<Inode>, inodes': seq<Inode>, i: nat, lo: nat, hi: nat, o: nat)
    requires Loaded(inodes, inodes', i, lo, hi) && o < MAXBYTES
    ensures ByteAt(disk, inodes[i], o) == if inodes[i].addrs[AddrOf(o / BSIZE)] != 0 then ByteAt(disk, inodes'[i], o) else 0
  {
    var bn := o / BSIZE;
    assert inodes[i].addrs[AddrOf(bn)] != 0 ==> inodes'[i].addrs[AddrOf(bn)] == inodes[i].addrs[AddrOf(bn)];
  }

  lemma BlocksNext(off: nat, tot: nat, m: nat)
    requires m > 0 && (off + tot) % BSIZE + m <= BSIZE
    ensures var bn := (off + tot) / BSIZE;
            off / BSIZE <= bn <= BlocksEnd(off, tot) <= bn + 1 == BlocksEnd(off, tot + m)
  {
  }

  // Which references looking up blocks fills in.

  /** Slot s is used to find the blocks from lo up to hi. */
  predicate Needed(s: int, lo: nat, hi: nat) {
    if s == INDIRECT then Uses(INDIRECT, lo, hi) else if s < INDIRECT then lo <= s < hi else lo <= s - 1 < hi
  }

  /** The missing references that the blocks from lo up to hi need are there now; all others, and
      those that were there, are as they were. */
  ghost predicate Filled(disk: seq<Block>, ip: Inode, disk': seq<Block>, ip': Inode, lo: nat, hi: nat) {
    forall s :: 0 <= s <= MAXFILE ==>
      && (Needed(s, lo, hi) ==> Ref(disk', ip', s) != 0)
      && (!Needed(s, lo, hi) || Ref(disk, ip, s) != 0 ==> Ref(disk', ip', s) == Ref(disk, ip, s))
  }

  /** Missing blocks from lo up to hi. */
  function Gaps(disk: seq<Block>, ip: Inode, lo: nat, hi: nat): nat
    decreases hi
  {
    if hi <= lo then 0 else Gaps(disk, ip, lo, hi - 1) + if Ref(disk, ip, SlotOf(hi - 1)) == 0 then 1 else 0
  }

  /** Blocks to be allocated for them, the indirect block included. */
  function Lacks(disk: seq<Block>, ip: Inode, lo: nat, hi: nat): nat {
    Gaps(disk, ip, lo, hi) + if Uses(INDIRECT, lo, hi) && Ref(disk, ip, INDIRECT) == 0 then 1 else 0
  }

  lemma FilledNone(disk: seq<Block>, ip: Inode, lo: nat)
    ensures Filled(disk, ip, disk, ip, lo, lo) && Lacks(disk, ip, lo, lo) == 0
  {
  }

  /** Stores into data blocks do not matter. */
  lemma FilledStore(disk: seq<Block>, ip: Inode, disk1: seq<Block>, ip': Inode, disk2: seq<Block>, lo: nat, hi: nat)
    requires Filled(disk, ip, disk1, ip', lo, hi) && forall s :: Ref(disk2, ip', s) == Ref(disk1, ip', s)
    ensures Filled(disk, ip, disk2, ip', lo, hi)
  {
    hide Ref, Needed;
  }

  lemma NeededNext(s: int, lo: nat, hi: nat, bn: nat)
    requires lo <= bn <= hi <= bn + 1
    ensures Needed(s, lo, bn + 1) <==> Needed(s, lo, hi) || Needed(s, bn, bn + 1)
  {
  }

  lemma FilledNext(disk: seq<Block>, ip: Inode, disk1: seq<Block>, ip1: Inode, disk2: seq<Block>, ip2: Inode, lo: nat, hi: nat, bn: nat)
    requires Filled(disk, ip, disk1, ip1, lo, hi) && Filled(disk1, ip1, disk2, ip2, bn, bn + 1)
    requires lo <= bn <= hi <= bn + 1
    ensures Filled(disk, ip, disk2, ip2, lo, bn + 1)
  {
    hide Ref, Needed;
    forall s | 0 <= s <= MAXFILE
      ensures Needed(s, lo, bn + 1) ==> Ref(disk2, ip2, s) != 0
      ensures !Needed(s, lo, bn + 1) || Ref(disk, ip, s) != 0 ==> Ref(disk2, ip2, s) == Ref(disk, ip, s)
    {
      NeededNext(s, lo, hi, bn);
    }
  }

  /** What the next block lacks is what it adds. */
  lemma LacksNext(disk: seq<Block>, ip: Inode, disk1: seq<Block>, ip1: Inode, lo: nat, hi: nat, bn: nat)
    requires Filled(disk, ip, disk1, ip1, lo, hi) && lo <= bn <= hi <= bn + 1 && bn < MAXFILE
    ensures Lacks(disk, ip, lo, bn + 1) == Lacks(disk, ip, lo, hi) + Lacks(disk1, ip1, bn, bn + 1)
  {
    hide Ref;
    var s := SlotOf(bn);
    assert Gaps(disk1, ip1, bn, bn) == 0;
    assert Gaps(disk1, ip1, bn, bn + 1) == if Ref(disk1, ip1, s) == 0 then 1 else 0;
    assert Needed(s, lo, hi) <==> bn < hi;
    assert Ref(disk1, ip1, s) == 0 <==> bn == hi && Ref(disk, ip, s) == 0;
    assert Ref(disk1, ip1, INDIRECT) == 0 <==> !Uses(INDIRECT, lo, hi) && Ref(disk, ip, INDIRECT) == 0;
  }

  lemma {:induction false} LacksMono(disk: seq<Block>, ip: Inode, lo: nat, hi: nat, more: nat)
    requires hi <= more
    ensures Lacks(disk, ip, lo, hi) <= Lacks(disk, ip, lo, more)
    decreases more
  {
    hide Ref;
    if hi < more {
      LacksMono(disk, ip, lo, hi, more - 1);
    }
  }
}
