/** Disk blocks of BSIZE bytes, and the little-endian 32-bit words that the
    kernel overlays on them (log header, indirect blocks). */
module Blocks {
  const BSIZE: nat := 512
  const BPB: nat := 4096  // bitmap bits per block

  /** A block's bytes. */
  type Block = seq<int>

  function Zeroed(): (b: Block)
    ensures |b| == BSIZE
    ensures forall k :: 0 <= k < BSIZE ==> b[k] == 0
  {
    seq(BSIZE, _ => 0)
  }

  /** The word at index j of a block read as an array of 32-bit words. */
  function Word(b: Block, j: nat): int
    requires 4 * j + 4 <= |b|
  {
    b[4 * j] + 0x100 * b[4 * j + 1] + 0x1_0000 * b[4 * j + 2] + 0x100_0000 * b[4 * j + 3]
  }

  function Bytes(w: nat): (r: seq<int>)
    ensures |r| == 4 && r[0] + 0x100 * r[1] + 0x1_0000 * r[2] + 0x100_0000 * r[3] == w
  {
    var a := w / 0x100;
    var b := a / 0x100;
    [w % 0x100, a % 0x100, b % 0x100, b / 0x100]
  }

  /** Storing a word changes that word and no other. */
  function SetWord(b: Block, j: nat, w: nat): (r: Block)
    requires 4 * j + 4 <= |b|
    ensures |r| == |b| && Word(r, j) == w
    ensures forall k :: 0 <= k && 4 * k + 4 <= |b| && k != j ==> Word(r, k) == Word(b, k)
  {
    b[..4 * j] + Bytes(w) + b[4 * j + 4..]
  }
}
