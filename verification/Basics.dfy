/** Small definitions that several models share. */
module Basics {
  const NBUF: nat := 30  // size of the disk block cache
  const UINT: nat := 0x1_0000_0000  // one past the largest 32-bit unsigned value

  datatype Option<+T> = None | Some(value: T)

  function Min(a: nat, b: nat): nat {
    if a < b then a else b
  }

  ghost predicate Distinct(s: seq<nat>) {
    forall i, j :: 0 <= i < j < |s| ==> s[i] != s[j]
  }

  /** The sequence with its k-th element taken out. */
  function Without(s: seq<nat>, k: nat): seq<nat>
    requires k < |s|
  {
    s[..k] + s[k + 1..]
  }

  ghost function SetOf(s: seq<nat>): set<nat> {
    set i | 0 <= i < |s| :: s[i]
  }
}
