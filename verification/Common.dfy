/** Small things that several modules share. */
module Common {

  /** 2^32: machine words wrap around here. */
  const WORD: nat := 0x1_0000_0000

  /** Where the kernel's own memory starts in every address space. */
  const KERNEL_BASE: nat := 0xC000_0000

  datatype Option<T> = None | Some(value: T)

  /** No number occurs twice. */
  ghost predicate Unique(s: seq<int>) {
    forall i, j :: 0 <= i < j < |s| ==> s[i] != s[j]
  }
}
