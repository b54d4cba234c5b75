/**
 What all parts of the kernel share: the machine's word and page, and sequences
 without repeats.
 */
module Common {
  /** One more than the largest 32-bit word. */
  const WORD := 0x1_0000_0000

  /** A sum or difference as a 32-bit register holds it. */
  function Wrapped(x: int): (r: nat)
    ensures r < WORD && (0 <= x < WORD ==> r == x)
  {
    x % 0x1_0000_0000
  }

  const PAGE_SIZE := 4096
  /** The null pointer, where pointers are table indices. */
  const NULL := -1

  ghost predicate Distinct(s: seq<nat>)
  {
    forall i, j | 0 <= i < j < |s| :: s[i] != s[j]
  }
}
