/** The named constants of the LZSS codec. */
module LzssConstants {
  import opened Basics

  /** Size of the ring buffer. */
  const N := 4096

  /** Longest match, and the length of the look-ahead. */
  const F := 18

  /** A match must be longer than this to be worth a pair. */
  const THRESHOLD := 2

  /** The null link of the search trees. */
  const NIL := N

  /** What the ring is filled with before any text arrives. */
  const SPACE: byte := 32
}
