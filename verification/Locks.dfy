/**
 A lock seen from outside: the number of its holder, or -1, and what one step may do to it.
 */
module Locks {

  /** A lock is left alone, taken when free, or given up by its holder. */
  predicate Passed(holder: int, holder': int, c: nat) {
    holder' == holder || (holder == -1 && holder' == c) || (holder == c && holder' == -1)
  }
}
