/** Lists as sets. */
module Sequences {
  ghost predicate NoRepeats<T>(list: seq<T>) {
    forall i, j | 0 <= i < j < |list| :: list[i] != list[j]
  }
}
