/** What several modules need. */
module Basics {
  datatype Option<+T> = None | Some(value: T)

  /** One more than the greatest uint64. */
  const TWO64: nat := 0x1_0000_0000_0000_0000

  lemma Assoc<T>(a: seq<T>, b: seq<T>, c: seq<T>)
    ensures (a + b) + c == a + (b + c)
  {
  }
}
