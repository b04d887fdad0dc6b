/** Optional values (TypeScript's `T | null` and `T | undefined`), and a sequence fact the other modules share. */
module Wrappers {

  datatype Option<+T> = None | Some(value: T)

  /** Concatenation regroups freely. */
  lemma ConcatAssoc<T>(a: seq<T>, b: seq<T>, c: seq<T>)
    ensures a + b + c == a + (b + c)
  {
  }
}
