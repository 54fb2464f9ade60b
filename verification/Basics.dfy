/** What all parts share: bytes, options, sequences without repetition. */
module Basics {

  type byte = x: int | 0 <= x < 256
  type bytes = seq<byte>

  datatype Option<T> = None | Some(value: T)

  function Pow2(n: nat): nat { if n == 0 then 1 else 2 * Pow2(n - 1) }

  ghost predicate Unique<T>(s: seq<T>) { forall i, j :: 0 <= i < j < |s| ==> s[i] != s[j] }

  lemma Assoc<T>(a: seq<T>, b: seq<T>, c: seq<T>)
    ensures (a + b) + c == a + (b + c)
  {
  }
}
