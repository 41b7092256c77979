/** Small failure-carrying datatypes and a sequence fact shared by the three
    containers. */
module Wrappers {

  /** A value that may be absent (a null pointer or "no result" in C++). */
  datatype Option<T> = None | Some(value: T)

  /** An operation that either yields a value or fails with a message
      (a thrown string literal in C++). */
  datatype Result<T> = Ok(value: T) | Err(msg: string)

  /** Concatenation is associative (stated for the proofs that regroup a
      sequence built piece by piece). */
  lemma Regroup<T>(a: seq<T>, b: seq<T>, c: seq<T>)
    ensures a + (b + c) == a + b + c
  {
  }
}
