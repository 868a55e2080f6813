/**
 * The few Rust standard-library shapes every other module uses:
 * `Option<T>`, `Result<T, E>` with its `Ok`/`Err` variants and the `u8` byte,
 * and a few facts about sequences that many proofs use.
 */
module Prelude {

  /** Rust's `u8`: an integer in 0..=255. */
  type byte = b: int | 0 <= b < 256

  /** Rust's `Option<T>`. */
  datatype Option<+T> = None | Some(value: T)

  /** Rust's `Result<T, E>`. */
  datatype Result<+T, +E> = Ok(value: T) | Err(error: E)

  /** The unit error of `Result<Self, ()>`. */
  datatype Unit = Unit

  /** Concatenation is associative; stated once so that proofs need not re-derive it by extensionality. */
  lemma ConcatAssoc<T>(x: seq<T>, y: seq<T>, z: seq<T>)
    ensures x + (y + z) == (x + y) + z
  {
  }

  /** The prefix of length `i + 1` is the prefix of length `i` and the element at `i`. */
  lemma TakeSnoc<T>(s: seq<T>, i: nat)
    requires i < |s|
    ensures s[..i + 1] == s[..i] + [s[i]]
  {
  }

  /** A sequence is its prefix of length `n` followed by the rest. */
  lemma SplitAt<T>(s: seq<T>, n: nat)
    requires n <= |s|
    ensures s[..n] + s[n..] == s
  {
  }
}
