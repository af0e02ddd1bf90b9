/** Small definitions that several modules share. */
module Prelude {

  datatype Option<T> = None | Some(value: T)

  function Min(m: nat, n: nat): (r: nat) {
    if m < n then m else n
  }

  function Max(m: nat, n: nat): (r: nat) {
    if m > n then m else n
  }

  /** Taking the last element off a concatenation. */
  lemma FrontOfConcat<T>(a: seq<T>, b: seq<T>)
    requires b != []
    ensures (a + b)[..|a + b| - 1] == a + b[..|b| - 1]
    ensures (a + b)[|a + b| - 1] == b[|b| - 1]
  {
  }

  /** An ASCII letter. */
  predicate IsLetter(c: char) {
    'a' <= c <= 'z' || 'A' <= c <= 'Z'
  }
}
