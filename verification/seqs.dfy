/** Facts about sequences that the passes' proofs use over and over, proved
    once here, away from the definitions of the passes. */
module Seqs {

  /** The head and tail of a concatenation with a non-empty left part. */
  lemma ConsAppend<T>(a: seq<T>, b: seq<T>)
    requires a != []
    ensures a + b != [] && (a + b)[0] == a[0] && (a + b)[1..] == a[1..] + b
  {
  }

  /** Concatenation after a one-element prefix regroups. */
  lemma ConsAssoc<T>(x: T, s: seq<T>, u: seq<T>)
    ensures [x] + s + u == [x] + (s + u)
  {
  }

  /** Index `i` of a sequence's tail, and what follows it, one place on. */
  lemma TailShift<T>(s: seq<T>, i: nat)
    requires i + 1 < |s|
    ensures s[1..][i] == s[i + 1] && s[1..][i + 1..] == s[i + 2..]
  {
  }

  /** A sequence is what comes before position `j`, then the element at `j`,
      then what comes after it. */
  lemma SplitAt<T>(s: seq<T>, j: nat)
    requires j < |s|
    ensures s == s[..j] + ([s[j]] + s[j + 1..])
    ensures ([s[j]] + s[j + 1..])[0] == s[j] && ([s[j]] + s[j + 1..])[1..] == s[j + 1..]
  {
  }

  /** A prefix one element longer is the prefix followed by that element. */
  lemma TakeOneMore<T>(s: seq<T>, i: nat)
    requires i < |s|
    ensures s[..i + 1] == s[..i] + [s[i]]
  {
  }

  /** The head and the (empty) tail of a one-element sequence, and the empty
      sequence as a right unit. */
  lemma Singleton<T>(x: T, s: seq<T>)
    ensures [x][0] == x && [x][1..] == [] && s + [] == s
  {
  }
}
