/** Generic facts about sequences that the string and log proofs share. */
module Seqs {

  /** Concatenation regroups freely. */
  lemma Regroup<T>(a: seq<T>, b: seq<T>, c: seq<T>)
    ensures (a + b) + c == a + (b + c)
  {
  }

  /** Slicing after dropping the first element is slicing one further along. */
  lemma SliceShift<T>(s: seq<T>, n: nat, m: nat)
    requires 0 < n <= m <= |s|
    ensures [s[0]] + s[1..][..n - 1] == s[..n]
    ensures s[1..][m - 1..] == s[m..]
  {
  }
}
