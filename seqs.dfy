/** Facts about sequences that the proofs of the other modules share. */
module Seqs {

  function Last<T>(s: seq<T>): T
    requires s != []
  {
    s[|s| - 1]
  }

  lemma Associative<T>(x: seq<T>, y: seq<T>, z: seq<T>)
    ensures (x + y) + z == x + (y + z)
  {
  }

  /** Appending keeps the original as a prefix, and the tail is what was
      appended. */
  lemma Appended<T>(a: seq<T>, w: seq<T>)
    ensures a <= a + w && (a + w)[|a|..] == w
  {
  }

  lemma Suffix<T>(s: seq<T>, a: nat, c: nat)
    requires a <= |s| && c <= |s| - a
    ensures s[a..][c..] == s[a + c..]
  {
  }

  lemma ConsSlice<T>(s: seq<T>, k: nat, rest: seq<T>)
    requires 0 < k <= |s|
    ensures (s[..k] + rest)[0] == s[0]
    ensures (s[..k] + rest)[1..] == s[1..][..k - 1] + rest
  {
  }

  lemma PrefixMultiset<T>(s: seq<T>, n: nat)
    requires 0 < n <= |s|
    ensures multiset(s[..n]) == multiset([s[0]]) + multiset(s[1..][..n - 1])
  {
    assert s[..n] == [s[0]] + s[1..][..n - 1];
  }
}
