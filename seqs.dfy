/** Small facts about sequences, stated once so that the proofs that
    need them do not each pay for them. */
module Seqs {
  /** A suffix is its first element followed by the next suffix. */
  lemma HeadTail<T>(xs: seq<T>, m: nat)
    requires m < |xs|
    ensures xs[m..] == [xs[m]] + xs[m + 1..]
  {
  }

  /** Appending pieces one at a time builds what appending them at once does. */
  lemma Regroup<T>(a: seq<T>, b: seq<T>, c: seq<T>, d: seq<T>, x: seq<T>, t: seq<T>)
    requires a + x == t && x == b + c + d
    ensures a + b + c + d == t
  {
    assert a + b + c + d == a + (b + c + d);
  }

  /** Concatenation is associative. */
  lemma Assoc<T>(a: seq<T>, b: seq<T>, c: seq<T>)
    ensures a + (b + c) == (a + b) + c
  {
  }

  /** A non-empty sequence followed by another. */
  lemma ConsAppend<T>(xs: seq<T>, ys: seq<T>)
    requires xs != []
    ensures xs + ys == [xs[0]] + (xs[1..] + ys) && xs == [xs[0]] + xs[1..]
  {
  }

  /** Adjacent slices make up the slice that spans them. */
  lemma Adjacent<T>(s: seq<T>, i: nat, j: nat, k: nat)
    requires i <= j <= k <= |s|
    ensures s[i..j] + s[j..k] == s[i..k]
  {
  }

  /** A slice and the suffix after it make up the suffix from its start. */
  lemma AdjacentTail<T>(s: seq<T>, i: nat, j: nat)
    requires i <= j <= |s|
    ensures s[i..j] + s[j..] == s[i..]
  {
  }
}
