/** Two facts about sequences that the scans and the manager's runs use to
    regroup concatenations. */
module Seqs {

  lemma AppendAssociates<T>(x: seq<T>, y: seq<T>, z: seq<T>)
    ensures x + (y + z) == (x + y) + z
  {
  }

  /** A sequence is what comes before position `k`, the element there, and
      what comes after. */
  lemma SplitAround<T>(s: seq<T>, k: int)
    requires 0 <= k < |s|
    ensures s == s[..k] + ([s[k]] + s[k + 1..])
  {
    assert s[k..] == [s[k]] + s[k + 1..];
    assert s == s[..k] + s[k..];
  }

}
