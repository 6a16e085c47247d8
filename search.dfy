/** The cut points that `std::lower_bound` and `std::upper_bound` compute over the sorted keys. */
module Search {
  import opened ByteOrder

  /** `std::lower_bound`: the first index whose key is not less than `key` (|ks| if there is none). */
  function LowerBound(ks: seq<Bytes>, key: Bytes): (i: nat)
    ensures i <= |ks|
    ensures forall j :: 0 <= j < i ==> Less(ks[j], key)
    ensures i < |ks| ==> !Less(ks[i], key)
  {
    if |ks| == 0 || !Less(ks[0], key) then 0 else 1 + LowerBound(ks[1..], key)
  }

  /** `std::upper_bound`: the first index whose key is greater than `key` (|ks| if there is none). */
  function UpperBound(ks: seq<Bytes>, key: Bytes): (i: nat)
    ensures i <= |ks|
    ensures forall j :: 0 <= j < i ==> !Less(key, ks[j])
    ensures i < |ks| ==> Less(key, ks[i])
  {
    if |ks| == 0 || Less(key, ks[0]) then 0 else 1 + UpperBound(ks[1..], key)
  }

  /** On sorted keys the lower bound is a partition point: every key from it on is at least `key`. */
  lemma LowerBoundPartitions(ks: seq<Bytes>, key: Bytes)
    requires StrictlySorted(ks)
    ensures forall j :: LowerBound(ks, key) <= j < |ks| ==> !Less(ks[j], key)
  {
    var i := LowerBound(ks, key);
    forall j | i < j < |ks|
      ensures !Less(ks[j], key)
    {
      if Less(ks[j], key) {
        LessTransitive(ks[i], ks[j], key);
      }
    }
  }

  /** On sorted keys the upper bound is a partition point: every key from it on is greater than `key`. */
  lemma UpperBoundPartitions(ks: seq<Bytes>, key: Bytes)
    requires StrictlySorted(ks)
    ensures forall j :: UpperBound(ks, key) <= j < |ks| ==> Less(key, ks[j])
  {
    var i := UpperBound(ks, key);
    forall j | i < j < |ks|
      ensures Less(key, ks[j])
    {
      LessTransitive(key, ks[i], ks[j]);
    }
  }

  /** On sorted keys, `key` is present exactly when the lower bound lands on it. */
  lemma LowerBoundFinds(ks: seq<Bytes>, key: Bytes)
    requires StrictlySorted(ks)
    ensures var i := LowerBound(ks, key);
      key in ks <==> i < |ks| && ks[i] == key
  {
    LessIrreflexive(key);
  }
}
