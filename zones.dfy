/** The records the widget receives and a few generic helpers over them. */
module Zones {

  /** One zone as the API delivers it: a hostname and a status string.
      The status is free text; only "active" and "invalid" are singled out. */
  datatype Zone = Zone(name: string, status: string)

  datatype Option<T> = None | Some(value: T)

  /** No element occurs twice in the list. */
  predicate Distinct<T(==)>(s: seq<T>) {
    forall k1, k2 :: 0 <= k1 < k2 < |s| ==> s[k1] != s[k2]
  }

  /** The positions lo, lo + 1, ..., hi - 1 in increasing order. */
  function Range(lo: nat, hi: nat): (r: seq<nat>)
    requires lo <= hi
    ensures |r| == hi - lo
    ensures forall k :: 0 <= k < |r| ==> r[k] == lo + k
  {
    seq(hi - lo, k requires 0 <= k < hi - lo => lo + k)
  }
}
