/**
 * The packet's free-form attribute bag and `array_merge` on string keys.
 */
module Attributes {
  import opened Values

  /** `array_merge($a, $b)` for string keys: the union, with `b` winning on shared keys. */
  function Merge(a: Context, b: Context): (r: Context)
    ensures r.Keys == a.Keys + b.Keys
    ensures forall k :: k in b ==> r[k] == b[k]
    ensures forall k :: k in a && k !in b ==> r[k] == a[k]
  {
    a + b
  }

  /** Merging the same data a second time changes nothing. */
  lemma MergeIdempotent(a: Context, b: Context)
    ensures Merge(Merge(a, b), b) == Merge(a, b)
  {
  }

  /** Two merges in a row are one merge of the merged data. */
  lemma MergeAssociative(a: Context, b: Context, c: Context)
    ensures Merge(Merge(a, b), c) == Merge(a, Merge(b, c))
  {
  }
}
