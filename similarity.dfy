/**
  Fuzzy title matching. The similarity score that the program takes from
  `difflib.SequenceMatcher(None, a, b).ratio()` is not reimplemented: it
  is a parameter of every operation that needs it, an arbitrary function
  into the unit interval.
*/
module Similarity {
  import opened Strings

  type Ratio = r: real | 0.0 <= r <= 1.0

  /** A similarity score over two (already lower-cased) titles. */
  type Scorer = (string, string) -> Ratio

  /**
    Whether two titles are at least `threshold` similar, compared after
    lower-casing both; the threshold is inclusive.
  */
  predicate Similar(ratio: Scorer, a: string, b: string, threshold: real) {
    ratio(Lower(a), Lower(b)) >= threshold
  }

  /** Case is irrelevant to the comparison: lower-casing either title first changes nothing. */
  lemma SimilarIgnoresCase(ratio: Scorer, a: string, b: string, threshold: real)
    ensures Similar(ratio, Lower(a), Lower(b), threshold) == Similar(ratio, a, b, threshold)
  {
    LowerIdempotent(a);
    LowerIdempotent(b);
  }

  /**
    The comparison is inclusive and monotone in the threshold: a score equal
    to the threshold is similar, a pair similar at one threshold is similar
    at every lower one, and every pair is similar at threshold zero.
  */
  lemma SimilarThresholds(ratio: Scorer, a: string, b: string, t: real, u: real)
    ensures ratio(Lower(a), Lower(b)) == t ==> Similar(ratio, a, b, t)
    ensures u <= t && Similar(ratio, a, b, t) ==> Similar(ratio, a, b, u)
    ensures Similar(ratio, a, b, 0.0)
  {
  }
}
