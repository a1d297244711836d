/** `jaccard_similarity`: the exact Jaccard similarity of two shingle sets. */
module Jaccard {

  /** The outcome of `intersection_size / union_size`: the exact ratio, or the
      `ZeroDivisionError` the division raises when the union is empty. */
  datatype Similarity = Ratio(value: real) | ZeroDivisionError

  /** `jaccard_similarity(doc_one, doc_two)`: `|A ∩ B| / |A ∪ B|`. */
  function JaccardSimilarity(a: set<string>, b: set<string>): (r: Similarity)
    ensures r.ZeroDivisionError? <==> a == {} && b == {}
    ensures r.Ratio? ==> 0.0 <= r.value <= 1.0
  {
    var intersectionSize := |a * b|;
    var unionSize := |a + b|;
    if unionSize == 0 then ZeroDivisionError
    else
      assert intersectionSize <= unionSize by { IntersectionNoLarger(a, b); }
      Ratio(intersectionSize as real / unionSize as real)
  }

  lemma IntersectionNoLarger(a: set<string>, b: set<string>)
    ensures |a * b| <= |a + b|
    ensures |a * b| == |a + b| ==> a == b
  {
    assert |a + b| == |a * b| + |a - b| + |b - a| by {
      assert a + b == (a * b) + (a - b) + (b - a);
      assert (a * b) !! (a - b) && ((a * b) + (a - b)) !! (b - a);
    }
    if |a * b| == |a + b| {
      assert a - b == {} && b - a == {};
      assert forall x :: x in a ==> x in b;
      assert forall x :: x in b ==> x in a;
    }
  }

  /** The similarity does not depend on the order of the two documents. */
  lemma JaccardSymmetric(a: set<string>, b: set<string>)
    ensures JaccardSimilarity(a, b) == JaccardSimilarity(b, a)
  {
    assert a * b == b * a && a + b == b + a;
  }

  /** Two shingle sets that are not both empty have similarity 1 exactly when they
      are equal. */
  lemma JaccardOneIffEqual(a: set<string>, b: set<string>)
    requires a != {} || b != {}
    ensures JaccardSimilarity(a, b) == Ratio(1.0) <==> a == b
  {
    IntersectionNoLarger(a, b);
    var i, u := |a * b|, |a + b|;
    if i as real / u as real == 1.0 {
      assert i as real == u as real;
    }
    if a == b {
      assert a * b == a + b;
    }
  }

  /** Two shingle sets that are not both empty have similarity 0 exactly when they
      share no shingle. */
  lemma JaccardZeroIffDisjoint(a: set<string>, b: set<string>)
    requires a != {} || b != {}
    ensures JaccardSimilarity(a, b) == Ratio(0.0) <==> a !! b
  {
    var i, u := |a * b|, |a + b|;
    assert u > 0 by {
      if a != {} { var x :| x in a; assert x in a + b; }
      else { var x :| x in b; assert x in a + b; }
    }
    if i as real / u as real == 0.0 {
      assert i == 0;
      assert forall x :: x in a && x in b ==> x in a * b;
    }
  }

  /** `{a, b, c}` and `{b, c, d}` share two of their four shingles. */
  lemma JaccardExample()
    ensures JaccardSimilarity({"a", "b", "c"}, {"b", "c", "d"}) == Ratio(0.5)
  {
    var a: set<string> := {"a", "b", "c"};
    var b: set<string> := {"b", "c", "d"};
    assert a * b == {"b", "c"};
    assert a + b == {"a", "b", "c", "d"};
  }
}
