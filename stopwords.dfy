/** `remove_stopwords`: every document keeps only its tokens that are not stopwords. */
module StopwordFilter {

  /** `[word for word in words if not word in stopwords]`. */
  function RemoveStops(words: seq<string>, stopwords: seq<string>): (r: seq<string>)
    ensures |r| <= |words|
    ensures forall w :: w in r ==> w in words && w !in stopwords
    ensures forall w :: w in words && w !in stopwords ==> w in r
  {
    if |words| == 0 then []
    else (if words[0] in stopwords then [] else [words[0]]) + RemoveStops(words[1..], stopwords)
  }

  /** `a` is `b` with some elements deleted and the rest in their order. */
  predicate IsSubsequence(a: seq<string>, b: seq<string>)
    decreases |b|
  {
    if |a| == 0 then true
    else if |b| == 0 then false
    else if a[0] == b[0] then IsSubsequence(a[1..], b[1..])
    else IsSubsequence(a, b[1..])
  }

  /** The surviving tokens keep their order. */
  lemma {:induction false} RemoveStopsSubsequence(words: seq<string>, stopwords: seq<string>)
    ensures IsSubsequence(RemoveStops(words, stopwords), words)
  {
    if |words| > 0 {
      var rest := RemoveStops(words[1..], stopwords);
      RemoveStopsSubsequence(words[1..], stopwords);
      if words[0] in stopwords {
        assert RemoveStops(words, stopwords) == rest;
        if |rest| > 0 {
          assert rest[0] in rest;
        }
      } else {
        assert RemoveStops(words, stopwords) == [words[0]] + rest;
        assert ([words[0]] + rest)[1..] == rest;
      }
    }
  }

  /** Each token that is not a stopword survives as often as it occurs; a stopword
      does not survive at all. */
  lemma {:induction false} RemoveStopsCount(words: seq<string>, stopwords: seq<string>, w: string)
    ensures multiset(RemoveStops(words, stopwords))[w] == if w in stopwords then 0 else multiset(words)[w]
  {
    if |words| > 0 {
      RemoveStopsCount(words[1..], stopwords, w);
      assert words == [words[0]] + words[1..];
      assert multiset(words) == multiset([words[0]]) + multiset(words[1..]);
    }
  }

  /** A list without stopwords is left as it is. */
  lemma {:induction false} RemoveStopsNothingToRemove(words: seq<string>, stopwords: seq<string>)
    requires forall w :: w in words ==> w !in stopwords
    ensures RemoveStops(words, stopwords) == words
  {
    if |words| > 0 {
      assert words[0] in words;
      assert forall w :: w in words[1..] ==> w in words;
      RemoveStopsNothingToRemove(words[1..], stopwords);
    }
  }

  /** Filtering twice with the same stopwords is filtering once. */
  lemma RemoveStopsIdempotent(words: seq<string>, stopwords: seq<string>)
    ensures RemoveStops(RemoveStops(words, stopwords), stopwords) == RemoveStops(words, stopwords)
  {
    RemoveStopsNothingToRemove(RemoveStops(words, stopwords), stopwords);
  }

  /** `remove_stopwords(dataset, stopword_list)`: every document of the list is
      replaced, in place, by its filtered token list. */
  method RemoveStopwords(dataset: array<seq<string>>, stopwords: seq<string>)
    modifies dataset
    ensures forall i :: 0 <= i < dataset.Length ==> dataset[i] == RemoveStops(old(dataset[i]), stopwords)
  {
    for i := 0 to dataset.Length
      invariant forall j :: 0 <= j < i ==> dataset[j] == RemoveStops(old(dataset[j]), stopwords)
      invariant forall j :: i <= j < dataset.Length ==> dataset[j] == old(dataset[j])
    {
      dataset[i] := RemoveStops(dataset[i], stopwords);
    }
  }

  /** `["the", "cat", "sat"]` with the stopword `"the"` becomes `["cat", "sat"]`. */
  lemma RemoveStopsExample()
    ensures RemoveStops(["the", "cat", "sat"], ["the"]) == ["cat", "sat"]
  {
    var ws := ["the", "cat", "sat"];
    assert ws[1..] == ["cat", "sat"] && ws[1..][1..] == ["sat"];
    assert "cat" !in ["the"] && "sat" !in ["the"];
  }
}
