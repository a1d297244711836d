/** Properties of the stages chained together as the application runs them: clean,
    drop stopwords, shingle, compare. */
module Pipeline {
  import opened Text
  import opened Tokenizer
  import opened StopwordFilter
  import opened ShingleBuilder
  import opened Jaccard
  import opened CharMatrix

  /** The tokens of a cleaned document after stopword removal hold no blank, so every
      shingle built from them splits back into exactly its window of tokens. */
  lemma CleanedShinglesSplit(raw: string, stopwords: seq<string>, k: nat, j: nat)
    requires k >= 1
    requires j + k <= |RemoveStops(Tokenize(raw), stopwords)|
    ensures var tokens := RemoveStops(Tokenize(raw), stopwords);
      Split(ShingleAt(tokens, k, j)) == tokens[j..j + k]
  {
    var tokens := RemoveStops(Tokenize(raw), stopwords);
    TokenizeSpec(raw);
    assert IsSpace(' ');
    forall t | t in tokens ensures ' ' !in t {
      assert t in Tokenize(raw);
    }
    ShingleAtSplits(tokens, k, j, j);
  }

  /** A document without a single word is cleaned to `[""]`. Whether that empty token
      survives depends on the stopword list: the list read from the stopword file holds
      `""` when the file ends in a newline, and the document then has no shingle at
      all. Otherwise the empty token stays, and with shingle size 1 it is a shingle. */
  lemma EmptyDocumentShingles(raw: string, stopwords: seq<string>)
    requires Words(raw) == []
    ensures RemoveStops(Tokenize(raw), stopwords) == if "" in stopwords then [] else [""]
    ensures "" in stopwords ==> forall k: nat :: k >= 1 ==> Shingles(RemoveStops(Tokenize(raw), stopwords), k) == {}
    ensures "" !in stopwords ==> Shingles(RemoveStops(Tokenize(raw), stopwords), 1) == {""}
  {
    TokenizeWords(raw);
    var doc := RemoveStops([""], stopwords);
    assert RemoveStops([""], stopwords) == (if "" in stopwords then [] else [""]) + RemoveStops([], stopwords);
    forall k: nat | k >= 1
      ensures "" in stopwords ==> Shingles(doc, k) == {}
    {
      ShinglesSize(doc, k);
    }
    if "" !in stopwords {
      assert ShingleAt([""], 1, 0) == "" by { assert [""][0..1] == [""]; }
      assert Shingles([""], 1) == {""};
    }
  }

  /** A map whose keys are exactly `0 .. n-1` has `n` entries. */
  lemma {:induction false} KeysBelowSize(docs: map<nat, set<string>>, n: nat)
    requires forall i: nat :: i in docs <==> i < n
    ensures |docs| == n
  {
    if n > 0 {
      var rest := docs - {n - 1};
      KeysBelowSize(rest, n - 1);
      assert docs.Keys == rest.Keys + {n - 1};
    } else {
      assert docs.Keys == {};
    }
  }

  /** The shingle sets `create_shingle_lists` returns are keyed by every document
      index, so `create_char_matrix` finds each `shingle_docs[i]` it looks up. */
  lemma ShingleDocsFitCharMatrix(docs: map<nat, set<string>>, n: nat)
    requires forall i: nat :: i in docs <==> i < n
    ensures |docs| == n && HasKeysBelow(docs, |docs|)
  {
    KeysBelowSize(docs, n);
  }

  /** A document compared with itself has similarity 1, unless it has fewer tokens
      than the shingle size: its shingle set is then empty and the division fails. */
  lemma SelfSimilarity(tokens: seq<string>, k: nat)
    ensures |tokens| >= k ==> JaccardSimilarity(Shingles(tokens, k), Shingles(tokens, k)) == Ratio(1.0)
    ensures |tokens| < k ==> JaccardSimilarity(Shingles(tokens, k), Shingles(tokens, k)) == ZeroDivisionError
  {
    ShinglesSize(tokens, k);
    if |tokens| >= k {
      assert ShingleAt(tokens, k, 0) in Shingles(tokens, k);
      JaccardOneIffEqual(Shingles(tokens, k), Shingles(tokens, k));
    }
  }
}
