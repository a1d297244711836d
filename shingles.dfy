/** `create_shingle_lists`: the set of k-token shingles of every document, and the
    list of all shingles of the corpus. */
module ShingleBuilder {
  import opened Text

  /** The shingle whose window starts at token `j`: `' '.join(tokens[j:j+k])`. */
  function ShingleAt(tokens: seq<string>, k: nat, j: nat): string
    requires j + k <= |tokens|
  {
    Join(tokens[j..j + k])
  }

  /** The shingles of the windows that start before `n`. */
  function ShinglesBefore(tokens: seq<string>, k: nat, n: nat): set<string>
  {
    set j: nat | j < n && j + k <= |tokens| :: ShingleAt(tokens, k, j)
  }

  /** The shingle set of one document: one shingle per window of `k` consecutive
      tokens. A document shorter than `k` has no window. */
  function Shingles(tokens: seq<string>, k: nat): set<string>
  {
    set j: nat | j + k <= |tokens| :: ShingleAt(tokens, k, j)
  }

  /** The shingles of all documents together. */
  function AllShingles(docs: seq<seq<string>>, k: nat): set<string>
  {
    if |docs| == 0 then {}
    else AllShingles(docs[..|docs| - 1], k) + Shingles(docs[|docs| - 1], k)
  }

  /** A shingle is in the union exactly when some document has it. */
  lemma {:induction false} AllShinglesSpec(docs: seq<seq<string>>, k: nat)
    ensures forall s :: s in AllShingles(docs, k) <==> exists i :: 0 <= i < |docs| && s in Shingles(docs[i], k)
  {
    if |docs| > 0 {
      var front := docs[..|docs| - 1];
      AllShinglesSpec(front, k);
      assert forall i :: 0 <= i < |front| ==> front[i] == docs[i];
    }
  }

  lemma {:induction false} ShinglesBeforeSize(tokens: seq<string>, k: nat, n: nat)
    requires n + k <= |tokens| + 1
    ensures |ShinglesBefore(tokens, k, n)| <= n
  {
    if n > 0 {
      ShinglesBeforeSize(tokens, k, n - 1);
      assert ShinglesBefore(tokens, k, n)
          == ShinglesBefore(tokens, k, n - 1) + {ShingleAt(tokens, k, n - 1)};
    }
  }

  /** A document shorter than `k` has no shingle; a longer one has at most one
      shingle per window, that is `|tokens| - k + 1`. */
  lemma ShinglesSize(tokens: seq<string>, k: nat)
    ensures |tokens| < k ==> Shingles(tokens, k) == {}
    ensures |tokens| >= k ==> |Shingles(tokens, k)| <= |tokens| - k + 1
  {
    if |tokens| >= k {
      assert Shingles(tokens, k) == ShinglesBefore(tokens, k, |tokens| - k + 1);
      ShinglesBeforeSize(tokens, k, |tokens| - k + 1);
    }
  }

  /** When no token holds a blank, a shingle splits back into the tokens of its window,
      so two windows give the same shingle exactly when they hold the same tokens. */
  lemma ShingleAtSplits(tokens: seq<string>, k: nat, j: nat, j': nat)
    requires k >= 1
    requires forall t :: t in tokens ==> ' ' !in t
    requires j + k <= |tokens| && j' + k <= |tokens|
    ensures Split(ShingleAt(tokens, k, j)) == tokens[j..j + k]
    ensures ShingleAt(tokens, k, j) == ShingleAt(tokens, k, j') <==> tokens[j..j + k] == tokens[j'..j' + k]
  {
    assert forall t :: t in tokens[j..j + k] ==> t in tokens;
    assert forall t :: t in tokens[j'..j' + k] ==> t in tokens;
    SplitJoin(tokens[j..j + k]);
    SplitJoin(tokens[j'..j' + k]);
  }

  /** `list(shingle_list)`: the elements of a set, each once, in an order the set
      does not fix. */
  method ListOfSet(s: set<string>) returns (r: seq<string>)
    ensures forall x :: x in r <==> x in s
    ensures forall p, q :: 0 <= p < q < |r| ==> r[p] != r[q]
  {
    r := [];
    var rest := s;
    while rest != {}
      invariant forall x :: x in s <==> x in r || x in rest
      invariant forall x :: x in r ==> x !in rest
      invariant forall p, q :: 0 <= p < q < |r| ==> r[p] != r[q]
      decreases |rest|
    {
      var x :| x in rest;
      r := r + [x];
      rest := rest - {x};
    }
  }

  /** `create_shingle_lists(dataset, shingle_size)`: the shingle set of document `i`
      under key `i`, and every shingle of the corpus listed once. */
  method CreateShingleLists(dataset: array<seq<string>>, k: nat)
    returns (universe: seq<string>, shingleDocs: map<nat, set<string>>)
    ensures forall i: nat :: i in shingleDocs <==> i < dataset.Length
    ensures forall i :: 0 <= i < dataset.Length ==> shingleDocs[i] == Shingles(dataset[i], k)
    ensures forall s :: s in universe <==> exists i :: 0 <= i < dataset.Length && s in shingleDocs[i]
    ensures forall p, q :: 0 <= p < q < |universe| ==> universe[p] != universe[q]
  {
    var shingleSet: set<string> := {};
    shingleDocs := map[];
    for i := 0 to dataset.Length
      invariant forall i': nat :: i' in shingleDocs <==> i' < i
      invariant forall i' :: 0 <= i' < i ==> shingleDocs[i'] == {}
    {
      shingleDocs := shingleDocs[i := {}];
    }

    for i := 0 to dataset.Length
      invariant forall i': nat :: i' in shingleDocs <==> i' < dataset.Length
      invariant forall i' :: 0 <= i' < i ==> shingleDocs[i'] == Shingles(dataset[i'], k)
      invariant forall i' :: i <= i' < dataset.Length ==> shingleDocs[i'] == {}
      invariant shingleSet == AllShingles(dataset[..i], k)
    {
      shingleDocs, shingleSet := AddDocumentShingles(shingleDocs, shingleSet, i, dataset[i], k);
      assert shingleDocs[i] == Shingles(dataset[i], k);
      assert dataset[..i + 1][..i] == dataset[..i];
    }
    assert dataset[..dataset.Length] == dataset[..];
    AllShinglesSpec(dataset[..], k);
    universe := ListOfSet(shingleSet);
  }

  /** The inner loop of `create_shingle_lists` for document `i`: every window of `k`
      tokens is joined and added both to the document's set and to the universal set. */
  method AddDocumentShingles(shingleDocs: map<nat, set<string>>, shingleSet: set<string>,
                             i: nat, tokens: seq<string>, k: nat)
    returns (docsAfter: map<nat, set<string>>, setAfter: set<string>)
    requires i in shingleDocs
    ensures docsAfter == shingleDocs[i := shingleDocs[i] + Shingles(tokens, k)]
    ensures setAfter == shingleSet + Shingles(tokens, k)
  {
    docsAfter, setAfter := shingleDocs, shingleSet;
    var j := 0;
    assert ShinglesBefore(tokens, k, 0) == {};
    assert shingleDocs[i] + ShinglesBefore(tokens, k, 0) == shingleDocs[i];
    assert shingleDocs[i := shingleDocs[i]] == shingleDocs;
    while j < |tokens| + 1 - k
      invariant j == 0 || j <= |tokens| + 1 - k
      invariant docsAfter == shingleDocs[i := shingleDocs[i] + ShinglesBefore(tokens, k, j)]
      invariant setAfter == shingleSet + ShinglesBefore(tokens, k, j)
    {
      var end := j + k;
      var shingle := Join(tokens[j..end]);
      assert shingle == ShingleAt(tokens, k, j);
      assert ShinglesBefore(tokens, k, j + 1) == ShinglesBefore(tokens, k, j) + {shingle};
      assert docsAfter[i] + {shingle} == shingleDocs[i] + ShinglesBefore(tokens, k, j + 1);
      docsAfter := docsAfter[i := docsAfter[i] + {shingle}];
      setAfter := setAfter + {shingle};
      j := j + 1;
    }
    assert ShinglesBefore(tokens, k, j) == Shingles(tokens, k);
  }

  /** The four tokens `the quick brown fox` give three 2-token shingles. */
  lemma ShinglesExample()
    ensures Shingles(["the", "quick", "brown", "fox"], 2) == {"the quick", "quick brown", "brown fox"}
  {
    var ts := ["the", "quick", "brown", "fox"];
    assert ShingleAt(ts, 2, 0) == "the quick" by { assert ts[0..2] == ["the", "quick"]; }
    assert ShingleAt(ts, 2, 1) == "quick brown" by { assert ts[1..3] == ["quick", "brown"]; }
    assert ShingleAt(ts, 2, 2) == "brown fox" by { assert ts[2..4] == ["brown", "fox"]; }
    assert Shingles(ts, 2) == ShinglesBefore(ts, 2, 3);
  }
}
