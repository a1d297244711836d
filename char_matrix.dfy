/** `create_char_matrix`: the characteristic matrix of shingles against documents,
    kept as an adjacency list from each shingle to the documents that contain it. */
module CharMatrix {

  /** Every index below `n` is a key of `docs`. */
  predicate HasKeysBelow(docs: map<nat, set<string>>, n: nat)
  {
    forall i: nat :: i < n ==> i in docs
  }

  /** The documents among `0 .. n-1` whose shingle set holds `shingle`, in the order
      the outer loop of `create_char_matrix` visits them. */
  function Holders(shingle: string, docs: map<nat, set<string>>, n: nat): seq<nat>
    requires HasKeysBelow(docs, n)
  {
    if n == 0 then []
    else Holders(shingle, docs, n - 1) + (if shingle in docs[n - 1] then [n - 1] else [])
  }

  /** The holders of a shingle are strictly increasing, and a document is among them
      exactly when its shingle set contains the shingle. */
  lemma {:induction false} HoldersSpec(shingle: string, docs: map<nat, set<string>>, n: nat)
    requires HasKeysBelow(docs, n)
    ensures forall p, q :: 0 <= p < q < |Holders(shingle, docs, n)| ==>
      Holders(shingle, docs, n)[p] < Holders(shingle, docs, n)[q]
    ensures forall i: nat :: i in Holders(shingle, docs, n) <==> i < n && shingle in docs[i]
  {
    if n > 0 {
      var earlier := Holders(shingle, docs, n - 1);
      HoldersSpec(shingle, docs, n - 1);
      assert forall p :: 0 <= p < |earlier| ==> earlier[p] in earlier;
    }
  }

  /** `create_char_matrix(shingle_list, shingle_docs)`: row `j` lists, in increasing
      order, exactly the documents whose shingle set contains `shingle_list[j]`.
      The source looks up `shingle_docs[i]` for every `i` below the number of
      documents, so those keys must be present. */
  method CreateCharMatrix(shingleList: seq<string>, shingleDocs: map<nat, set<string>>)
    returns (charMatrix: map<nat, seq<nat>>)
    requires HasKeysBelow(shingleDocs, |shingleDocs|)
    ensures forall j: nat :: j in charMatrix <==> j < |shingleList|
    ensures forall j :: 0 <= j < |shingleList| ==>
      charMatrix[j] == Holders(shingleList[j], shingleDocs, |shingleDocs|)
    ensures forall j, p, q :: 0 <= j < |shingleList| && 0 <= p < q < |charMatrix[j]| ==>
      charMatrix[j][p] < charMatrix[j][q]
    ensures forall j, i: nat :: 0 <= j < |shingleList| ==>
      (i in charMatrix[j] <==> i < |shingleDocs| && shingleList[j] in shingleDocs[i])
  {
    charMatrix := map[];
    for j := 0 to |shingleList|
      invariant forall j': nat :: j' in charMatrix <==> j' < j
      invariant forall j' :: 0 <= j' < j ==> charMatrix[j'] == []
    {
      charMatrix := charMatrix[j := []];
    }

    for i := 0 to |shingleDocs|
      invariant forall j': nat :: j' in charMatrix <==> j' < |shingleList|
      invariant forall j' :: 0 <= j' < |shingleList| ==>
        charMatrix[j'] == Holders(shingleList[j'], shingleDocs, i)
    {
      charMatrix := AppendDocument(charMatrix, shingleList, shingleDocs[i], i);
    }
    forall j | 0 <= j < |shingleList| {
      HoldersSpec(shingleList[j], shingleDocs, |shingleDocs|);
    }
  }

  /** The inner loop of `create_char_matrix` for document `i`: `i` is appended to the
      row of every shingle that document `i` contains, and every other row is kept. */
  method AppendDocument(charMatrix: map<nat, seq<nat>>, shingleList: seq<string>,
                        docShingles: set<string>, i: nat)
    returns (after: map<nat, seq<nat>>)
    requires forall j: nat :: j in charMatrix <==> j < |shingleList|
    ensures forall j: nat :: j in after <==> j < |shingleList|
    ensures forall j :: 0 <= j < |shingleList| ==>
      after[j] == charMatrix[j] + (if shingleList[j] in docShingles then [i] else [])
  {
    after := charMatrix;
    for j := 0 to |shingleList|
      invariant forall j': nat :: j' in after <==> j' < |shingleList|
      invariant forall j' :: 0 <= j' < j ==>
        after[j'] == charMatrix[j'] + (if shingleList[j'] in docShingles then [i] else [])
      invariant forall j' :: j <= j' < |shingleList| ==> after[j'] == charMatrix[j']
    {
      if shingleList[j] in docShingles {
        after := after[j := after[j] + [i]];
      }
    }
  }
}
