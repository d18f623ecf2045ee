/**
 * Retrieval in backend/server.py: similarity_search picks the best chunks of one document,
 * rag_query merges the picks of every document of the user, keeps the five best overall,
 * records which files contributed, and answers from them.
 *
 * The similarity scores (cosine similarity of the query embedding with each chunk embedding)
 * are given as inputs; only the ranking rule applied to them is modelled.
 */
module Retrieval {
  import opened Wrappers
  import opened Seqs
  import opened Text

  /** A chunk counts as relevant only when its score is strictly above this. */
  const Threshold: real := 0.1

  /** rag_query asks similarity_search for this many chunks per document. */
  const PerDocumentTopK: nat := 3

  /** rag_query keeps at most this many chunks overall. */
  const MaxContextChunks: nat := 5

  // ----- ranking: np.argsort(similarities)[::-1] -----

  predicate InRange(idx: seq<nat>, n: nat)
  {
    forall p :: 0 <= p < |idx| ==> idx[p] < n
  }

  /** The indices are listed from the highest score to the lowest. */
  predicate SortedByScore(scores: seq<real>, idx: seq<nat>)
    requires InRange(idx, |scores|)
  {
    forall p, q :: 0 <= p < q < |idx| ==> scores[idx[p]] >= scores[idx[q]]
  }

  /**
   * `order` lists every index of `scores` exactly once, best score first.
   * Equal scores may come in any order: np.argsort does not promise one.
   */
  ghost predicate IsRanking(scores: seq<real>, order: seq<nat>)
  {
    && |order| == |scores|
    && InRange(order, |scores|)
    && (forall i: nat :: i < |scores| ==> i in order)
    && Distinct(order)
    && SortedByScore(scores, order)
  }

  /** Puts i in front of the first entry that scores less than it: one step of a descending insertion sort. */
  function InsertIndex(scores: seq<real>, order: seq<nat>, i: nat): (r: seq<nat>)
    requires i < |scores| && InRange(order, |scores|)
    ensures |r| == |order| + 1
    decreases |order|
  {
    if |order| == 0 || scores[order[0]] < scores[i] then [i] + order
    else [order[0]] + InsertIndex(scores, order[1..], i)
  }

  /** The insertion adds i and keeps every other entry. */
  lemma {:induction false} InsertIndexMembers(scores: seq<real>, order: seq<nat>, i: nat)
    requires i < |scores| && InRange(order, |scores|)
    ensures forall x :: x in InsertIndex(scores, order, i) <==> x in order || x == i
    decreases |order|
  {
    if |order| > 0 && scores[order[0]] >= scores[i] {
      assert order == [order[0]] + order[1..];
      InsertIndexMembers(scores, order[1..], i);
    }
  }

  lemma ConsSorted(scores: seq<real>, x: nat, t: seq<nat>)
    requires x < |scores| && InRange(t, |scores|) && SortedByScore(scores, t)
    requires forall q :: 0 <= q < |t| ==> scores[x] >= scores[t[q]]
    ensures InRange([x] + t, |scores|) && SortedByScore(scores, [x] + t)
  {
    var s := [x] + t;
    assert forall q :: 0 <= q < |t| ==> s[q + 1] == t[q];
  }

  lemma DropFirstRanked(scores: seq<real>, order: seq<nat>)
    requires |order| > 0 && InRange(order, |scores|) && SortedByScore(scores, order)
    ensures InRange(order[1..], |scores|) && SortedByScore(scores, order[1..])
    ensures forall q :: 0 <= q < |order| - 1 ==> scores[order[0]] >= scores[order[1..][q]]
  {
    assert forall q :: 0 <= q < |order| - 1 ==> order[1..][q] == order[q + 1];
  }

  lemma {:induction false} InsertIndexSorted(scores: seq<real>, order: seq<nat>, i: nat)
    requires i < |scores| && InRange(order, |scores|) && SortedByScore(scores, order)
    ensures InRange(InsertIndex(scores, order, i), |scores|)
    ensures SortedByScore(scores, InsertIndex(scores, order, i))
    decreases |order|
  {
    if |order| == 0 {
      ConsSorted(scores, i, order);
    } else {
      var rest := order[1..];
      DropFirstRanked(scores, order);
      if scores[order[0]] < scores[i] {
        assert order == [order[0]] + rest;
        ConsSorted(scores, i, order);
      } else {
        InsertIndexSorted(scores, rest, i);
        InsertIndexMembers(scores, rest, i);
        var tail := InsertIndex(scores, rest, i);
        forall q | 0 <= q < |tail| ensures scores[order[0]] >= scores[tail[q]] {
          assert tail[q] in tail;
          if tail[q] != i {
            var a :| 0 <= a < |rest| && rest[a] == tail[q];
          }
        }
        ConsSorted(scores, order[0], tail);
      }
    }
  }

  lemma {:induction false} InsertIndexDistinct(scores: seq<real>, order: seq<nat>, i: nat)
    requires i < |scores| && InRange(order, |scores|)
    requires Distinct(order) && i !in order
    ensures Distinct(InsertIndex(scores, order, i))
    decreases |order|
  {
    if |order| > 0 && scores[order[0]] >= scores[i] {
      var rest := order[1..];
      assert order == [order[0]] + rest;
      assert Distinct(rest) by {
        assert forall q :: 0 <= q < |rest| ==> rest[q] == order[q + 1];
      }
      InsertIndexDistinct(scores, rest, i);
      InsertIndexMembers(scores, rest, i);
      var tail := InsertIndex(scores, rest, i);
      assert order[0] !in tail;
      var r := [order[0]] + tail;
      assert forall q :: 0 <= q < |tail| ==> r[q + 1] == tail[q];
    }
  }

  /** The indices 0 .. k-1, ranked by insertion. */
  function RankPrefix(scores: seq<real>, k: nat): (r: seq<nat>)
    requires k <= |scores|
    ensures |r| == k && InRange(r, k)
  {
    if k == 0 then []
    else
      var prev := RankPrefix(scores, k - 1);
      InsertIndexMembers(scores, prev, k - 1);
      var r := InsertIndex(scores, prev, k - 1);
      assert forall p :: 0 <= p < |r| ==> r[p] in r;
      r
  }

  lemma OutOfRangeAbsent(idx: seq<nat>, n: nat)
    requires InRange(idx, n)
    ensures n !in idx
  {
    forall a | 0 <= a < |idx| ensures idx[a] != n {
      assert idx[a] < n;
    }
  }

  /** A ranked list of indices of `scores` without repetition. */
  ghost predicate Ranked(scores: seq<real>, r: seq<nat>)
  {
    InRange(r, |scores|) && SortedByScore(scores, r) && Distinct(r)
  }

  /** Inserting index k - 1 into the ranking of the smaller indices gives a ranking again. */
  lemma RankStep(scores: seq<real>, k: nat)
    requires 0 < k <= |scores| && Ranked(scores, RankPrefix(scores, k - 1))
    ensures Ranked(scores, RankPrefix(scores, k))
  {
    var prev := RankPrefix(scores, k - 1);
    InsertIndexSorted(scores, prev, k - 1);
    OutOfRangeAbsent(prev, k - 1);
    InsertIndexDistinct(scores, prev, k - 1);
  }

  lemma {:induction false} RankPrefixRanked(scores: seq<real>, k: nat)
    requires k <= |scores|
    ensures Ranked(scores, RankPrefix(scores, k))
  {
    if k > 0 {
      RankPrefixRanked(scores, k - 1);
      RankStep(scores, k);
    }
  }

  lemma {:induction false} RankPrefixCovers(scores: seq<real>, k: nat)
    requires k <= |scores|
    ensures forall x: nat :: x < k ==> x in RankPrefix(scores, k)
  {
    if k > 0 {
      RankPrefixCovers(scores, k - 1);
      var prev := RankPrefix(scores, k - 1);
      InsertIndexMembers(scores, prev, k - 1);
    }
  }

  /** One concrete argsort-descending; every property below is also proved for any other ranking. */
  function Ranking(scores: seq<real>): (order: seq<nat>)
    ensures IsRanking(scores, order)
  {
    RankPrefixCovers(scores, |scores|);
    RankPrefixRanked(scores, |scores|);
    RankPrefix(scores, |scores|)
  }

  // ----- similarity_search -----

  /** [:top_k] of the ranking. */
  function TopIndices(order: seq<nat>, topK: nat): seq<nat>
  {
    order[..Min(topK, |order|)]
  }

  /** The indices whose score passes the relevance threshold, in their ranked order. */
  function Kept(scores: seq<real>, idx: seq<nat>): (ks: seq<nat>)
    requires InRange(idx, |scores|)
    ensures |ks| <= |idx| && InRange(ks, |scores|)
    ensures forall x :: x in ks ==> x in idx && scores[x] > Threshold
    ensures forall p :: 0 <= p < |idx| && scores[idx[p]] > Threshold ==> idx[p] in ks
    decreases |idx|
  {
    if |idx| == 0 then []
    else
      var init := idx[..|idx| - 1];
      var last := idx[|idx| - 1];
      var rest := Kept(scores, init);
      assert forall p :: 0 <= p < |init| ==> init[p] == idx[p];
      if scores[last] > Threshold then rest + [last] else rest
  }

  lemma SortedSnoc(scores: seq<real>, s: seq<nat>, x: nat)
    requires InRange(s, |scores|) && x < |scores| && SortedByScore(scores, s)
    requires forall q :: 0 <= q < |s| ==> scores[s[q]] >= scores[x]
    ensures InRange(s + [x], |scores|) && SortedByScore(scores, s + [x])
  {
    var t := s + [x];
    assert forall q :: 0 <= q < |s| ==> t[q] == s[q];
  }

  /** The last index of a sorted, repetition-free list scores no more than the others and differs from them. */
  lemma LastOfRanked(scores: seq<real>, idx: seq<nat>, y: nat)
    requires InRange(idx, |scores|) && SortedByScore(scores, idx) && Distinct(idx) && |idx| > 0
    requires y in idx[..|idx| - 1]
    ensures scores[y] >= scores[idx[|idx| - 1]] && y != idx[|idx| - 1]
  {
    var a :| 0 <= a < |idx| - 1 && idx[..|idx| - 1][a] == y;
    assert idx[a] == y;
  }

  /** Filtering keeps the ranked order and introduces no repetition. */
  lemma {:induction false} KeptOrder(scores: seq<real>, idx: seq<nat>)
    requires InRange(idx, |scores|) && SortedByScore(scores, idx) && Distinct(idx)
    ensures SortedByScore(scores, Kept(scores, idx)) && Distinct(Kept(scores, idx))
    decreases |idx|
  {
    if |idx| > 0 {
      var n := |idx|;
      var init := idx[..n - 1];
      var last := idx[n - 1];
      var rest := Kept(scores, init);
      assert SortedByScore(scores, init) && Distinct(init) by {
        assert forall p :: 0 <= p < |init| ==> init[p] == idx[p];
      }
      KeptOrder(scores, init);
      if scores[last] > Threshold {
        forall q | 0 <= q < |rest|
          ensures scores[rest[q]] >= scores[last] && rest[q] != last
        {
          assert rest[q] in rest;
          LastOfRanked(scores, idx, rest[q]);
        }
        SortedSnoc(scores, rest, last);
        DistinctSnoc(rest, last);
      }
    }
  }

  /** (chunks[i], similarities[i]) for each kept index i. */
  function Pairs(chunks: seq<string>, scores: seq<real>, ks: seq<nat>): (r: seq<(string, real)>)
    requires |chunks| == |scores| && InRange(ks, |scores|)
    ensures |r| == |ks|
    ensures forall p :: 0 <= p < |ks| ==> r[p] == (chunks[ks[p]], scores[ks[p]])
    decreases |ks|
  {
    if |ks| == 0 then []
    else
      var last := ks[|ks| - 1];
      Pairs(chunks, scores, ks[..|ks| - 1]) + [(chunks[last], scores[last])]
  }

  lemma KeptSnoc(scores: seq<real>, idx: seq<nat>, x: nat)
    requires InRange(idx, |scores|) && x < |scores|
    ensures InRange(idx + [x], |scores|)
    ensures Kept(scores, idx + [x]) == Kept(scores, idx) + (if scores[x] > Threshold then [x] else [])
  {
    assert (idx + [x])[..|idx|] == idx;
  }

  lemma PairsSnoc(chunks: seq<string>, scores: seq<real>, ks: seq<nat>, x: nat)
    requires |chunks| == |scores| && InRange(ks, |scores|) && x < |scores|
    ensures InRange(ks + [x], |scores|)
    ensures Pairs(chunks, scores, ks + [x]) == Pairs(chunks, scores, ks) + [(chunks[x], scores[x])]
  {
    assert (ks + [x])[..|ks|] == ks;
  }

  /** What similarity_search returns when the ranking is `order`. */
  function Selection(chunks: seq<string>, scores: seq<real>, order: seq<nat>, topK: nat): seq<(string, real)>
    requires |chunks| == |scores| && InRange(order, |scores|)
  {
    Pairs(chunks, scores, Kept(scores, TopIndices(order, topK)))
  }

  function SearchResult(chunks: seq<string>, scores: seq<real>, topK: nat): seq<(string, real)>
    requires |chunks| == |scores|
  {
    Selection(chunks, scores, Ranking(scores), topK)
  }

  /**
   * Whatever order np.argsort puts equal scores in, the selection has at most top_k entries,
   * consists of (chunks[i], similarities[i]) for distinct indices i scoring above the threshold,
   * best first; every index among the top_k with a score above the threshold is picked, and
   * no index outside the top_k outscores a picked one.
   */
  lemma SelectionFacts(chunks: seq<string>, scores: seq<real>, order: seq<nat>, topK: nat)
    requires |chunks| == |scores| && IsRanking(scores, order)
    ensures var ks := Kept(scores, TopIndices(order, topK));
            && |ks| <= topK
            && Distinct(ks)
            && (forall p :: 0 <= p < |ks| ==> scores[ks[p]] > Threshold)
            && SortedByScore(scores, ks)
            && (forall p :: 0 <= p < |TopIndices(order, topK)| && scores[TopIndices(order, topK)[p]] > Threshold ==>
                  TopIndices(order, topK)[p] in ks)
            && (forall p, j :: 0 <= p < |ks| && 0 <= j < |scores| && j !in TopIndices(order, topK) ==>
                  scores[j] <= scores[ks[p]])
            && Selection(chunks, scores, order, topK) == Pairs(chunks, scores, ks)
  {
    var top := TopIndices(order, topK);
    var ks := Kept(scores, top);
    TopOfRanking(scores, order, topK);
    KeptOrder(scores, top);
    forall p, j | 0 <= p < |ks| && 0 <= j < |scores| && j !in top
      ensures scores[j] <= scores[ks[p]]
    {
      assert ks[p] in ks;
      OutsideTopScoresLower(scores, order, topK, ks[p], j);
    }
  }

  /** The first top_k entries of a ranking are a ranking of their own, of at most top_k indices. */
  lemma TopOfRanking(scores: seq<real>, order: seq<nat>, topK: nat)
    requires IsRanking(scores, order)
    ensures var top := TopIndices(order, topK);
            && |top| <= topK && InRange(top, |scores|)
            && SortedByScore(scores, top) && Distinct(top)
  {
    var top := TopIndices(order, topK);
    assert forall p :: 0 <= p < |top| ==> top[p] == order[p];
  }

  /** An index the ranking puts after the first top_k scores no more than one among them. */
  lemma OutsideTopScoresLower(scores: seq<real>, order: seq<nat>, topK: nat, x: nat, j: nat)
    requires IsRanking(scores, order)
    requires x in TopIndices(order, topK) && j < |scores| && j !in TopIndices(order, topK)
    ensures scores[j] <= scores[x]
  {
    var top := TopIndices(order, topK);
    var a :| 0 <= a < |top| && top[a] == x;
    assert top[a] == order[a];
    assert j in order;
    var b :| 0 <= b < |order| && order[b] == j;
    assert b >= |top| by {
      assert forall c :: 0 <= c < |top| ==> top[c] == order[c];
    }
  }

  /** The selection as the caller sees it: at most top_k pairs, all above the threshold, best first. */
  lemma SearchResultFacts(chunks: seq<string>, scores: seq<real>, topK: nat)
    requires |chunks| == |scores|
    ensures var results := SearchResult(chunks, scores, topK);
            && |results| <= topK
            && (forall p :: 0 <= p < |results| ==> results[p].1 > Threshold)
            && (forall p, q :: 0 <= p < q < |results| ==> results[p].1 >= results[q].1)
  {
    SelectionFacts(chunks, scores, Ranking(scores), topK);
  }

  /** The loop of similarity_search: walk the top indices and keep those above the threshold. */
  method CollectRelevant(chunks: seq<string>, scores: seq<real>, topIndices: seq<nat>) returns (results: seq<(string, real)>)
    requires |chunks| == |scores| && InRange(topIndices, |scores|)
    ensures results == Pairs(chunks, scores, Kept(scores, topIndices))
  {
    results := [];
    for p := 0 to |topIndices|
      invariant results == Pairs(chunks, scores, Kept(scores, topIndices[..p]))
    {
      var idx := topIndices[p];
      CollectStep(chunks, scores, topIndices, p);
      if scores[idx] > Threshold {
        results := results + [(chunks[idx], scores[idx])];
      }
    }
    assert topIndices[..|topIndices|] == topIndices;
  }

  /** One more index either adds its pair to the selection or, below the threshold, nothing. */
  lemma CollectStep(chunks: seq<string>, scores: seq<real>, idx: seq<nat>, p: nat)
    requires |chunks| == |scores| && InRange(idx, |scores|) && p < |idx|
    ensures Pairs(chunks, scores, Kept(scores, idx[..p + 1]))
         == Pairs(chunks, scores, Kept(scores, idx[..p]))
            + (if scores[idx[p]] > Threshold then [(chunks[idx[p]], scores[idx[p]])] else [])
  {
    var x := idx[p];
    assert idx[..p + 1] == idx[..p] + [x];
    KeptSnoc(scores, idx[..p], x);
    if scores[x] > Threshold {
      PairsSnoc(chunks, scores, Kept(scores, idx[..p]), x);
    }
  }

  /** similarity_search(query, embeddings, chunks, top_k) with the similarities given. */
  method SimilaritySearch(chunks: seq<string>, scores: seq<real>, topK: nat) returns (results: seq<(string, real)>)
    requires |chunks| == |scores|
    ensures results == SearchResult(chunks, scores, topK)
    ensures |results| <= topK
    ensures forall p :: 0 <= p < |results| ==> results[p].1 > Threshold
    ensures forall p, q :: 0 <= p < q < |results| ==> results[p].1 >= results[q].1
  {
    var topIndices := TopIndices(Ranking(scores), topK);
    results := CollectRelevant(chunks, scores, topIndices);
    SearchResultFacts(chunks, scores, topK);
  }

  // ----- the merge in rag_query -----

  /** A stored document: its filename, its chunks, and the similarity of each chunk to the query. */
  datatype Document = Document(filename: string, chunks: seq<string>, scores: seq<real>)

  /** One embedding per chunk, as upload_document stores them. */
  predicate Searchable(d: Document)
  {
    |d.chunks| == |d.scores|
  }

  predicate AllSearchable(docs: seq<Document>)
  {
    forall k :: 0 <= k < |docs| ==> Searchable(docs[k])
  }

  /** An entry of all_results: (chunk, score, filename). */
  datatype Hit = Hit(chunk: string, score: real, filename: string)

  function Tag(results: seq<(string, real)>, filename: string): (hits: seq<Hit>)
    ensures |hits| == |results|
    decreases |results|
  {
    if |results| == 0 then []
    else
      var (chunk, score) := results[|results| - 1];
      Tag(results[..|results| - 1], filename) + [Hit(chunk, score, filename)]
  }

  /** What one document adds to all_results. */
  function DocumentHits(d: Document): (hits: seq<Hit>)
    requires Searchable(d)
    ensures |hits| <= PerDocumentTopK
  {
    SearchResultFacts(d.chunks, d.scores, PerDocumentTopK);
    Tag(SearchResult(d.chunks, d.scores, PerDocumentTopK), d.filename)
  }

  function AllHits(docs: seq<Document>): seq<Hit>
    requires AllSearchable(docs)
  {
    if |docs| == 0 then []
    else AllHits(docs[..|docs| - 1]) + DocumentHits(docs[|docs| - 1])
  }

  function Names(hits: seq<Hit>): (names: seq<string>)
    ensures |names| == |hits|
  {
    if |hits| == 0 then [] else Names(hits[..|hits| - 1]) + [hits[|hits| - 1].filename]
  }

  lemma TagSnoc(results: seq<(string, real)>, filename: string, r: (string, real))
    ensures Tag(results + [r], filename) == Tag(results, filename) + [Hit(r.0, r.1, filename)]
  {
    assert (results + [r])[..|results|] == results;
  }

  lemma NamesSnoc(hits: seq<Hit>, h: Hit)
    ensures Names(hits + [h]) == Names(hits) + [h.filename]
  {
    assert (hits + [h])[..|hits|] == hits;
  }

  /** source_docs.append(filename) unless it is already listed. */
  function AddSource(sources: seq<string>, filename: string): seq<string>
  {
    if filename in sources then sources else sources + [filename]
  }

  /**
   * The inner loop of rag_query for one document: append each result, tagged with the
   * filename, and append the filename to source_docs unless it is already there.
   */
  method AppendDocumentResults(allResults: seq<Hit>, sourceDocs: seq<string>, docResults: seq<(string, real)>, filename: string)
    returns (allResults': seq<Hit>, sourceDocs': seq<string>)
    ensures allResults' == allResults + Tag(docResults, filename)
    ensures sourceDocs' == if |docResults| == 0 then sourceDocs else AddSource(sourceDocs, filename)
  {
    allResults', sourceDocs' := allResults, sourceDocs;
    for j := 0 to |docResults|
      invariant allResults' == allResults + Tag(docResults[..j], filename)
      invariant sourceDocs' == if j == 0 then sourceDocs else AddSource(sourceDocs, filename)
    {
      var result := docResults[j];
      assert docResults[..j + 1] == docResults[..j] + [result];
      TagSnoc(docResults[..j], filename, result);
      allResults' := allResults' + [Hit(result.0, result.1, filename)];
      if filename !in sourceDocs' {
        sourceDocs' := sourceDocs' + [filename];
      }
    }
    assert docResults[..|docResults|] == docResults;
  }

  lemma DedupAddSource(names: seq<string>, filename: string)
    ensures Dedup(names + [filename]) == AddSource(Dedup(names), filename)
  {
    DedupSnoc(names, filename);
  }

  /** Adding a source that is already listed changes nothing. */
  lemma AddSourceTwice(sources: seq<string>, filename: string)
    ensures AddSource(AddSource(sources, filename), filename) == AddSource(sources, filename)
  {
  }

  /** What one document's results do to Dedup(Names(all_results)). */
  lemma {:induction false} DedupNamesTag(hits: seq<Hit>, docResults: seq<(string, real)>, filename: string)
    ensures Dedup(Names(hits + Tag(docResults, filename)))
         == if |docResults| == 0 then Dedup(Names(hits)) else AddSource(Dedup(Names(hits)), filename)
    decreases |docResults|
  {
    if |docResults| == 0 {
      assert hits + Tag(docResults, filename) == hits;
    } else {
      var init := docResults[..|docResults| - 1];
      var last := docResults[|docResults| - 1];
      var hit := Hit(last.0, last.1, filename);
      assert docResults == init + [last];
      TagSnoc(init, filename, last);
      var before := hits + Tag(init, filename);
      assert hits + Tag(docResults, filename) == before + [hit];
      DedupNamesTag(hits, init, filename);
      NamesSnoc(before, hit);
      DedupAddSource(Names(before), filename);
      AddSourceTwice(Dedup(Names(hits)), filename);
    }
  }

  /**
   * The loop of rag_query over the documents: all_results collects every document's hits
   * in document order, and source_docs gets a filename the first time that file contributes a hit.
   */
  method MergeResults(docs: seq<Document>) returns (allResults: seq<Hit>, sourceDocs: seq<string>)
    requires AllSearchable(docs)
    ensures allResults == AllHits(docs)
    ensures sourceDocs == Dedup(Names(allResults))
  {
    allResults, sourceDocs := [], [];
    for k := 0 to |docs|
      invariant allResults == AllHits(docs[..k])
      invariant sourceDocs == Dedup(Names(allResults))
    {
      var doc := docs[k];
      var docResults := SimilaritySearch(doc.chunks, doc.scores, PerDocumentTopK);
      DedupNamesTag(allResults, docResults, doc.filename);
      allResults, sourceDocs := AppendDocumentResults(allResults, sourceDocs, docResults, doc.filename);
      assert docs[..k + 1][..k] == docs[..k];
    }
    assert docs[..|docs|] == docs;
  }

  lemma {:induction false} NamesAppend(a: seq<Hit>, b: seq<Hit>)
    ensures Names(a + b) == Names(a) + Names(b)
    decreases |b|
  {
    if |b| > 0 {
      assert (a + b)[..|a + b| - 1] == a + b[..|b| - 1];
      NamesAppend(a, b[..|b| - 1]);
    } else {
      assert a + b == a;
    }
  }

  lemma {:induction false} NamesOfTag(results: seq<(string, real)>, filename: string)
    ensures forall p :: 0 <= p < |results| ==> Names(Tag(results, filename))[p] == filename
    decreases |results|
  {
    if |results| > 0 {
      NamesOfTag(results[..|results| - 1], filename);
    }
  }

  /** Document d is named x and had at least one chunk selected. */
  predicate Contributes(d: Document, x: string)
    requires Searchable(d)
  {
    d.filename == x && |DocumentHits(d)| > 0
  }

  /** Some stored document named x had at least one chunk selected. */
  ghost predicate Contributed(docs: seq<Document>, x: string)
    requires AllSearchable(docs)
  {
    exists k :: 0 <= k < |docs| && Contributes(docs[k], x)
  }

  lemma ContributedSnoc(docs: seq<Document>, x: string)
    requires AllSearchable(docs) && |docs| > 0
    ensures Contributed(docs, x) <==> Contributed(docs[..|docs| - 1], x) || Contributes(docs[|docs| - 1], x)
  {
    var init := docs[..|docs| - 1];
    var last := |docs| - 1;
    if Contributed(init, x) {
      var k :| 0 <= k < |init| && Contributes(init[k], x);
      assert docs[k] == init[k];
      assert Contributes(docs[k], x);
    }
    if Contributes(docs[last], x) {
      assert 0 <= last < |docs| && Contributes(docs[last], x);
    }
    if Contributed(docs, x) {
      var k :| 0 <= k < |docs| && Contributes(docs[k], x);
      if k < |init| {
        assert init[k] == docs[k];
        assert Contributes(init[k], x);
      } else {
        assert k == last;
      }
    }
  }

  lemma OwnNames(d: Document, x: string)
    requires Searchable(d)
    ensures x in Names(DocumentHits(d)) <==> Contributes(d, x)
  {
    var own := Names(DocumentHits(d));
    NamesOfTag(SearchResult(d.chunks, d.scores, PerDocumentTopK), d.filename);
    if x in own {
      var p :| 0 <= p < |own| && own[p] == x;
    }
    if Contributes(d, x) {
      assert own[0] == x;
    }
  }

  /** A filename occurs among the merged hits exactly when some document of that name contributed a hit. */
  lemma {:induction false} Contributors(docs: seq<Document>, x: string)
    requires AllSearchable(docs)
    ensures x in Names(AllHits(docs)) <==> Contributed(docs, x)
  {
    if |docs| > 0 {
      var init := docs[..|docs| - 1];
      var d := docs[|docs| - 1];
      Contributors(init, x);
      NamesAppend(AllHits(init), DocumentHits(d));
      OwnNames(d, x);
      ContributedSnoc(docs, x);
    }
  }

  function CountNamed(docs: seq<Document>, x: string): nat
  {
    if |docs| == 0 then 0
    else CountNamed(docs[..|docs| - 1], x) + (if docs[|docs| - 1].filename == x then 1 else 0)
  }

  /** A file contributes at most three hits per stored document carrying its name. */
  lemma {:induction false} HitsPerFilename(docs: seq<Document>, x: string)
    requires AllSearchable(docs)
    ensures multiset(Names(AllHits(docs)))[x] <= PerDocumentTopK * CountNamed(docs, x)
  {
    if |docs| > 0 {
      var init := docs[..|docs| - 1];
      var d := docs[|docs| - 1];
      HitsPerFilename(init, x);
      NamesAppend(AllHits(init), DocumentHits(d));
      var own := Names(DocumentHits(d));
      NamesOfTag(SearchResult(d.chunks, d.scores, PerDocumentTopK), d.filename);
      assert multiset(own)[x] <= if d.filename == x then PerDocumentTopK else 0 by {
        if d.filename != x {
          assert x !in own;
        } else {
          assert multiset(own)[x] <= |own|;
        }
      }
    }
  }

  // ----- all_results.sort(key=score, reverse=True)[:5] -----

  predicate HitsSorted(s: seq<Hit>)
  {
    forall p, q :: 0 <= p < q < |s| ==> s[p].score >= s[q].score
  }

  /**
   * Insert after every entry scoring at least as much: equal scores keep their arrival order.
   * The last ensures (the new last entry is h or the old last entry) is what the recursive
   * call needs to show the re-appended entry still sorts after the rest.
   */
  function InsertHit(sorted: seq<Hit>, h: Hit): (r: seq<Hit>)
    requires HitsSorted(sorted)
    ensures HitsSorted(r)
    ensures |r| == |sorted| + 1
    ensures r[|r| - 1] == h || (|sorted| > 0 && r[|r| - 1] == sorted[|sorted| - 1])
    decreases |sorted|
  {
    if |sorted| == 0 || sorted[|sorted| - 1].score >= h.score then sorted + [h]
    else
      var init := sorted[..|sorted| - 1];
      var last := sorted[|sorted| - 1];
      assert sorted == init + [last];
      var front := InsertHit(init, h);
      assert front[|front| - 1].score >= last.score;
      front + [last]
  }

  /** The insertion adds exactly the one hit. */
  lemma {:induction false} InsertHitPerm(sorted: seq<Hit>, h: Hit)
    requires HitsSorted(sorted)
    ensures multiset(InsertHit(sorted, h)) == multiset(sorted) + multiset{h}
    decreases |sorted|
  {
    if |sorted| > 0 && sorted[|sorted| - 1].score < h.score {
      var init := sorted[..|sorted| - 1];
      InsertHitUnfold(sorted, h);
      InsertHitPerm(init, h);
      assert sorted == init + [sorted[|sorted| - 1]];
    }
  }

  /** A stable sort by score, highest first (Python's list.sort is stable, also with reverse=True). */
  function SortByScore(hits: seq<Hit>): (r: seq<Hit>)
    ensures HitsSorted(r)
    ensures multiset(r) == multiset(hits)
  {
    if |hits| == 0 then []
    else
      assert hits == hits[..|hits| - 1] + [hits[|hits| - 1]];
      InsertHitPerm(SortByScore(hits[..|hits| - 1]), hits[|hits| - 1]);
      InsertHit(SortByScore(hits[..|hits| - 1]), hits[|hits| - 1])
  }

  /** The hits scoring exactly v, in their order in s. */
  function WithScore(s: seq<Hit>, v: real): (r: seq<Hit>)
    ensures |r| <= |s|
    decreases |s|
  {
    if |s| == 0 then []
    else WithScore(s[..|s| - 1], v) + (if s[|s| - 1].score == v then [s[|s| - 1]] else [])
  }

  lemma WithScoreSnoc(s: seq<Hit>, h: Hit, v: real)
    ensures WithScore(s + [h], v) == WithScore(s, v) + (if h.score == v then [h] else [])
  {
    assert (s + [h])[..|s|] == s;
  }

  /** Inserting h behind a last entry that scores less: h goes into the front part. */
  lemma InsertHitUnfold(sorted: seq<Hit>, h: Hit)
    requires HitsSorted(sorted) && |sorted| > 0 && sorted[|sorted| - 1].score < h.score
    ensures HitsSorted(sorted[..|sorted| - 1])
    ensures InsertHit(sorted, h) == InsertHit(sorted[..|sorted| - 1], h) + [sorted[|sorted| - 1]]
  {
    var init := sorted[..|sorted| - 1];
    assert forall p :: 0 <= p < |init| ==> init[p] == sorted[p];
  }

  /** A hit scoring below h can be moved behind it without changing any equal-score order. */
  lemma StableCombine(front: seq<Hit>, init: seq<Hit>, last: Hit, h: Hit, v: real)
    requires last.score < h.score
    requires WithScore(front, v) == WithScore(init, v) + (if h.score == v then [h] else [])
    ensures WithScore(front + [last], v) == WithScore(init + [last], v) + (if h.score == v then [h] else [])
  {
    WithScoreSnoc(front, last, v);
    WithScoreSnoc(init, last, v);
  }

  /** Inserting h leaves the hits of every score in order, with h after those of its own score. */
  lemma {:induction false} InsertHitStable(sorted: seq<Hit>, h: Hit, v: real)
    requires HitsSorted(sorted)
    ensures WithScore(InsertHit(sorted, h), v) == WithScore(sorted, v) + (if h.score == v then [h] else [])
    decreases |sorted|
  {
    if |sorted| == 0 || sorted[|sorted| - 1].score >= h.score {
      WithScoreSnoc(sorted, h, v);
    } else {
      InsertHitStable(sorted[..|sorted| - 1], h, v);
      InsertHitStableStep(sorted, h, v);
    }
  }

  lemma InsertHitStableStep(sorted: seq<Hit>, h: Hit, v: real)
    requires HitsSorted(sorted) && |sorted| > 0 && sorted[|sorted| - 1].score < h.score
    requires HitsSorted(sorted[..|sorted| - 1])
    requires WithScore(InsertHit(sorted[..|sorted| - 1], h), v)
          == WithScore(sorted[..|sorted| - 1], v) + (if h.score == v then [h] else [])
    ensures WithScore(InsertHit(sorted, h), v) == WithScore(sorted, v) + (if h.score == v then [h] else [])
  {
    var init := sorted[..|sorted| - 1];
    var last := sorted[|sorted| - 1];
    InsertHitUnfold(sorted, h);
    StableCombine(InsertHit(init, h), init, last, h, v);
    assert sorted == init + [last];
  }

  /** The sort is stable: for every score, the hits with that score keep their arrival order. */
  lemma {:induction false} SortByScoreStable(hits: seq<Hit>, v: real)
    ensures WithScore(SortByScore(hits), v) == WithScore(hits, v)
    decreases |hits|
  {
    if |hits| > 0 {
      var init := hits[..|hits| - 1];
      var last := hits[|hits| - 1];
      SortByScoreStable(init, v);
      InsertHitStable(SortByScore(init), last, v);
      assert hits == init + [last];
      WithScoreSnoc(init, last, v);
    }
  }

  function TopResults(hits: seq<Hit>): seq<Hit>
  {
    var sorted := SortByScore(hits);
    sorted[..Min(MaxContextChunks, |sorted|)]
  }

  /** In a list sorted best first, nothing after the first m entries outscores the m-th. */
  lemma DroppedScoreBound(sorted: seq<Hit>, m: nat)
    requires HitsSorted(sorted) && 0 < m <= |sorted|
    ensures forall h :: h in multiset(sorted[m..]) ==> h.score <= sorted[m - 1].score
  {
    forall h | h in multiset(sorted[m..])
      ensures h.score <= sorted[m - 1].score
    {
      assert h in sorted[m..];
      var j :| 0 <= j < |sorted| - m && sorted[m..][j] == h;
      assert sorted[m + j] == h;
    }
  }

  /**
   * top_results holds min(5, n) of the merged hits, best first, and every merged hit that
   * did not make it scores no more than the last one kept.
   */
  lemma TopResultsFacts(hits: seq<Hit>)
    ensures var top := TopResults(hits);
            && |top| == Min(MaxContextChunks, |hits|)
            && HitsSorted(top)
            && multiset(top) <= multiset(hits)
            && (|top| > 0 ==> forall h :: h in multiset(hits) - multiset(top) ==> h.score <= top[|top| - 1].score)
  {
    var sorted := SortByScore(hits);
    assert |sorted| == |hits| by {
      assert |multiset(sorted)| == |multiset(hits)|;
    }
    SortedPrefix(sorted, Min(MaxContextChunks, |sorted|));
  }

  /** A prefix of a sorted list is sorted, and what it leaves out scores no more than its last entry. */
  lemma SortedPrefix(sorted: seq<Hit>, m: nat)
    requires HitsSorted(sorted) && m <= |sorted|
    ensures HitsSorted(sorted[..m])
    ensures multiset(sorted[..m]) <= multiset(sorted)
    ensures m > 0 ==> forall h :: h in multiset(sorted) - multiset(sorted[..m]) ==> h.score <= sorted[..m][m - 1].score
  {
    var top := sorted[..m];
    assert sorted == top + sorted[m..];
    assert multiset(sorted) - multiset(top) == multiset(sorted[m..]);
    if m > 0 {
      DroppedScoreBound(sorted, m);
      assert top[m - 1] == sorted[m - 1];
    }
  }

  // ----- rag_query -----

  datatype QueryError = EmptyQuery | NoProcessedDocuments

  datatype QueryResponse = QueryResponse(answer: string, sources: seq<string>, contextUsed: seq<string>)

  const NoAnswerIndonesian: string := "Maaf, saya tidak dapat menemukan informasi yang relevan dalam dokumen Anda untuk menjawab pertanyaan tersebut."
  const NoAnswerEnglish: string := "Sorry, I couldn't find relevant information in your documents to answer that question."

  function NoAnswer(language: string): string
  {
    if language == "id" then NoAnswerIndonesian else NoAnswerEnglish
  }

  /** The guard at the top of rag_query: a query that strips to nothing is refused. */
  function CheckQuery(query: string): (r: Result<(), QueryError>)
    ensures r.Err? <==> AllSpace(query)
    ensures r.Err? ==> r.error == EmptyQuery
  {
    StripEmptyIffAllSpace(query);
    if Strip(query) == "" then Err(EmptyQuery) else Ok(())
  }

  function ChunksOf(hits: seq<Hit>): (cs: seq<string>)
    ensures |cs| == |hits|
    ensures forall p :: 0 <= p < |hits| ==> cs[p] == hits[p].chunk
  {
    seq(|hits|, p requires 0 <= p < |hits| => hits[p].chunk)
  }

  /**
   * The outcome of rag_query over the user's processed documents. `generated` is the text the
   * chat model returns for the context; it is used only when some context was found.
   */
  function QueryResult(query: string, language: string, docs: seq<Document>, generated: string): Result<QueryResponse, QueryError>
    requires AllSearchable(docs)
  {
    if CheckQuery(query).Err? then Err(EmptyQuery)
    else if |docs| == 0 then Err(NoProcessedDocuments)
    else
      var hits := AllHits(docs);
      var top := TopResults(hits);
      if |top| == 0 then Ok(QueryResponse(NoAnswer(language), [], []))
      else Ok(QueryResponse(generated, Dedup(Names(hits)), ChunksOf(top)))
  }

  /** rag_query refuses a blank question, and otherwise refuses only when no document is processed. */
  lemma QueryRefusals(query: string, language: string, docs: seq<Document>, generated: string)
    requires AllSearchable(docs)
    ensures var r := QueryResult(query, language, docs, generated);
            && (r == Err(EmptyQuery) <==> AllSpace(query))
            && (r == Err(NoProcessedDocuments) <==> !AllSpace(query) && |docs| == 0)
  {
  }

  /**
   * An answered query uses at most five context chunks; with no hit at all it gives the fixed
   * apology with empty sources and context, and otherwise it returns the model's answer.
   */
  lemma QueryContextFacts(query: string, language: string, docs: seq<Document>, generated: string)
    requires AllSearchable(docs)
    ensures var r := QueryResult(query, language, docs, generated);
            r.Ok? ==>
              && |r.value.contextUsed| <= MaxContextChunks
              && (r.value.contextUsed == [] <==> AllHits(docs) == [])
              && (r.value.contextUsed == [] ==> r.value.sources == [] && r.value.answer == NoAnswer(language))
              && (r.value.contextUsed != [] ==> r.value.answer == generated)
  {
    if CheckQuery(query).Ok? && |docs| > 0 {
      TopResultsFacts(AllHits(docs));
    }
  }

  /**
   * The sources of an answered query list each file once, exactly the files that contributed a
   * hit, in the order in which they first did.
   */
  lemma QuerySourcesFacts(query: string, language: string, docs: seq<Document>, generated: string)
    requires AllSearchable(docs)
    ensures var r := QueryResult(query, language, docs, generated);
            r.Ok? ==>
              && Distinct(r.value.sources)
              && (forall x :: x in r.value.sources <==> Contributed(docs, x))
              && (forall x :: x in r.value.sources <==> x in Names(AllHits(docs)))
              && (forall p, q :: 0 <= p < q < |r.value.sources| ==>
                    FirstIndex(Names(AllHits(docs)), r.value.sources[p]) < FirstIndex(Names(AllHits(docs)), r.value.sources[q]))
  {
    if CheckQuery(query).Ok? && |docs| > 0 {
      var hits := AllHits(docs);
      var names := Names(hits);
      var sources := QueryResult(query, language, docs, generated).value.sources;
      TopResultsFacts(hits);
      assert sources == Dedup(names) by {
        if hits == [] {
          assert names == [];
        }
      }
      DedupFacts(names);
      DedupFirstOccurrenceOrder(names);
      forall x ensures x in sources <==> Contributed(docs, x)
      {
        Contributors(docs, x);
      }
    }
  }

  /** rag_query from the empty-query guard to the response, with the model's answer given. */
  method RagQuery(query: string, language: string, docs: seq<Document>, generated: string) returns (r: Result<QueryResponse, QueryError>)
    requires AllSearchable(docs)
    ensures r == QueryResult(query, language, docs, generated)
  {
    var guard := CheckQuery(query);
    if guard.Err? {
      return Err(EmptyQuery);
    }
    if |docs| == 0 {
      return Err(NoProcessedDocuments);
    }
    var allResults, sourceDocs := MergeResults(docs);
    allResults := SortByScore(allResults);
    var topResults := allResults[..Min(MaxContextChunks, |allResults|)];
    if |topResults| == 0 {
      return Ok(QueryResponse(NoAnswer(language), [], []));
    }
    var contextUsed := ChunksOf(topResults);
    return Ok(QueryResponse(generated, sourceDocs, contextUsed));
  }
}
