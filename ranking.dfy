/** The selection half of `get_most_relevant_chunk`: argsort the chunks'
    similarity scores, take the last `top_n` indices, reverse them. The TF-IDF
    and cosine-similarity scoring is external: a score per chunk is an input. */
module Ranking {
  import opened Prelude

  predicate Distinct(s: seq<nat>) {
    forall a, b :: 0 <= a < b < |s| ==> s[a] != s[b]
  }

  predicate InRange(s: seq<nat>, n: nat) {
    forall a :: 0 <= a < |s| ==> s[a] < n
  }

  /** `s` lists indices of `scores` in order of non-decreasing score. */
  predicate Ascending(scores: seq<real>, s: seq<nat>) {
    InRange(s, |scores|) && forall a, b :: 0 <= a < b < |s| ==> scores[s[a]] <= scores[s[b]]
  }

  /** `s` lists indices of `scores` in order of non-increasing score. */
  predicate Descending(scores: seq<real>, s: seq<nat>) {
    InRange(s, |scores|) && forall a, b :: 0 <= a < b < |s| ==> scores[s[a]] >= scores[s[b]]
  }

  /** What `numpy.argsort` may return: every index exactly once, by non-decreasing
      score. Ties may come in any order; nothing below depends on it. */
  predicate IsArgsort(scores: seq<real>, order: seq<nat>) {
    |order| == |scores| && Distinct(order) && Ascending(scores, order) &&
    forall x :: 0 <= x < |scores| ==> x in order
  }

  lemma HeadLeast(scores: seq<real>, s: seq<nat>)
    requires Ascending(scores, s) && s != []
    ensures forall y :: y in s[1..] ==> scores[s[0]] <= scores[y]
  {
    forall y | y in s[1..] ensures scores[s[0]] <= scores[y] {
      var q :| 0 <= q < |s[1..]| && s[1..][q] == y;
      assert s[q + 1] == y;
    }
  }

  /** Insertion of index `i` into a list of indices kept in ascending score order. */
  function Insert(scores: seq<real>, s: seq<nat>, i: nat): (r: seq<nat>)
    requires i < |scores| && InRange(s, |scores|)
    ensures |r| == |s| + 1 && InRange(r, |scores|)
    ensures forall x :: x in r <==> x in s || x == i
  {
    if s == [] || scores[i] <= scores[s[0]] then
      [i] + s
    else
      [s[0]] + Insert(scores, s[1..], i)
  }

  lemma {:induction false} InsertAscending(scores: seq<real>, s: seq<nat>, i: nat)
    requires i < |scores| && Ascending(scores, s)
    ensures Ascending(scores, Insert(scores, s, i))
  {
    if s != [] && scores[i] > scores[s[0]] {
      InsertAscending(scores, s[1..], i);
      HeadLeast(scores, s);
      var r := Insert(scores, s, i);
      assert r == [s[0]] + Insert(scores, s[1..], i);
      forall b | 0 < b < |r| ensures scores[r[0]] <= scores[r[b]] {
        assert r[b] in Insert(scores, s[1..], i);
      }
    }
  }

  lemma {:induction false} InsertDistinct(scores: seq<real>, s: seq<nat>, i: nat)
    requires i < |scores| && InRange(s, |scores|) && Distinct(s) && i !in s
    ensures Distinct(Insert(scores, s, i))
  {
    if s != [] && scores[i] > scores[s[0]] {
      assert forall x :: x in s[1..] ==> x in s;
      InsertDistinct(scores, s[1..], i);
      var r := Insert(scores, s, i);
      assert r == [s[0]] + Insert(scores, s[1..], i);
      assert s[0] !in s[1..];
      forall b | 0 < b < |r| ensures r[0] != r[b] {
        assert r[b] in Insert(scores, s[1..], i);
      }
    }
  }

  /** Indices 0 .. k-1 in order of non-decreasing score. */
  function ArgsortPrefix(scores: seq<real>, k: nat): (r: seq<nat>)
    requires k <= |scores|
    ensures |r| == k && Distinct(r) && Ascending(scores, r)
    ensures forall x: nat :: x in r <==> x < k
  {
    if k == 0 then [] else
      var prev := ArgsortPrefix(scores, k - 1);
      InsertAscending(scores, prev, k - 1);
      InsertDistinct(scores, prev, k - 1);
      Insert(scores, prev, k - 1)
  }

  /** One admissible argsort: the one `Routes.Chat` uses (through `GetMostRelevantChunk`). */
  function Argsort(scores: seq<real>): (order: seq<nat>)
    ensures IsArgsort(scores, order)
  {
    ArgsortPrefix(scores, |scores|)
  }

  /** The start index Python gives the slice `a[start:]` of a sequence of length `n`. */
  function SliceStart(start: int, n: nat): (i: nat)
    ensures i <= n
  {
    if start < 0 then (if start + n < 0 then 0 else start + n)
    else if start > n then n
    else start
  }

  /** `order[-top_n:][::-1]`. */
  function TopIndices(order: seq<nat>, topN: int): seq<nat> {
    var tail := order[SliceStart(-topN, |order|)..];
    seq(|tail|, k requires 0 <= k < |tail| => tail[|tail| - 1 - k])
  }

  /** For top_n >= 1 the selection holds min(top_n, n) distinct indices, by
      non-increasing score, and no index left out scores above one taken. */
  lemma TopIndicesSpec(scores: seq<real>, order: seq<nat>, topN: int)
    requires IsArgsort(scores, order) && topN >= 1
    ensures |TopIndices(order, topN)| == Min(topN, |scores|)
    ensures Distinct(TopIndices(order, topN))
    ensures Descending(scores, TopIndices(order, topN))
    ensures forall x, k :: 0 <= x < |scores| && x !in TopIndices(order, topN) && 0 <= k < |TopIndices(order, topN)| ==>
              scores[x] <= scores[TopIndices(order, topN)[k]]
  {
    var start := SliceStart(-topN, |order|);
    var tail := order[start..];
    var r := TopIndices(order, topN);
    assert forall k :: 0 <= k < |r| ==> r[k] == order[start + |tail| - 1 - k];
    forall q | start <= q < |order| ensures order[q] in r {
      assert r[|tail| - 1 - (q - start)] == order[q];
    }
    forall x, k | 0 <= x < |scores| && x !in r && 0 <= k < |r|
      ensures scores[x] <= scores[r[k]]
    {
      assert x in order;
      var p :| 0 <= p < |order| && order[p] == x;
      assert r[k] == order[start + |tail| - 1 - k];
    }
  }

  /** With top_n = 1 and at least one chunk, the one index chosen has a maximal score. */
  lemma TopOneIsMaximal(scores: seq<real>, order: seq<nat>)
    requires IsArgsort(scores, order) && |scores| > 0
    ensures |TopIndices(order, 1)| == 1
    ensures TopIndices(order, 1)[0] < |scores|
    ensures forall j :: 0 <= j < |scores| ==> scores[j] <= scores[TopIndices(order, 1)[0]]
  {
    TopIndicesSpec(scores, order, 1);
    var r := TopIndices(order, 1);
    forall j | 0 <= j < |scores| ensures scores[j] <= scores[r[0]] {
      if j !in r {
      } else {
        assert j == r[0];
      }
    }
  }

  /** With top_n = 0 the slice `[-0:]` is the whole argsort, so every index is
      returned, by non-increasing score. */
  lemma TopZeroKeepsAll(scores: seq<real>, order: seq<nat>)
    requires IsArgsort(scores, order)
    ensures |TopIndices(order, 0)| == |scores|
    ensures Descending(scores, TopIndices(order, 0))
    ensures Distinct(TopIndices(order, 0))
    ensures forall x :: 0 <= x < |scores| ==> x in TopIndices(order, 0)
  {
    var r := TopIndices(order, 0);
    assert SliceStart(0, |order|) == 0;
    assert order[0..] == order;
    assert forall k :: 0 <= k < |r| ==> r[k] == order[|order| - 1 - k];
    forall x | 0 <= x < |scores| ensures x in r {
      assert x in order;
      var p :| 0 <= p < |order| && order[p] == x;
      assert r[|order| - 1 - p] == x;
    }
  }

  /** The similarity of the question to each chunk, in chunk order: the
      vectorizer is fitted on the question and all chunks together, so each
      score may depend on every chunk. */
  function Similarities(question: string, chunks: seq<string>, similarity: (string, seq<string>, nat) -> real): (s: seq<real>)
    ensures |s| == |chunks|
  {
    seq(|chunks|, k requires 0 <= k < |chunks| => similarity(question, chunks, k))
  }

  /** `ix` is a selection `TopIndicesSpec` promises: distinct indices of `scores`,
      by non-increasing score, with no index left out scoring above one taken. */
  predicate TopSelection(scores: seq<real>, ix: seq<nat>) {
    Distinct(ix) && Descending(scores, ix) &&
    forall x, k :: 0 <= x < |scores| && x !in ix && 0 <= k < |ix| ==> scores[x] <= scores[ix[k]]
  }

  /** `get_most_relevant_chunk(text_chunks, question, top_n)`. */
  function GetMostRelevantChunk(chunks: seq<string>, question: string,
                                similarity: (string, seq<string>, nat) -> real, topN: int): (r: seq<string>)
    ensures topN >= 1 ==> |r| == Min(topN, |chunks|)
    ensures topN >= 1 ==>
              exists ix :: |ix| == |r| && TopSelection(Similarities(question, chunks, similarity), ix) &&
                forall k :: 0 <= k < |r| ==> r[k] == chunks[ix[k]]
    ensures topN == 1 && chunks != [] ==>
              exists k :: 0 <= k < |chunks| && r[0] == chunks[k] &&
                forall j :: 0 <= j < |chunks| ==> Similarities(question, chunks, similarity)[j] <= Similarities(question, chunks, similarity)[k]
  {
    var scores := Similarities(question, chunks, similarity);
    var order := Argsort(scores);
    var ix := TopIndices(order, topN);
    assert InRange(ix, |chunks|);
    var r := seq(|ix|, k requires 0 <= k < |ix| => chunks[ix[k]]);
    if topN == 1 && chunks != [] then
      TopOneIsMaximal(scores, order);
      TopIndicesSpec(scores, order, topN);
      assert TopSelection(scores, ix);
      assert r[0] == chunks[ix[0]];
      r
    else if topN >= 1 then
      TopIndicesSpec(scores, order, topN);
      assert TopSelection(scores, ix);
      r
    else
      r
  }
}
