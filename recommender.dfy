/**
 * The `HashtagRecommender` class: a vectorizer with the default settings,
 * one row per training text and the tag list of every training text.
 * Loading fits the vectorizer and vectorizes the texts; a query ranks the
 * tags of the training texts most similar to it.
 *
 * Reading the CSV files and the pickle cache is outside the model: the
 * texts and tag lists arrive as parameters of `Load`.
 */
module Recommending {
  import opened Wrappers
  import opened Features
  import opened Corpus
  import opened Vocab
  import opened Vectorizing
  import opened Tags

  /** `np.dot` of two rows of equal length. */
  function Dot(u: seq<real>, v: seq<real>): real
    requires |u| == |v|
    decreases |u|
  {
    if u == [] then 0.0 else Dot(u[..|u| - 1], v[..|v| - 1]) + u[|u| - 1] * v[|v| - 1]
  }

  /** A row against an all-zero query has similarity 0. */
  lemma {:induction false} DotZero(u: seq<real>, v: seq<real>)
    requires |u| == |v| && forall j :: 0 <= j < |v| ==> v[j] == 0.0
    ensures Dot(u, v) == 0.0
    decreases |u|
  {
    if u != [] {
      DotZero(u[..|u| - 1], v[..|v| - 1]);
    }
  }

  /** `np.dot(self.vectors, query_vector.T).flatten()`: one similarity per training row. */
  function Similarities(rows: seq<seq<real>>, q: seq<real>): (sims: seq<real>)
    requires forall d :: 0 <= d < |rows| ==> |rows[d]| == |q|
    ensures |sims| == |rows|
  {
    seq(|rows|, d requires 0 <= d < |rows| => Dot(rows[d], q))
  }

  /** A query without a single non-zero entry is equally similar (0) to every training text. */
  lemma SimilaritiesOfZeroQuery(rows: seq<seq<real>>, q: seq<real>)
    requires forall d :: 0 <= d < |rows| ==> |rows[d]| == |q|
    requires forall j :: 0 <= j < |q| ==> q[j] == 0.0
    ensures forall d :: 0 <= d < |rows| ==> Similarities(rows, q)[d] == 0.0
  {
    forall d | 0 <= d < |rows| ensures Similarities(rows, q)[d] == 0.0 {
      DotZero(rows[d], q);
    }
  }

  /**
   * What `get_top_hashtags` returns for the selected indices: every tag
   * starts with `#`, occurs among the normalised tags of the selected
   * texts and carries its number of occurrences there; exactly min(n,
   * number of distinct tags) tags for n >= 0, so all of them once n is
   * that large; all distinct, by non-increasing count, none left out
   * counted more often than a returned one, and equal counts in the order
   * the tags were first seen.
   */
  lemma AnswerSpec(hashtags: seq<seq<string>>, top: seq<nat>, n: int)
    ensures var tags := SelectedTags(hashtags, top);
      var r := Ranked(Tally(tags), n);
      && (n >= 0 ==> |r| <= n)
      && (n >= 0 ==> |r| == Min(n, |set t | t in tags|))
      && (n >= |set t | t in tags| ==> forall t :: t in tags ==> t in Keys(r))
      && Distinct(Keys(r))
      && (forall i :: 0 <= i < |r| ==> |r[i].0| > 0 && r[i].0[0] == '#')
      && (forall i :: 0 <= i < |r| ==> r[i].0 in tags && r[i].1 == multiset(tags)[r[i].0])
      && Descending(r)
      && (forall e, i :: e in Tally(tags) && e !in r && 0 <= i < |r| ==> e.1 <= r[i].1)
      && (forall v :: WithCount(r, v) <= WithCount(Tally(tags), v))
  {
    var tags := SelectedTags(hashtags, top);
    RankedSpec(tags, n);
    SelectedTagsHashed(hashtags, top);
  }

  class HashtagRecommender {
    const vectorizer: Vectorizer
    /** One row per training text once loaded. */
    var vectors: Option<seq<seq<real>>>
    /** The tag list of every training text. */
    var hashtags: seq<seq<string>>

    /**
     * The rows and the tag lists belong to the same texts, and while the
     * vectorizer is fitted every row has one entry per vocabulary index.
     */
    predicate Valid()
      reads this, vectorizer
    {
      vectorizer.Valid()
      && (vectors.Some? ==> |vectors.value| == |hashtags|)
      && (vectors.Some? && vectorizer.Fitted() ==>
            forall d :: 0 <= d < |vectors.value| ==> |vectors.value[d]| == |vectorizer.vocabulary|)
    }

    /** `HashtagRecommender()`: an unfitted `Vectorizer()` with ngram_range (1, 3), window 4, k1 1.5, b 0.75. */
    constructor ()
      ensures Valid() && fresh(vectorizer)
      ensures vectors == None && hashtags == []
      ensures vectorizer.ngramLo == 1 && vectorizer.ngramHi == 3 && vectorizer.windowSize == 4
      ensures vectorizer.k1 == 1.5 && vectorizer.b == 0.75
      ensures !vectorizer.Fitted()
    {
      vectorizer := new Vectorizer(1, 3, 4, 1.5, 0.75);
      vectors := None;
      hashtags := [];
    }

    /**
     * The processing step of `_load_and_process_csvs` for the texts and tag
     * lists read from the CSV files: NoData when there is no text;
     * otherwise fit the vectorizer on the texts, then vectorize them and
     * keep the rows and tag lists. When `transform` refuses (the texts have
     * no feature at all), the fitted vectorizer stays and the rows and tag
     * lists are those of before.
     */
    method Load(texts: seq<string>, tags: seq<seq<string>>, ln: real -> real, sqrt: real -> real)
      returns (err: Option<Error>)
      requires Valid() && |texts| == |tags|
      modifies this, vectorizer
      ensures Valid()
      ensures texts == [] ==> err == Some(NoData) && unchanged(this, vectorizer)
      ensures texts != [] ==> vectorizer.FittedOn(texts, ln)
      ensures texts != [] ==> (err == None <==> vectorizer.Fitted())
      ensures texts != [] && err != None ==>
        err == Some(NotFitted) && vectors == old(vectors) && hashtags == old(hashtags)
      ensures err == None ==> (vectors.Some? && hashtags == tags && |vectors.value| == |texts|
        && forall d :: 0 <= d < |texts| ==> vectorizer.Vectorizes(texts[d], vectors.value[d], sqrt))
    {
      if texts == [] {
        return Some(NoData);
      }
      vectorizer.Fit(texts, ln);
      err := Store(texts, tags, sqrt);
    }

    /**
     * `self.vectors = self.vectorizer.transform(texts)` followed by keeping
     * the tag lists; when `transform` refuses, nothing is stored.
     */
    method Store(texts: seq<string>, tags: seq<seq<string>>, sqrt: real -> real)
      returns (err: Option<Error>)
      requires vectorizer.Valid() && |texts| == |tags|
      requires vectors.Some? ==> |vectors.value| == |hashtags|
      modifies this
      ensures Valid()
      ensures err == None <==> vectorizer.Fitted()
      ensures err != None ==> err == Some(NotFitted) && vectors == old(vectors) && hashtags == old(hashtags)
      ensures err == None ==> (vectors.Some? && hashtags == tags && |vectors.value| == |texts|
        && forall d :: 0 <= d < |texts| ==> vectorizer.Vectorizes(texts[d], vectors.value[d], sqrt))
    {
      var t, lists := vectorizer.Transform(texts, sqrt);
      if t.Failure? {
        return Some(t.error);
      }
      vectorizer.RowsVectorize(texts, t.value, lists, sqrt);
      vectors := Some(t.value);
      hashtags := tags;
      err := None;
    }

    /**
     * `get_top_hashtags(text, n)`: NotInitialized before a successful load
     * (or with no tag lists), NotFitted when `transform` refuses the query;
     * otherwise the query row, the min(5, #texts) most similar training
     * texts and the ranked tally of their normalised tags.
     */
    method GetTopHashtags(text: string, n: int, sqrt: real -> real)
      returns (r: Result<Counts, Error>, top: seq<nat>, query: seq<real>)
      requires Valid()
      ensures vectors.None? || hashtags == [] ==> r == Failure(NotInitialized)
      ensures vectors.Some? && hashtags != [] && !vectorizer.Fitted() ==> r == Failure(NotFitted)
      ensures r.Success? <==> vectors.Some? && hashtags != [] && vectorizer.Fitted()
      ensures r.Success? ==> (vectorizer.Fitted() && |query| == |vectorizer.vocabulary|
        && vectorizer.Vectorizes(text, query, sqrt)
        && IsTopK(Similarities(vectors.value, query), top, Min(5, |hashtags|))
        && r.value == Ranked(Tally(SelectedTags(hashtags, top)), n))
    {
      if vectors.None? || hashtags == [] {
        return Failure(NotInitialized), [], [];
      }
      var t, lists := vectorizer.Transform([text], sqrt);
      if t.Failure? {
        return Failure(t.error), [], [];
      }
      query := t.value[0];
      vectorizer.RowsVectorize([text], t.value, lists, sqrt);
      var similarities := Similarities(vectors.value, query);
      var k := Min(5, |hashtags|);
      top := SelectTop(similarities, k);
      var counts := CountTags(hashtags, top, n);
      r := Success(Ranked(counts, n));
    }
  }
}
