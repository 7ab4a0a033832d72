/**
 * The `Vectorizer` class: `fit` builds the vocabulary, the BM25 IDF table
 * and the average feature count; `transform` turns documents into
 * L2-normalised rows of BM25 scores boosted by positional context.
 *
 * The "tokens" of `fit` and `transform` are the feature lists `_preprocess`
 * returns (n-grams and subwords), so document lengths, term counts and
 * context arrays are all over features. The natural logarithm and the
 * square root are parameters; all arithmetic is over exact reals.
 */
module Vectorizing {
  import opened Wrappers
  import opened Features
  import opened Context
  import opened Bm25
  import opened Vocab
  import opened Corpus

  /** `counter.update(words)` for a set of words: each of them gains one, every other count stays. */
  function CounterUpdate(c: map<string, nat>, words: set<string>): (c': map<string, nat>)
    ensures c'.Keys == c.Keys + words
    ensures forall f :: f in words ==> c'[f] == (if f in c then c[f] else 0) + 1
    ensures forall f :: f in c && f !in words ==> c'[f] == c[f]
  {
    map f | f in c.Keys + words :: (if f in c then c[f] else 0) + (if f in words then 1 else 0)
  }

  lemma {:induction false} CountBound(fs: seq<string>, f: string)
    ensures multiset(fs)[f] <= |fs|
    decreases |fs|
  {
    if fs != [] {
      CountBound(fs[1..], f);
      assert fs == [fs[0]] + fs[1..];
    }
  }

  /** Every context weight is 0 or 1/d for a distance d >= 1, so it lies in [0, 1]. */
  lemma ContextWeightBounds(tokens: seq<string>, w: int, t: string, j: nat)
    requires j < |tokens|
    ensures 0.0 <= ContextRow(tokens, w, t)[j] <= 1.0
  {
    var r := LastWriter(tokens, w, t, j, |tokens|);
    if r.Some? {
      var d := Dist(r.value, j) as real;
      assert d >= 1.0;
      DivPos(1.0, d);
      DivBelow(1.0, d, 1.0);
    }
  }

  /** The context factor `1 + np.mean(context_vectors[word])` lies in [1, 2]. */
  lemma ContextBoostBounds(tokens: seq<string>, w: int, t: string)
    requires |tokens| >= 1
    ensures 1.0 <= 1.0 + Mean(ContextRow(tokens, w, t)) <= 2.0
  {
    var row := ContextRow(tokens, w, t);
    forall j | 0 <= j < |row| ensures 0.0 <= row[j] <= 1.0 {
      ContextWeightBounds(tokens, w, t, j);
    }
    MeanBounds(row, 0.0, 1.0);
  }

  /** `tokens = self._preprocess(doc)` followed by `len(tokens)` and `set(tokens)`. */
  method DocumentFeatures(doc: string, lo: int, hi: int) returns (words: set<string>, length: nat)
    ensures words == FeatureSet(doc, lo, hi) && length == FeatureCount(doc, lo, hi)
  {
    var tokens := Preprocess(doc, lo, hi);
    FeatureListFacts(doc, lo, hi, tokens);
    length := |tokens|;
    words := set t | t in tokens;
  }

  /** c holds the document frequency of every feature of the union of the sets, and nothing else. */
  ghost predicate Tallied(sets: seq<set<string>>, c: map<string, nat>) {
    c.Keys == Union(sets) && forall f :: f in c ==> c[f] == DocFreq(sets, f)
  }

  /** The state of the first loop of `fit` after the first d documents. */
  ghost predicate Counted(documents: seq<string>, lo: int, hi: int, d: nat,
                          c: map<string, nat>, allWords: set<string>, lengths: seq<nat>)
  {
    d <= |documents|
    && Tallied(FeatureSets(documents, lo, hi)[..d], c)
    && allWords == c.Keys
    && lengths == FeatureCounts(documents, lo, hi)[..d]
  }

  /** One document's step of the first loop of `fit` keeps the union and the document frequencies. */
  lemma CountStep(documents: seq<string>, lo: int, hi: int, d: nat,
                  c: map<string, nat>, allWords: set<string>, lengths: seq<nat>)
    requires d < |documents| && Counted(documents, lo, hi, d, c, allWords, lengths)
    ensures var words := FeatureSet(documents[d], lo, hi);
      Counted(documents, lo, hi, d + 1, CounterUpdate(c, words), allWords + words,
              lengths + [FeatureCount(documents[d], lo, hi)])
  {
    var sets, counts := FeatureSets(documents, lo, hi), FeatureCounts(documents, lo, hi);
    var next := sets[..d + 1];
    assert next[..|next| - 1] == sets[..d];
    assert next[|next| - 1] == sets[d] == FeatureSet(documents[d], lo, hi);
    TalliedStep(next, c);
    PrefixStep(counts, d);
  }

  /** The prefix of length d + 1 is the prefix of length d followed by element d. */
  lemma PrefixStep<T>(s: seq<T>, d: nat)
    requires d < |s|
    ensures s[..d + 1] == s[..d] + [s[d]]
  {
  }

  /** Counting the last set once more extends the tally of the sets before it. */
  lemma TalliedStep(sets: seq<set<string>>, c: map<string, nat>)
    requires sets != [] && Tallied(sets[..|sets| - 1], c)
    ensures Tallied(sets, CounterUpdate(c, sets[|sets| - 1]))
  {
    var init, last := sets[..|sets| - 1], sets[|sets| - 1];
    var c' := CounterUpdate(c, last);
    forall f | f in c' ensures c'[f] == DocFreq(sets, f) {
      DocFreqBounds(init, f);
    }
  }

  /** After every document, the loop state is what `fit` promises. */
  lemma CountedAll(documents: seq<string>, lo: int, hi: int,
                   c: map<string, nat>, allWords: set<string>, lengths: seq<nat>)
    requires Counted(documents, lo, hi, |documents|, c, allWords, lengths)
    ensures allWords == Union(FeatureSets(documents, lo, hi))
    ensures c.Keys == allWords
    ensures forall f :: f in c ==> c[f] == DocFreq(FeatureSets(documents, lo, hi), f)
    ensures lengths == FeatureCounts(documents, lo, hi)
  {
    var sets, counts := FeatureSets(documents, lo, hi), FeatureCounts(documents, lo, hi);
    assert sets[..|documents|] == sets;
    assert counts[..|documents|] == counts;
  }

  /**
   * The first loop of `fit`: the feature count of every document, the
   * document frequency of every feature and the set of all features.
   */
  method CountDocuments(documents: seq<string>, lo: int, hi: int)
    returns (wordDocCount: map<string, nat>, allWords: set<string>, docLengths: seq<nat>)
    ensures allWords == Union(FeatureSets(documents, lo, hi))
    ensures wordDocCount.Keys == allWords
    ensures forall f :: f in wordDocCount ==> wordDocCount[f] == DocFreq(FeatureSets(documents, lo, hi), f)
    ensures docLengths == FeatureCounts(documents, lo, hi)
  {
    wordDocCount, allWords, docLengths := map[], {}, [];
    for d := 0 to |documents|
      invariant Counted(documents, lo, hi, d, wordDocCount, allWords, docLengths)
    {
      var words, length := DocumentFeatures(documents[d], lo, hi);
      CountStep(documents, lo, hi, d, wordDocCount, allWords, docLengths);
      docLengths := docLengths + [length];
      wordDocCount := CounterUpdate(wordDocCount, words);
      allWords := allWords + words;
    }
    CountedAll(documents, lo, hi, wordDocCount, allWords, docLengths);
  }

  /**
   * The second loop of `fit`: a zero table with one entry per index, where
   * every counted word of the vocabulary gets the log of its IDF argument.
   */
  method IdfTable(vocabulary: map<string, nat>, wordDocCount: map<string, nat>, numDocs: nat, ln: real -> real)
    returns (table: seq<real>)
    requires IsIndexing(vocabulary) && vocabulary.Keys <= wordDocCount.Keys
    ensures |table| == |vocabulary|
    ensures forall f :: f in vocabulary ==> table[vocabulary[f]] == ln(IdfArgument(numDocs, wordDocCount[f]))
  {
    var idf := new real[|vocabulary|](_ => 0.0);
    var items := Enumerate(wordDocCount.Keys);
    for k := 0 to |items|
      invariant forall f :: f in vocabulary ==>
        idf[vocabulary[f]] == if f in items[..k] then ln(IdfArgument(numDocs, wordDocCount[f])) else 0.0
    {
      var word := items[k];
      assert word in multiset(items);
      if word in vocabulary {
        idf[vocabulary[word]] := ln(IdfArgument(numDocs, wordDocCount[word]));
      }
      assert items[..k + 1] == items[..k] + [word];
    }
    assert items[..|items|] == items;
    forall f | f in vocabulary ensures f in items {
      assert f in multiset(wordDocCount.Keys);
    }
    table := idf[..];
  }

  class Vectorizer {
    const ngramLo: int
    const ngramHi: int
    const windowSize: int
    const k1: real
    const b: real
    /** word -> index */
    var vocabulary: map<string, nat>
    /** `None` until `fit`; then one entry per vocabulary index */
    var idf: Option<seq<real>>
    var avgDocLength: real

    predicate Valid()
      reads this
    {
      0.0 <= k1 && 0.0 <= b <= 1.0
      && IsIndexing(vocabulary)
      && (idf.Some? ==> |idf.value| == |vocabulary|)
      && (vocabulary != map[] ==> avgDocLength > 0.0)
    }

    /** The state `transform` accepts. */
    predicate Fitted()
      reads this
    {
      vocabulary != map[] && idf.Some?
    }

    constructor (ngramLo: int, ngramHi: int, windowSize: int, k1: real, b: real)
      requires 0.0 <= k1 && 0.0 <= b <= 1.0
      ensures Valid() && !Fitted()
      ensures this.ngramLo == ngramLo && this.ngramHi == ngramHi && this.windowSize == windowSize
      ensures this.k1 == k1 && this.b == b
      ensures vocabulary == map[] && idf == None && avgDocLength == 0.0
    {
      this.ngramLo := ngramLo;
      this.ngramHi := ngramHi;
      this.windowSize := windowSize;
      this.k1 := k1;
      this.b := b;
      vocabulary := map[];
      idf := None;
      avgDocLength := 0.0;
    }

    /**
     * The state `fit(documents)` leaves: the vocabulary is the sorted
     * indexing of the corpus features, every feature gets log of its BM25
     * IDF argument, and the average is the mean feature count (0 for an
     * empty corpus, where numpy gives NaN).
     */
    ghost predicate FittedOn(documents: seq<string>, ln: real -> real)
      reads this
    {
      var sets := FeatureSets(documents, ngramLo, ngramHi);
      && vocabulary == VocabularyOf(Union(sets))
      && idf.Some? && |idf.value| == |vocabulary|
      && (forall f :: f in vocabulary ==> idf.value[vocabulary[f]] == ln(IdfArgument(|documents|, DocFreq(sets, f))))
      && avgDocLength == if documents == [] then 0.0
           else (SumNat(FeatureCounts(documents, ngramLo, ngramHi)) as real) / (|documents| as real)
    }

    /** `fit(documents)`: the vectorizer is left in the state FittedOn describes. */
    method Fit(documents: seq<string>, ln: real -> real)
      requires Valid()
      modifies this
      ensures Valid() && FittedOn(documents, ln)
    {
      var wordDocCount, allWords, docLengths := CountDocuments(documents, ngramLo, ngramHi);
      vocabulary := VocabularyOf(allWords);
      VocabularyIsIndexing(allWords);
      if docLengths == [] {
        avgDocLength := 0.0;
      } else {
        avgDocLength := (SumNat(docLengths) as real) / (|docLengths| as real);
      }
      if vocabulary != map[] {
        var f :| f in allWords;
        CorpusCountPositive(documents, ngramLo, ngramHi, f);
        DivPos(SumNat(docLengths) as real, |docLengths| as real);
      }
      var table := IdfTable(vocabulary, wordDocCount, |documents|, ln);
      idf := Some(table);
    }

    /**
     * The score `transform` writes for feature f of a document whose
     * feature list is fs: BM25 tf, times the context factor when f has a
     * context array, times the IDF of f.
     */
    function Score(fs: seq<string>, f: string): real
      reads this
      requires Valid() && Fitted() && f in fs && f in vocabulary
    {
      CountBound(fs, f);
      var tf := TermFrequency(multiset(fs)[f], |fs|, avgDocLength, k1, b);
      var boosted := if windowSize >= 1 && |fs| >= 2 then tf * (1.0 + Mean(ContextRow(fs, windowSize, f))) else tf;
      boosted * idf.value[vocabulary[f]]
    }

    /**
     * The factor in front of the IDF is positive (a positive tf times a
     * context factor of at least 1), so a feature of the document scores 0
     * exactly when its IDF is 0.
     */
    lemma ScoreZero(fs: seq<string>, f: string)
      requires Valid() && Fitted() && f in fs && f in vocabulary
      ensures Score(fs, f) == 0.0 <==> idf.value[vocabulary[f]] == 0.0
    {
      CountBound(fs, f);
      var tf := TermFrequency(multiset(fs)[f], |fs|, avgDocLength, k1, b);
      var boosted := if windowSize >= 1 && |fs| >= 2 then tf * (1.0 + Mean(ContextRow(fs, windowSize, f))) else tf;
      var weight := idf.value[vocabulary[f]];
      assert boosted > 0.0 by {
        if windowSize >= 1 && |fs| >= 2 {
          ContextBoostBounds(fs, windowSize, f);
          MulPos(tf, 1.0 + Mean(ContextRow(fs, windowSize, f)));
        }
      }
      assert Score(fs, f) == boosted * weight;
      if weight > 0.0 { MulPos(boosted, weight); }
      if weight < 0.0 { MulPos(boosted, -weight); }
    }

    /** The row of a document with feature list fs before normalisation. */
    ghost function RawRow(fs: seq<string>): (row: seq<real>)
      reads this
      requires Valid() && Fitted()
      ensures |row| == |vocabulary|
    {
      seq(|vocabulary|, j requires 0 <= j < |vocabulary| && Valid() && Fitted() reads this =>
        var f := FeatureAt(vocabulary, j);
        if f in fs then Score(fs, f) else 0.0)
    }

    /** The entry at the index of f is its score when the document has f, and 0 otherwise. */
    lemma RawRowEntry(fs: seq<string>, f: string)
      requires Valid() && Fitted() && f in vocabulary
      ensures vocabulary[f] < |vocabulary|
      ensures RawRow(fs)[vocabulary[f]] == if f in fs then Score(fs, f) else 0.0
    {
      FeatureAtIndex(vocabulary, f);
    }

    /** `vectors[d]` of a document: the normalised raw row of one of its feature lists. */
    ghost predicate Vectorizes(text: string, row: seq<real>, sqrt: real -> real)
      reads this
      requires Valid() && Fitted()
    {
      exists fs :: IsFeatureList(text, ngramLo, ngramHi, fs) && row == Normalize(RawRow(fs), sqrt)
    }

    /** Rows computed from feature lists of the texts are rows of those texts. */
    lemma RowsVectorize(texts: seq<string>, rows: seq<seq<real>>, lists: seq<seq<string>>, sqrt: real -> real)
      requires Valid() && Fitted() && |rows| == |texts| == |lists|
      requires forall d :: 0 <= d < |texts| ==>
        IsFeatureList(texts[d], ngramLo, ngramHi, lists[d]) && rows[d] == Normalize(RawRow(lists[d]), sqrt)
      ensures forall d :: 0 <= d < |texts| ==> Vectorizes(texts[d], rows[d], sqrt)
    {
      forall d | 0 <= d < |texts| ensures Vectorizes(texts[d], rows[d], sqrt) {
        assert IsFeatureList(texts[d], ngramLo, ngramHi, lists[d]);
      }
    }

    /**
     * A row has a non-zero entry only at the index of a feature of the
     * document; a document without vocabulary features gives an all-zero row.
     */
    lemma RowSupport(text: string, fs: seq<string>, sqrt: real -> real)
      requires Valid() && Fitted() && IsFeatureList(text, ngramLo, ngramHi, fs)
      ensures forall f :: f in vocabulary && Normalize(RawRow(fs), sqrt)[vocabulary[f]] != 0.0 ==> f in FeatureSet(text, ngramLo, ngramHi)
      ensures (forall f :: f in vocabulary ==> f !in FeatureSet(text, ngramLo, ngramHi)) ==>
        forall j :: 0 <= j < |vocabulary| ==> Normalize(RawRow(fs), sqrt)[j] == 0.0
    {
      FeatureListFacts(text, ngramLo, ngramHi, fs);
      forall f | f in vocabulary ensures RawRow(fs)[vocabulary[f]] == if f in fs then Score(fs, f) else 0.0 {
        RawRowEntry(fs, f);
      }
      forall j | 0 <= j < |vocabulary| && (forall f :: f in vocabulary ==> f !in FeatureSet(text, ngramLo, ngramHi))
        ensures Normalize(RawRow(fs), sqrt)[j] == 0.0
      {
        var f := FeatureAt(vocabulary, j);
        assert f !in fs;
      }
    }

    function RowOf(m: array2<real>, d: nat): (row: seq<real>)
      reads m
      requires d < m.Length0
      ensures |row| == m.Length1
    {
      seq(m.Length1, j requires 0 <= j < m.Length1 reads m => m[d, j])
    }

    /**
     * The score the inner loop of `transform` writes for a counted word of
     * the vocabulary: the BM25 term frequency, boosted by the mean of the
     * word's context array when it has one, times the IDF of the word.
     */
    method WordScore(tokens: seq<string>, contextVectors: map<string, seq<real>>, word: string, count: nat)
      returns (score: real)
      requires Valid() && Fitted() && word in tokens && word in vocabulary && count == multiset(tokens)[word]
      requires forall t :: t in contextVectors <==> HasWriter(tokens, windowSize, t)
      requires forall t :: t in contextVectors ==> contextVectors[t] == ContextRow(tokens, windowSize, t)
      ensures score == Score(tokens, word)
    {
      var wordIdx := vocabulary[word];
      CountBound(tokens, word);
      var tf := TermFrequency(count, |tokens|, avgDocLength, k1, b);
      HasWriterIff(tokens, windowSize, word);
      if word in contextVectors {
        tf := tf * (1.0 + Mean(contextVectors[word]));
      }
      score := tf * idf.value[wordIdx];
    }

    /**
     * The body of the document loop of `transform` for a document with
     * feature list `tokens`: its counted features that are in the
     * vocabulary get their score in row d, which starts at zero.
     */
    method ScoreRow(tokens: seq<string>, vectors: array2<real>, d: nat)
      requires Valid() && Fitted()
      requires d < vectors.Length0 && vectors.Length1 == |vocabulary|
      requires forall j :: 0 <= j < vectors.Length1 ==> vectors[d, j] == 0.0
      modifies vectors
      ensures forall j :: 0 <= j < vectors.Length1 ==> vectors[d, j] == RawRow(tokens)[j]
      ensures forall d', j :: 0 <= d' < vectors.Length0 && d' != d && 0 <= j < vectors.Length1 ==>
        vectors[d', j] == old(vectors[d', j])
    {
      var wordCounts := multiset(tokens);
      var contextVectors := ContextVectors(tokens, windowSize);
      var items := Enumerate(set w | w in wordCounts);
      for k := 0 to |items|
        invariant forall d', j :: 0 <= d' < vectors.Length0 && d' != d && 0 <= j < vectors.Length1 ==>
          vectors[d', j] == old(vectors[d', j])
        invariant forall j :: 0 <= j < vectors.Length1 && vectors[d, j] != 0.0 ==> FeatureAt(vocabulary, j) in items[..k]
        invariant forall f :: f in vocabulary && f in items[..k] ==> f in tokens && vectors[d, vocabulary[f]] == Score(tokens, f)
      {
        var word := items[k];
        assert word in multiset(items);
        if word in vocabulary {
          var wordIdx := vocabulary[word];
          var score := WordScore(tokens, contextVectors, word, wordCounts[word]);
          vectors[d, wordIdx] := score;
          FeatureAtIndex(vocabulary, word);
        }
        assert items[..k + 1] == items[..k] + [word];
        forall f | f in vocabulary && f in items[..k + 1]
          ensures f in tokens && vectors[d, vocabulary[f]] == Score(tokens, f)
        {
          if f != word {
            assert f in items[..k];
          }
        }
      }
      assert items[..|items|] == items;
      forall j | 0 <= j < vectors.Length1 ensures vectors[d, j] == RawRow(tokens)[j] {
        var f := FeatureAt(vocabulary, j);
        if f in tokens {
          assert f in multiset(items);
        }
      }
    }

    /** The outer loop of `transform`: row d of the zeroed matrix gets the scores of document d. */
    method ScoreRows(documents: seq<string>, vectors: array2<real>) returns (ghost lists: seq<seq<string>>)
      requires Valid() && Fitted()
      requires vectors.Length0 == |documents| && vectors.Length1 == |vocabulary|
      requires forall d, j :: 0 <= d < vectors.Length0 && 0 <= j < vectors.Length1 ==> vectors[d, j] == 0.0
      modifies vectors
      ensures |lists| == |documents|
      ensures forall d :: 0 <= d < |documents| ==> IsFeatureList(documents[d], ngramLo, ngramHi, lists[d])
      ensures forall d, j :: 0 <= d < |documents| && 0 <= j < |vocabulary| ==> vectors[d, j] == RawRow(lists[d])[j]
    {
      lists := [];
      for d := 0 to |documents|
        invariant |lists| == d
        invariant forall d' :: 0 <= d' < d ==> IsFeatureList(documents[d'], ngramLo, ngramHi, lists[d'])
        invariant forall d', j :: 0 <= d' < d && 0 <= j < |vocabulary| ==> vectors[d', j] == RawRow(lists[d'])[j]
        invariant forall d', j :: d <= d' < |documents| && 0 <= j < |vocabulary| ==> vectors[d', j] == 0.0
      {
        var tokens := Preprocess(documents[d], ngramLo, ngramHi);
        ScoreRow(tokens, vectors, d);
        ghost var done := lists;
        lists := lists + [tokens];
        assert lists[d] == tokens && forall d' :: 0 <= d' < d ==> lists[d'] == done[d'];
      }
    }

    /** Row d of m is `row` when it agrees with `row` entry by entry. */
    lemma RowOfEntries(m: array2<real>, d: nat, row: seq<real>)
      requires d < m.Length0 && |row| == m.Length1
      requires forall j :: 0 <= j < |row| ==> m[d, j] == row[j]
      ensures RowOf(m, d) == row
    {
    }

    /**
     * `transform(documents)`: NotFitted when the vocabulary is empty or
     * there is no IDF table; otherwise one normalised row per document.
     */
    method Transform(documents: seq<string>, sqrt: real -> real)
      returns (r: Result<seq<seq<real>>, Error>, ghost lists: seq<seq<string>>)
      requires Valid()
      ensures r.Failure? <==> !Fitted()
      ensures r.Failure? ==> r.error == NotFitted
      ensures r.Success? ==> |r.value| == |documents| == |lists|
      ensures r.Success? ==> forall d :: 0 <= d < |documents| ==>
        IsFeatureList(documents[d], ngramLo, ngramHi, lists[d])
        && r.value[d] == Normalize(RawRow(lists[d]), sqrt)
    {
      if vocabulary == map[] || idf.None? {
        return Failure(NotFitted), [];
      }
      var vectors := new real[|documents|, |vocabulary|]((_, _) => 0.0);
      lists := ScoreRows(documents, vectors);
      var rows: seq<seq<real>> := [];
      for d := 0 to |documents|
        modifies {}
        invariant |rows| == d
        invariant forall d' :: 0 <= d' < d ==> rows[d'] == Normalize(RawRow(lists[d']), sqrt)
      {
        RowOfEntries(vectors, d, RawRow(lists[d]));
        rows := rows + [Normalize(RowOf(vectors, d), sqrt)];
      }
      return Success(rows), lists;
    }
  }
}
