/**
 * What `fit` accumulates over a list of documents, stated over the feature
 * set of each document: the distinct features (`all_words`), the document
 * frequency of a feature (`word_doc_count`) and the feature count of each
 * document (`doc_lengths`).
 */
module Corpus {
  import opened Features
  import opened Bm25

  /** `set(tokens)` of every document, in document order. */
  function FeatureSets(docs: seq<string>, lo: int, hi: int): (sets: seq<set<string>>)
    ensures |sets| == |docs|
  {
    seq(|docs|, d requires 0 <= d < |docs| => FeatureSet(docs[d], lo, hi))
  }

  /** `len(tokens)` of every document, in document order. */
  function FeatureCounts(docs: seq<string>, lo: int, hi: int): (counts: seq<nat>)
    ensures |counts| == |docs|
  {
    seq(|docs|, d requires 0 <= d < |docs| => FeatureCount(docs[d], lo, hi))
  }

  /** The union of the sets. */
  function Union(sets: seq<set<string>>): set<string>
    decreases |sets|
  {
    if sets == [] then {} else Union(sets[..|sets| - 1]) + sets[|sets| - 1]
  }

  /** The number of sets that contain f, counted the way `Counter.update` counts. */
  function DocFreq(sets: seq<set<string>>, f: string): nat
    decreases |sets|
  {
    if sets == [] then 0
    else DocFreq(sets[..|sets| - 1], f) + (if f in sets[|sets| - 1] then 1 else 0)
  }

  function SumNat(s: seq<nat>): nat
    decreases |s|
  {
    if s == [] then 0 else SumNat(s[..|s| - 1]) + s[|s| - 1]
  }

  /** The positions of the sets that contain f. */
  function Containing(sets: seq<set<string>>, f: string): set<nat> {
    set d: nat | d < |sets| && f in sets[d]
  }

  /** A string is in the union iff some set has it. */
  lemma {:induction false} UnionMembers(sets: seq<set<string>>, f: string)
    ensures f in Union(sets) <==> exists d :: 0 <= d < |sets| && f in sets[d]
    decreases |sets|
  {
    if sets != [] {
      var init := sets[..|sets| - 1];
      UnionMembers(init, f);
      if f in Union(init) {
        var d :| 0 <= d < |init| && f in init[d];
        assert sets[d] == init[d];
      }
    }
  }

  /** The document frequency is the number of documents containing the feature. */
  lemma {:induction false} DocFreqCounts(sets: seq<set<string>>, f: string)
    ensures DocFreq(sets, f) == |Containing(sets, f)|
    decreases |sets|
  {
    if sets != [] {
      var n := |sets| - 1;
      var init := sets[..n];
      DocFreqCounts(init, f);
      var before := Containing(init, f);
      assert Containing(sets, f) == before + (if f in sets[n] then {n} else {});
      assert n !in before;
    }
  }

  /** 1 <= df <= N exactly for the members of the union, and df = 0 for any other string. */
  lemma {:induction false} DocFreqBounds(sets: seq<set<string>>, f: string)
    ensures DocFreq(sets, f) <= |sets|
    ensures f in Union(sets) <==> DocFreq(sets, f) >= 1
    decreases |sets|
  {
    if sets != [] {
      DocFreqBounds(sets[..|sets| - 1], f);
    }
  }

  /** The IDF argument of every corpus feature exceeds 1, so its logarithm is positive. */
  lemma IdfArgumentAboveOne(sets: seq<set<string>>, f: string)
    requires f in Union(sets)
    ensures IdfArgument(|sets|, DocFreq(sets, f)) > 1.0
  {
    DocFreqBounds(sets, f);
  }

  /** A document with a feature has at least one feature. */
  lemma FeatureCountPositive(doc: string, lo: int, hi: int, f: string)
    requires f in FeatureSet(doc, lo, hi)
    ensures FeatureCount(doc, lo, hi) >= 1
  {
    assert f in FeatureBag(doc, lo, hi);
  }

  /** A corpus with a feature has a positive total feature count. */
  lemma CorpusCountPositive(docs: seq<string>, lo: int, hi: int, f: string)
    requires f in Union(FeatureSets(docs, lo, hi))
    ensures SumNat(FeatureCounts(docs, lo, hi)) >= 1
  {
    var sets := FeatureSets(docs, lo, hi);
    UnionMembers(sets, f);
    var d :| 0 <= d < |sets| && f in sets[d];
    FeatureCountPositive(docs[d], lo, hi, f);
    SumNatAtLeast(FeatureCounts(docs, lo, hi), d);
  }

  lemma {:induction false} SumNatAtLeast(s: seq<nat>, d: nat)
    requires d < |s|
    ensures SumNat(s) >= s[d]
    decreases |s|
  {
    if d < |s| - 1 {
      SumNatAtLeast(s[..|s| - 1], d);
    }
  }
}
