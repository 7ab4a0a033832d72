/**
 * The vocabulary `fit` builds: `{word: idx for idx, word in
 * enumerate(sorted(all_words))}`. The index of a feature in the sorted list
 * is the number of features that sort before it, so the vocabulary maps
 * each feature to its rank under Python's string order.
 */
module Vocab {

  /** Python's `<` on `str`: lexicographic by code point, a proper prefix sorting first. */
  predicate LexLess(a: string, b: string)
    decreases |a|
  {
    if a == [] then b != []
    else if b == [] then false
    else a[0] < b[0] || (a[0] == b[0] && LexLess(a[1..], b[1..]))
  }

  lemma {:induction false} LexLessIrreflexive(a: string)
    ensures !LexLess(a, a)
    decreases |a|
  {
    if a != [] {
      LexLessIrreflexive(a[1..]);
    }
  }

  lemma {:induction false} LexLessTransitive(a: string, b: string, c: string)
    requires LexLess(a, b) && LexLess(b, c)
    ensures LexLess(a, c)
    decreases |a|
  {
    if a != [] && b != [] && c != [] && a[0] == b[0] && b[0] == c[0] {
      LexLessTransitive(a[1..], b[1..], c[1..]);
    }
  }

  lemma {:induction false} LexLessTotal(a: string, b: string)
    requires a != b
    ensures LexLess(a, b) || LexLess(b, a)
    decreases |a|
  {
    if a != [] && b != [] && a[0] == b[0] {
      assert a == [a[0]] + a[1..] && b == [b[0]] + b[1..];
      LexLessTotal(a[1..], b[1..]);
    }
  }

  lemma LexLessAsymmetric(a: string, b: string)
    requires LexLess(a, b)
    ensures !LexLess(b, a)
  {
    if LexLess(b, a) {
      LexLessTransitive(a, b, a);
      LexLessIrreflexive(a);
    }
  }

  /** The members of S that sort before f. */
  function Smaller(f: string, S: set<string>): set<string> {
    set g | g in S && LexLess(g, f)
  }

  /** The position of f in `sorted(S)`. */
  function Rank(f: string, S: set<string>): nat {
    |Smaller(f, S)|
  }

  /** `{word: idx for idx, word in enumerate(sorted(S))}`: every feature of S, at an index below |S|. */
  function VocabularyOf(S: set<string>): (v: map<string, nat>)
    ensures v.Keys == S
    ensures forall f :: f in v ==> v[f] < |S|
  {
    assert forall f :: f in S ==> Rank(f, S) < |S| by {
      forall f | f in S ensures Rank(f, S) < |S| {
        RankBound(f, S);
      }
    }
    map f | f in S :: Rank(f, S)
  }

  /** A word -> index mapping whose indices are distinct and below its size. */
  predicate IsIndexing(v: map<string, nat>) {
    (forall f :: f in v ==> v[f] < |v|)
    && (forall f, g :: f in v && g in v && f != g ==> v[f] != v[g])
  }

  // ---------------------------------------------------------------------
  // Cardinality facts
  // ---------------------------------------------------------------------

  lemma {:induction false} SubsetCard<T>(A: set<T>, B: set<T>)
    requires A <= B
    ensures |A| <= |B|
    ensures A != B ==> |A| < |B|
    decreases |B|
  {
    if A != B {
      var y :| y in B && y !in A;
      SubsetCard(A, B - {y});
    }
  }

  /** The indices 0 .. n-1. */
  function Below(n: nat): set<nat>
    decreases n
  {
    if n == 0 then {} else Below(n - 1) + {n - 1}
  }

  lemma {:induction false} BelowMembers(n: nat, k: nat)
    ensures k in Below(n) <==> k < n
    decreases n
  {
    if n > 0 {
      BelowMembers(n - 1, k);
    }
  }

  lemma {:induction false} BelowCard(n: nat)
    ensures |Below(n)| == n
    decreases n
  {
    if n > 0 {
      BelowCard(n - 1);
      BelowMembers(n - 1, n - 1);
    }
  }

  /** The indices an indexing uses. */
  function Image(v: map<string, nat>): set<nat> {
    set f | f in v :: v[f]
  }

  /** The image of an injective indexing has as many members as its domain. */
  lemma {:induction false} ImageCard(v: map<string, nat>, D: set<string>)
    requires D <= v.Keys
    requires forall f, g :: f in D && g in D && f != g ==> v[f] != v[g]
    ensures |set f | f in D :: v[f]| == |D|
    decreases |D|
  {
    if D != {} {
      var x :| x in D;
      ImageCard(v, D - {x});
      var img := set f | f in D - {x} :: v[f];
      assert (set f | f in D :: v[f]) == img + {v[x]};
      assert v[x] !in img;
    }
  }

  // ---------------------------------------------------------------------
  // Properties of the vocabulary
  // ---------------------------------------------------------------------

  /** Sorting before is reflected in the ranks, in both directions. */
  lemma RankOrder(f: string, g: string, S: set<string>)
    requires f in S && g in S
    ensures LexLess(f, g) <==> Rank(f, S) < Rank(g, S)
  {
    if LexLess(f, g) {
      forall h | h in Smaller(f, S) ensures h in Smaller(g, S) {
        LexLessTransitive(h, f, g);
      }
      LexLessIrreflexive(f);
      assert f in Smaller(g, S) && f !in Smaller(f, S);
      SubsetCard(Smaller(f, S), Smaller(g, S));
    } else if f == g {
    } else {
      LexLessTotal(f, g);
      forall h | h in Smaller(g, S) ensures h in Smaller(f, S) {
        LexLessTransitive(h, g, f);
      }
      LexLessIrreflexive(g);
      assert g in Smaller(f, S) && g !in Smaller(g, S);
      SubsetCard(Smaller(g, S), Smaller(f, S));
    }
  }

  /** The rank of a member of S is below |S|. */
  lemma RankBound(f: string, S: set<string>)
    requires f in S
    ensures Rank(f, S) < |S|
  {
    LexLessIrreflexive(f);
    assert Smaller(f, S) <= S && f !in Smaller(f, S);
    SubsetCard(Smaller(f, S), S);
  }

  /**
   * The vocabulary has exactly the features of S as keys and is an indexing:
   * distinct features get distinct indices below |S|.
   */
  lemma VocabularyIsIndexing(S: set<string>)
    ensures VocabularyOf(S).Keys == S
    ensures |VocabularyOf(S)| == |S|
    ensures IsIndexing(VocabularyOf(S))
  {
    var v := VocabularyOf(S);
    assert v.Keys == S;
    forall f | f in v ensures v[f] < |v| {
      RankBound(f, S);
    }
    forall f, g | f in v && g in v && f != g ensures v[f] != v[g] {
      LexLessTotal(f, g);
      RankOrder(f, g, S);
      RankOrder(g, f, S);
    }
  }

  /** An indexing reaches every index below its size (pigeonhole). */
  lemma IndexingOnto(v: map<string, nat>)
    requires IsIndexing(v)
    ensures Image(v) == Below(|v|)
  {
    ImageCard(v, v.Keys);
    assert Image(v) == set f | f in v.Keys :: v[f];
    forall k | k in Image(v) ensures k in Below(|v|) {
      BelowMembers(|v|, k);
    }
    BelowCard(|v|);
    SubsetCard(Image(v), Below(|v|));
  }

  /**
   * `vocabulary` after `fit`: a bijection from the features of S onto
   * 0 .. |S|-1 that orders indices as `sorted` orders the features.
   */
  lemma VocabularyBijection(S: set<string>)
    ensures VocabularyOf(S).Keys == S
    ensures forall f :: f in S ==> VocabularyOf(S)[f] < |S|
    ensures Image(VocabularyOf(S)) == Below(|S|)
    ensures forall f, g :: f in S && g in S ==> (LexLess(f, g) <==> VocabularyOf(S)[f] < VocabularyOf(S)[g])
  {
    VocabularyIsIndexing(S);
    IndexingOnto(VocabularyOf(S));
    forall f, g | f in S && g in S ensures LexLess(f, g) <==> VocabularyOf(S)[f] < VocabularyOf(S)[g] {
      RankOrder(f, g, S);
    }
  }

  /** The feature at index j of an indexing. */
  ghost function FeatureAt(v: map<string, nat>, j: nat): (f: string)
    requires IsIndexing(v) && j < |v|
    ensures f in v && v[f] == j
  {
    IndexingOnto(v);
    BelowMembers(|v|, j);
    assert j in Image(v);
    var f :| f in v && v[f] == j;
    f
  }

  /** The index of a feature determines it. */
  lemma FeatureAtIndex(v: map<string, nat>, f: string)
    requires IsIndexing(v) && f in v
    ensures v[f] < |v| && FeatureAt(v, v[f]) == f
  {
  }
}
