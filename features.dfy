/**
 * Feature extraction of the vectorizer: tokenizing a text, word n-grams,
 * character subwords and the feature list that fit and transform consume.
 *
 * Character classes are restricted to ASCII: `\w` is letters, digits and
 * the underscore, whitespace is what `str.isspace` accepts below 128.
 */
module Features {

  // ---------------------------------------------------------------------
  // Characters
  // ---------------------------------------------------------------------

  /** ASCII whitespace as `str.isspace` and the regex class `\s` see it. */
  predicate IsSpace(c: char) {
    (9 <= c as int <= 13) || (28 <= c as int <= 32)
  }

  /** ASCII part of the regex class `\w`. */
  predicate IsWordChar(c: char) {
    ('a' <= c <= 'z') || ('A' <= c <= 'Z') || ('0' <= c <= '9') || c == '_'
  }

  predicate IsUpper(c: char) {
    'A' <= c <= 'Z'
  }

  function Lower(c: char): (d: char)
    ensures !IsUpper(d)
    ensures IsWordChar(c) <==> IsWordChar(d)
    ensures IsSpace(c) <==> IsSpace(d)
    ensures !IsUpper(c) ==> d == c
  {
    if IsUpper(c) then (c as int + 32) as char else c
  }

  /** One character of `re.sub(r'[^\w\s]', ' ', text.lower())`. */
  function Scrub(c: char): char {
    var d := Lower(c);
    if IsWordChar(d) || IsSpace(d) then d else ' '
  }

  /** Lower-casing followed by replacing every character that is neither a word character nor whitespace by a space. */
  function Clean(text: string): (r: string)
    ensures |r| == |text|
    ensures forall i :: 0 <= i < |r| ==> (IsWordChar(r[i]) || IsSpace(r[i])) && !IsUpper(r[i])
    ensures forall i :: 0 <= i < |r| ==> (IsWordChar(text[i]) <==> IsWordChar(r[i]))
    ensures forall i :: 0 <= i < |r| && IsWordChar(text[i]) ==> r[i] == Lower(text[i])
  {
    seq(|text|, i requires 0 <= i < |text| => Scrub(text[i]))
  }

  // ---------------------------------------------------------------------
  // str.split()
  // ---------------------------------------------------------------------

  /** The longest prefix of `s` without whitespace. */
  function LeadingWord(s: string): (w: string)
    ensures w <= s
    ensures forall c :: c in w ==> !IsSpace(c)
    ensures |w| == |s| || IsSpace(s[|w|])
  {
    if s == [] || IsSpace(s[0]) then [] else [s[0]] + LeadingWord(s[1..])
  }

  /** `str.split()` with no argument: maximal runs of non-whitespace, empty runs dropped. */
  function Split(s: string): (tokens: seq<string>)
    ensures forall t :: t in tokens ==> t != []
    ensures forall t, c :: t in tokens && c in t ==> !IsSpace(c) && c in s
    decreases |s|
  {
    if s == [] then []
    else if IsSpace(s[0]) then Split(s[1..])
    else
      var w := LeadingWord(s);
      assert w != [];
      forall c | c in s[|w|..] ensures c in s { }
      forall c | c in w ensures c in s { }
      [w] + Split(s[|w|..])
  }

  /** The characters of `s` that are not whitespace, in order. */
  function NonSpace(s: string): string {
    if s == [] then [] else (if IsSpace(s[0]) then [] else [s[0]]) + NonSpace(s[1..])
  }

  function Concat(parts: seq<string>): string {
    if parts == [] then [] else parts[0] + Concat(parts[1..])
  }

  /** `' '.join(parts)` */
  function JoinSpaces(parts: seq<string>): string {
    if |parts| == 0 then [] else if |parts| == 1 then parts[0] else parts[0] + " " + JoinSpaces(parts[1..])
  }

  lemma {:induction false} NonSpaceAppend(a: string, b: string)
    ensures NonSpace(a + b) == NonSpace(a) + NonSpace(b)
    decreases |a|
  {
    if a != [] {
      assert (a + b)[1..] == a[1..] + b;
      NonSpaceAppend(a[1..], b);
    } else {
      assert a + b == b;
    }
  }

  lemma {:induction false} NonSpaceOfWord(w: string)
    requires forall c :: c in w ==> !IsSpace(c)
    ensures NonSpace(w) == w
    decreases |w|
  {
    if w != [] {
      assert w[0] in w;
      forall c | c in w[1..] ensures !IsSpace(c) { assert c in w; }
      NonSpaceOfWord(w[1..]);
      assert w == [w[0]] + w[1..];
    }
  }

  /** Splitting loses no character other than whitespace. */
  lemma {:induction false} SplitKeepsNonSpace(s: string)
    ensures Concat(Split(s)) == NonSpace(s)
    decreases |s|
  {
    if s == [] {
    } else if IsSpace(s[0]) {
      SplitKeepsNonSpace(s[1..]);
    } else {
      var w := LeadingWord(s);
      var rest := s[|w|..];
      SplitKeepsNonSpace(rest);
      assert s == w + rest;
      NonSpaceAppend(w, rest);
      NonSpaceOfWord(w);
      assert Split(s) == [w] + Split(rest);
      assert Concat([w] + Split(rest)) == w + Concat(Split(rest));
    }
  }

  lemma {:induction false} LeadingWordOf(w: string, rest: string)
    requires forall c :: c in w ==> !IsSpace(c)
    requires rest == [] || IsSpace(rest[0])
    ensures LeadingWord(w + rest) == w
    decreases |w|
  {
    if w == [] {
      assert w + rest == rest;
    } else {
      assert w[0] in w;
      forall c | c in w[1..] ensures !IsSpace(c) { assert c in w; }
      LeadingWordOf(w[1..], rest);
      assert (w + rest)[1..] == w[1..] + rest;
      assert w == [w[0]] + w[1..];
    }
  }

  /** Splitting undoes joining with single spaces, for non-empty whitespace-free tokens. */
  lemma {:induction false} SplitJoinSpaces(tokens: seq<string>)
    requires forall t :: t in tokens ==> t != [] && forall c :: c in t ==> !IsSpace(c)
    ensures Split(JoinSpaces(tokens)) == tokens
    decreases |tokens|
  {
    if |tokens| == 0 {
    } else if |tokens| == 1 {
      var t := tokens[0];
      assert t in tokens;
      assert t + [] == t;
      LeadingWordOf(t, []);
      assert t[0] in t;
      assert t[|t|..] == [];
    } else {
      var t := tokens[0];
      assert t in tokens;
      var tail := JoinSpaces(tokens[1..]);
      var s := t + " " + tail;
      assert s == t + (" " + tail);
      LeadingWordOf(t, " " + tail);
      assert t[0] in t;
      assert s[0] == t[0];
      assert s[|t|..] == " " + tail;
      assert (" " + tail)[1..] == tail;
      forall u | u in tokens[1..] ensures u != [] && forall c :: c in u ==> !IsSpace(c) { assert u in tokens; }
      SplitJoinSpaces(tokens[1..]);
      assert tokens == [t] + tokens[1..];
    }
  }

  /** A whitespace character ends a token: splitting at it splits the token list there. */
  lemma {:induction false} SplitAtSpace(s: string, i: nat)
    requires i < |s| && IsSpace(s[i])
    ensures Split(s) == Split(s[..i]) + Split(s[i + 1..])
    decreases |s|, 1
  {
    if IsSpace(s[0]) {
      SplitAtSpaceAfterSpace(s, i);
    } else {
      SplitAtSpaceAfterWord(s, i);
    }
  }

  lemma {:induction false} SplitAtSpaceAfterSpace(s: string, i: nat)
    requires i < |s| && IsSpace(s[i]) && IsSpace(s[0])
    ensures Split(s) == Split(s[..i]) + Split(s[i + 1..])
    decreases |s|, 0
  {
    assert Split(s) == Split(s[1..]);
    if i == 0 {
      assert s[..i] == [] && s[i + 1..] == s[1..];
    } else {
      SplitAtSpace(s[1..], i - 1);
      assert s[1..][..i - 1] == s[..i][1..];
      assert s[1..][i..] == s[i + 1..];
      assert Split(s[..i]) == Split(s[..i][1..]);
    }
  }

  lemma {:induction false} SplitAtSpaceAfterWord(s: string, i: nat)
    requires i < |s| && IsSpace(s[i]) && !IsSpace(s[0])
    ensures Split(s) == Split(s[..i]) + Split(s[i + 1..])
    decreases |s|, 0
  {
    var w := LeadingWord(s);
    LeadingWordBefore(s, i);
    var rest := s[|w|..];
    var mid := s[|w|..i];
    assert Split(s) == [w] + Split(rest);
    SplitPrefixWord(s, i);
    assert rest[..i - |w|] == mid;
    assert rest[i - |w| + 1..] == s[i + 1..];
    SplitAtSpace(rest, i - |w|);
    assert Split(rest) == Split(mid) + Split(s[i + 1..]);
  }

  /** The first token of `s` ends before any whitespace of `s`. */
  lemma LeadingWordBefore(s: string, i: nat)
    requires i < |s| && IsSpace(s[i])
    ensures |LeadingWord(s)| <= i
  {
  }

  /** Cutting `s` at a whitespace character keeps its first token. */
  lemma SplitPrefixWord(s: string, i: nat)
    requires i < |s| && IsSpace(s[i]) && !IsSpace(s[0])
    requires |LeadingWord(s)| <= i
    ensures Split(s[..i]) == [LeadingWord(s)] + Split(s[|LeadingWord(s)|..i])
  {
    var w := LeadingWord(s);
    var mid := s[|w|..i];
    assert s[..i] == w + mid;
    LeadingWordOf(w, mid);
    assert s[..i][0] == s[0];
    assert s[..i][|w|..] == mid;
  }

  /** A non-empty run without whitespace is one token. */
  lemma SplitWord(s: string)
    requires s != [] && forall c :: c in s ==> !IsSpace(c)
    ensures Split(s) == [s]
  {
    assert s + [] == s;
    LeadingWordOf(s, []);
    assert s[0] in s;
    assert s[|s|..] == [];
  }

  // ---------------------------------------------------------------------
  // Tokens
  // ---------------------------------------------------------------------

  /** The token list of `_preprocess`: lower-case, scrub, split. */
  function Tokenize(text: string): (tokens: seq<string>)
    ensures forall t :: t in tokens ==> t != []
    ensures forall t, c :: t in tokens && c in t ==> IsWordChar(c) && !IsUpper(c)
    ensures Concat(tokens) == NonSpace(Clean(text))
  {
    var clean := Clean(text);
    var tokens := Split(clean);
    assert forall t, c :: t in tokens && c in t ==> c in clean && !IsSpace(c);
    SplitKeepsNonSpace(clean);
    tokens
  }

  // ---------------------------------------------------------------------
  // Word n-grams
  // ---------------------------------------------------------------------

  /** `'_'.join(parts)` */
  function JoinUnderscore(parts: seq<string>): string {
    if |parts| == 0 then [] else if |parts| == 1 then parts[0] else parts[0] + "_" + JoinUnderscore(parts[1..])
  }

  lemma {:induction false} JoinUnderscoreChars(parts: seq<string>)
    requires forall t, c :: t in parts && c in t ==> IsWordChar(c)
    ensures forall c :: c in JoinUnderscore(parts) ==> IsWordChar(c)
    decreases |parts|
  {
    if |parts| == 1 {
      assert parts[0] in parts;
    } else if |parts| > 1 {
      assert parts[0] in parts;
      forall t, c | t in parts[1..] && c in t ensures IsWordChar(c) { assert t in parts; }
      JoinUnderscoreChars(parts[1..]);
    }
  }

  /** `s[i:e]` under Python's slicing rules, for a start index `i >= 0`. */
  function PySlice<T>(s: seq<T>, i: nat, e: int): (r: seq<T>)
    ensures 0 <= e <= |s| && i <= e ==> r == s[i..e]
    ensures forall x :: x in r ==> x in s
  {
    var stop := if e < 0 then e + |s| else e;
    var stop' := if stop < 0 then 0 else if stop > |s| then |s| else stop;
    if i < stop' then s[i..stop'] else []
  }

  /** `len(range(len - n + 1))` */
  function GramCount(len: nat, n: int): nat {
    if len - n + 1 > 0 then len - n + 1 else 0
  }

  /** Sum of GramCount(len, n) for n = lo .. hi. */
  function GramTotal(len: nat, lo: int, hi: int): nat
    decreases hi - lo
  {
    if lo > hi then 0 else GramCount(len, lo) + GramTotal(len, lo + 1, hi)
  }

  /** The n-grams of one size, left to right. */
  function NgramsOfSize(tokens: seq<string>, n: int): seq<string> {
    seq(GramCount(|tokens|, n), i requires 0 <= i < GramCount(|tokens|, n) => JoinUnderscore(PySlice(tokens, i, i + n)))
  }

  /**
   * `_get_ngrams`: all n-grams for n = lo .. hi, grouped by ascending n.
   * There are GramCount(len, n) grams of every size n in the range, and no others.
   */
  function Ngrams(tokens: seq<string>, lo: int, hi: int): (grams: seq<string>)
    ensures |grams| == GramTotal(|tokens|, lo, hi)
    decreases hi - lo
  {
    if lo > hi then [] else NgramsOfSize(tokens, lo) + Ngrams(tokens, lo + 1, hi)
  }

  /** The i-th gram of size n sits after all grams of the smaller sizes. */
  lemma {:induction false} NgramIndex(tokens: seq<string>, lo: int, hi: int, n: int, i: nat)
    requires lo <= n <= hi && i < GramCount(|tokens|, n)
    ensures GramTotal(|tokens|, lo, n - 1) + i < |Ngrams(tokens, lo, hi)|
    ensures Ngrams(tokens, lo, hi)[GramTotal(|tokens|, lo, n - 1) + i] == NgramsOfSize(tokens, n)[i]
    decreases n - lo
  {
    var here, rest := NgramsOfSize(tokens, lo), Ngrams(tokens, lo + 1, hi);
    assert Ngrams(tokens, lo, hi) == here + rest;
    if n > lo {
      NgramIndex(tokens, lo + 1, hi, n, i);
    }
  }

  /**
   * The i-th gram of size n sits after all grams of the smaller sizes, and
   * for n >= 1 it is the underscore-join of the n consecutive tokens from i.
   */
  lemma NgramAt(tokens: seq<string>, lo: int, hi: int, n: int, i: nat)
    requires lo <= n <= hi && i < GramCount(|tokens|, n)
    ensures GramTotal(|tokens|, lo, n - 1) + i < |Ngrams(tokens, lo, hi)|
    ensures Ngrams(tokens, lo, hi)[GramTotal(|tokens|, lo, n - 1) + i] == JoinUnderscore(PySlice(tokens, i, i + n))
    ensures n >= 1 ==> Ngrams(tokens, lo, hi)[GramTotal(|tokens|, lo, n - 1) + i] == JoinUnderscore(tokens[i..i + n])
  {
    NgramIndex(tokens, lo, hi, n, i);
    if n >= 1 {
      assert PySlice(tokens, i, i + n) == tokens[i..i + n];
    }
  }

  /** Every n-gram of word-character tokens is made of word characters only. */
  lemma NgramChars(tokens: seq<string>, lo: int, hi: int)
    requires forall t, c :: t in tokens && c in t ==> IsWordChar(c)
    ensures forall g, c :: g in Ngrams(tokens, lo, hi) && c in g ==> IsWordChar(c)
    decreases hi - lo
  {
    if lo <= hi {
      NgramChars(tokens, lo + 1, hi);
      var here := NgramsOfSize(tokens, lo);
      forall g, c | g in here && c in g ensures IsWordChar(c) {
        var i :| 0 <= i < |here| && here[i] == g;
        var parts := PySlice(tokens, i, i + lo);
        forall t, d | t in parts && d in t ensures IsWordChar(d) { assert t in tokens; }
        JoinUnderscoreChars(parts);
      }
    }
  }

  // ---------------------------------------------------------------------
  // Character subwords
  // ---------------------------------------------------------------------

  const SubwordMinLen: nat := 3

  function Min(a: int, b: int): int {
    if a <= b then a else b
  }

  /** Inner loop of `_get_subwords`: word[i:j] for j = from .. stop - 1. */
  function WindowsFrom(word: string, i: nat, from: nat, stop: nat): set<string>
    requires i <= from && stop <= |word| + 1
    decreases stop - from
  {
    if from >= stop then {} else {word[i..from]} + WindowsFrom(word, i, from + 1, stop)
  }

  /** Outer loop of `_get_subwords`, from start offset i on. */
  function SubwordsFrom(word: string, minLen: nat, i: nat): set<string>
    decreases |word| - i
  {
    if i >= |word| then {}
    else WindowsFrom(word, i, i + minLen, Min(i + 10, |word| + 1)) + SubwordsFrom(word, minLen, i + 1)
  }

  /** `_get_subwords(word, min_len)` */
  function Subwords(word: string, minLen: nat): set<string> {
    SubwordsFrom(word, minLen, 0)
  }

  /** The specification: every substring starting inside the word whose length lies in [minLen, 9]. */
  ghost predicate IsSubword(word: string, minLen: nat, s: string) {
    exists i, j :: 0 <= i < |word| && i + minLen <= j <= |word| && j - i <= 9 && s == word[i..j]
  }

  lemma {:induction false} WindowsFromSpec(word: string, i: nat, from: nat, stop: nat, s: string)
    requires i <= from && stop <= |word| + 1
    ensures s in WindowsFrom(word, i, from, stop) <==> exists j :: from <= j < stop && s == word[i..j]
    decreases stop - from
  {
    if from < stop {
      WindowsFromSpec(word, i, from + 1, stop, s);
    }
  }

  lemma {:induction false} SubwordsFromSpec(word: string, minLen: nat, i0: nat, s: string)
    ensures s in SubwordsFrom(word, minLen, i0) <==>
      exists i, j :: i0 <= i < |word| && i + minLen <= j <= |word| && j - i <= 9 && s == word[i..j]
    decreases |word| - i0
  {
    if i0 < |word| {
      var stop := Min(i0 + 10, |word| + 1);
      WindowsFromSpec(word, i0, i0 + minLen, stop, s);
      SubwordsFromSpec(word, minLen, i0 + 1, s);
      if s in SubwordsFrom(word, minLen, i0) {
        if s in WindowsFrom(word, i0, i0 + minLen, stop) {
          var j :| i0 + minLen <= j < stop && s == word[i0..j];
          assert i0 <= i0 < |word| && i0 + minLen <= j <= |word| && j - i0 <= 9 && s == word[i0..j];
        }
      } else {
        forall i, j | i0 <= i < |word| && i + minLen <= j <= |word| && j - i <= 9
          ensures s != word[i..j]
        {
          if i == i0 {
            assert !(exists j' :: i0 + minLen <= j' < stop && s == word[i0..j']);
            assert i0 + minLen <= j < stop;
          }
        }
      }
    }
  }

  /** `_get_subwords` yields exactly the substrings of length minLen .. 9. */
  lemma SubwordsSpec(word: string, minLen: nat, s: string)
    ensures s in Subwords(word, minLen) <==> IsSubword(word, minLen, s)
  {
    SubwordsFromSpec(word, minLen, 0, s);
  }

  /** A word shorter than minLen has no subwords. */
  lemma ShortWordHasNoSubwords(word: string, minLen: nat)
    requires |word| < minLen
    ensures Subwords(word, minLen) == {}
  {
    forall s | s in Subwords(word, minLen) ensures false {
      SubwordsSpec(word, minLen, s);
    }
  }

  /** Subwords consist of characters of the word. */
  lemma SubwordChars(word: string, minLen: nat, s: string)
    requires s in Subwords(word, minLen)
    ensures forall c :: c in s ==> c in word
  {
    SubwordsSpec(word, minLen, s);
    assert IsSubword(word, minLen, s);
    var i, j :| 0 <= i < |word| && i + minLen <= j <= |word| && j - i <= 9 && s == word[i..j];
    forall c | c in s ensures c in word {
      var k :| 0 <= k < |s| && s[k] == c;
      assert s[k] == word[i + k];
    }
  }

  // ---------------------------------------------------------------------
  // The feature list of _preprocess
  // ---------------------------------------------------------------------

  /** The subword set of every token, in token order. */
  function SubwordSets(tokens: seq<string>): (sets: seq<set<string>>)
    ensures |sets| == |tokens|
  {
    seq(|tokens|, k requires 0 <= k < |tokens| => Subwords(tokens[k], SubwordMinLen))
  }

  /** `order` lists the members of each set of `sets` exactly once, set after set, in any order within a set. */
  predicate Enumerates(order: seq<string>, sets: seq<set<string>>)
    decreases |sets|
  {
    if sets == [] then order == []
    else
      |sets[0]| <= |order|
      && multiset(order[..|sets[0]|]) == multiset(sets[0])
      && Enumerates(order[|sets[0]|..], sets[1..])
  }

  /**
   * `fs` is one of the lists `_preprocess(text)` can return: the n-grams,
   * then each token's subword set in token order, each set in whatever
   * order Python's set iteration yields.
   */
  predicate IsFeatureList(text: string, lo: int, hi: int, fs: seq<string>) {
    var tokens := Tokenize(text);
    var grams := Ngrams(tokens, lo, hi);
    |grams| <= |fs| && fs[..|grams|] == grams && Enumerates(fs[|grams|..], SubwordSets(tokens))
  }

  function BagOfSets(sets: seq<set<string>>): multiset<string> {
    if sets == [] then multiset{} else multiset(sets[0]) + BagOfSets(sets[1..])
  }

  /** The features of a text with multiplicities: what `Counter(tokens)` holds. */
  function FeatureBag(text: string, lo: int, hi: int): multiset<string> {
    var tokens := Tokenize(text);
    multiset(Ngrams(tokens, lo, hi)) + BagOfSets(SubwordSets(tokens))
  }

  /** The distinct features of a text: what `set(tokens)` holds. */
  function FeatureSet(text: string, lo: int, hi: int): set<string> {
    set f | f in FeatureBag(text, lo, hi)
  }

  /** The number of features of a text: what `len(tokens)` is. */
  function FeatureCount(text: string, lo: int, hi: int): nat {
    |FeatureBag(text, lo, hi)|
  }

  lemma {:induction false} EnumeratesAppend(order: seq<string>, sets: seq<set<string>>, part: seq<string>, s: set<string>)
    requires Enumerates(order, sets)
    requires multiset(part) == multiset(s)
    ensures Enumerates(order + part, sets + [s])
    decreases |sets|
  {
    assert |part| == |s| by {
      assert |multiset(part)| == |part|;
      assert |multiset(s)| == |s|;
    }
    if sets == [] {
      assert order + part == part;
      assert sets + [s] == [s];
      assert part[..|s|] == part;
      assert part[|s|..] == [];
    } else {
      var n := |sets[0]|;
      EnumeratesAppend(order[n..], sets[1..], part, s);
      assert (sets + [s])[0] == sets[0];
      assert (sets + [s])[1..] == sets[1..] + [s];
      assert (order + part)[..n] == order[..n];
      assert (order + part)[n..] == order[n..] + part;
    }
  }

  lemma {:induction false} EnumeratesBag(order: seq<string>, sets: seq<set<string>>)
    requires Enumerates(order, sets)
    ensures multiset(order) == BagOfSets(sets)
    decreases |sets|
  {
    if sets != [] {
      var n := |sets[0]|;
      EnumeratesBag(order[n..], sets[1..]);
      assert order == order[..n] + order[n..];
    }
  }

  /**
   * Whatever order the subword sets are listed in, the feature list has the
   * bag, the set and the count above.
   */
  lemma FeatureListFacts(text: string, lo: int, hi: int, fs: seq<string>)
    requires IsFeatureList(text, lo, hi, fs)
    ensures multiset(fs) == FeatureBag(text, lo, hi)
    ensures |fs| == FeatureCount(text, lo, hi)
    ensures (set f | f in fs) == FeatureSet(text, lo, hi)
  {
    var tokens := Tokenize(text);
    var grams := Ngrams(tokens, lo, hi);
    EnumeratesBag(fs[|grams|..], SubwordSets(tokens));
    PrefixBag(fs, grams, BagOfSets(SubwordSets(tokens)));
  }

  /** A list made of `prefix` and then a bag's members has the combined bag, its size and its members. */
  lemma PrefixBag(fs: seq<string>, prefix: seq<string>, bag: multiset<string>)
    requires |prefix| <= |fs| && fs[..|prefix|] == prefix && multiset(fs[|prefix|..]) == bag
    ensures multiset(fs) == multiset(prefix) + bag
    ensures |fs| == |multiset(prefix) + bag|
    ensures (set f | f in fs) == set f | f in multiset(prefix) + bag
  {
    assert fs == prefix + fs[|prefix|..];
    assert forall f :: f in fs <==> f in multiset(fs);
  }

  lemma {:induction false} BagOfSetsMembers(sets: seq<set<string>>, f: string)
    ensures f in BagOfSets(sets) <==> exists k :: 0 <= k < |sets| && f in sets[k]
    decreases |sets|
  {
    if sets != [] {
      BagOfSetsMembers(sets[1..], f);
      if f in BagOfSets(sets[1..]) {
        var k :| 0 <= k < |sets| - 1 && f in sets[1..][k];
        assert f in sets[k + 1];
      }
      if exists k :: 0 <= k < |sets| && f in sets[k] {
        var k :| 0 <= k < |sets| && f in sets[k];
        if k > 0 { assert f in sets[1..][k - 1]; }
      }
    }
  }

  /** A feature is an n-gram of the tokens or a subword of one of them. */
  lemma FeatureSetMembers(text: string, lo: int, hi: int, f: string)
    ensures f in FeatureSet(text, lo, hi) <==>
      f in Ngrams(Tokenize(text), lo, hi) || exists k :: 0 <= k < |Tokenize(text)| && IsSubword(Tokenize(text)[k], SubwordMinLen, f)
  {
    var tokens := Tokenize(text);
    var sets := SubwordSets(tokens);
    BagOfSetsMembers(sets, f);
    forall k | 0 <= k < |tokens| ensures f in sets[k] <==> IsSubword(tokens[k], SubwordMinLen, f) {
      SubwordsSpec(tokens[k], SubwordMinLen, f);
    }
  }

  /** No feature contains whitespace: every character is a word character (the join separator `_` is one). */
  lemma FeaturesAreWordChars(text: string, lo: int, hi: int, f: string)
    requires f in FeatureSet(text, lo, hi)
    ensures forall c :: c in f ==> IsWordChar(c) && !IsSpace(c)
  {
    var tokens := Tokenize(text);
    var sets := SubwordSets(tokens);
    BagOfSetsMembers(sets, f);
    if f in Ngrams(tokens, lo, hi) {
      NgramChars(tokens, lo, hi);
    } else {
      var k :| 0 <= k < |sets| && f in sets[k];
      SubwordChars(tokens[k], SubwordMinLen, f);
      assert tokens[k] in tokens;
    }
  }

  // ---------------------------------------------------------------------
  // The imperative side: iteration over Python sets, _preprocess
  // ---------------------------------------------------------------------

  /** Iterating a Python set: each member once, in an order the model does not fix. */
  method Enumerate(s: set<string>) returns (order: seq<string>)
    ensures multiset(order) == multiset(s)
  {
    order := [];
    var pending := s;
    while pending != {}
      invariant pending <= s
      invariant multiset(order) == multiset(s - pending)
      decreases |pending|
    {
      var x :| x in pending;
      assert s - (pending - {x}) == (s - pending) + {x};
      assert x !in s - pending;
      order := order + [x];
      pending := pending - {x};
    }
    assert s - pending == s;
  }

  /** `_preprocess(text)` with `ngram_range == (lo, hi)`. */
  method Preprocess(text: string, lo: int, hi: int) returns (fs: seq<string>)
    ensures IsFeatureList(text, lo, hi, fs)
  {
    var tokens := Tokenize(text);
    var grams := Ngrams(tokens, lo, hi);
    ghost var sets := SubwordSets(tokens);
    var tail: seq<string> := [];
    for k := 0 to |tokens|
      invariant Enumerates(tail, sets[..k])
    {
      var part := Enumerate(Subwords(tokens[k], SubwordMinLen));
      EnumeratesAppend(tail, sets[..k], part, sets[k]);
      assert sets[..k] + [sets[k]] == sets[..k + 1];
      tail := tail + part;
    }
    assert sets[..|tokens|] == sets;
    fs := grams + tail;
    assert fs[..|grams|] == grams;
    assert fs[|grams|..] == tail;
  }
}
