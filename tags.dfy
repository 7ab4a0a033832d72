/**
 * Tag aggregation of `get_top_hashtags`: the indices of the most similar
 * documents, the `#`-normalised count of every tag of those documents in
 * first-seen order, the fallback pass, the stable sort by count descending
 * and the truncation to n entries.
 *
 * A Python dict keeps insertion order, so `hashtag_counts` is a sequence of
 * (tag, count) pairs with distinct tags; `hashtag_counts[tag] = v` updates
 * the pair of tag in place or appends a new pair at the end.
 */
module Tags {
  import opened Features
  import Vocab

  // ---------------------------------------------------------------------
  // Tags
  // ---------------------------------------------------------------------

  /**
   * `f"#{tag}" if not tag.startswith('#') else tag`: the result starts with
   * `#`; it is the tag itself exactly when the tag already did, and
   * otherwise the tag behind one `#`.
   */
  function WithHash(tag: string): (r: string)
    ensures |r| > 0 && r[0] == '#'
    ensures r == tag <==> |tag| > 0 && tag[0] == '#'
    ensures r != tag ==> r[1..] == tag
  {
    if |tag| > 0 && tag[0] == '#' then tag else "#" + tag
  }

  /** Normalising twice changes nothing. */
  lemma WithHashIdempotent(tag: string)
    ensures WithHash(WithHash(tag)) == WithHash(tag)
  {
    var r := WithHash(tag);
    assert |r| > 0 && r[0] == '#';
  }

  /** The normalised tags of one document, in list order. */
  function Normalized(tags: seq<string>): (r: seq<string>)
    ensures |r| == |tags|
  {
    seq(|tags|, i requires 0 <= i < |tags| => WithHash(tags[i]))
  }

  /** The normalised tags the first pass visits: those of every selected index below |hashtags|, in order. */
  function SelectedTags(hashtags: seq<seq<string>>, top: seq<nat>): seq<string>
    decreases |top|
  {
    if top == [] then []
    else
      var idx := top[|top| - 1];
      SelectedTags(hashtags, top[..|top| - 1]) + (if idx < |hashtags| then Normalized(hashtags[idx]) else [])
  }

  /** The normalised tags the fallback pass visits: the first n tags (`[:n]`) of every selected document. */
  function FallbackTags(hashtags: seq<seq<string>>, top: seq<nat>, n: int): seq<string>
    decreases |top|
  {
    if top == [] then []
    else
      var idx := top[|top| - 1];
      FallbackTags(hashtags, top[..|top| - 1], n) + (if idx < |hashtags| then Normalized(PySlice(hashtags[idx], 0, n)) else [])
  }

  /** Every visited tag is normalised. */
  lemma {:induction false} SelectedTagsHashed(hashtags: seq<seq<string>>, top: seq<nat>)
    ensures forall t :: t in SelectedTags(hashtags, top) ==> |t| > 0 && t[0] == '#'
    decreases |top|
  {
    if top != [] {
      SelectedTagsHashed(hashtags, top[..|top| - 1]);
    }
  }

  /**
   * The first pass visits no tag exactly when every selected document that
   * exists has an empty tag list.
   */
  lemma {:induction false} SelectedTagsEmpty(hashtags: seq<seq<string>>, top: seq<nat>)
    ensures SelectedTags(hashtags, top) == [] <==>
      forall i :: 0 <= i < |top| && top[i] < |hashtags| ==> hashtags[top[i]] == []
    decreases |top|
  {
    if top != [] {
      var init := top[..|top| - 1];
      SelectedTagsEmpty(hashtags, init);
      assert forall i :: 0 <= i < |init| ==> top[i] == init[i];
    }
  }

  /**
   * When the first pass finds no tags, the fallback pass visits none
   * either: it walks prefixes of the same, empty, lists.
   */
  lemma {:induction false} FallbackAddsNothing(hashtags: seq<seq<string>>, top: seq<nat>, n: int)
    ensures SelectedTags(hashtags, top) == [] ==> FallbackTags(hashtags, top, n) == []
    decreases |top|
  {
    if top != [] && SelectedTags(hashtags, top) == [] {
      var init := top[..|top| - 1];
      FallbackAddsNothing(hashtags, init, n);
      var idx := top[|top| - 1];
      if idx < |hashtags| {
        assert |Normalized(hashtags[idx])| == 0;
        assert PySlice(hashtags[idx], 0, n) == [];
      }
    }
  }

  // ---------------------------------------------------------------------
  // The count dict
  // ---------------------------------------------------------------------

  /** `hashtag_counts`: (tag, count) pairs in insertion order. */
  type Counts = seq<(string, nat)>

  function Keys(c: Counts): (ks: seq<string>)
    ensures |ks| == |c| && forall i :: 0 <= i < |c| ==> ks[i] == c[i].0
  {
    seq(|c|, i requires 0 <= i < |c| => c[i].0)
  }

  predicate Distinct<T(==)>(s: seq<T>) {
    forall i, j :: 0 <= i < j < |s| ==> s[i] != s[j]
  }

  /** `c.get(t, 0)` */
  function Get(c: Counts, t: string): nat
    decreases |c|
  {
    if c == [] then 0 else if c[0].0 == t then c[0].1 else Get(c[1..], t)
  }

  /** `c[t] = v`: the pair of t is updated in place, or appended when t is new. */
  function Put(c: Counts, t: string, v: nat): (r: Counts)
    ensures r != []
    decreases |c|
  {
    if c == [] then [(t, v)]
    else if c[0].0 == t then [(t, v)] + c[1..]
    else [c[0]] + Put(c[1..], t, v)
  }

  lemma {:induction false} GetSpec(c: Counts, t: string)
    requires Distinct(Keys(c))
    ensures t !in Keys(c) ==> Get(c, t) == 0
    ensures forall i :: 0 <= i < |c| && c[i].0 == t ==> Get(c, t) == c[i].1
    decreases |c|
  {
    if c != [] {
      assert Keys(c[1..]) == Keys(c)[1..];
      GetSpec(c[1..], t);
    }
  }

  /** Storing v under an existing key replaces that pair and keeps the order. */
  lemma {:induction false} PutExisting(c: Counts, t: string, v: nat)
    requires Distinct(Keys(c)) && t in Keys(c)
    ensures |Put(c, t, v)| == |c|
    ensures forall i :: 0 <= i < |c| ==> Put(c, t, v)[i] == if c[i].0 == t then (t, v) else c[i]
    decreases |c|
  {
    if c[0].0 == t {
      assert Put(c, t, v) == [(t, v)] + c[1..];
      forall i | 1 <= i < |c| ensures c[i].0 != t {
        assert Keys(c)[0] == t && Keys(c)[i] == c[i].0;
      }
    } else {
      var ks, tail := Keys(c), Keys(c[1..]);
      assert tail == ks[1..];
      assert Distinct(tail) by {
        forall i, j | 0 <= i < j < |tail| ensures tail[i] != tail[j] {
          assert tail[i] == ks[i + 1] && tail[j] == ks[j + 1];
        }
      }
      var k :| 0 <= k < |c| && ks[k] == t;
      assert tail[k - 1] == t;
      PutExisting(c[1..], t, v);
      var r, rest := Put(c, t, v), Put(c[1..], t, v);
      assert r == [c[0]] + rest;
      forall i | 0 <= i < |c| ensures r[i] == if c[i].0 == t then (t, v) else c[i] {
        if i > 0 {
          assert r[i] == rest[i - 1] && c[i] == c[1..][i - 1];
        }
      }
    }
  }

  /** Storing v under a new key appends one pair. */
  lemma {:induction false} PutNew(c: Counts, t: string, v: nat)
    requires t !in Keys(c)
    ensures Put(c, t, v) == c + [(t, v)]
    decreases |c|
  {
    if c != [] {
      assert Keys(c)[0] == c[0].0;
      assert Keys(c[1..]) == Keys(c)[1..];
      PutNew(c[1..], t, v);
      assert c == [c[0]] + c[1..];
    }
  }

  /** Storing under a key keeps the keys, or appends the key when it is new. */
  lemma {:induction false} PutKeys(c: Counts, t: string, v: nat)
    ensures Keys(Put(c, t, v)) == if t in Keys(c) then Keys(c) else Keys(c) + [t]
    decreases |c|
  {
    if c == [] {
      assert Put(c, t, v) == [(t, v)];
    } else if c[0].0 == t {
      var r := Put(c, t, v);
      assert r == [(t, v)] + c[1..];
      assert Keys(c)[0] == t;
      assert Keys(r) == Keys(c);
    } else {
      var rest := Put(c[1..], t, v);
      assert Put(c, t, v) == [c[0]] + rest;
      assert Keys(c) == [c[0].0] + Keys(c[1..]);
      assert Keys([c[0]] + rest) == [c[0].0] + Keys(rest);
      PutKeys(c[1..], t, v);
    }
  }

  /**
   * Storing v under an existing key replaces that pair and keeps the
   * order; under a new key it appends one pair.
   */
  lemma PutSpec(c: Counts, t: string, v: nat)
    requires Distinct(Keys(c))
    ensures t in Keys(c) ==> (|Put(c, t, v)| == |c| &&
      forall i :: 0 <= i < |c| ==> Put(c, t, v)[i] == if c[i].0 == t then (t, v) else c[i])
    ensures t !in Keys(c) ==> Put(c, t, v) == c + [(t, v)]
    ensures Keys(Put(c, t, v)) == if t in Keys(c) then Keys(c) else Keys(c) + [t]
  {
    PutKeys(c, t, v);
    if t in Keys(c) {
      PutExisting(c, t, v);
    } else {
      PutNew(c, t, v);
    }
  }

  /** One more occurrence of t: `c[t] = c.get(t, 0) + 1`. */
  function Bump(c: Counts, t: string): Counts {
    Put(c, t, Get(c, t) + 1)
  }

  /** The dict after counting tags one by one from an empty dict; it is empty iff no tag was counted. */
  function Tally(tags: seq<string>): (c: Counts)
    ensures |c| == 0 <==> |tags| == 0
    decreases |tags|
  {
    if tags == [] then [] else Bump(Tally(tags[..|tags| - 1]), tags[|tags| - 1])
  }

  /** The dict after setting every tag to 1 (`hashtag_counts[tag] = 1`), starting from c. */
  function Marks(c: Counts, tags: seq<string>): Counts
    decreases |tags|
  {
    if tags == [] then c else Put(Marks(c, tags[..|tags| - 1]), tags[|tags| - 1], 1)
  }

  /** The distinct tags in the order they are first seen. */
  function Dedup(tags: seq<string>): seq<string>
    decreases |tags|
  {
    if tags == [] then []
    else
      var d := Dedup(tags[..|tags| - 1]);
      var t := tags[|tags| - 1];
      if t in d then d else d + [t]
  }

  /** The position of the first occurrence of t. */
  function FirstIndex(tags: seq<string>, t: string): (i: nat)
    requires t in tags
    ensures i < |tags| && tags[i] == t && t !in tags[..i]
    decreases |tags|
  {
    if tags[0] == t then 0 else 1 + FirstIndex(tags[1..], t)
  }

  lemma {:induction false} FirstIndexAppend(tags: seq<string>, t: string, x: string)
    requires x in tags
    ensures FirstIndex(tags + [t], x) == FirstIndex(tags, x)
    decreases |tags|
  {
    if tags[0] != x {
      assert (tags + [t])[1..] == tags[1..] + [t];
      FirstIndexAppend(tags[1..], t, x);
    }
  }

  /**
   * `Dedup` holds every tag exactly once, ordered by first occurrence:
   * the first-seen order a dict gives its keys.
   */
  lemma DedupSpec(tags: seq<string>)
    ensures forall t :: t in Dedup(tags) <==> t in tags
    ensures Distinct(Dedup(tags))
    ensures forall i, j :: 0 <= i < j < |Dedup(tags)| ==>
      FirstIndex(tags, Dedup(tags)[i]) < FirstIndex(tags, Dedup(tags)[j])
  {
    DedupMembers(tags);
    DedupDistinct(tags);
    DedupOrder(tags);
  }

  lemma {:induction false} DedupMembers(tags: seq<string>)
    ensures forall t :: t in Dedup(tags) <==> t in tags
    decreases |tags|
  {
    if tags != [] {
      var init, t := tags[..|tags| - 1], tags[|tags| - 1];
      assert tags == init + [t];
      DedupMembers(init);
    }
  }

  lemma {:induction false} DedupDistinct(tags: seq<string>)
    ensures Distinct(Dedup(tags))
    decreases |tags|
  {
    if tags != [] {
      var init := tags[..|tags| - 1];
      DedupDistinct(init);
    }
  }

  lemma {:induction false} DedupOrder(tags: seq<string>)
    ensures forall t :: t in Dedup(tags) ==> t in tags
    ensures forall i, j :: 0 <= i < j < |Dedup(tags)| ==>
      FirstIndex(tags, Dedup(tags)[i]) < FirstIndex(tags, Dedup(tags)[j])
    decreases |tags|
  {
    if tags != [] {
      var init, t := tags[..|tags| - 1], tags[|tags| - 1];
      assert tags == init + [t];
      DedupOrder(init);
      DedupMembers(init);
      DedupMembers(tags);
      var d := Dedup(init);
      forall x | x in init ensures FirstIndex(tags, x) == FirstIndex(init, x) {
        FirstIndexAppend(init, t, x);
      }
      if t !in d {
        assert t !in init;
        assert FirstIndex(tags, t) == |init|;
      }
    }
  }


  /**
   * Counting tags one by one yields one pair per distinct tag, in
   * first-seen order, whose count is the number of occurrences of the tag.
   */
  lemma TallySpec(tags: seq<string>)
    ensures Keys(Tally(tags)) == Dedup(tags)
    ensures Distinct(Keys(Tally(tags)))
    ensures forall i :: 0 <= i < |Tally(tags)| ==> Tally(tags)[i].1 == multiset(tags)[Tally(tags)[i].0]
  {
    TallyKeys(tags);
    DedupSpec(tags);
    TallyCounts(tags);
  }

  /** The keys of the tally are the distinct tags in first-seen order. */
  lemma {:induction false} TallyKeys(tags: seq<string>)
    ensures Keys(Tally(tags)) == Dedup(tags)
    decreases |tags|
  {
    if tags != [] {
      var init, t := tags[..|tags| - 1], tags[|tags| - 1];
      var c := Tally(init);
      TallyKeys(init);
      PutKeys(c, t, Get(c, t) + 1);
      assert Tally(tags) == Bump(c, t);
      assert Dedup(tags) == if t in Dedup(init) then Dedup(init) else Dedup(init) + [t];
    }
  }


  /** Every tally pair carries the number of occurrences of its tag. */
  lemma {:induction false} TallyCounts(tags: seq<string>)
    ensures forall i :: 0 <= i < |Tally(tags)| ==> Tally(tags)[i].1 == multiset(tags)[Tally(tags)[i].0]
    decreases |tags|
  {
    if tags != [] {
      var init, t := tags[..|tags| - 1], tags[|tags| - 1];
      var c := Tally(init);
      TallyCounts(init);
      TallyKeys(init);
      DedupDistinct(init);
      var v := Get(c, t) + 1;
      var r := Tally(tags);
      assert r == Put(c, t, v);
      assert tags == init + [t];
      assert multiset(tags) == multiset(init) + multiset{t};
      if t in Keys(c) {
        GetSpec(c, t);
        PutExisting(c, t, v);
        forall i | 0 <= i < |r| ensures r[i].1 == multiset(tags)[r[i].0] {
          assert Keys(c)[i] == c[i].0;
        }
      } else {
        DedupMembers(init);
        assert t !in init;
        PutNew(c, t, v);
        GetSpec(c, t);
        forall i | 0 <= i < |r| ensures r[i].1 == multiset(tags)[r[i].0] {
          if i < |c| {
            assert r[i] == c[i];
          }
        }
      }
    }
  }


  // ---------------------------------------------------------------------
  // `sorted(hashtag_counts.items(), key=lambda x: x[1], reverse=True)`
  // ---------------------------------------------------------------------

  /** Places e before the first pair whose count is not larger, so it precedes equal counts seen later. */
  function Insert(e: (string, nat), s: Counts): (r: Counts)
    ensures |r| == |s| + 1
    decreases |s|
  {
    if s == [] then [e]
    else if s[0].1 > e.1 then [s[0]] + Insert(e, s[1..])
    else [e] + s
  }

  /** A stable sort by count, largest first; it keeps the number of pairs. */
  function SortByCount(c: Counts): (sorted: Counts)
    ensures |sorted| == |c|
    decreases |c|
  {
    if c == [] then [] else Insert(c[0], SortByCount(c[1..]))
  }

  predicate Descending(c: Counts) {
    forall i, j :: 0 <= i < j < |c| ==> c[i].1 >= c[j].1
  }

  /** The pairs with count v, in order. */
  function WithCount(c: Counts, v: nat): Counts
    decreases |c|
  {
    if c == [] then [] else (if c[0].1 == v then [c[0]] else []) + WithCount(c[1..], v)
  }

  /** The number of leading pairs that count more than e: where `Insert` puts e. */
  function InsertPos(e: (string, nat), s: Counts): (p: nat)
    ensures p <= |s|
    ensures forall i :: 0 <= i < p ==> s[i].1 > e.1
    ensures p < |s| ==> s[p].1 <= e.1
    decreases |s|
  {
    if s == [] || s[0].1 <= e.1 then 0 else 1 + InsertPos(e, s[1..])
  }

  lemma {:induction false} InsertAt(e: (string, nat), s: Counts)
    ensures Insert(e, s) == s[..InsertPos(e, s)] + [e] + s[InsertPos(e, s)..]
    decreases |s|
  {
    if s != [] && s[0].1 > e.1 {
      InsertAt(e, s[1..]);
      var p := InsertPos(e, s[1..]);
      assert s[..p + 1] == [s[0]] + s[1..][..p];
      assert s[p + 1..] == s[1..][p..];
    }
  }

  lemma InsertPerm(e: (string, nat), s: Counts)
    ensures multiset(Insert(e, s)) == multiset(s) + multiset{e}
  {
    InsertAt(e, s);
    SpliceCount(s, InsertPos(e, s), e);
  }

  /** Putting e at position p adds one e to the multiset of pairs. */
  lemma SpliceCount(s: Counts, p: nat, e: (string, nat))
    requires p <= |s|
    ensures multiset(s[..p] + [e] + s[p..]) == multiset(s) + multiset{e}
  {
    var front, back := s[..p], s[p..];
    assert multiset(front + [e] + back) == multiset(front) + multiset{e} + multiset(back);
    assert s == front + back;
  }

  lemma InsertDescending(e: (string, nat), s: Counts)
    requires Descending(s)
    ensures Descending(Insert(e, s))
  {
    InsertAt(e, s);
    SpliceDescending(s, InsertPos(e, s), e);
  }

  /** e placed after the pairs counting more and before the rest keeps the order descending. */
  lemma SpliceDescending(s: Counts, p: nat, e: (string, nat))
    requires Descending(s) && p <= |s|
    requires forall i :: 0 <= i < p ==> s[i].1 > e.1
    requires p < |s| ==> s[p].1 <= e.1
    ensures Descending(s[..p] + [e] + s[p..])
  {
    var r := s[..p] + [e] + s[p..];
    forall i, j | 0 <= i < j < |r| ensures r[i].1 >= r[j].1 {
      if j < p {
        assert r[i] == s[i] && r[j] == s[j];
      } else if j == p {
        assert r[i] == s[i] && r[j] == e;
      } else if i == p {
        assert r[i] == e && r[j] == s[j - 1];
      } else if i < p {
        assert r[i] == s[i] && r[j] == s[j - 1];
      } else {
        assert r[i] == s[i - 1] && r[j] == s[j - 1];
      }
    }
  }

  lemma {:induction false} InsertStable(e: (string, nat), s: Counts, v: nat)
    ensures WithCount(Insert(e, s), v) == (if e.1 == v then [e] else []) + WithCount(s, v)
    decreases |s|
  {
    var mark := if e.1 == v then [e] else [];
    if s == [] {
      assert Insert(e, s) == [e];
      assert WithCount([e], v) == mark + WithCount([e][1..], v);
    } else if s[0].1 > e.1 {
      var head := if s[0].1 == v then [s[0]] else [];
      var rest := Insert(e, s[1..]);
      assert Insert(e, s) == [s[0]] + rest;
      assert ([s[0]] + rest)[0] == s[0] && ([s[0]] + rest)[1..] == rest;
      assert WithCount(Insert(e, s), v) == head + WithCount(rest, v);
      InsertStable(e, s[1..], v);
      assert WithCount(s, v) == head + WithCount(s[1..], v);
    } else {
      assert Insert(e, s) == [e] + s;
      assert ([e] + s)[0] == e && ([e] + s)[1..] == s;
    }
  }

  lemma DistinctInsertAt(ks: seq<string>, p: nat, x: string)
    requires p <= |ks| && Distinct(ks) && x !in ks
    ensures Distinct(ks[..p] + [x] + ks[p..])
  {
    var r := ks[..p] + [x] + ks[p..];
    forall i, j | 0 <= i < j < |r| ensures r[i] != r[j] {
      if i == p {
        assert r[j] == ks[j - 1];
      } else if j == p {
        assert r[i] == ks[i];
      } else {
        var i' := if i < p then i else i - 1;
        var j' := if j < p then j else j - 1;
        assert r[i] == ks[i'] && r[j] == ks[j'];
      }
    }
  }

  lemma InsertKeys(e: (string, nat), s: Counts)
    requires Distinct(Keys(s)) && e.0 !in Keys(s)
    ensures Distinct(Keys(Insert(e, s)))
  {
    InsertAt(e, s);
    SpliceKeys(s, InsertPos(e, s), e);
  }

  /** A pair with a new key placed anywhere keeps the keys distinct. */
  lemma SpliceKeys(s: Counts, p: nat, e: (string, nat))
    requires p <= |s| && Distinct(Keys(s)) && e.0 !in Keys(s)
    ensures Distinct(Keys(s[..p] + [e] + s[p..]))
  {
    assert Keys(s[..p] + [e] + s[p..]) == Keys(s)[..p] + [e.0] + Keys(s)[p..];
    DistinctInsertAt(Keys(s), p, e.0);
  }

  /** Sorted, largest count first. */
  lemma {:induction false} SortByCountDescending(c: Counts)
    ensures Descending(SortByCount(c))
    decreases |c|
  {
    if c != [] {
      SortByCountDescending(c[1..]);
      InsertDescending(c[0], SortByCount(c[1..]));
    }
  }

  /** The same pairs, as many times each. */
  lemma {:induction false} SortByCountPermutes(c: Counts)
    ensures multiset(SortByCount(c)) == multiset(c)
    decreases |c|
  {
    if c != [] {
      var rest := SortByCount(c[1..]);
      assert SortByCount(c) == Insert(c[0], rest);
      SortByCountPermutes(c[1..]);
      InsertPerm(c[0], rest);
      assert c == [c[0]] + c[1..];
      assert multiset(c) == multiset{c[0]} + multiset(c[1..]);
    }
  }

  /** Stable: the pairs of every count keep their relative order. */
  lemma {:induction false} SortByCountStable(c: Counts, v: nat)
    ensures WithCount(SortByCount(c), v) == WithCount(c, v)
    decreases |c|
  {
    if c != [] {
      SortByCountStable(c[1..], v);
      InsertStable(c[0], SortByCount(c[1..]), v);
    }
  }

  /** Distinct keys stay distinct. */
  lemma {:induction false} SortByCountKeys(c: Counts)
    requires Distinct(Keys(c))
    ensures Distinct(Keys(SortByCount(c)))
    decreases |c|
  {
    if c != [] {
      var rest := SortByCount(c[1..]);
      assert Keys(c[1..]) == Keys(c)[1..];
      SortByCountKeys(c[1..]);
      SortByCountPermutes(c[1..]);
      forall k | 0 <= k < |rest| ensures rest[k].0 != c[0].0 {
        assert rest[k] in multiset(c[1..]);
        var q :| 0 <= q < |c[1..]| && c[1..][q] == rest[k];
        assert Keys(c)[q + 1] == rest[k].0;
      }
      InsertKeys(c[0], rest);
    }
  }

  /**
   * `dict(sorted_hashtags[:n])`: never more pairs than the dict holds; the
   * first min(n, |c|) pairs for n >= 0, and all but the last -n for n < 0.
   */
  function Ranked(c: Counts, n: int): (r: Counts)
    ensures |r| <= |c|
    ensures n >= 0 ==> |r| <= n
    ensures n >= 0 ==> |r| == Min(n, |c|)
    ensures n < 0 ==> |r| == (if |c| + n < 0 then 0 else |c| + n)
  {
    PySlice(SortByCount(c), 0, n)
  }

  lemma {:induction false} WithCountPrefix(c: Counts, k: nat, v: nat)
    requires k <= |c|
    ensures WithCount(c[..k], v) <= WithCount(c, v)
    decreases k
  {
    if k > 0 {
      assert c[..k][1..] == c[1..][..k - 1];
      WithCountPrefix(c[1..], k - 1, v);
    }
  }

  /**
   * `dict(sorted(c.items(), ...)[:n])` for a dict c: at most n pairs (for
   * n >= 0), distinct keys, only pairs of c, counts non-increasing, no
   * pair left out counting more than a kept one, and the kept pairs of
   * every count are the first ones of c with that count, in c's order.
   */
  lemma RankedFacts(c: Counts, n: int)
    requires Distinct(Keys(c))
    ensures n >= 0 ==> |Ranked(c, n)| <= n
    ensures n >= 0 ==> |Ranked(c, n)| == Min(n, |c|)
    ensures n >= |c| ==> multiset(Ranked(c, n)) == multiset(c)
    ensures Distinct(Keys(Ranked(c, n)))
    ensures forall i :: 0 <= i < |Ranked(c, n)| ==> Ranked(c, n)[i] in c
    ensures Descending(Ranked(c, n))
    ensures forall e, i :: e in c && e !in Ranked(c, n) && 0 <= i < |Ranked(c, n)| ==> e.1 <= Ranked(c, n)[i].1
    ensures forall v :: WithCount(Ranked(c, n), v) <= WithCount(c, v)
  {
    var k := RankedPrefix(c, n);
    var s := SortByCount(c);
    SortByCountKeys(c);
    assert Keys(s[..k]) == Keys(s)[..k];
    RankedMembers(c, k);
    RankedDominates(c, k);
    forall v ensures WithCount(s[..k], v) <= WithCount(c, v) {
      WithCountPrefix(s, k, v);
      SortByCountStable(c, v);
    }
    if n >= |c| {
      RankedWhole(c, n);
    }
  }

  /** A slice at least as long as the dict keeps every pair. */
  lemma RankedWhole(c: Counts, n: int)
    requires n >= |c|
    ensures multiset(Ranked(c, n)) == multiset(c)
  {
    var k := RankedPrefix(c, n);
    var s := SortByCount(c);
    assert s[..k] == s;
    SortByCountPermutes(c);
  }

  /** The slice `[:n]` of the sorted pairs is a prefix of them, of length at most n when n >= 0. */
  lemma RankedPrefix(c: Counts, n: int) returns (k: nat)
    ensures k <= |SortByCount(c)| && Ranked(c, n) == SortByCount(c)[..k]
    ensures n >= 0 ==> k <= n
    ensures Descending(Ranked(c, n))
  {
    var s := SortByCount(c);
    SortByCountDescending(c);
    var stop := if n < 0 then n + |s| else n;
    k := if stop < 0 then 0 else if stop > |s| then |s| else stop;
    assert Ranked(c, n) == s[..k];
  }

  /** Every pair of a prefix of the sorted pairs is a pair of c. */
  lemma RankedMembers(c: Counts, k: nat)
    requires k <= |SortByCount(c)|
    ensures forall i :: 0 <= i < k ==> SortByCount(c)[i] in c
  {
    var s := SortByCount(c);
    SortByCountPermutes(c);
    forall i | 0 <= i < k ensures s[i] in c {
      assert s[i] in multiset(s);
    }
  }

  /** No pair of c outside a prefix of the sorted pairs counts more than a pair inside it. */
  lemma RankedDominates(c: Counts, k: nat)
    requires k <= |SortByCount(c)|
    ensures forall e, i :: e in c && e !in SortByCount(c)[..k] && 0 <= i < k ==> e.1 <= SortByCount(c)[i].1
  {
    var s := SortByCount(c);
    SortByCountPermutes(c);
    SortByCountDescending(c);
    forall e, i | e in c && e !in s[..k] && 0 <= i < k ensures e.1 <= s[i].1 {
      assert e in multiset(s);
      var p :| 0 <= p < |s| && s[p] == e;
      assert forall q :: 0 <= q < k ==> s[..k][q] == s[q];
      assert k <= p;
    }
  }

  /**
   * The answer of `get_top_hashtags` for the visited tags: every kept tag
   * occurs among them and carries its number of occurrences, and the
   * ranking facts hold of the tally.
   */
  lemma RankedSpec(tags: seq<string>, n: int)
    ensures n >= 0 ==> |Ranked(Tally(tags), n)| <= n
    ensures n >= 0 ==> |Ranked(Tally(tags), n)| == Min(n, |set t | t in tags|)
    ensures n >= |set t | t in tags| ==> forall t :: t in tags ==> t in Keys(Ranked(Tally(tags), n))
    ensures Distinct(Keys(Ranked(Tally(tags), n)))
    ensures forall i :: 0 <= i < |Ranked(Tally(tags), n)| ==>
      Ranked(Tally(tags), n)[i].0 in tags && Ranked(Tally(tags), n)[i].1 == multiset(tags)[Ranked(Tally(tags), n)[i].0]
    ensures Descending(Ranked(Tally(tags), n))
    ensures forall e, i :: e in Tally(tags) && e !in Ranked(Tally(tags), n) && 0 <= i < |Ranked(Tally(tags), n)| ==>
      e.1 <= Ranked(Tally(tags), n)[i].1
    ensures forall v :: WithCount(Ranked(Tally(tags), n), v) <= WithCount(Tally(tags), v)
  {
    var c := Tally(tags);
    TallySpec(tags);
    DedupSpec(tags);
    RankedFacts(c, n);
    var r := Ranked(c, n);
    forall i | 0 <= i < |r| ensures r[i].0 in tags && r[i].1 == multiset(tags)[r[i].0] {
      var p :| 0 <= p < |c| && c[p] == r[i];
      assert Keys(c)[p] == r[i].0;
    }
    RankedComplete(tags, n);
  }

  /**
   * The answer holds min(n, number of distinct tags) tags for n >= 0, so
   * with n at least that number every visited tag is returned.
   */
  lemma RankedComplete(tags: seq<string>, n: int)
    ensures n >= 0 ==> |Ranked(Tally(tags), n)| == Min(n, |set t | t in tags|)
    ensures n >= |set t | t in tags| ==> forall t :: t in tags ==> t in Keys(Ranked(Tally(tags), n))
  {
    var c := Tally(tags);
    TallySize(tags);
    if n >= |c| {
      TallySpec(tags);
      DedupSpec(tags);
      RankedWhole(c, n);
      var r := Ranked(c, n);
      forall t | t in tags ensures t in Keys(r) {
        var p :| 0 <= p < |c| && Keys(c)[p] == t;
        assert c[p] in multiset(r);
        var q :| 0 <= q < |r| && r[q] == c[p];
        assert Keys(r)[q] == t;
      }
    }
  }

  /** The tally holds one pair per distinct tag. */
  lemma TallySize(tags: seq<string>)
    ensures |Tally(tags)| == |set t | t in tags|
  {
    TallySpec(tags);
    DedupSpec(tags);
    var d := Keys(Tally(tags));
    DistinctSize(d);
    assert (set t | t in d) == (set t | t in tags);
  }

  /** A sequence without repetitions has as many elements as its set. */
  lemma {:induction false} DistinctSize<T>(s: seq<T>)
    requires Distinct(s)
    ensures |set x | x in s| == |s|
    decreases |s|
  {
    if s != [] {
      DistinctSize(s[1..]);
      assert (set x | x in s) == {s[0]} + (set x | x in s[1..]);
      assert s[0] !in (set x | x in s[1..]);
    }
  }

  // ---------------------------------------------------------------------
  // `np.argsort(similarities)[-k:][::-1]`
  // ---------------------------------------------------------------------

  /**
   * `top` holds k distinct indices of `scores`, by descending score, and
   * no index left out scores more than any chosen one. The order among
   * equal scores is not fixed: numpy's default sort is not stable.
   */
  predicate IsTopK(scores: seq<real>, top: seq<nat>, k: nat) {
    |top| == k
    && (forall i :: 0 <= i < |top| ==> top[i] < |scores|)
    && Distinct(top)
    && (forall i, j :: 0 <= i < j < |top| ==> scores[top[i]] >= scores[top[j]])
    && (forall i, x :: 0 <= i < |top| && 0 <= x < |scores| && x !in top ==> scores[x] <= scores[top[i]])
  }

  /** The indices a sequence holds. */
  function Elems(s: seq<nat>): set<nat> {
    set x | x in s
  }

  lemma {:induction false} ElemsCard(s: seq<nat>)
    ensures |Elems(s)| <= |s|
    decreases |s|
  {
    if s != [] {
      var init, y := s[..|s| - 1], s[|s| - 1];
      ElemsCard(init);
      assert s == init + [y];
      assert Elems(s) == Elems(init) + {y};
      if y in Elems(init) {
        assert Elems(s) == Elems(init);
      }
    }
  }

  /** Fewer than n indices leave some index below n out. */
  lemma MissingIndex(top: seq<nat>, n: nat)
    requires |top| < n
    ensures exists x :: 0 <= x < n && x !in top
  {
    if forall x :: 0 <= x < n ==> x in top {
      forall x | x in Vocab.Below(n) ensures x in Elems(top) {
        Vocab.BelowMembers(n, x);
      }
      Vocab.SubsetCard(Vocab.Below(n), Elems(top));
      Vocab.BelowCard(n);
      ElemsCard(top);
      assert false;
    }
  }

  /** The best-scoring index not yet chosen. */
  method BestOutside(scores: seq<real>, top: seq<nat>) returns (best: nat)
    requires exists x :: 0 <= x < |scores| && x !in top
    ensures best < |scores| && best !in top
    ensures forall x :: 0 <= x < |scores| && x !in top ==> scores[x] <= scores[best]
  {
    var found := false;
    best := 0;
    for x := 0 to |scores|
      invariant !found ==> forall y :: 0 <= y < x ==> y in top
      invariant found ==> best < x && best !in top
      invariant found ==> forall y :: 0 <= y < x && y !in top ==> scores[y] <= scores[best]
    {
      if x !in top && (!found || scores[x] > scores[best]) {
        best := x;
        found := true;
      }
    }
  }

  /** The k best indices, best first. */
  method SelectTop(scores: seq<real>, k: nat) returns (top: seq<nat>)
    requires k <= |scores|
    ensures IsTopK(scores, top, k)
  {
    top := [];
    while |top| < k
      invariant |top| <= k
      invariant forall i :: 0 <= i < |top| ==> top[i] < |scores|
      invariant Distinct(top)
      invariant forall i, j :: 0 <= i < j < |top| ==> scores[top[i]] >= scores[top[j]]
      invariant forall i, x :: 0 <= i < |top| && 0 <= x < |scores| && x !in top ==> scores[x] <= scores[top[i]]
      decreases k - |top|
    {
      MissingIndex(top, |scores|);
      var best := BestOutside(scores, top);
      top := top + [best];
    }
  }

  // ---------------------------------------------------------------------
  // The counting loops
  // ---------------------------------------------------------------------

  lemma SelectedTagsStep(hashtags: seq<seq<string>>, top: seq<nat>, i: nat)
    requires i < |top|
    ensures SelectedTags(hashtags, top[..i + 1]) ==
      SelectedTags(hashtags, top[..i]) + (if top[i] < |hashtags| then Normalized(hashtags[top[i]]) else [])
  {
    assert top[..i + 1][..i] == top[..i];
  }

  lemma FallbackTagsStep(hashtags: seq<seq<string>>, top: seq<nat>, n: int, i: nat)
    requires i < |top|
    ensures FallbackTags(hashtags, top[..i + 1], n) ==
      FallbackTags(hashtags, top[..i], n) + (if top[i] < |hashtags| then Normalized(PySlice(hashtags[top[i]], 0, n)) else [])
  {
    assert top[..i + 1][..i] == top[..i];
  }

  lemma NormalizedStep(before: seq<string>, tags: seq<string>, j: nat)
    requires j < |tags|
    ensures before + Normalized(tags[..j + 1]) == (before + Normalized(tags[..j])) + [WithHash(tags[j])]
  {
  }

  lemma TallyStep(s: seq<string>, t: string)
    ensures Tally(s + [t]) == Bump(Tally(s), t)
  {
    assert (s + [t])[..|s|] == s;
  }

  lemma MarksStep(c: Counts, s: seq<string>, t: string)
    ensures Marks(c, s + [t]) == Put(Marks(c, s), t, 1)
  {
    assert (s + [t])[..|s|] == s;
  }

  /**
   * Both passes of `get_top_hashtags` over the selected indices: count
   * every normalised tag of every selected document; if that found
   * nothing, set the first n tags of every selected document to 1.
   * The result is the tally of the first pass whatever the fallback does.
   */
  method CountTags(hashtags: seq<seq<string>>, top: seq<nat>, n: int) returns (counts: Counts)
    ensures counts == Tally(SelectedTags(hashtags, top))
  {
    counts := [];
    for i := 0 to |top|
      invariant counts == Tally(SelectedTags(hashtags, top[..i]))
    {
      var idx := top[i];
      SelectedTagsStep(hashtags, top, i);
      if idx < |hashtags| {
        counts := CountDocumentTags(SelectedTags(hashtags, top[..i]), hashtags[idx], counts);
      } else {
        assert SelectedTags(hashtags, top[..i + 1]) == SelectedTags(hashtags, top[..i]);
      }
    }
    assert top[..|top|] == top;
    if counts == [] {
      assert SelectedTags(hashtags, top) == [];
      FallbackAddsNothing(hashtags, top, n);
      counts := Fallback(hashtags, top, n, counts);
    }
  }

  /** The inner loop of the first pass: count every normalised tag of one document. */
  method CountDocumentTags(ghost before: seq<string>, tags: seq<string>, counts0: Counts) returns (counts: Counts)
    requires counts0 == Tally(before)
    ensures counts == Tally(before + Normalized(tags))
  {
    counts := counts0;
    assert before + Normalized(tags[..0]) == before;
    for j := 0 to |tags|
      invariant counts == Tally(before + Normalized(tags[..j]))
    {
      var tag := WithHash(tags[j]);
      ghost var visited := before + Normalized(tags[..j]);
      NormalizedStep(before, tags, j);
      TallyStep(visited, tag);
      ghost var prev := counts;
      counts := Put(counts, tag, Get(counts, tag) + 1);
      assert counts == Bump(prev, tag);
    }
    assert tags[..|tags|] == tags;
  }

  /** The fallback pass: every tag among the first n of a selected document is set to 1. */
  method Fallback(hashtags: seq<seq<string>>, top: seq<nat>, n: int, counts0: Counts) returns (counts: Counts)
    ensures counts == Marks(counts0, FallbackTags(hashtags, top, n))
  {
    counts := counts0;
    for i := 0 to |top|
      invariant counts == Marks(counts0, FallbackTags(hashtags, top[..i], n))
    {
      var idx := top[i];
      FallbackTagsStep(hashtags, top, n, i);
      if idx < |hashtags| {
        counts := MarkDocumentTags(counts0, FallbackTags(hashtags, top[..i], n), PySlice(hashtags[idx], 0, n), counts);
      } else {
        assert FallbackTags(hashtags, top[..i + 1], n) == FallbackTags(hashtags, top[..i], n);
      }
    }
    assert top[..|top|] == top;
  }

  /** The inner loop of the fallback pass: set every normalised tag of one document to 1. */
  method MarkDocumentTags(ghost counts0: Counts, ghost before: seq<string>, tags: seq<string>, c: Counts)
    returns (counts: Counts)
    requires c == Marks(counts0, before)
    ensures counts == Marks(counts0, before + Normalized(tags))
  {
    counts := c;
    assert before + Normalized(tags[..0]) == before;
    for j := 0 to |tags|
      invariant counts == Marks(counts0, before + Normalized(tags[..j]))
    {
      var tag := WithHash(tags[j]);
      NormalizedStep(before, tags, j);
      MarksStep(counts0, before + Normalized(tags[..j]), tag);
      counts := Put(counts, tag, 1);
    }
    assert tags[..|tags|] == tags;
  }

}
