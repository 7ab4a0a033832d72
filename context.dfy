/**
 * Positional context weights of `_get_context_vectors`: for every position
 * i, every neighbour j within the window gets weight 1/|i - j| in the array
 * of the string at i. Arrays are shared by equal strings, so a later
 * occurrence overwrites what an earlier one wrote (last write wins).
 */
module Context {
  import opened Wrappers

  /** Position i writes position j of the array of t. */
  predicate Writes(tokens: seq<string>, w: int, t: string, i: int, j: int) {
    0 <= i < |tokens| && 0 <= j < |tokens| && tokens[i] == t && i != j && i - w <= j <= i + w
  }

  function Dist(i: int, j: int): nat {
    if i <= j then j - i else i - j
  }

  /** Some position writes into the array of t. */
  ghost predicate HasWriter(tokens: seq<string>, w: int, t: string) {
    exists i, j :: Writes(tokens, w, t, i, j)
  }

  /** The largest writer below k of position j in the array of t, if any. */
  function LastWriter(tokens: seq<string>, w: int, t: string, j: int, k: nat): (r: Option<nat>)
    requires k <= |tokens|
    ensures r.Some? ==> r.value < k && Writes(tokens, w, t, r.value, j)
    ensures r.Some? ==> forall i :: r.value < i < k ==> !Writes(tokens, w, t, i, j)
    ensures r.None? ==> forall i :: 0 <= i < k ==> !Writes(tokens, w, t, i, j)
    decreases k
  {
    if k == 0 then None
    else if Writes(tokens, w, t, k - 1, j) then Some(k - 1)
    else LastWriter(tokens, w, t, j, k - 1)
  }

  /** Entry j of the array of t once positions 0 .. k-1 have written. */
  function Weight(tokens: seq<string>, w: int, t: string, j: int, k: nat): real
    requires k <= |tokens|
  {
    match LastWriter(tokens, w, t, j, k)
    case None => 0.0
    case Some(i) => 1.0 / (Dist(i, j) as real)
  }

  /** The array of t after the whole loop. */
  function ContextRow(tokens: seq<string>, w: int, t: string): (row: seq<real>)
    ensures |row| == |tokens|
  {
    seq(|tokens|, j requires 0 <= j < |tokens| => Weight(tokens, w, t, j, |tokens|))
  }

  /**
   * Entry j of the array of t is 1/|i - j| for the largest i that holds t
   * and lies within the window of j, and 0 when there is none.
   */
  lemma ContextRowEntry(tokens: seq<string>, w: int, t: string, j: nat)
    requires j < |tokens|
    ensures (forall i :: !Writes(tokens, w, t, i, j)) ==> ContextRow(tokens, w, t)[j] == 0.0
    ensures forall i :: Writes(tokens, w, t, i, j) && (forall i' :: i < i' ==> !Writes(tokens, w, t, i', j)) ==> ContextRow(tokens, w, t)[j] == 1.0 / (Dist(i, j) as real)
  {
    var r := LastWriter(tokens, w, t, j, |tokens|);
    if r.Some? {
      assert Writes(tokens, w, t, r.value, j);
    }
  }

  /** A string gets an array iff it occurs, the window is at least 1 and there are at least two positions. */
  lemma HasWriterIff(tokens: seq<string>, w: int, t: string)
    ensures HasWriter(tokens, w, t) <==> t in tokens && w >= 1 && |tokens| >= 2
  {
    if t in tokens && w >= 1 && |tokens| >= 2 {
      var i :| 0 <= i < |tokens| && tokens[i] == t;
      if i > 0 {
        assert Writes(tokens, w, t, i, i - 1);
      } else {
        assert Writes(tokens, w, t, i, i + 1);
      }
    }
  }

  /** The array of t once positions 0 .. k-1 have written. */
  function RowAfter(tokens: seq<string>, w: int, t: string, k: nat): (row: seq<real>)
    requires k <= |tokens|
    ensures |row| == |tokens|
  {
    seq(|tokens|, j requires 0 <= j < |tokens| => Weight(tokens, w, t, j, k))
  }

  /** The array of t while position i is writing: entries below j already written by i. */
  function RowDuring(tokens: seq<string>, w: int, t: string, i: nat, j: int): (row: seq<real>)
    requires i < |tokens|
    ensures |row| == |tokens|
  {
    seq(|tokens|, j' requires 0 <= j' < |tokens| => if j' < j then Weight(tokens, w, t, j', i + 1) else Weight(tokens, w, t, j', i))
  }

  /** One more position writing changes only the entries it writes. */
  lemma WeightStep(tokens: seq<string>, w: int, t: string, j: int, i: nat)
    requires i < |tokens|
    ensures Weight(tokens, w, t, j, i + 1) == if Writes(tokens, w, t, i, j) then 1.0 / (Dist(i, j) as real) else Weight(tokens, w, t, j, i)
  {
  }

  /** `np.zeros(n)` */
  function Zeros(n: nat): (z: seq<real>)
    ensures |z| == n && forall j :: 0 <= j < n ==> z[j] == 0.0
  {
    seq(n, _ => 0.0)
  }

  /** `context_vectors[t]` of the defaultdict: an absent key reads as a fresh all-zero array. */
  function ArrayOf(cv: map<string, seq<real>>, t: string, n: nat): seq<real> {
    if t in cv then cv[t] else Zeros(n)
  }

  /** The strings at positions below i, when the window writes at all. */
  function KeysBefore(tokens: seq<string>, w: int, i: nat): set<string>
    requires i <= |tokens|
  {
    if w >= 1 && |tokens| >= 2 then set k | 0 <= k < i :: tokens[k] else {}
  }

  /** A string without an array after i positions has nothing written for it. */
  lemma RowAfterUnkeyed(tokens: seq<string>, w: int, t: string, i: nat)
    requires i <= |tokens| && t !in KeysBefore(tokens, w, i)
    ensures RowAfter(tokens, w, t, i) == Zeros(|tokens|)
  {
    forall j | 0 <= j < |tokens| ensures Weight(tokens, w, t, j, i) == 0.0 {
      var r := LastWriter(tokens, w, t, j, i);
    }
  }

  /** Position i leaves the arrays of other strings alone. */
  lemma RowAfterOther(tokens: seq<string>, w: int, t: string, i: nat)
    requires i < |tokens| && t != tokens[i]
    ensures RowAfter(tokens, w, t, i + 1) == RowAfter(tokens, w, t, i)
  {
    forall j | 0 <= j < |tokens| ensures Weight(tokens, w, t, j, i + 1) == Weight(tokens, w, t, j, i) {
      WeightStep(tokens, w, t, j, i);
    }
  }

  /** `max(0, i - w)` */
  function WindowStart(i: int, w: int): int {
    if i - w > 0 then i - w else 0
  }

  /** `min(len(tokens), i + w + 1)` */
  function WindowEnd(n: int, i: int, w: int): int {
    if n < i + w + 1 then n else i + w + 1
  }

  lemma RowDuringStart(tokens: seq<string>, w: int, t: string, i: nat)
    requires i < |tokens|
    ensures RowDuring(tokens, w, t, i, WindowStart(i, w)) == RowAfter(tokens, w, t, i)
  {
    forall j | 0 <= j < |tokens| && j < WindowStart(i, w) ensures Weight(tokens, w, t, j, i + 1) == Weight(tokens, w, t, j, i) {
      WeightStep(tokens, w, t, j, i);
    }
  }

  lemma RowDuringStep(tokens: seq<string>, w: int, i: nat, j: nat)
    requires i < |tokens| && WindowStart(i, w) <= j < WindowEnd(|tokens|, i, w)
    ensures RowDuring(tokens, w, tokens[i], i, j + 1) ==
      if i != j then RowDuring(tokens, w, tokens[i], i, j)[j := 1.0 / (Dist(i, j) as real)] else RowDuring(tokens, w, tokens[i], i, j)
  {
    WeightStep(tokens, w, tokens[i], j, i);
  }

  lemma RowDuringEnd(tokens: seq<string>, w: int, t: string, i: nat, j: int)
    requires i < |tokens| && j >= WindowEnd(|tokens|, i, w)
    ensures RowDuring(tokens, w, t, i, j) == RowAfter(tokens, w, t, i + 1)
  {
    forall j' | 0 <= j' < |tokens| && j' >= j ensures Weight(tokens, w, t, j', i + 1) == Weight(tokens, w, t, j', i) {
      WeightStep(tokens, w, t, j', i);
    }
  }

  /** Position i writes somewhere iff the window is at least 1 and there are at least two positions. */
  lemma WindowWrites(n: nat, w: int, i: nat)
    requires i < n
    ensures var start, end := WindowStart(i, w), WindowEnd(n, i, w);
      (end - start >= 2 || (end - start == 1 && start != i)) <==> (w >= 1 && n >= 2)
  {
  }

  lemma KeysBeforeNext(tokens: seq<string>, w: int, i: nat)
    requires i < |tokens|
    ensures KeysBefore(tokens, w, i + 1) == KeysBefore(tokens, w, i) + (if w >= 1 && |tokens| >= 2 then {tokens[i]} else {})
  {
  }

  /** The body of the outer loop of `_get_context_vectors`: position i writes its window into the array of its string. */
  method WriteWindow(tokens: seq<string>, w: int, i: nat, cv0: map<string, seq<real>>) returns (cv: map<string, seq<real>>)
    requires i < |tokens|
    requires cv0.Keys == KeysBefore(tokens, w, i)
    requires forall t :: t in cv0 ==> cv0[t] == RowAfter(tokens, w, t, i)
    ensures cv.Keys == KeysBefore(tokens, w, i + 1)
    ensures forall t :: t in cv ==> cv[t] == RowAfter(tokens, w, t, i + 1)
  {
    var n := |tokens|;
    cv := cv0;
    var t0 := tokens[i];
    var start := if i - w > 0 then i - w else 0;
    var end := if n < i + w + 1 then n else i + w + 1;
    assert start == WindowStart(i, w) && end == WindowEnd(n, i, w);
    ghost var wrote := false;
    forall t | t in cv && t != t0 ensures cv[t] == RowAfter(tokens, w, t, i + 1) {
      RowAfterOther(tokens, w, t, i);
    }
    if t0 !in cv {
      RowAfterUnkeyed(tokens, w, t0, i);
    }
    RowDuringStart(tokens, w, t0, i);
    var j := start;
    while j < end
      invariant start <= j && (start <= end ==> j <= end) && (start > end ==> j == start)
      invariant wrote <==> (j - start >= 2 || (j - start == 1 && start != i))
      invariant cv.Keys == KeysBefore(tokens, w, i) + (if wrote then {t0} else {})
      invariant forall t :: t in cv && t != t0 ==> cv[t] == RowAfter(tokens, w, t, i + 1)
      invariant ArrayOf(cv, t0, n) == RowDuring(tokens, w, t0, i, j)
    {
      RowDuringStep(tokens, w, i, j);
      if i != j {
        var weight := 1.0 / (Dist(i, j) as real);
        var arr := ArrayOf(cv, t0, n);
        cv := cv[t0 := arr[j := weight]];
        wrote := true;
      }
      j := j + 1;
    }
    RowDuringEnd(tokens, w, t0, i, j);
    WindowWrites(n, w, i);
    KeysBeforeNext(tokens, w, i);
  }

  /** `_get_context_vectors(tokens)` with `window_size == w`; the defaultdict becomes a map whose absent keys read as all-zero arrays. */
  method ContextVectors(tokens: seq<string>, w: int) returns (cv: map<string, seq<real>>)
    ensures forall t :: t in cv <==> HasWriter(tokens, w, t)
    ensures forall t :: t in cv ==> cv[t] == ContextRow(tokens, w, t)
  {
    cv := map[];
    for i := 0 to |tokens|
      invariant cv.Keys == KeysBefore(tokens, w, i)
      invariant forall t :: t in cv ==> cv[t] == RowAfter(tokens, w, t, i)
    {
      cv := WriteWindow(tokens, w, i, cv);
    }
    forall t ensures t in cv <==> HasWriter(tokens, w, t) {
      HasWriterIff(tokens, w, t);
    }
  }
}
