/** The travelling-salesman record store used to order drill holes: records are
    appended to a growing buffer, reordered by the built-in nearest-neighbour
    heuristic when no external solver result is available, and handed back one
    at a time by a cyclic cursor.

    Coordinates are doubles in the C program and distances are Euclidean; here
    the distance between two records is a parameter `dist`, and coordinates are
    reals that only `dist` looks at. */
module Tsp {

  /** One element of the store: a point and the caller's opaque payload. */
  datatype TspRecord = TspRecord(x: real, y: real, tag: int)

  /** The distance the heuristic minimises. */
  type Metric = (TspRecord, TspRecord) -> real

  /** The buffer grows in chunks of this many records. */
  const Chunk := 512

  /** The capacity of the buffer after the reallocation in tsp_add: always room
      for the record being added, in whole chunks. */
  function NewCapacity(count: nat): (c: nat)
    ensures c > count && c % Chunk == 0 && c <= count + Chunk
  {
    (count / Chunk + 1) * Chunk
  }

  // ---------------------------------------------------------------------------
  // The cyclic cursor
  // ---------------------------------------------------------------------------

  /** The cursor after one tsp_getnext: the next index, wrapping to 0. */
  function Next(i: int, n: int): int {
    if i + 1 >= n then 0 else i + 1
  }

  /** The index returned by the j-th call after the cursor stood at i. */
  function Cursor(i: int, j: nat, n: int): int {
    if j == 0 then i else Next(Cursor(i, j - 1, n), n)
  }

  lemma {:induction false} CursorClosedForm(i: int, j: nat, n: int)
    requires 0 <= i < n && j < n
    ensures Cursor(i, j, n) == if i + j < n then i + j else i + j - n
  {
    if j > 0 {
      CursorClosedForm(i, j - 1, n);
    }
  }

  /** How many calls after the cursor stood at i it takes to reach k. */
  function CallsUntil(i: int, k: int, n: int): int {
    if k >= i then k - i else k - i + n
  }

  /** n consecutive calls visit every one of the n records, each exactly once. */
  lemma CursorVisitsAll(i: int, n: int)
    requires 0 <= i < n
    ensures forall k :: 0 <= k < n ==> 0 <= CallsUntil(i, k, n) < n && Cursor(i, CallsUntil(i, k, n), n) == k
    ensures forall j1, j2 :: 0 <= j1 < j2 < n ==> Cursor(i, j1, n) != Cursor(i, j2, n)
  {
    forall k | 0 <= k < n
      ensures 0 <= CallsUntil(i, k, n) < n && Cursor(i, CallsUntil(i, k, n), n) == k
    {
      CursorClosedForm(i, CallsUntil(i, k, n), n);
    }
    forall j1, j2 | 0 <= j1 < j2 < n
      ensures Cursor(i, j1, n) != Cursor(i, j2, n)
    {
      CursorClosedForm(i, j1, n);
      CursorClosedForm(i, j2, n);
    }
  }

  // ---------------------------------------------------------------------------
  // Tour lengths and the tours the heuristic can reach
  // ---------------------------------------------------------------------------

  /** The length of the open path through `t` in order. */
  function PathLen(t: seq<TspRecord>, dist: Metric): real {
    if |t| < 2 then 0.0 else PathLen(t[..|t| - 1], dist) + dist(t[|t| - 2], t[|t| - 1])
  }

  /** `t` with the entries at a and b exchanged. */
  function Swapped(t: seq<TspRecord>, a: nat, b: nat): (u: seq<TspRecord>)
    requires a < |t| && b < |t|
    ensures |u| == |t| && multiset(u) == multiset(t)
    ensures u[a] == t[b] && u[b] == t[a]
    ensures forall k :: 0 <= k < |t| && k != a && k != b ==> u[k] == t[k]
  {
    t[a := t[b]][b := t[a]]
  }

  lemma SwappedPrefix(t: seq<TspRecord>, n: nat, a: nat, b: nat)
    requires a < n && b < n && n <= |t|
    ensures Swapped(t, a, b)[..n] == Swapped(t[..n], a, b)
  {
  }

  /** Every entry of t is in S. */
  predicate AllIn(t: seq<TspRecord>, S: set<TspRecord>) {
    forall k :: 0 <= k < |t| ==> t[k] in S
  }

  lemma AllInPermutation(t: seq<TspRecord>, u: seq<TspRecord>, S: set<TspRecord>)
    requires multiset(t) == multiset(u) && AllIn(t, S)
    ensures AllIn(u, S)
  {
    forall k | 0 <= k < |u|
      ensures u[k] in S
    {
      assert u[k] in multiset(t);
    }
  }

  /** An exchange inside the first n entries keeps their multiset and what
      follows them. */
  lemma SwappedSlices(t: seq<TspRecord>, n: nat, a: nat, b: nat)
    requires a < n && b < n && n <= |t|
    ensures multiset(Swapped(t, a, b)[..n]) == multiset(t[..n]) && Swapped(t, a, b)[n..] == t[n..]
  {
    SwappedPrefix(t, n, a, b);
  }

  lemma SwappedTwice(t: seq<TspRecord>, a: nat, b: nat)
    requires a < |t| && b < |t|
    ensures Swapped(Swapped(t, a, b), a, b) == t
  {
  }

  /** Each of the entries before m has, as its successor, one of its nearest
      later entries. */
  predicate NearestFirst(t: seq<TspRecord>, m: int, dist: Metric) {
    forall i, j :: 0 <= i < m && i + 1 < j < |t| ==> dist(t[i], t[i + 1]) <= dist(t[i], t[j])
  }

  /** What the nearest-neighbour pass establishes: every entry's successor is
      one of its nearest later entries. */
  predicate Greedy(t: seq<TspRecord>, dist: Metric) {
    NearestFirst(t, |t|, dist)
  }

  /** No exchange of entries i and i + 1 with i below e gives a path shorter than m. */
  predicate AdjacentOptimalBefore(t: seq<TspRecord>, m: real, e: int, dist: Metric) {
    forall i, j :: 0 <= i < e && j == i + 1 < |t| ==> PathLen(Swapped(t, i, j), dist) >= m
  }

  lemma AdjacentOptimalExtend(t: seq<TspRecord>, m: real, e: nat, dist: Metric)
    requires e + 1 < |t| && AdjacentOptimalBefore(t, m, e, dist)
    requires PathLen(Swapped(t, e, e + 1), dist) >= m
    ensures AdjacentOptimalBefore(t, m, e + 1, dist)
  {
  }

  /** No exchange of two adjacent entries gives a path shorter than m. */
  predicate AdjacentOptimal(t: seq<TspRecord>, m: real, dist: Metric) {
    AdjacentOptimalBefore(t, m, |t| - 1, dist)
  }

  lemma NearestFirstExtend(t: seq<TspRecord>, m: nat, dist: Metric)
    requires m + 1 < |t| && NearestFirst(t, m, dist)
    requires NearestUpTo(t, m, |t|, dist)
    ensures NearestFirst(t, m + 1, dist)
  {
  }

  /** The last two entries have no later entry but their successor. */
  lemma NearestFirstAll(t: seq<TspRecord>, dist: Metric)
    requires |t| >= 2 && NearestFirst(t, |t| - 2, dist)
    ensures Greedy(t, dist)
  {
  }

  /** Permuting the entries after position m keeps the first m entries nearest-first. */
  lemma NearestFirstSuffix(t: seq<TspRecord>, u: seq<TspRecord>, m: nat, dist: Metric)
      requires m < |t| == |u| && t[..m + 1] == u[..m + 1]
    requires multiset(t[m + 1..]) == multiset(u[m + 1..])
    requires NearestFirst(t, m, dist)
    ensures NearestFirst(u, m, dist)
  {
    forall i, j | 0 <= i < m && i + 1 < j < |u|
      ensures dist(u[i], u[i + 1]) <= dist(u[i], u[j])
    {
      assert u[i] == t[i] && u[i + 1] == t[i + 1];
      if j > m {
        assert u[j] == u[m + 1..][j - m - 1];
        assert u[j] in multiset(t[m + 1..]);
        var k :| 0 <= k < |t| - m - 1 && t[m + 1..][k] == u[j];
        assert t[m + 1 + k] == u[j];
      } else {
        assert u[j] == t[j];
      }
    }
  }

  /** All sequences of length n over the elements of S. */
  function Words(S: set<TspRecord>, n: nat): set<seq<TspRecord>> {
    if n == 0 then {[]} else set w, a | w in Words(S, n - 1) && a in S :: w + [a]
  }

  lemma {:induction false} InWords(S: set<TspRecord>, t: seq<TspRecord>)
    requires AllIn(t, S)
    ensures t in Words(S, |t|)
  {
    if |t| > 0 {
      var w := t[..|t| - 1];
      InWords(S, w);
      assert t == w + [t[|t| - 1]];
    }
  }

  /** The arrangements of S of length n shorter than m: the measure that the
      improvement pass decreases. */
  function Below(S: set<TspRecord>, n: nat, m: real, dist: Metric): set<seq<TspRecord>> {
    set w | w in Words(S, n) && PathLen(w, dist) < m
  }

  /** Keeping a strictly shorter tour t removes at least t from the measure. */
  lemma BelowShrinks(S: set<TspRecord>, t: seq<TspRecord>, m: real, dist: Metric)
    requires AllIn(t, S)
    requires PathLen(t, dist) < m
    ensures |Below(S, |t|, PathLen(t, dist), dist)| < |Below(S, |t|, m, dist)|
  {
    InWords(S, t);
    var small, big := Below(S, |t|, PathLen(t, dist), dist), Below(S, |t|, m, dist);
    assert t in big;
    assert small <= big - {t};
    SubsetCard(small, big - {t});
  }

  lemma {:induction false} SubsetCard<T>(a: set<T>, b: set<T>)
    requires a <= b
    ensures |a| <= |b|
    decreases |a|
  {
    if a != {} {
      var x :| x in a;
      SubsetCard(a - {x}, b - {x});
    }
  }

  // ---------------------------------------------------------------------------
  // The steps of nn
  // ---------------------------------------------------------------------------

  /** The first pass of nn: for each i below n - 2, the nearest of the later
      entries is swapped into position i + 1 (the first one found on ties). */
  method NearestPass(tr: array<TspRecord>, n: nat, dist: Metric)
    requires 2 <= n <= tr.Length
    modifies tr
    ensures multiset(tr[..n]) == multiset(old(tr[..n]))
    ensures tr[0] == old(tr[0]) && tr[n..] == old(tr[n..])
    ensures Greedy(tr[..n], dist)
  {
    for i := 0 to n - 2
      invariant multiset(tr[..n]) == multiset(old(tr[..n]))
      invariant tr[0] == old(tr[0]) && tr[n..] == old(tr[n..])
      invariant NearestFirst(tr[..n], i, dist)
    {
      ghost var before, head, tail := tr[..n], tr[..i + 1], tr[i + 1..n];
      assert before == head + tail;
      PullNearest(tr, n, i, dist);
      ghost var after := tr[..n];
      assert after == head + tr[i + 1..n];
      NearestFirstSuffix(before, after, i, dist);
      NearestFirstExtend(after, i, dist);
    }
    NearestFirstAll(tr[..n], dist);
  }

  /** One iteration of the outer loop of the first pass: scanning j upwards,
      each entry strictly nearer to entry i than the current successor is
      swapped into position i + 1. */
  method PullNearest(tr: array<TspRecord>, n: nat, i: nat, dist: Metric)
    requires i + 1 < n <= tr.Length
    modifies tr
    ensures tr[..i + 1] == old(tr[..i + 1]) && tr[n..] == old(tr[n..])
    ensures multiset(tr[i + 1..n]) == multiset(old(tr[i + 1..n]))
    ensures NearestUpTo(tr[..n], i, n, dist)
  {
    var min := dist(tr[i], tr[i + 1]);
    for j := i + 1 to n
      invariant tr[..i + 1] == old(tr[..i + 1]) && tr[n..] == old(tr[n..])
      invariant multiset(tr[i + 1..n]) == multiset(old(tr[i + 1..n]))
      invariant min == dist(tr[i], tr[i + 1])
      invariant NearestUpTo(tr[..n], i, j, dist)
    {
      ghost var t := tr[..n];
      var len := dist(tr[i], tr[j]);
      if len < min {
        min := len;
        ghost var whole := tr[..];
        Swap(tr, i + 1, n, i + 1, j);
        SwappedPrefix(whole, n, i + 1, j);
        assert tr[..n] == tr[..][..n];
        PullStep(t, i, j, dist);
      } else {
        NearestUpToExtend(t, i, j, dist);
      }
    }
  }

  /** Entry i + 1 is at least as near to entry i as every entry after it and before e. */
  predicate NearestUpTo(t: seq<TspRecord>, i: nat, e: int, dist: Metric)
    requires i + 1 < |t|
  {
    forall j :: i + 1 < j < e && j < |t| ==> dist(t[i], t[i + 1]) <= dist(t[i], t[j])
  }

  lemma NearestUpToExtend(t: seq<TspRecord>, i: nat, j: nat, dist: Metric)
    requires i + 1 <= j < |t| && NearestUpTo(t, i, j, dist)
    requires dist(t[i], t[i + 1]) <= dist(t[i], t[j])
    ensures NearestUpTo(t, i, j + 1, dist)
  {
  }

  /** Swapping a strictly nearer entry j into position i + 1 keeps the scan's invariant. */
  lemma PullStep(t: seq<TspRecord>, i: nat, j: nat, dist: Metric)
    requires i + 1 < j < |t| && NearestUpTo(t, i, j, dist)
    requires dist(t[i], t[j]) < dist(t[i], t[i + 1])
    ensures Swapped(t, i + 1, j)[i] == t[i]
    ensures NearestUpTo(Swapped(t, i + 1, j), i, j + 1, dist)
  {
  }

  /** Exchanges two entries between lo and n: the rest stays, and so does the
      multiset of the entries between lo and n. */
  method Swap(tr: array<TspRecord>, lo: nat, n: nat, a: nat, b: nat)
    requires lo <= a < n && lo <= b < n && n <= tr.Length
    modifies tr
    ensures tr[..] == Swapped(old(tr[..]), a, b)
    ensures tr[..lo] == old(tr[..lo]) && tr[n..] == old(tr[n..])
    ensures multiset(tr[lo..n]) == multiset(old(tr[lo..n]))
  {
    ghost var before := tr[lo..n];
    tr[a], tr[b] := tr[b], tr[a];
    assert tr[lo..n] == Swapped(before, a - lo, b - lo);
  }

  /** tr[..k + 1] summed from the front, as the length loops of nn do. */
  method PrefixLength(tr: array<TspRecord>, k: nat, dist: Metric) returns (len: real)
    requires k < tr.Length
    ensures len == PathLen(tr[..k + 1], dist)
  {
    len := 0.0;
    var j := 0;
    while j < k
      invariant 0 <= j <= k
      invariant len == PathLen(tr[..j + 1], dist)
    {
      len := len + dist(tr[j], tr[j + 1]);
      j := j + 1;
      assert tr[..j + 1][..j] == tr[..j];
    }
  }

  /** The outcome of one trial on `t`, leaving `u`: exchanging entries i and
      i + 1 is kept exactly when it makes the path strictly shorter than min, and
      then the new bound is the new length; otherwise nothing changes. */
  predicate Trial(t: seq<TspRecord>, u: seq<TspRecord>, i: nat, dist: Metric, min: real, newMin: real, kept: bool)
    requires i + 1 < |t|
  {
    (kept <==> PathLen(Swapped(t, i, i + 1), dist) < min) &&
    (kept ==> u == Swapped(t, i, i + 1) && newMin == PathLen(u, dist)) &&
    (!kept ==> u == t && newMin == min)
  }

  lemma TrialKept(t: seq<TspRecord>, u: seq<TspRecord>, i: nat, dist: Metric, min: real, len: real)
    requires i + 1 < |t| && u == Swapped(t, i, i + 1) && len == PathLen(u, dist) && len < min
    ensures Trial(t, u, i, dist, min, len, true)
  {
  }

  lemma TrialUndone(t: seq<TspRecord>, i: nat, dist: Metric, min: real, len: real)
    requires i + 1 < |t| && len == PathLen(Swapped(t, i, i + 1), dist) && len >= min
    ensures Trial(t, t, i, dist, min, min, false)
  {
  }

  /** One trial of the improvement pass: entries i and i + 1 are exchanged and
      the exchange is kept only when the path becomes strictly shorter than min. */
  method TrySwap(tr: array<TspRecord>, n: nat, i: nat, dist: Metric, min: real) returns (newMin: real, kept: bool)
    requires i + 1 < n <= tr.Length
    modifies tr
    ensures kept ==> tr[..] == Swapped(old(tr[..]), i, i + 1)
    ensures !kept ==> tr[..] == old(tr[..])
    ensures Trial(old(tr[..n]), tr[..n], i, dist, min, newMin, kept)
  {
    ghost var t := tr[..];
    ghost var p := tr[..n];
    tr[i], tr[i + 1] := tr[i + 1], tr[i];
    ghost var q := tr[..n];
    assert tr[..] == Swapped(t, i, i + 1);
    assert q == Swapped(p, i, i + 1) by { SwappedPrefix(t, n, i, i + 1); assert q == tr[..][..n]; }
    var len := PrefixLength(tr, n - 1, dist);
    assert tr[..n - 1 + 1] == q;
    if len >= min {
      tr[i], tr[i + 1] := tr[i + 1], tr[i];
      assert tr[..] == t;
      assert tr[..n] == p;
      TrialUndone(p, i, dist, min, len);
      newMin, kept := min, false;
    } else {
      TrialKept(p, q, i, dist, min, len);
      newMin, kept := len, true;
    }
  }

  /** One round of the improvement pass: a trial for every i in turn. */
  method ImproveRound(tr: array<TspRecord>, n: nat, dist: Metric, min0: real, ghost S: set<TspRecord>)
      returns (min: real, kept: bool)
    requires 2 <= n <= tr.Length
    requires AllIn(tr[..n], S)
    modifies tr
    ensures multiset(tr[..n]) == multiset(old(tr[..n])) && tr[n..] == old(tr[n..])
    ensures !kept ==> min == min0 && tr[..] == old(tr[..]) && AdjacentOptimal(tr[..n], min, dist)
    ensures kept ==> min == PathLen(tr[..n], dist) && min < min0
    ensures kept ==> |Below(S, n, min, dist)| < |Below(S, n, min0, dist)|
  {
    min, kept := min0, false;
    for i := 0 to n - 1
      invariant multiset(tr[..n]) == multiset(old(tr[..n])) && tr[n..] == old(tr[n..])
      invariant !kept ==> min == min0 && tr[..] == old(tr[..])
      invariant !kept ==> AdjacentOptimalBefore(tr[..n], min, i, dist)
      invariant kept ==> min == PathLen(tr[..n], dist) && min < min0
      invariant kept ==> |Below(S, n, min, dist)| < |Below(S, n, min0, dist)|
    {
      ghost var pre := tr[..];
      var m, k := TrySwap(tr, n, i, dist, min);
      if k {
        SwappedSlices(pre, n, i, i + 1);
        assert tr[..n] == tr[..][..n] && pre[..n] == pre[..][..n];
        AllInPermutation(old(tr[..n]), tr[..n], S);
        BelowShrinks(S, tr[..n], min, dist);
        min, kept := m, true;
      } else if !kept {
        AdjacentOptimalExtend(tr[..n], min, i, dist);
      }
    }
  }

  /** The improvement pass of nn: rounds of adjacent trials until a round keeps
      none. On return no adjacent exchange is shorter than the final bound
      `min`, which is the length of the returned order unless no exchange was
      ever kept. It terminates because every kept exchange lowers the bound to
      the length of an arrangement of the same records. */
  method Improve(tr: array<TspRecord>, n: nat, dist: Metric, min0: real) returns (min: real)
    requires 2 <= n <= tr.Length
    modifies tr
    ensures multiset(tr[..n]) == multiset(old(tr[..n])) && tr[n..] == old(tr[n..])
    ensures min <= min0
    ensures (min == min0 && tr[..] == old(tr[..])) || min == PathLen(tr[..n], dist)
    ensures AdjacentOptimal(tr[..n], min, dist)
  {
    ghost var t0 := tr[..n];
    ghost var S := set k | 0 <= k < n :: tr[k];
    assert AllIn(t0, S);
    min := min0;
    var flag := true;
    while flag
      invariant multiset(tr[..n]) == multiset(old(tr[..n])) && tr[n..] == old(tr[n..])
      invariant AllIn(tr[..n], S)
      invariant min <= min0
      invariant (min == min0 && tr[..] == old(tr[..])) || min == PathLen(tr[..n], dist)
      invariant !flag ==> AdjacentOptimal(tr[..n], min, dist)
      decreases |Below(S, n, min, dist)| + (if flag then 1 else 0)
    {
      min, flag := ImproveRound(tr, n, dist, min, S);
      AllInPermutation(t0, tr[..n], S);
    }
  }

  /** What the reordering as written guarantees about its result t: no
      adjacent exchange shortens it, or t is a nearest-neighbour order no
      adjacent exchange of which beats its length plus the distance from its
      last entry to `past`. */
  predicate NnOrdered(t: seq<TspRecord>, dist: Metric, past: TspRecord) {
    |t| > 0 &&
    (AdjacentOptimal(t, PathLen(t, dist), dist) ||
     (Greedy(t, dist) && AdjacentOptimal(t, PathLen(t, dist) + dist(t[|t| - 1], past), dist)))
  }

  /** The reordering of nn as written: the nearest-neighbour pass, then the
      improvement pass started from a first length sum that runs one step too
      far and adds the distance from the last entry to `past`, the record the
      sum reads past the end of the buffer. */
  method ReorderAsWritten(tr: array<TspRecord>, n: nat, dist: Metric, past: TspRecord)
    requires 2 <= n <= tr.Length
    modifies tr
    ensures multiset(tr[..n]) == multiset(old(tr[..n])) && tr[n..] == old(tr[n..])
    ensures NnOrdered(tr[..n], dist, past)
  {
    NearestPass(tr, n, dist);
    ghost var greedy := tr[..n];
    var open := PrefixLength(tr, n - 1, dist);
    assert tr[..n - 1 + 1] == greedy;
    var len := open + dist(tr[n - 1], past);
    var min := Improve(tr, n, dist, len);
    InflatedOutcome(greedy, tr[..n], len, min, dist, past);
  }

  lemma InflatedOutcome(greedy: seq<TspRecord>, t: seq<TspRecord>, len: real, min: real, dist: Metric, past: TspRecord)
    requires |greedy| == |t| > 0 && Greedy(greedy, dist)
    requires len == PathLen(greedy, dist) + dist(greedy[|greedy| - 1], past)
    requires (min == len && t == greedy) || min == PathLen(t, dist)
    requires AdjacentOptimal(t, min, dist)
    ensures NnOrdered(t, dist, past)
  {
  }

  /** Distance along the x axis, for the example below. */
  function LineDist(a: TspRecord, b: TspRecord): real {
    if a.x >= b.x then a.x - b.x else b.x - a.x
  }

  /** With the inflated first bound, the first trial of the improvement pass
      keeps an exchange that makes the path longer: four records at x = 0, 1,
      2, 3 in nearest-neighbour order (length 3) and a record at x = 100 past
      the buffer; exchanging the first two gives length 4, which is below the
      bound 3 + 97. */
  const ExampleTour: seq<TspRecord> := [TspRecord(0.0, 0.0, 0), TspRecord(1.0, 0.0, 1), TspRecord(2.0, 0.0, 2), TspRecord(3.0, 0.0, 3)]
  const ExamplePast := TspRecord(100.0, 0.0, 4)

  lemma InflatedBoundKeepsLongerSwap()
    ensures Greedy(ExampleTour, LineDist)
    ensures PathLen(ExampleTour, LineDist) < PathLen(Swapped(ExampleTour, 0, 1), LineDist)
    ensures PathLen(Swapped(ExampleTour, 0, 1), LineDist) < PathLen(ExampleTour, LineDist) + LineDist(ExampleTour[3], ExamplePast)
  {
    var t := ExampleTour;
    var u := [t[1], t[0], t[2], t[3]];
    assert Swapped(t, 0, 1) == u;
    ExampleLengths(t, u);
    ExampleGreedy(t);
  }

  lemma ExampleLengths(t: seq<TspRecord>, u: seq<TspRecord>)
    requires t == ExampleTour && u == [t[1], t[0], t[2], t[3]]
    ensures PathLen(t, LineDist) == 3.0 && PathLen(u, LineDist) == 4.0
  {
    PathLenFour(t, LineDist);
    PathLenFour(u, LineDist);
  }

  lemma PathLenFour(t: seq<TspRecord>, dist: Metric)
    requires |t| == 4
    ensures PathLen(t, dist) == dist(t[0], t[1]) + dist(t[1], t[2]) + dist(t[2], t[3])
  {
    var t3, t2 := t[..3], t[..2];
    assert t3[..2] == t2 && t2[..1] == t[..1];
    assert PathLen(t2, dist) == dist(t[0], t[1]);
    assert PathLen(t3, dist) == dist(t[0], t[1]) + dist(t[1], t[2]);
  }

  lemma ExampleGreedy(t: seq<TspRecord>)
    requires t == [TspRecord(0.0, 0.0, 0), TspRecord(1.0, 0.0, 1), TspRecord(2.0, 0.0, 2), TspRecord(3.0, 0.0, 3)]
    ensures Greedy(t, LineDist)
  {
    forall i, j | 0 <= i && i + 1 < j < |t|
      ensures LineDist(t[i], t[i + 1]) <= LineDist(t[i], t[j])
    {
      assert t[i].x == i as real && t[j].x == j as real && t[i + 1].x == (i + 1) as real;
    }
  }

  /** The reordering of nn with the first length sum over the path itself (as
      the improvement pass sums it): the nearest-neighbour pass, then the
      improvement pass. The result is never longer than the nearest-neighbour
      order and no adjacent exchange shortens it. */
  method Reorder(tr: array<TspRecord>, n: nat, dist: Metric) returns (ghost greedy: seq<TspRecord>)
    requires 2 <= n <= tr.Length
    modifies tr
    ensures multiset(tr[..n]) == multiset(old(tr[..n])) && tr[n..] == old(tr[n..])
    ensures AdjacentOptimal(tr[..n], PathLen(tr[..n], dist), dist)
    ensures Greedy(greedy, dist) && multiset(greedy) == multiset(old(tr[..n]))
    ensures PathLen(tr[..n], dist) <= PathLen(greedy, dist)
  {
    NearestPass(tr, n, dist);
    greedy := tr[..n];
    var len := PrefixLength(tr, n - 1, dist);
    assert tr[..n - 1 + 1] == greedy;
    var min := Improve(tr, n, dist, len);
    ExactOutcome(greedy, tr[..n], len, min, dist);
  }

  lemma ExactOutcome(greedy: seq<TspRecord>, t: seq<TspRecord>, len: real, min: real, dist: Metric)
    requires len == PathLen(greedy, dist)
    requires (min == len && t == greedy) || min == PathLen(t, dist)
    requires min <= len && AdjacentOptimal(t, min, dist)
    ensures AdjacentOptimal(t, PathLen(t, dist), dist) && PathLen(t, dist) <= len
  {
  }

  /** The memcpy of nn: the first n entries of src copied into dst. */
  method CopyPrefix(src: array<TspRecord>, dst: array<TspRecord>, n: nat)
    requires n <= src.Length && n <= dst.Length && src != dst
    modifies dst
    ensures dst[..n] == src[..n] && dst[n..] == old(dst[n..])
  {
    forall k | 0 <= k < n {
      dst[k] := src[k];
    }
  }

  // ---------------------------------------------------------------------------
  // The store
  // ---------------------------------------------------------------------------

  /** struct tsp without its file handles: the input buffer, its fill count,
      the result order (absent, a separate buffer, or the input buffer itself),
      the result cursor and the solved flag. */
  class Tsp {
    var data: array?<TspRecord>
    var count: nat
    var retData: array?<TspRecord>
    var retIndex: int
    var ok: int

    ghost predicate Valid()
      reads this
    {
      && (data == null ==> count == 0)
      && (data != null ==> count <= data.Length && data.Length % Chunk == 0)
      && (retData != null ==> count <= retData.Length)
      && (ok == 1 ==> retData != null && 0 <= retIndex < count)
    }

    /** The records added so far, in order. */
    ghost function Records(): seq<TspRecord>
      reads this, data
      requires Valid()
    {
      if data == null then [] else data[..count]
    }

    /** The result order. */
    ghost function Tour(): seq<TspRecord>
      reads this, retData
      requires Valid() && retData != null
    {
      retData[..count]
    }

    /** tsp_init: an empty store (calloc zeroes every field). */
    constructor ()
      ensures Valid() && Records() == [] && data == null && retData == null
      ensures ok == 0 && retIndex == 0
    {
      data := null;
      count := 0;
      retData := null;
      retIndex := 0;
      ok := 0;
    }

    /** tsp_add on a live handle: one record appended at index count, the
        buffer reallocated to the next whole chunk when it is full. */
    method Add(rec: TspRecord) returns (r: int)
      requires Valid() && retData == null
      modifies this, data
      ensures Valid() && r == 0
      ensures Records() == old(Records()) + [rec]
      ensures retData == null && ok == old(ok) && retIndex == old(retIndex)
    {
      if count % Chunk == 0 {
        var grown := new TspRecord[NewCapacity(count)];
        if data != null {
          forall k | 0 <= k < count {
            grown[k] := data[k];
          }
        }
        data := grown;
      }
      data[count] := rec;
      count := count + 1;
      r := 0;
    }

    /** The allocation of the result buffer at the start of tsp_solve; the
        external solver run that follows is not modelled, so the store stays
        unsolved and nn will order the copy. */
    method AllocateTour()
      requires Valid() && ok != 1
      modifies this
      ensures Valid() && fresh(retData) && retData.Length == count
      ensures data == old(data) && count == old(count) && ok == old(ok) && retIndex == old(retIndex)
    {
      retData := new TspRecord[count];
    }

    /** nn: without a result buffer the result order is the input buffer
        itself; otherwise the input is copied and, from four records up,
        reordered by the nearest-neighbour pass and the improvement pass. The
        length sum that starts the improvement pass is taken over the path
        itself (see ReorderAsWritten for the sum as written). */
    method Nn(dist: Metric) returns (ghost greedy: seq<TspRecord>)
      requires Valid() && ok != 1 && (retData == null || retData != data)
      modifies this, retData
      ensures Valid() && data == old(data) && count == old(count) && ok == old(ok) && retIndex == old(retIndex)
      ensures Records() == old(Records())
      ensures old(retData) == null ==> retData == data
      ensures old(retData) != null ==> retData == old(retData)
      ensures retData != null ==> multiset(Tour()) == multiset(Records())
      ensures old(retData) != null && count < 4 ==> Tour() == Records()
      ensures old(retData) != null && count >= 4 ==> AdjacentOptimal(Tour(), PathLen(Tour(), dist), dist)
      ensures old(retData) != null && count >= 4 ==>
        Greedy(greedy, dist) && multiset(greedy) == multiset(Records()) && PathLen(Tour(), dist) <= PathLen(greedy, dist)
    {
      greedy := [];
      if retData == null {
        retData := data;
        return;
      }
      ghost var records := Records();
      if data != null {
        CopyPrefix(data, retData, count);
      }
      assert Records() == records && Tour() == records;
      if count < 4 {
        return;
      }
      var tr, n := retData, count;
      greedy := Reorder(tr, n, dist);
      assert Records() == records && Tour() == tr[..n];
    }

    /** tsp_getnext on a live handle with at least one record: on the first call
        without a solver result nn orders the records and the cursor restarts at
        0; the record under the cursor is returned and the cursor moves on,
        wrapping at count. The returned int is the new cursor. */
    method GetNext(dist: Metric) returns (next: int, rec: TspRecord)
      requires Valid() && count > 0
      requires ok != 1 ==> retData == null || retData != data
      modifies this, retData
      ensures Valid() && ok == 1 && data == old(data) && count == old(count)
      ensures Records() == old(Records())
      ensures multiset(Tour()) == multiset(Records()) || (old(ok) == 1 && retData == old(retData))
      ensures old(ok) == 1 ==> retData == old(retData) && rec == old(retData[retIndex]) && retIndex == Next(old(retIndex), count)
      ensures old(ok) == 1 ==> Tour() == old(Tour())
      ensures old(ok) != 1 ==> rec == Tour()[0] && retIndex == Next(0, count)
      ensures next == retIndex && 0 <= next < count
    {
      if ok != 1 {
        var _ := Nn(dist);
        ok := 1;
        retIndex := 0;
      }
      rec := retData[retIndex];
      retIndex := retIndex + 1;
      if retIndex >= count {
        retIndex := 0;
      }
      next := retIndex;
    }
  }

  /** tsp_add: -1 on a null handle, otherwise the record is appended. */
  method TspAdd(t: Tsp?, rec: TspRecord) returns (r: int)
    requires t != null ==> t.Valid() && t.retData == null
    modifies if t == null then {} else {t, t.data}
    ensures t == null ==> r == -1
    ensures t != null ==> r == 0 && t.Valid() && t.Records() == old(t.Records()) + [rec]
  {
    if t == null {
      return -1;
    }
    r := t.Add(rec);
  }
}
