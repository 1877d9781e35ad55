/** The rapid moves of the route assembler (vectorize.c, drake_hougardy and
    add_rapids). Nodes with an odd number of edge ends are paired by a greedy
    chain in the manner of Drake and Hougardy: starting at the first odd node
    of the list, each node of the chain is paired with its nearest odd node
    not yet visited, the pairs going alternately to two lists L0 and L1. The
    list with the smaller summed length becomes mutual rapid links, which
    makes the degree of every node even. Distances are doubles in the C
    program; here they are an uninterpreted function on node positions. */
module Rapids {
  import opened Basics
  import opened Multigraph

  /** `count & 1` for the non-negative counts of the graph. */
  predicate IsOdd(c: int) {
    c % 2 == 1
  }

  /** The number of odd nodes not yet visited by the pairing. */
  function Remaining(count: seq<int>, dh: seq<bool>): nat
    requires |dh| == |count|
  {
    if |count| == 0 then 0
    else Remaining(count[..|count| - 1], dh[..|dh| - 1]) + (if IsOdd(count[|count| - 1]) && !dh[|dh| - 1] then 1 else 0)
  }

  lemma {:induction false} RemainingMark(count: seq<int>, dh: seq<bool>, k: nat)
    requires |dh| == |count| && k < |count| && IsOdd(count[k]) && !dh[k]
    ensures Remaining(count, dh[k := true]) == Remaining(count, dh) - 1
  {
    var n := |count|;
    if k < n - 1 {
      assert dh[k := true][..n - 1] == dh[..n - 1][k := true];
      RemainingMark(count[..n - 1], dh[..n - 1], k);
    } else {
      assert dh[k := true][..n - 1] == dh[..n - 1];
    }
  }

  /** Before the pairing visits any node, every odd node remains. */
  lemma {:induction false} RemainingAll(count: seq<int>, dh: seq<bool>)
    requires |dh| == |count| && forall k :: 0 <= k < |dh| ==> !dh[k]
    ensures Remaining(count, dh) == Odd(count)
  {
    if |count| > 0 {
      RemainingAll(count[..|count| - 1], dh[..|dh| - 1]);
    }
  }

  /** Once every odd node is visited, none remains. */
  lemma {:induction false} RemainingNone(count: seq<int>, dh: seq<bool>)
    requires |dh| == |count| && forall k :: 0 <= k < |dh| && IsOdd(count[k]) ==> dh[k]
    ensures Remaining(count, dh) == 0
  {
    if |count| > 0 {
      RemainingNone(count[..|count| - 1], dh[..|dh| - 1]);
    }
  }

  // ---------------------------------------------------------------------------
  // The two searches of drake_hougardy
  // ---------------------------------------------------------------------------

  /** The loop at the top of the chain skips even nodes from the list head:
      the first odd node at an index below i, searching downwards. */
  function FirstOdd(count: seq<int>, i: nat): (r: Option<nat>)
    requires i <= |count|
    ensures r.None? <==> forall k :: 0 <= k < i ==> !IsOdd(count[k])
    ensures r.Some? ==> r.value < i && IsOdd(count[r.value]) && forall k :: r.value < k < i ==> !IsOdd(count[k])
  {
    if i == 0 then None
    else if IsOdd(count[i - 1]) then Some(i - 1)
    else FirstOdd(count, i - 1)
  }

  /** A node the inner loop may pair with cur: odd, another node, not visited. */
  predicate Candidate(count: seq<int>, dh: seq<bool>, cur: nat, c: nat)
    requires c < |count| && c < |dh|
  {
    IsOdd(count[c]) && c != cur && !dh[c]
  }

  /** The inner loop of the chain: the nearest candidate among the nodes at
      index j and above. The list visits them from the highest index down and
      replaces its pick only on a strictly smaller distance, so among equally
      near candidates the one nearest the list head wins. */
  function Nearest(pos: seq<Point>, count: seq<int>, dh: seq<bool>, dist: (Point, Point) -> real, cur: nat, j: nat): (r: Option<nat>)
    requires |count| == |pos| && |dh| == |pos| && cur < |pos| && j <= |pos|
    decreases |pos| - j
    ensures r.None? <==> forall c :: j <= c < |pos| ==> !Candidate(count, dh, cur, c)
    ensures r.Some? ==> j <= r.value < |pos| && Candidate(count, dh, cur, r.value)
    ensures r.Some? ==> forall c :: j <= c < |pos| && Candidate(count, dh, cur, c) ==>
      dist(pos[cur], pos[r.value]) <= dist(pos[cur], pos[c])
    ensures r.Some? ==> forall c :: r.value < c < |pos| && Candidate(count, dh, cur, c) ==>
      dist(pos[cur], pos[r.value]) < dist(pos[cur], pos[c])
  {
    if j == |pos| then None
    else
      var b := Nearest(pos, count, dh, dist, cur, j + 1);
      if Candidate(count, dh, cur, j) && (b.None? || dist(pos[cur], pos[j]) < dist(pos[cur], pos[b.value])) then Some(j)
      else b
  }

  // ---------------------------------------------------------------------------
  // The chain
  // ---------------------------------------------------------------------------

  /** The state of the chain: the visited marks, the lists L0 and L1 as the C
      arrays hold them (pairs flattened), their summed lengths and which list
      takes the next pair. */
  datatype Pairing = Pairing(dh: seq<bool>, l0: seq<nat>, l1: seq<nat>, len0: real, len1: real, alt: int)

  /** One step of the chain from cur to its nearest candidate m: the pair goes
      to the current list with its length, cur is marked and the lists
      alternate. */
  function Advance(pos: seq<Point>, dist: (Point, Point) -> real, p: Pairing, cur: nat, m: nat): (r: Pairing)
    requires cur < |pos| && m < |pos| && cur < |p.dh|
    ensures r.dh == p.dh[cur := true] && r.alt == 1 - p.alt
    ensures p.alt == 0 ==> r.l0 == p.l0 + [cur, m] && r.l1 == p.l1
    ensures p.alt != 0 ==> r.l1 == p.l1 + [cur, m] && r.l0 == p.l0
  {
    var d := dist(pos[cur], pos[m]);
    var q := if p.alt == 0 then p.(l0 := p.l0 + [cur, m], len0 := p.len0 + d)
             else p.(l1 := p.l1 + [cur, m], len1 := p.len1 + d);
    q.(dh := p.dh[cur := true], alt := 1 - p.alt)
  }

  /** The end of the chain when cur has no candidate left: cur is paired with
      `close` in L1, without adding that pair's length. */
  function Close(p: Pairing, cur: nat, close: nat): (r: Pairing)
    requires cur < |p.dh|
    ensures r.dh == p.dh[cur := true] && r.l0 == p.l0 && r.l1 == p.l1 + [cur, close]
  {
    p.(dh := p.dh[cur := true], l1 := p.l1 + [cur, close])
  }

  /** The lists of a chain state hold whole pairs of node indices. */
  predicate Shaped(p: Pairing, n: nat) {
    |p.dh| == n && |p.l0| % 2 == 0 && |p.l1| % 2 == 0 &&
    (forall i :: 0 <= i < |p.l0| ==> p.l0[i] < n) && (forall i :: 0 <= i < |p.l1| ==> p.l1[i] < n)
  }

  /** The chain of drake_hougardy from cur, closing with `close`; None when it
      ends with the alternation on L0 (the "internal error (alternate)" exit). */
  function Chain(pos: seq<Point>, count: seq<int>, dist: (Point, Point) -> real, p: Pairing, cur: nat, close: nat): (r: Option<Pairing>)
    requires |count| == |pos| && Shaped(p, |pos|) && cur < |pos| && close < |pos| && IsOdd(count[cur]) && !p.dh[cur]
    ensures r.Some? ==> Shaped(r.value, |pos|)
    decreases Remaining(count, p.dh)
  {
    match Nearest(pos, count, p.dh, dist, cur, 0)
    case None => if p.alt == 1 then Some(Close(p, cur, close)) else None
    case Some(m) =>
      RemainingMark(count, p.dh, cur);
      Chain(pos, count, dist, Advance(pos, dist, p, cur, m), m, close)
  }

  /** The list drake_hougardy turns into rapids: L0 when its summed length is
      strictly smaller, otherwise L1. */
  function Chosen(p: Pairing): seq<nat> {
    if p.len0 < p.len1 then p.l0 else p.l1
  }

  /** The rapid links of a list of pairs, set from the last pair to the first
      as the C loop does. */
  function Link(rapid: seq<Option<nat>>, l: seq<nat>): (r: seq<Option<nat>>)
    requires |l| % 2 == 0 && forall i :: 0 <= i < |l| ==> l[i] < |rapid|
    ensures |r| == |rapid|
    decreases |l|
  {
    if |l| == 0 then rapid
    else
      var a, b := l[|l| - 2], l[|l| - 1];
      Link(rapid[a := Some(b)][b := Some(a)], l[..|l| - 2])
  }

  /** Every odd node has been visited (the check after the chain). */
  predicate AllVisited(count: seq<int>, dh: seq<bool>)
    requires |dh| == |count|
  {
    forall k :: 0 <= k < |count| && IsOdd(count[k]) ==> dh[k]
  }

  predicate NoneVisited(dh: seq<bool>) {
    forall k :: 0 <= k < |dh| ==> !dh[k]
  }

  /** The chain from c0 closing with `close`, its check that every odd node
      was visited, and the rapids of the chosen list. */
  function PairWith(gr: Graph, dist: (Point, Point) -> real, c0: nat, close: nat): (r: Option<Graph>)
    requires Sized(gr) && c0 < |gr.pos| && close < |gr.pos| && IsOdd(gr.count[c0]) && !gr.dh[c0]
    ensures r.Some? ==> Sized(r.value) && r.value.pos == gr.pos && r.value.count == gr.count
    ensures r.Some? ==> r.value.lines == gr.lines && r.value.taken == gr.taken && r.value.edge == gr.edge && r.value.used == gr.used
  {
    match Chain(gr.pos, gr.count, dist, Pairing(gr.dh, [], [], 0.0, 0.0, 0), c0, close)
    case None => None
    case Some(p) =>
      if !AllVisited(gr.count, p.dh) then None
      else Some(gr.(dh := p.dh, rapid := Link(gr.rapid, Chosen(p))))
  }

  /** drake_hougardy as written: no node is fatal, a single node gets no
      rapid, and the last node of the chain is paired with the list head
      (`image->first_mg`). With no odd node at all the C program runs off the
      end of the list; here that is a failure as well. */
  function DrakeHougardyAsWritten(gr: Graph, dist: (Point, Point) -> real): (r: Option<Graph>)
    requires Sized(gr) && NoneVisited(gr.dh)
    ensures r.Some? ==> Sized(r.value) && r.value.pos == gr.pos && r.value.count == gr.count
    ensures r.Some? ==> r.value.lines == gr.lines && r.value.taken == gr.taken && r.value.edge == gr.edge && r.value.used == gr.used
  {
    if |gr.pos| == 0 then None
    else if |gr.pos| == 1 then Some(gr)
    else
      match FirstOdd(gr.count, |gr.pos|)
      case None => None
      case Some(c0) => PairWith(gr, dist, c0, |gr.pos| - 1)
  }

  /** drake_hougardy as intended: without odd nodes there is nothing to pair,
      and the last node of the chain is paired with the chain's first node. */
  function DrakeHougardy(gr: Graph, dist: (Point, Point) -> real): (r: Option<Graph>)
    requires Sized(gr) && NoneVisited(gr.dh)
    ensures r.Some? ==> Sized(r.value) && r.value.pos == gr.pos && r.value.count == gr.count
    ensures r.Some? ==> r.value.lines == gr.lines && r.value.taken == gr.taken && r.value.edge == gr.edge && r.value.used == gr.used
  {
    if |gr.pos| == 0 then None
    else if |gr.pos| == 1 then Some(gr)
    else
      match FirstOdd(gr.count, |gr.pos|)
      case None => Some(gr)
      case Some(c0) => PairWith(gr, dist, c0, c0)
  }

  /** The number of odd nodes below index i without a rapid. */
  function Unpaired(count: seq<int>, rapid: seq<Option<nat>>, i: nat): nat
    requires i <= |count| && i <= |rapid|
  {
    if i == 0 then 0
    else Unpaired(count, rapid, i - 1) + (if IsOdd(count[i - 1]) && rapid[i - 1].None? then 1 else 0)
  }

  /** The check of add_rapids after the pairing: fatal when an odd node has
      no rapid. */
  function CheckRapids(g: Option<Graph>): (r: Option<Graph>)
    requires g.Some? ==> Sized(g.value)
    ensures r.Some? ==> g == r && Unpaired(r.value.count, r.value.rapid, |r.value.pos|) == 0
  {
    match g
    case None => None
    case Some(gr) => if Unpaired(gr.count, gr.rapid, |gr.pos|) > 0 then None else g
  }

  /** add_rapids: pair the odd nodes, then check that each got a rapid. */
  function AddRapids(gr: Graph, dist: (Point, Point) -> real): (r: Option<Graph>)
    requires Sized(gr) && NoneVisited(gr.dh)
    ensures r.Some? ==> Sized(r.value) && r.value.pos == gr.pos && r.value.count == gr.count
    ensures r.Some? ==> r.value.lines == gr.lines && r.value.taken == gr.taken && r.value.edge == gr.edge && r.value.used == gr.used
    ensures r.Some? ==> Unpaired(r.value.count, r.value.rapid, |r.value.pos|) == 0 && r == DrakeHougardy(gr, dist)
    ensures r.None? && DrakeHougardy(gr, dist).Some? ==>
      var p := DrakeHougardy(gr, dist).value; Unpaired(p.count, p.rapid, |p.pos|) > 0
  {
    CheckRapids(DrakeHougardy(gr, dist))
  }

  // ---------------------------------------------------------------------------
  // The chain pairs every odd node
  // ---------------------------------------------------------------------------

  /** Each odd node occurs once in l and no other node occurs at all. */
  predicate Covers(count: seq<int>, l: seq<nat>) {
    (forall i :: 0 <= i < |l| ==> l[i] < |count|) &&
    forall k :: 0 <= k < |count| ==> multiset(l)[k] == if IsOdd(count[k]) then 1 else 0
  }

  /** What the chain holds at each call from c0 on: the visited nodes are
      odd, and c0 is the first one visited. */
  predicate ChainMarks(count: seq<int>, p: Pairing, cur: nat, c0: nat) {
    |p.dh| == |count| && cur < |count| && c0 < |count| &&
    IsOdd(count[cur]) && !p.dh[cur] && IsOdd(count[c0]) &&
    (p.alt == 0 || p.alt == 1) &&
    (!p.dh[c0] ==> cur == c0 && p.alt == 0) &&
    (forall k :: 0 <= k < |count| && p.dh[k] ==> IsOdd(count[k]))
  }

  /** The list that takes the next pair alternates with the number of
      visited nodes. */
  predicate ChainParity(count: seq<int>, p: Pairing)
    requires |p.dh| == |count|
  {
    p.alt == (Odd(count) - Remaining(count, p.dh)) % 2
  }

  /** L0 holds each visited node once, and cur when cur is to close a pair
      there. */
  predicate ChainL0(count: seq<int>, p: Pairing, cur: nat)
    requires |p.dh| == |count|
  {
    forall k :: 0 <= k < |count| ==>
      multiset(p.l0)[k] == if p.dh[k] || (p.alt == 1 && k == cur) then 1 else 0
  }

  /** L1 the same, except c0, which only the closing pair adds. */
  predicate ChainL1(count: seq<int>, p: Pairing, cur: nat, c0: nat)
    requires |p.dh| == |count|
  {
    forall k :: 0 <= k < |count| ==>
      multiset(p.l1)[k] == if k != c0 && (p.dh[k] || (p.alt == 0 && k == cur)) then 1 else 0
  }

  predicate ChainInv(count: seq<int>, p: Pairing, cur: nat, c0: nat) {
    ChainMarks(count, p, cur, c0) && ChainParity(count, p) && ChainL0(count, p, cur) && ChainL1(count, p, cur, c0)
  }

  lemma ChainStart(count: seq<int>, dh: seq<bool>, c0: nat)
    requires |dh| == |count| && NoneVisited(dh) && c0 < |count| && IsOdd(count[c0])
    ensures ChainInv(count, Pairing(dh, [], [], 0.0, 0.0, 0), c0, c0)
  {
    RemainingAll(count, dh);
  }

  lemma StepParity(pos: seq<Point>, count: seq<int>, dist: (Point, Point) -> real, p: Pairing, cur: nat, m: nat)
    requires |count| == |pos| && |p.dh| == |count| && cur < |count| && m < |count| && IsOdd(count[cur]) && !p.dh[cur]
    requires (p.alt == 0 || p.alt == 1) && ChainParity(count, p)
    ensures ChainParity(count, Advance(pos, dist, p, cur, m))
  {
    RemainingMark(count, p.dh, cur);
  }

  lemma StepL0(pos: seq<Point>, count: seq<int>, dist: (Point, Point) -> real, p: Pairing, cur: nat, m: nat)
    requires |count| == |pos| && |p.dh| == |count| && cur < |count| && m < |count| && m != cur && !p.dh[m] && !p.dh[cur]
    requires (p.alt == 0 || p.alt == 1) && ChainL0(count, p, cur)
    ensures ChainL0(count, Advance(pos, dist, p, cur, m), m)
  {
    var q := Advance(pos, dist, p, cur, m);
    if p.alt == 0 {
      forall k | 0 <= k < |count|
        ensures multiset(q.l0)[k] == if q.dh[k] || (q.alt == 1 && k == m) then 1 else 0
      {
        assert multiset(q.l0) == multiset(p.l0) + multiset{cur, m};
      }
    }
  }

  lemma StepL1(pos: seq<Point>, count: seq<int>, dist: (Point, Point) -> real, p: Pairing, cur: nat, c0: nat, m: nat)
    requires |count| == |pos| && |p.dh| == |count| && cur < |count| && c0 < |count| && m < |count| && m != cur && !p.dh[m]
    requires (p.alt == 0 || p.alt == 1) && (p.alt == 1 ==> p.dh[c0]) && !p.dh[cur] && ChainL1(count, p, cur, c0)
    ensures ChainL1(count, Advance(pos, dist, p, cur, m), m, c0)
  {
    var q := Advance(pos, dist, p, cur, m);
    if p.alt == 1 {
      forall k | 0 <= k < |count|
        ensures multiset(q.l1)[k] == if k != c0 && (q.dh[k] || (q.alt == 0 && k == m)) then 1 else 0
      {
        assert multiset(q.l1) == multiset(p.l1) + multiset{cur, m};
      }
    }
  }

  /** A step of the chain to the nearest candidate keeps the invariant. */
  lemma ChainStep(pos: seq<Point>, count: seq<int>, dist: (Point, Point) -> real, p: Pairing, cur: nat, c0: nat, m: nat)
    requires |count| == |pos| && ChainInv(count, p, cur, c0)
    requires m < |count| && Candidate(count, p.dh, cur, m)
    ensures ChainInv(count, Advance(pos, dist, p, cur, m), m, c0)
  {
    StepParity(pos, count, dist, p, cur, m);
    StepL0(pos, count, dist, p, cur, m);
    StepL1(pos, count, dist, p, cur, c0, m);
  }

  /** When cur has no candidate, every odd node but cur is visited. */
  lemma CloseMarks(count: seq<int>, p: Pairing, cur: nat, c0: nat)
    requires ChainMarks(count, p, cur, c0)
    requires forall c :: 0 <= c < |count| ==> !Candidate(count, p.dh, cur, c)
    ensures forall k :: 0 <= k < |count| ==> p.dh[cur := true][k] == IsOdd(count[k])
    ensures Remaining(count, p.dh) == 1
  {
    var d := p.dh[cur := true];
    forall k | 0 <= k < |count| && IsOdd(count[k]) ensures d[k] {
      assert !Candidate(count, p.dh, cur, k);
    }
    RemainingNone(count, d);
    RemainingMark(count, p.dh, cur);
  }

  /** When cur has no candidate, the chain ends on L1 and the closing pair
      with c0 leaves both lists covering the odd nodes. */
  lemma ChainClose(count: seq<int>, p: Pairing, cur: nat, c0: nat)
    requires ChainInv(count, p, cur, c0) && Odd(count) % 2 == 0
    requires forall c :: 0 <= c < |count| ==> !Candidate(count, p.dh, cur, c)
    ensures p.alt == 1
    ensures var q := Close(p, cur, c0);
      (forall k :: 0 <= k < |count| ==> q.dh[k] == IsOdd(count[k])) &&
      (forall k :: 0 <= k < |count| ==> multiset(q.l0)[k] == if IsOdd(count[k]) then 1 else 0) &&
      (forall k :: 0 <= k < |count| ==> multiset(q.l1)[k] == if IsOdd(count[k]) then 1 else 0)
  {
    CloseMarks(count, p, cur, c0);
    var q := Close(p, cur, c0);
    forall k | 0 <= k < |count|
      ensures multiset(q.l1)[k] == if IsOdd(count[k]) then 1 else 0
    {
      assert multiset(q.l1) == multiset(p.l1) + multiset{cur, c0};
    }
  }

  lemma ShapedAdvance(pos: seq<Point>, dist: (Point, Point) -> real, p: Pairing, cur: nat, m: nat)
    requires Shaped(p, |pos|) && cur < |pos| && m < |pos|
    ensures Shaped(Advance(pos, dist, p, cur, m), |pos|)
  {
  }

  /** The end state of a successful chain: every odd node visited and once
      in each list. */
  predicate Paired(count: seq<int>, r: Option<Pairing>) {
    r.Some? && |r.value.dh| == |count| &&
    Covers(count, r.value.l0) && Covers(count, r.value.l1) &&
    forall k :: 0 <= k < |count| ==> r.value.dh[k] == IsOdd(count[k])
  }

  /** The chain from a state satisfying the invariant succeeds and leaves
      every odd node visited and once in each list, when the number of odd
      nodes is even. */
  lemma {:induction false} ChainCovers(pos: seq<Point>, count: seq<int>, dist: (Point, Point) -> real, p: Pairing, cur: nat, c0: nat)
    requires |count| == |pos| && Shaped(p, |pos|) && ChainInv(count, p, cur, c0) && Odd(count) % 2 == 0
    ensures Paired(count, Chain(pos, count, dist, p, cur, c0))
    decreases Remaining(count, p.dh)
  {
    match Nearest(pos, count, p.dh, dist, cur, 0)
    case None =>
      ChainClose(count, p, cur, c0);
      assert Chain(pos, count, dist, p, cur, c0) == Some(Close(p, cur, c0));
    case Some(m) =>
      var q := Advance(pos, dist, p, cur, m);
      RemainingMark(count, p.dh, cur);
      ChainStep(pos, count, dist, p, cur, c0, m);
      ShapedAdvance(pos, dist, p, cur, m);
      ChainCovers(pos, count, dist, q, m, c0);
      assert Chain(pos, count, dist, p, cur, c0) == Chain(pos, count, dist, q, m, c0);
  }

  // ---------------------------------------------------------------------------
  // The rapids form a perfect matching of the odd nodes
  // ---------------------------------------------------------------------------

  /** The other position of the pair holding position i. */
  function Mate(i: nat): nat {
    if i % 2 == 0 then i + 1 else i - 1
  }

  predicate NoDup(l: seq<nat>) {
    forall i, j :: 0 <= i < j < |l| ==> l[i] != l[j]
  }

  /** Linking a list of distinct pairs points each member at its mate and
      leaves every other node alone. */
  lemma {:induction false} LinkMate(rapid: seq<Option<nat>>, l: seq<nat>)
    requires |l| % 2 == 0 && (forall i :: 0 <= i < |l| ==> l[i] < |rapid|) && NoDup(l)
    ensures forall i :: 0 <= i < |l| ==> Mate(i) < |l| && Link(rapid, l)[l[i]] == Some(l[Mate(i)])
    ensures forall k :: 0 <= k < |rapid| && k !in l ==> Link(rapid, l)[k] == rapid[k]
    decreases |l|
  {
    if |l| > 0 {
      var a, b := l[|l| - 2], l[|l| - 1];
      var rest := l[..|l| - 2];
      var r1 := rapid[a := Some(b)][b := Some(a)];
      LinkMate(r1, rest);
      assert Link(rapid, l) == Link(r1, rest);
      assert l[|l| - 2] == a && l[|l| - 1] == b;
    }
  }

  lemma TwiceCounted(l: seq<nat>, i: nat, j: nat)
    requires i < j < |l| && l[i] == l[j]
    ensures multiset(l)[l[i]] >= 2
  {
    var x := l[i];
    var s1, s2, s3 := l[..i], l[i + 1..j], l[j + 1..];
    assert l == s1 + [x] + s2 + [x] + s3;
    assert multiset(l) == multiset(s1) + multiset{x} + multiset(s2) + multiset{x} + multiset(s3);
  }

  /** A list covering the odd nodes holds no node twice and exactly the odd
      nodes. */
  lemma CoversNoDup(count: seq<int>, l: seq<nat>)
    requires Covers(count, l)
    ensures NoDup(l)
    ensures forall k :: 0 <= k < |count| ==> (k in l <==> IsOdd(count[k]))
  {
    forall i, j | 0 <= i < j < |l| ensures l[i] != l[j] {
      if l[i] == l[j] {
        TwiceCounted(l, i, j);
      }
    }
    forall k | 0 <= k < |count| ensures k in l <==> IsOdd(count[k]) {
      assert k in l <==> multiset(l)[k] > 0;
    }
  }

  /** Node k has a rapid to another odd node that links back exactly when k
      is odd. */
  predicate MatchedAt(count: seq<int>, rapid: seq<Option<nat>>, k: nat)
    requires |rapid| == |count| && k < |count|
  {
    match rapid[k]
    case None => !IsOdd(count[k])
    case Some(j) => IsOdd(count[k]) && j < |count| && j != k && IsOdd(count[j]) && rapid[j] == Some(k)
  }

  /** Every odd node has a rapid to another odd node that links back, and
      no even node has one. */
  predicate Matched(gr: Graph)
    requires |gr.rapid| == |gr.count|
  {
    forall k :: 0 <= k < |gr.count| ==> MatchedAt(gr.count, gr.rapid, k)
  }

  predicate NoRapids(rapid: seq<Option<nat>>) {
    forall k :: 0 <= k < |rapid| ==> rapid[k].None?
  }

  lemma MateAt(count: seq<int>, r: seq<Option<nat>>, l: seq<nat>, i: nat)
    requires |r| == |count| && i < |l| && NoDup(l)
    requires forall i :: 0 <= i < |l| ==> Mate(i) < |l| && l[i] < |count| && r[l[i]] == Some(l[Mate(i)])
    requires forall k :: 0 <= k < |count| ==> (k in l <==> IsOdd(count[k]))
    ensures MatchedAt(count, r, l[i])
  {
    var m := Mate(i);
    assert Mate(m) == i && m != i;
    assert l[m] in l && l[i] in l;
  }

  /** Linking a list that covers the odd nodes, from no rapids, matches them. */
  lemma LinkMatched(gr: Graph, l: seq<nat>)
    requires Sized(gr) && NoRapids(gr.rapid) && Covers(gr.count, l) && |l| % 2 == 0
    ensures Matched(gr.(rapid := Link(gr.rapid, l)))
  {
    CoversNoDup(gr.count, l);
    LinkMate(gr.rapid, l);
    forall k | 0 <= k < |gr.count| ensures MatchedAt(gr.count, Link(gr.rapid, l), k) {
      if IsOdd(gr.count[k]) {
        var i :| 0 <= i < |l| && l[i] == k;
        MateAt(gr.count, Link(gr.rapid, l), l, i);
      }
    }
  }

  /** With an even number of odd nodes (which create_graph guarantees, by the
      handshake lemma), the intended drake_hougardy pairs every odd node with
      another odd node by mutual rapids and gives no even node a rapid. */
  lemma DrakeHougardyMatches(gr: Graph, dist: (Point, Point) -> real)
    requires Sized(gr) && NoneVisited(gr.dh) && NoRapids(gr.rapid) && |gr.pos| > 0 && Odd(gr.count) % 2 == 0
    ensures DrakeHougardy(gr, dist).Some? && Matched(DrakeHougardy(gr, dist).value)
  {
    var n := |gr.pos|;
    if n == 1 {
      assert gr.count[..0] == [];
      assert !IsOdd(gr.count[0]);
    } else {
      match FirstOdd(gr.count, n)
      case None =>
      case Some(c0) =>
        var p0 := Pairing(gr.dh, [], [], 0.0, 0.0, 0);
        ChainStart(gr.count, gr.dh, c0);
        ChainCovers(gr.pos, gr.count, dist, p0, c0, c0);
        var p := Chain(gr.pos, gr.count, dist, p0, c0, c0).value;
        assert AllVisited(gr.count, p.dh);
        LinkMatched(gr.(dh := p.dh), Chosen(p));
    }
  }

  /** Matched nodes leave add_rapids nothing to complain about. */
  lemma {:induction false} UnpairedNone(count: seq<int>, rapid: seq<Option<nat>>, i: nat)
    requires i <= |count| && i <= |rapid|
    requires forall k :: 0 <= k < i && IsOdd(count[k]) ==> rapid[k].Some?
    ensures Unpaired(count, rapid, i) == 0
  {
    if i > 0 {
      UnpairedNone(count, rapid, i - 1);
    }
  }

  /** add_rapids passes its check on every graph create_graph can build. */
  lemma AddRapidsMatches(gr: Graph, dist: (Point, Point) -> real)
    requires Sized(gr) && NoneVisited(gr.dh) && NoRapids(gr.rapid) && |gr.pos| > 0 && Odd(gr.count) % 2 == 0
    ensures AddRapids(gr, dist) == DrakeHougardy(gr, dist)
    ensures AddRapids(gr, dist).Some? && Matched(AddRapids(gr, dist).value)
  {
    DrakeHougardyMatches(gr, dist);
    var g := DrakeHougardy(gr, dist).value;
    forall k | 0 <= k < |g.count| && IsOdd(g.count[k]) ensures g.rapid[k].Some? {
      assert MatchedAt(g.count, g.rapid, k);
    }
    UnpairedNone(g.count, g.rapid, |g.pos|);
  }
}
