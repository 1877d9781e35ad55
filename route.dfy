/** The Euler walk of the route assembler (vectorize.c, euler,
    dump_graph_component, next_point, path_dump and optimized_dump). Once
    every node has an even degree (its unused polyline ends plus its rapid),
    the polylines of a component are dumped along one walk: euler steps from
    node to node over the first unused polyline (or the rapid), and
    dump_graph_component splices further sub-walks in wherever a node on the
    walk still has something left. */
module Route {
  import opened Basics
  import Polyline
  import opened Multigraph
  import opened Rapids

  // ---------------------------------------------------------------------------
  // What holds while routing
  // ---------------------------------------------------------------------------

  /** Polyline j is stored in a slot of its start node and of its end node. */
  predicate Stored(gr: Graph, j: nat)
    requires Sized(gr) && j < |gr.lines|
  {
    var l := gr.lines[j];
    var s, e := NodeAt(gr.pos, l.points[0]), NodeAt(gr.pos, l.end);
    s.Some? && e.Some? &&
    (exists t :: 0 <= t < Slots && gr.edge[s.value][t] == Some(j)) &&
    (exists t :: 0 <= t < Slots && gr.edge[e.value][t] == Some(j))
  }

  /** Every unused polyline is stored at both its end nodes. */
  predicate Held(gr: Graph)
    requires Sized(gr)
  {
    forall j :: 0 <= j < |gr.lines| && !gr.taken[j] ==> Stored(gr, j)
  }

  /** Rapids link two different nodes both ways. */
  predicate Symmetric(rapid: seq<Option<nat>>) {
    forall k :: 0 <= k < |rapid| && rapid[k].Some? ==>
      rapid[k].value < |rapid| && rapid[k].value != k && rapid[rapid[k].value] == Some(k)
  }

  /** The invariant of the routing phase: the graph create_graph built, with
      `count` the unused polyline ends at each node, and symmetric rapids. */
  predicate Routed(gr: Graph) {
    Sized(gr) && Unique(gr.pos) && Anchored(gr, |gr.lines|) && Counts(gr, |gr.lines|) &&
    Incident(gr, |gr.lines|) && Held(gr) && Symmetric(gr.rapid)
  }

  /** The number of unused polyline ends and the rapid at node k: what euler
      can still take from it. */
  function Deg(gr: Graph, k: nat): int
    requires Sized(gr) && k < |gr.pos|
  {
    gr.count[k] + (if gr.rapid[k].Some? then 1 else 0)
  }

  // ---------------------------------------------------------------------------
  // Counting unused ends
  // ---------------------------------------------------------------------------

  /** Marking an unused polyline used takes its ends off the count. */
  lemma {:induction false} UnusedTake(lines: seq<Polyline.Line>, taken: seq<bool>, n: nat, j: nat, p: Point)
    requires n <= |lines| && |taken| == |lines| && NonEmpty(lines) && j < |lines| && !taken[j]
    ensures Unused(lines, taken[j := true], n, p) == Unused(lines, taken, n, p) - (if j < n then Hits(lines[j], p) else 0)
  {
    if n > 0 {
      UnusedTake(lines, taken, n - 1, j, p);
    }
  }

  /** Replacing a polyline by one with the same ends keeps the count. */
  lemma {:induction false} UnusedSwap(lines: seq<Polyline.Line>, taken: seq<bool>, n: nat, j: nat, l: Polyline.Line, p: Point)
    requires n <= |lines| && |taken| == |lines| && NonEmpty(lines) && j < |lines| && |l.points| > 0
    requires Hits(l, p) == Hits(lines[j], p)
    ensures Unused(lines[j := l], taken, n, p) == Unused(lines, taken, n, p)
  {
    if n > 0 {
      UnusedSwap(lines, taken, n - 1, j, l, p);
    }
  }

  /** A positive count has an unused polyline behind it. */
  lemma {:induction false} UnusedWitness(lines: seq<Polyline.Line>, taken: seq<bool>, n: nat, p: Point) returns (j: nat)
    requires n <= |lines| && n <= |taken| && NonEmpty(lines) && Unused(lines, taken, n, p) > 0
    ensures j < n && !taken[j] && Hits(lines[j], p) > 0
  {
    if Unused(lines, taken, n - 1, p) > 0 {
      j := UnusedWitness(lines, taken, n - 1, p);
    } else {
      j := n - 1;
    }
  }

  // ---------------------------------------------------------------------------
  // One step of euler
  // ---------------------------------------------------------------------------

  /** The first slot of node k from t on that holds an unused polyline. */
  function FreeSlot(gr: Graph, k: nat, t: nat): (r: Option<nat>)
    requires Sized(gr) && Incident(gr, |gr.lines|) && k < |gr.pos| && t <= Slots
    ensures r.None? <==> forall u :: t <= u < Slots && gr.edge[k][u].Some? ==> gr.taken[gr.edge[k][u].value]
    ensures r.Some? ==> t <= r.value < Slots && gr.edge[k][r.value].Some? && !gr.taken[gr.edge[k][r.value].value]
    ensures r.Some? ==> forall u :: t <= u < r.value && gr.edge[k][u].Some? ==> gr.taken[gr.edge[k][u].value]
    decreases Slots - t
  {
    if t == Slots then None
    else if gr.edge[k][t].Some? && !gr.taken[gr.edge[k][t].value] then Some(t)
    else FreeSlot(gr, k, t + 1)
  }

  /** Polyline l as euler leaves p over it: reversed when its end is at p. */
  function Leaving(l: Polyline.Line, p: Point): (r: Polyline.Line)
    requires Polyline.Ended(l)
    ensures Polyline.Ended(r) && forall q :: Hits(r, q) == Hits(l, q)
    ensures l.end == p ==> r.points[0] == p && r.end == l.points[0]
    ensures l.end != p ==> r == l
  {
    if l.end == p then Polyline.Reversed(l) else l
  }

  /** euler over unused polyline j from node k: the polyline, turned to
      start at k, is marked used and one end is taken off the count of k and
      of the node m it leads to. */
  function Take(gr: Graph, k: nat, j: nat): (r: (Graph, nat))
    requires Sized(gr) && Anchored(gr, |gr.lines|) && k < |gr.pos| && j < |gr.lines| && Hits(gr.lines[j], gr.pos[k]) > 0
    ensures Sized(r.0) && r.1 < |gr.pos| && r.0.pos == gr.pos && r.0.rapid == gr.rapid && r.0.edge == gr.edge
    ensures r.0.used == gr.used && r.0.dh == gr.dh && r.0.neighbor == gr.neighbor
    ensures |r.0.lines| == |gr.lines| && r.0.lines == gr.lines[j := r.0.lines[j]] && r.0.taken == gr.taken[j := true]
    ensures r.0.lines[j].points[0] == gr.pos[k] && r.0.lines[j].end == gr.pos[r.1]
    ensures forall q :: Hits(r.0.lines[j], q) == Hits(gr.lines[j], q)
    ensures forall x :: 0 <= x < |gr.pos| ==>
      r.0.count[x] == gr.count[x] - (if x == k then 1 else 0) - (if x == r.1 then 1 else 0)
  {
    var l := Leaving(gr.lines[j], gr.pos[k]);
    var m := NodeAt(gr.pos, l.end).value;
    var c := gr.count[k := gr.count[k] - 1];
    (gr.(lines := gr.lines[j := l], taken := gr.taken[j := true], count := c[m := c[m] - 1]), m)
  }

  /** One element of the walk: from node `self` to `node`, over polyline
      `edge` or, when that is None, by the rapid. */
  datatype Step = Step(self: nat, node: nat, edge: Option<nat>)

  /** euler: leave node k over its first unused polyline, or else over its
      rapid (clearing it at both ends), or else not at all. */
  function EulerStep(gr: Graph, k: nat): (r: Option<(Graph, Step)>)
    requires Routed(gr) && k < |gr.pos|
    ensures r.Some? ==> r.value.1.self == k && r.value.1.node < |gr.pos| && Sized(r.value.0) && r.value.0.pos == gr.pos
    ensures r.Some? ==> |r.value.0.lines| == |gr.lines| && (r.value.1.edge.Some? ==> r.value.1.edge.value < |gr.lines|)
    ensures r.Some? ==> r.value.0.used == gr.used && r.value.0.edge == gr.edge
    ensures r.Some? ==> Routed(r.value.0) && Load(r.value.0) < Load(gr)
  {
    match FreeSlot(gr, k, 0)
    case Some(t) =>
      var j := gr.edge[k][t].value;
      TakeRouted(gr, k, j);
      UnsetMark(gr.taken, j);
      var (g, m) := Take(gr, k, j);
      Some((g, Step(k, m, Some(j))))
    case None =>
      match gr.rapid[k]
      case Some(m) =>
        ClearSymmetric(gr.rapid, k);
        LinkedClear(gr.rapid, k);
        LinkedClear(gr.rapid[k := None], m);
        Some((gr.(rapid := gr.rapid[k := None][m := None]), Step(k, m, None)))
      case None => None
  }

  // ---------------------------------------------------------------------------
  // What a step of euler does
  // ---------------------------------------------------------------------------

  /** The number of flags not set: unused polylines, or unused nodes. */
  function Unset(flags: seq<bool>): nat {
    if |flags| == 0 then 0 else Unset(flags[..|flags| - 1]) + (if flags[|flags| - 1] then 0 else 1)
  }

  /** The number of nodes with a rapid. */
  function Linked(rapid: seq<Option<nat>>): nat {
    if |rapid| == 0 then 0 else Linked(rapid[..|rapid| - 1]) + (if rapid[|rapid| - 1].Some? then 1 else 0)
  }

  /** What euler can still take: unused polylines and rapid ends. */
  function Load(gr: Graph): nat {
    Unset(gr.taken) + Linked(gr.rapid)
  }

  /** Setting a flag that was not set leaves one fewer. */
  lemma {:induction false} UnsetMark(flags: seq<bool>, j: nat)
    requires j < |flags| && !flags[j]
    ensures Unset(flags[j := true]) == Unset(flags) - 1
  {
    var n := |flags|;
    if j < n - 1 {
      assert flags[j := true][..n - 1] == flags[..n - 1][j := true];
      UnsetMark(flags[..n - 1], j);
    } else {
      assert flags[j := true][..n - 1] == flags[..n - 1];
    }
  }

  lemma {:induction false} LinkedClear(rapid: seq<Option<nat>>, k: nat)
    requires k < |rapid| && rapid[k].Some?
    ensures Linked(rapid[k := None]) == Linked(rapid) - 1
  {
    var n := |rapid|;
    if k < n - 1 {
      assert rapid[k := None][..n - 1] == rapid[..n - 1][k := None];
      LinkedClear(rapid[..n - 1], k);
    } else {
      assert rapid[k := None][..n - 1] == rapid[..n - 1];
    }
  }

  /** Taking polyline j keeps the counts right: the ends it loses are its
      own. */
  lemma TakeCounts(gr: Graph, k: nat, j: nat)
    requires Routed(gr) && k < |gr.pos| && j < |gr.lines| && !gr.taken[j] && Hits(gr.lines[j], gr.pos[k]) > 0
    ensures Counts(Take(gr, k, j).0, |gr.lines|)
  {
    var (g, m) := Take(gr, k, j);
    var n := |gr.lines|;
    forall x | 0 <= x < |g.pos| ensures g.count[x] == Unused(g.lines, g.taken, n, g.pos[x]) {
      var p := gr.pos[x];
      UnusedTake(g.lines, gr.taken, n, j, p);
      UnusedSwap(gr.lines, gr.taken, n, j, g.lines[j], p);
      assert Hits(g.lines[j], p) == (if x == k then 1 else 0) + (if x == m then 1 else 0) by {
        assert (gr.pos[k] == p) == (x == k) && (gr.pos[m] == p) == (x == m);
      }
    }
  }

  /** Taking polyline j keeps every other unused polyline stored. */
  lemma TakeHeld(gr: Graph, k: nat, j: nat)
    requires Routed(gr) && k < |gr.pos| && j < |gr.lines| && Hits(gr.lines[j], gr.pos[k]) > 0
    ensures Held(Take(gr, k, j).0)
  {
    var g := Take(gr, k, j).0;
    forall i | 0 <= i < |g.lines| && !g.taken[i] ensures Stored(g, i) {
      assert i != j && g.lines[i] == gr.lines[i] && Stored(gr, i);
    }
  }

  /** Taking polyline j keeps every stored polyline and every polyline end at
      a node. */
  lemma TakeEnds(gr: Graph, k: nat, j: nat)
    requires Sized(gr) && Anchored(gr, |gr.lines|) && Incident(gr, |gr.lines|)
    requires k < |gr.pos| && j < |gr.lines| && Hits(gr.lines[j], gr.pos[k]) > 0
    ensures Incident(Take(gr, k, j).0, |gr.lines|) && Anchored(Take(gr, k, j).0, |gr.lines|)
  {
  }

  /** A step over a polyline keeps the routing invariant. */
  lemma TakeRouted(gr: Graph, k: nat, j: nat)
    requires Routed(gr) && k < |gr.pos| && j < |gr.lines| && !gr.taken[j] && Hits(gr.lines[j], gr.pos[k]) > 0
    ensures Routed(Take(gr, k, j).0)
  {
    TakeCounts(gr, k, j);
    TakeHeld(gr, k, j);
    TakeEnds(gr, k, j);
  }

  /** Clearing a rapid at both its ends keeps the rapids symmetric. */
  lemma ClearSymmetric(rapid: seq<Option<nat>>, k: nat)
    requires Symmetric(rapid) && k < |rapid| && rapid[k].Some?
    ensures Symmetric(rapid[k := None][rapid[k].value := None])
  {
  }

  /** A node with an unused polyline end has a free slot. */
  lemma FreeWhenCounted(gr: Graph, k: nat)
    requires Routed(gr) && k < |gr.pos| && gr.count[k] > 0
    ensures FreeSlot(gr, k, 0).Some?
  {
    var p := gr.pos[k];
    var j := UnusedWitness(gr.lines, gr.taken, |gr.lines|, p);
    assert Stored(gr, j);
    NodeAtUnique(gr.pos, p, k);
    var t :| 0 <= t < Slots && gr.edge[k][t] == Some(j);
  }

  /** A node without unused polyline ends has no free slot. */
  lemma NoneFreeWhenZero(gr: Graph, k: nat)
    requires Sized(gr) && Incident(gr, |gr.lines|) && Counts(gr, |gr.lines|) && k < |gr.pos| && gr.count[k] == 0
    ensures FreeSlot(gr, k, 0).None?
  {
    forall t | 0 <= t < Slots && gr.edge[k][t].Some? ensures gr.taken[gr.edge[k][t].value] {
      var j := gr.edge[k][t].value;
      if !gr.taken[j] {
        UnusedTake(gr.lines, gr.taken, |gr.lines|, j, gr.pos[k]);
      }
    }
  }

  /** euler finds nothing at k exactly when k has no unused polyline end
      and no rapid. */
  lemma StepStuck(gr: Graph, k: nat)
    requires Routed(gr) && k < |gr.pos|
    ensures EulerStep(gr, k).None? <==> Deg(gr, k) == 0
  {
    if gr.count[k] > 0 {
      FreeWhenCounted(gr, k);
    } else {
      NoneFreeWhenZero(gr, k);
    }
  }

  /** A step from k to m takes one off the degree of k and one off the
      degree of m (two when m is k). */
  lemma StepDeg(gr: Graph, k: nat)
    requires Routed(gr) && k < |gr.pos| && EulerStep(gr, k).Some?
    ensures var (g, s) := EulerStep(gr, k).value;
      forall x :: 0 <= x < |gr.pos| ==> Deg(g, x) == Deg(gr, x) - (if x == k then 1 else 0) - (if x == s.node then 1 else 0)
  {
  }

  // ---------------------------------------------------------------------------
  // Parity of the degrees
  // ---------------------------------------------------------------------------

  /** The nodes of odd degree are c and e, or none when c is e: a walk now at
      c can only get stuck at e. */
  predicate Pair(gr: Graph, c: nat, e: nat)
    requires Sized(gr)
  {
    forall x :: 0 <= x < |gr.pos| ==> (IsOdd(Deg(gr, x)) <==> ((x == c) != (x == e)))
  }

  /** Taking one off the degrees of c and m moves the odd end of the pair
      from c to m. */
  lemma DegPair(gr: Graph, g: Graph, c: nat, m: nat, e: nat)
    requires Sized(gr) && Sized(g) && |g.pos| == |gr.pos| && c < |gr.pos| && m < |gr.pos| && Pair(gr, c, e)
    requires forall x :: 0 <= x < |gr.pos| ==> Deg(g, x) == Deg(gr, x) - (if x == c then 1 else 0) - (if x == m then 1 else 0)
    ensures Pair(g, m, e)
  {
  }

  /** A step from c to m moves the odd end of the pair to m. */
  lemma StepPair(gr: Graph, c: nat, e: nat)
    requires Routed(gr) && c < |gr.pos| && EulerStep(gr, c).Some? && Pair(gr, c, e)
    ensures Pair(EulerStep(gr, c).value.0, EulerStep(gr, c).value.1.node, e)
  {
    StepDeg(gr, c);
    DegPair(gr, EulerStep(gr, c).value.0, c, EulerStep(gr, c).value.1.node, e);
  }

  /** A walk can only get stuck at the other odd node. */
  lemma StuckPair(gr: Graph, c: nat, e: nat)
    requires Sized(gr) && c < |gr.pos| && Pair(gr, c, e) && Deg(gr, c) == 0
    ensures c == e
  {
  }

  // ---------------------------------------------------------------------------
  // Walks
  // ---------------------------------------------------------------------------

  /** Every step of the walk ends at one of n nodes and goes over one of m
      polylines (or the rapid). */
  predicate Within(walk: seq<Step>, n: nat, m: nat) {
    forall i :: 0 <= i < |walk| ==> walk[i].node < n && (walk[i].edge.Some? ==> walk[i].edge.value < m)
  }

  lemma WithinCons(s: Step, rest: seq<Step>, n: nat, m: nat)
    requires s.node < n && (s.edge.Some? ==> s.edge.value < m) && Within(rest, n, m)
    ensures Within([s] + rest, n, m)
  {
  }

  /** The inner loop of dump_graph_component: euler from k again and again
      until it finds nothing. */
  function Trail(gr: Graph, k: nat): (r: (Graph, seq<Step>))
    requires Routed(gr) && k < |gr.pos|
    ensures Routed(r.0) && Load(r.0) + |r.1| <= Load(gr)
    decreases Load(gr)
  {
    var st := EulerStep(gr, k);
    if st.None? then (gr, [])
    else
      var r2 := Trail(st.value.0, st.value.1.node);
      (r2.0, [st.value.1] + r2.1)
  }

  lemma TrailUnfold2(gr: Graph, k: nat, g: Graph, s: Step)
    requires Routed(gr) && k < |gr.pos| && EulerStep(gr, k) == Some((g, s))
    ensures Routed(g) && s.node < |g.pos|
    ensures Trail(gr, k) == (Trail(g, s.node).0, [s] + Trail(g, s.node).1)
  {
  }

  /** A trail moves no node and marks none used. */
  lemma {:induction false} TrailPos(gr: Graph, k: nat)
    requires Routed(gr) && k < |gr.pos|
    ensures Trail(gr, k).0.pos == gr.pos && Trail(gr, k).0.used == gr.used && |Trail(gr, k).0.lines| == |gr.lines|
    decreases Load(gr)
  {
    var st := EulerStep(gr, k);
    if st.Some? {
      var (g, s) := st.value;
      TrailUnfold2(gr, k, g, s);
      TrailPos(g, s.node);
    }
  }

  lemma {:induction false} TrailNodes(gr: Graph, k: nat)
    requires Routed(gr) && k < |gr.pos|
    ensures Within(Trail(gr, k).1, |gr.pos|, |gr.lines|)
    decreases Load(gr)
  {
    var st := EulerStep(gr, k);
    if st.Some? {
      var (g, s) := st.value;
      TrailUnfold2(gr, k, g, s);
      TrailNodes(g, s.node);
      WithinCons(s, Trail(g, s.node).1, |gr.pos|, |gr.lines|);
    }
  }

  /** The walk with sub spliced in after its step i. */
  function Spliced(walk: seq<Step>, i: nat, sub: seq<Step>): (r: seq<Step>)
    requires i < |walk|
    ensures |r| == |walk| + |sub|
  {
    walk[..i + 1] + sub + walk[i + 1..]
  }

  lemma WithinSplice(walk: seq<Step>, i: nat, sub: seq<Step>, n: nat, m: nat)
    requires i < |walk| && Within(walk, n, m) && Within(sub, n, m)
    ensures Within(Spliced(walk, i, sub), n, m)
  {
    var r := Spliced(walk, i, sub);
    forall x | 0 <= x < |r| ensures r[x].node < n && (r[x].edge.Some? ==> r[x].edge.value < m) {
      if x > i + |sub| {
        assert r[x] == walk[x - |sub|];
      } else if x > i {
        assert r[x] == sub[x - i - 1];
      } else {
        assert r[x] == walk[x];
      }
    }
  }

  /** A trail from a node with something left takes at least one step. */
  lemma TrailSteps(gr: Graph, k: nat)
    requires Routed(gr) && k < |gr.pos| && Deg(gr, k) > 0
    ensures |Trail(gr, k).1| > 0 && Load(Trail(gr, k).0) < Load(gr)
  {
    StepStuck(gr, k);
    var (g, s) := EulerStep(gr, k).value;
    TrailUnfold2(gr, k, g, s);
  }

  /** Splicing the trail from step i's node keeps the walk on the nodes. */
  lemma ScanSplice(gr: Graph, walk: seq<Step>, i: nat)
    requires Routed(gr) && i < |walk| && Within(walk, |gr.pos|, |gr.lines|) && Deg(gr, walk[i].node) > 0
    ensures Load(Trail(gr, walk[i].node).0) < Load(gr) && Trail(gr, walk[i].node).0.pos == gr.pos
    ensures |Trail(gr, walk[i].node).0.lines| == |gr.lines|
    ensures Within(Spliced(walk, i, Trail(gr, walk[i].node).1), |gr.pos|, |gr.lines|)
  {
    var k := walk[i].node;
    TrailSteps(gr, k);
    TrailPos(gr, k);
    TrailNodes(gr, k);
    WithinSplice(walk, i, Trail(gr, k).1, |gr.pos|, |gr.lines|);
  }

  /** The outer loop of dump_graph_component from walk position i: where the
      node a step reached still has something left, the trail from it is
      spliced in after that step and the scan goes on from position
      `restart`. */
  function Scan(gr: Graph, walk: seq<Step>, i: nat, restart: nat): (r: (Graph, seq<Step>))
    requires Routed(gr) && i <= |walk| && restart <= 1 && Within(walk, |gr.pos|, |gr.lines|)
    ensures Routed(r.0) && Load(r.0) <= Load(gr)
    decreases Load(gr), |walk| - i
  {
    if i == |walk| then (gr, walk)
    else if Deg(gr, walk[i].node) == 0 then Scan(gr, walk, i + 1, restart)
    else
      var t := Trail(gr, walk[i].node);
      ScanSplice(gr, walk, i);
      Scan(t.0, Spliced(walk, i, t.1), restart, restart)
  }

  // ---------------------------------------------------------------------------
  // Walks are chained
  // ---------------------------------------------------------------------------

  /** Each step leaves from the node the step before it reached. */
  predicate Chained(walk: seq<Step>) {
    forall i :: 1 <= i < |walk| ==> walk[i - 1].node == walk[i].self
  }

  /** t is a chained walk from k to e, or empty when k is e. */
  predicate Walks(t: seq<Step>, k: nat, e: nat) {
    if |t| == 0 then k == e else t[0].self == k && t[|t| - 1].node == e && Chained(t)
  }

  lemma WalksCons(s: Step, t: seq<Step>, k: nat, e: nat)
    requires s.self == k && Walks(t, s.node, e)
    ensures Walks([s] + t, k, e)
  {
    var r := [s] + t;
    forall i | 1 <= i < |r| ensures r[i - 1].node == r[i].self {
      if i > 1 {
        assert r[i - 1] == t[i - 2] && r[i] == t[i - 1];
      }
    }
  }

  /** With every degree even but those of c and e, the trail from c ends at
      e (and at c itself when c is e), after which every degree is even. */
  lemma {:induction false} TrailWalk(gr: Graph, c: nat, e: nat)
    requires Routed(gr) && c < |gr.pos| && e < |gr.pos| && Pair(gr, c, e)
    ensures Walks(Trail(gr, c).1, c, e) && Pair(Trail(gr, c).0, e, e)
    decreases Load(gr)
  {
    var st := EulerStep(gr, c);
    if st.None? {
      StepStuck(gr, c);
      StuckPair(gr, c, e);
    } else {
      var (g, s) := st.value;
      TrailUnfold2(gr, c, g, s);
      StepPair(gr, c, e);
      TrailWalk(g, s.node, e);
      WalksCons(s, Trail(g, s.node).1, c, e);
    }
  }

  /** All degrees even: a pair of one node with itself. */
  predicate Even(gr: Graph)
    requires Sized(gr)
  {
    forall x :: 0 <= x < |gr.pos| ==> !IsOdd(Deg(gr, x))
  }

  lemma EvenPair(gr: Graph, c: nat)
    requires Sized(gr)
    ensures Pair(gr, c, c) <==> Even(gr)
  {
  }

  // ---------------------------------------------------------------------------
  // Degrees only go down
  // ---------------------------------------------------------------------------

  /** No node of g has a higher degree than in gr. */
  predicate Below(g: Graph, gr: Graph)
    requires Sized(g) && Sized(gr) && |g.pos| == |gr.pos|
  {
    forall x :: 0 <= x < |gr.pos| ==> Deg(g, x) <= Deg(gr, x)
  }

  lemma BelowTrans(a: Graph, b: Graph, c: Graph)
    requires Sized(a) && Sized(b) && Sized(c) && |a.pos| == |b.pos| == |c.pos| && Below(a, b) && Below(b, c)
    ensures Below(a, c)
  {
  }

  lemma StepBelow(gr: Graph, k: nat)
    requires Routed(gr) && k < |gr.pos| && EulerStep(gr, k).Some?
    ensures Below(EulerStep(gr, k).value.0, gr)
  {
    StepDeg(gr, k);
  }

  lemma {:induction false} TrailBelow(gr: Graph, k: nat)
    requires Routed(gr) && k < |gr.pos|
    ensures |Trail(gr, k).0.pos| == |gr.pos| && Below(Trail(gr, k).0, gr)
    decreases Load(gr)
  {
    var st := EulerStep(gr, k);
    if st.Some? {
      var (g, s) := st.value;
      TrailUnfold2(gr, k, g, s);
      StepBelow(gr, k);
      TrailBelow(g, s.node);
      BelowTrans(Trail(g, s.node).0, g, gr);
    }
  }

  /** Degrees are never negative while routing. */
  lemma DegNonNegative(gr: Graph, x: nat)
    requires Routed(gr) && x < |gr.pos|
    ensures Deg(gr, x) >= 0 && gr.count[x] >= 0
  {
  }

  // ---------------------------------------------------------------------------
  // What the scan keeps
  // ---------------------------------------------------------------------------

  /** The scan moves no node, marks none used and only lengthens the walk. */
  lemma {:induction false} ScanPos(gr: Graph, walk: seq<Step>, i: nat, restart: nat)
    requires Routed(gr) && i <= |walk| && restart <= 1 && Within(walk, |gr.pos|, |gr.lines|)
    ensures Scan(gr, walk, i, restart).0.pos == gr.pos && Scan(gr, walk, i, restart).0.used == gr.used
    ensures |Scan(gr, walk, i, restart).0.lines| == |gr.lines| && |Scan(gr, walk, i, restart).1| >= |walk|
    decreases Load(gr), |walk| - i
  {
    if i < |walk| {
      if Deg(gr, walk[i].node) == 0 {
        ScanPos(gr, walk, i + 1, restart);
      } else {
        var t := Trail(gr, walk[i].node);
        ScanSplice(gr, walk, i);
        TrailPos(gr, walk[i].node);
        ScanPos(t.0, Spliced(walk, i, t.1), restart, restart);
      }
    }
  }

  /** Every step of the scanned walk stays on the graph. */
  lemma {:induction false} ScanWithin(gr: Graph, walk: seq<Step>, i: nat, restart: nat)
    requires Routed(gr) && i <= |walk| && restart <= 1 && Within(walk, |gr.pos|, |gr.lines|)
    ensures Within(Scan(gr, walk, i, restart).1, |gr.pos|, |gr.lines|)
    decreases Load(gr), |walk| - i
  {
    if i < |walk| {
      if Deg(gr, walk[i].node) == 0 {
        ScanWithin(gr, walk, i + 1, restart);
      } else {
        var t := Trail(gr, walk[i].node);
        ScanSplice(gr, walk, i);
        ScanWithin(t.0, Spliced(walk, i, t.1), restart, restart);
      }
    }
  }

  /** The scan only lowers degrees. */
  lemma {:induction false} ScanBelow(gr: Graph, walk: seq<Step>, i: nat, restart: nat)
    requires Routed(gr) && i <= |walk| && restart <= 1 && Within(walk, |gr.pos|, |gr.lines|)
    ensures |Scan(gr, walk, i, restart).0.pos| == |gr.pos| && Below(Scan(gr, walk, i, restart).0, gr)
    decreases Load(gr), |walk| - i
  {
    if i < |walk| {
      if Deg(gr, walk[i].node) == 0 {
        ScanBelow(gr, walk, i + 1, restart);
      } else {
        var t := Trail(gr, walk[i].node);
        ScanSplice(gr, walk, i);
        TrailBelow(gr, walk[i].node);
        ScanBelow(t.0, Spliced(walk, i, t.1), restart, restart);
        BelowTrans(Scan(t.0, Spliced(walk, i, t.1), restart, restart).0, t.0, gr);
      }
    }
  }

  // ---------------------------------------------------------------------------
  // The intended scan leaves nothing behind
  // ---------------------------------------------------------------------------

  /** The nodes reached by the first i steps have nothing left. */
  predicate Cleared(gr: Graph, walk: seq<Step>, i: nat)
    requires Sized(gr) && i <= |walk|
  {
    forall j :: 0 <= j < i ==> walk[j].node < |gr.pos| && Deg(gr, walk[j].node) == 0
  }

  /** What holds at each position of the intended scan: the walk is chained,
      its last node and e are the odd pair, and unless they are the same
      node the scan is at the last step; everything before the position is
      cleared. */
  predicate Scanning(gr: Graph, walk: seq<Step>, i: nat, e: nat)
    requires Sized(gr) && i <= |walk|
  {
    0 < |walk| && Chained(walk) && walk[|walk| - 1].node < |gr.pos| && Pair(gr, walk[|walk| - 1].node, e) &&
    (walk[|walk| - 1].node == e || i + 1 == |walk|) && Cleared(gr, walk, i)
  }

  /** Splicing a chained sub-walk that leaves from and (unless it goes last)
      returns to the node of step i keeps the walk chained. */
  lemma SpliceChained(walk: seq<Step>, i: nat, sub: seq<Step>)
    requires Chained(walk) && i < |walk| && 0 < |sub| && Chained(sub) && sub[0].self == walk[i].node
    requires i + 1 < |walk| ==> sub[|sub| - 1].node == walk[i].node
    ensures Chained(Spliced(walk, i, sub)) && Spliced(walk, i, sub)[0] == walk[0]
    ensures Spliced(walk, i, sub)[|walk| + |sub| - 1] == if i + 1 < |walk| then walk[|walk| - 1] else sub[|sub| - 1]
  {
    var r := Spliced(walk, i, sub);
    forall x | 1 <= x < |r| ensures r[x - 1].node == r[x].self {
      if x > i + |sub| + 1 {
        assert r[x - 1] == walk[x - 1 - |sub|] && r[x] == walk[x - |sub|];
      } else if x == i + |sub| + 1 {
        assert r[x - 1] == sub[|sub| - 1] && r[x] == walk[i + 1];
      } else if x > i + 1 {
        assert r[x - 1] == sub[x - i - 2] && r[x] == sub[x - i - 1];
      } else if x == i + 1 {
        assert r[x - 1] == walk[i] && r[x] == sub[0];
      } else {
        assert r[x - 1] == walk[x - 1] && r[x] == walk[x];
      }
    }
  }

  /** Splicing in the trail from step i keeps the scan's invariant. */
  lemma SpliceScanning(gr: Graph, walk: seq<Step>, i: nat, e: nat)
    requires Routed(gr) && i < |walk| && Within(walk, |gr.pos|, |gr.lines|) && e < |gr.pos| && Scanning(gr, walk, i, e)
    requires Deg(gr, walk[i].node) > 0
    ensures Scanning(Trail(gr, walk[i].node).0, Spliced(walk, i, Trail(gr, walk[i].node).1), 0, e)
  {
    var k := walk[i].node;
    var last := walk[|walk| - 1].node;
    var t := Trail(gr, k);
    TrailSteps(gr, k);
    TrailPos(gr, k);
    if last == e {
      EvenPair(gr, last);
      EvenPair(gr, k);
      TrailWalk(gr, k, k);
      EvenPair(t.0, k);
      EvenPair(t.0, last);
    } else {
      TrailWalk(gr, k, e);
    }
    SpliceChained(walk, i, t.1);
  }

  /** What the intended scan ends with: a chained walk from step `first` to
      e, with nothing left at any node it reaches and every degree even. */
  predicate Swept(g: Graph, w: seq<Step>, first: Step, e: nat)
    requires Sized(g)
  {
    0 < |w| && w[0] == first && Chained(w) && w[|w| - 1].node == e && Pair(g, e, e) && Cleared(g, w, |w|)
  }

  lemma ScanDone(gr: Graph, walk: seq<Step>, e: nat)
    requires Sized(gr) && Scanning(gr, walk, |walk|, e)
    ensures Swept(gr, walk, walk[0], e)
  {
  }

  lemma ScanSkip(gr: Graph, walk: seq<Step>, i: nat, e: nat)
    requires Routed(gr) && i < |walk| && Within(walk, |gr.pos|, |gr.lines|) && Scanning(gr, walk, i, e)
    requires Deg(gr, walk[i].node) == 0
    ensures Scanning(gr, walk, i + 1, e)
  {
    if i + 1 == |walk| {
      StuckPair(gr, walk[i].node, e);
    }
  }

  /** The intended scan, which starts over at the first step after each
      splice, ends with a chained walk to e that leaves nothing at any node
      it reaches, and with every degree even. */
  lemma {:induction false} ScanWalk(gr: Graph, walk: seq<Step>, i: nat, e: nat)
    requires Routed(gr) && i <= |walk| && Within(walk, |gr.pos|, |gr.lines|) && e < |gr.pos| && Scanning(gr, walk, i, e)
    ensures Swept(Scan(gr, walk, i, 0).0, Scan(gr, walk, i, 0).1, walk[0], e)
    decreases Load(gr), |walk| - i
  {
    if i == |walk| {
      ScanDone(gr, walk, e);
    } else {
      var k := walk[i].node;
      if Deg(gr, k) == 0 {
        ScanSkip(gr, walk, i, e);
        ScanWalk(gr, walk, i + 1, e);
      } else {
        var t := Trail(gr, k);
        ScanSplice(gr, walk, i);
        TrailPos(gr, k);
        SpliceScanning(gr, walk, i, e);
        ScanWalk(t.0, Spliced(walk, i, t.1), 0, e);
      }
    }
  }

  // ---------------------------------------------------------------------------
  // dump_graph_component
  // ---------------------------------------------------------------------------

  /** Some step of the walk reaches node x. */
  predicate Visits(walk: seq<Step>, x: nat) {
    exists j :: 0 <= j < |walk| && walk[j].node == x
  }

  /** The last loop of dump_graph_component: each node a step reaches is
      marked used. */
  function MarkAll(used: seq<bool>, walk: seq<Step>): (r: seq<bool>)
    ensures |r| == |used|
    ensures forall x :: 0 <= x < |used| ==> (r[x] <==> used[x] || Visits(walk, x))
  {
    seq(|used|, x requires 0 <= x < |used| => used[x] || Visits(walk, x))
  }

  /** Marking nodes used keeps the routing invariant. */
  lemma RoutedUsed(gr: Graph, used: seq<bool>)
    requires Routed(gr) && |used| == |gr.used|
    ensures Routed(gr.(used := used)) && Load(gr.(used := used)) == Load(gr)
  {
    var g := gr.(used := used);
    assert Held(g) by {
      forall j | 0 <= j < |g.lines| && !g.taken[j] ensures Stored(g, j) {
        assert Stored(gr, j);
      }
    }
  }

  /** The check of dump_graph_component: no node the walk reaches has an
      unused polyline end left. */
  predicate Idle(gr: Graph, walk: seq<Step>)
    requires Sized(gr) && Within(walk, |gr.pos|, |gr.lines|)
  {
    forall j :: 0 <= j < |walk| ==> gr.count[walk[j].node] == 0
  }

  /** dump_graph_component from node s: one step of euler, then the scan
      that splices in further trails, the check (None: the program stops
      with an internal error) and the marking. As written (`fixed` false)
      the scan starts over at the second step and a start without anything
      left is not marked; as intended it starts over at the first step and
      such a start is marked used. */
  function Dump(gr: Graph, s: nat, fixed: bool): (r: Option<(Graph, seq<Step>)>)
    requires Routed(gr) && s < |gr.pos|
    ensures r.Some? ==> Routed(r.value.0) && r.value.0.pos == gr.pos && |r.value.0.lines| == |gr.lines|
    ensures r.Some? ==> Within(r.value.1, |gr.pos|, |gr.lines|)
    ensures r.Some? ==> Load(r.value.0) + (if |r.value.1| > 0 then 1 else 0) <= Load(gr)
    ensures r.Some? && |r.value.1| == 0 ==> r.value.0 == if fixed then gr.(used := gr.used[s := true]) else gr
  {
    match EulerStep(gr, s)
    case None =>
      RoutedUsed(gr, gr.used[s := true]);
      Some((if fixed then gr.(used := gr.used[s := true]) else gr, []))
    case Some((g1, st)) =>
      var restart := if fixed then 0 else 1;
      var (g, w) := Scan(g1, [st], 0, restart);
      ScanPos(g1, [st], 0, restart);
      ScanWithin(g1, [st], 0, restart);
      if Idle(g, w) then
        RoutedUsed(g, MarkAll(g.used, w));
        Some((g.(used := MarkAll(g.used, w)), w))
      else None
  }

  /** Every node marked used has nothing left. */
  predicate Settled(gr: Graph)
    requires Sized(gr)
  {
    forall x :: 0 <= x < |gr.pos| && gr.used[x] ==> Deg(gr, x) == 0
  }

  /** A cleared walk passes the check. */
  lemma ClearedIdle(gr: Graph, walk: seq<Step>)
    requires Routed(gr) && Within(walk, |gr.pos|, |gr.lines|) && Cleared(gr, walk, |walk|)
    ensures Idle(gr, walk)
  {
    forall j | 0 <= j < |walk| ensures gr.count[walk[j].node] == 0 {
      DegNonNegative(gr, walk[j].node);
    }
  }

  /** Marking the nodes of a cleared walk keeps every used node settled when
      the degrees only went down since the graph was settled. */
  lemma MarkSettled(gr: Graph, g: Graph, walk: seq<Step>)
    requires Routed(gr) && Routed(g) && g.pos == gr.pos && g.used == gr.used && Settled(gr) && Below(g, gr)
    requires Within(walk, |g.pos|, |g.lines|) && Cleared(g, walk, |walk|)
    ensures Settled(g.(used := MarkAll(g.used, walk)))
  {
    var m := g.(used := MarkAll(g.used, walk));
    forall x | 0 <= x < |m.pos| && m.used[x] ensures Deg(m, x) == 0 {
      DegNonNegative(g, x);
      if Visits(walk, x) {
        VisitedCleared(g, walk, x);
      }
    }
  }

  lemma VisitedCleared(g: Graph, walk: seq<Step>, x: nat)
    requires Sized(g) && Cleared(g, walk, |walk|) && x < |g.pos| && Visits(walk, x)
    ensures Deg(g, x) == 0
  {
  }

  /** Marking nodes used changes no degree. */
  lemma EvenUsed(gr: Graph, used: seq<bool>)
    requires Sized(gr) && |used| == |gr.used| && Even(gr)
    ensures Sized(gr.(used := used)) && Even(gr.(used := used))
  {
    var g := gr.(used := used);
    forall x | 0 <= x < |g.pos| ensures !IsOdd(Deg(g, x)) {
      assert Deg(g, x) == Deg(gr, x);
    }
  }

  /** The intended dump from s, whose odd partner (if any) is e, passes its
      check, walks from s to e, leaves every degree even and every used node
      settled, and marks used what it reaches (or s itself when s has
      nothing left). */
  lemma DumpSettles(gr: Graph, s: nat, e: nat)
    requires Routed(gr) && s < |gr.pos| && e < |gr.pos| && Pair(gr, s, e) && Settled(gr)
    ensures Dump(gr, s, true).Some?
    ensures var (g, w) := Dump(gr, s, true).value;
      Walks(w, s, e) && Even(g) && Settled(g) && (|w| == 0 ==> g.used[s])
  {
    match EulerStep(gr, s)
    case None =>
      StepStuck(gr, s);
      StuckPair(gr, s, e);
      EvenPair(gr, e);
      EvenUsed(gr, gr.used[s := true]);
    case Some((g1, st)) =>
      WalkSettles(gr, s, e, g1, st);
  }

  /** The case of DumpSettles where s has something left. */
  lemma WalkSettles(gr: Graph, s: nat, e: nat, g1: Graph, st: Step)
    requires Routed(gr) && s < |gr.pos| && e < |gr.pos| && Pair(gr, s, e) && Settled(gr)
    requires EulerStep(gr, s) == Some((g1, st))
    ensures Dump(gr, s, true).Some?
    ensures var (g, w) := Dump(gr, s, true).value;
      Walks(w, s, e) && Even(g) && Settled(g)
  {
      StepPair(gr, s, e);
      StepBelow(gr, s);
      assert Scanning(g1, [st], 0, e);
      ScanWalk(g1, [st], 0, e);
      ScanBelow(g1, [st], 0, 0);
      ScanPos(g1, [st], 0, 0);
      ScanWithin(g1, [st], 0, 0);
      var (g, w) := Scan(g1, [st], 0, 0);
      BelowTrans(g, g1, gr);
      ClearedIdle(g, w);
      MarkSettled(gr, g, w);
      EvenPair(g, e);
      EvenUsed(g, MarkAll(g.used, w));
  }

  // ---------------------------------------------------------------------------
  // What the route writes
  // ---------------------------------------------------------------------------

  /** A rapid move to a point, or a cut along a polyline's points. */
  datatype Move = Rapid(to: Point) | Cut(points: seq<Point>)

  /** path_dump: it writes every point of the polyline and counts them; at
      the last point it stops the program (None) unless that point is the
      recorded end. */
  function PathDump(l: Polyline.Line): (r: Option<nat>)
    requires |l.points| > 0
    ensures r.Some? <==> Polyline.Ended(l)
    ensures r.Some? ==> r.value == |l.points|
  {
    if l.points[|l.points| - 1] != l.end then None else Some(|l.points|)
  }

  /** No polyline of the graph makes path_dump stop the program. */
  lemma PathDumpPasses(gr: Graph, j: nat)
    requires Sized(gr) && j < |gr.lines|
    ensures PathDump(gr.lines[j]) == Some(|gr.lines[j].points|)
  {
  }

  /** What the last loop of dump_graph_component writes for one step: the
      polyline it went over, or a rapid to the node it reached. */
  function Emit(gr: Graph, st: Step): Move
    requires Sized(gr) && st.node < |gr.pos| && (st.edge.Some? ==> st.edge.value < |gr.lines|)
  {
    if st.edge.Some? then Cut(gr.lines[st.edge.value].points) else Rapid(gr.pos[st.node])
  }

  /** What that loop writes for a walk, step by step. */
  function Written(gr: Graph, walk: seq<Step>): (r: seq<Move>)
    requires Sized(gr) && Within(walk, |gr.pos|, |gr.lines|)
    ensures |r| == |walk|
  {
    if |walk| == 0 then []
    else Written(gr, walk[..|walk| - 1]) + [Emit(gr, walk[|walk| - 1])]
  }

  /** What dump_graph_component writes for a walk from s: a rapid to s,
      then the walk. */
  function Moves(gr: Graph, s: nat, walk: seq<Step>): seq<Move>
    requires Sized(gr) && s < |gr.pos| && Within(walk, |gr.pos|, |gr.lines|)
  {
    [Rapid(gr.pos[s])] + Written(gr, walk)
  }

  // ---------------------------------------------------------------------------
  // next_point
  // ---------------------------------------------------------------------------

  /** next_point's score for node k: its distance from the point the search
      starts from (`home`), less the length of its rapid, which a walk
      starting at k does not have to travel. */
  function Score(gr: Graph, home: Point -> real, dist: (Point, Point) -> real, k: nat): real
    requires Sized(gr) && Symmetric(gr.rapid) && k < |gr.pos|
  {
    home(gr.pos[k]) - (if gr.rapid[k].Some? then dist(gr.pos[k], gr.pos[gr.rapid[k].value]) else 0.0)
  }

  /** Node a is preferred to node k: a lower score, or the same score and a
      lower index (met later in the list). */
  predicate Beats(gr: Graph, home: Point -> real, dist: (Point, Point) -> real, a: nat, k: nat)
    requires Sized(gr) && Symmetric(gr.rapid) && a < |gr.pos| && k < |gr.pos|
  {
    Score(gr, home, dist, a) < Score(gr, home, dist, k) || (Score(gr, home, dist, a) == Score(gr, home, dist, k) && a <= k)
  }

  /** next_point over the list from node n - 1 down to node 0 (list order),
      with `best` the choice so far: each unused node whose score is at most
      the best so far replaces it. */
  function NextPoint(gr: Graph, home: Point -> real, dist: (Point, Point) -> real, n: nat, best: Option<nat>): (r: Option<nat>)
    requires Sized(gr) && Symmetric(gr.rapid) && n <= |gr.pos|
    requires best.Some? ==> best.value < |gr.pos| && !gr.used[best.value]
    ensures r.None? <==> best.None? && forall k :: 0 <= k < n ==> gr.used[k]
    ensures r.Some? ==> r.value < |gr.pos| && !gr.used[r.value] && (r.value < n || r == best)
    ensures r.Some? && best.Some? ==> Score(gr, home, dist, r.value) <= Score(gr, home, dist, best.value)
    ensures r.Some? ==> forall k :: 0 <= k < n && !gr.used[k] ==> Beats(gr, home, dist, r.value, k)
    decreases n
  {
    if n == 0 then best
    else
      var k := n - 1;
      if !gr.used[k] && (best.None? || Score(gr, home, dist, k) <= Score(gr, home, dist, best.value)) then
        NextPoint(gr, home, dist, k, Some(k))
      else NextPoint(gr, home, dist, k, best)
  }

  // ---------------------------------------------------------------------------
  // optimized_dump
  // ---------------------------------------------------------------------------

  /** Replacing the rapids by symmetric ones keeps the routing invariant. */
  lemma RoutedRapid(gr: Graph, rapid: seq<Option<nat>>)
    requires Routed(gr) && |rapid| == |gr.rapid| && Symmetric(rapid)
    ensures Routed(gr.(rapid := rapid))
  {
    var g := gr.(rapid := rapid);
    assert Held(g) by {
      forall j | 0 <= j < |g.lines| && !g.taken[j] ensures Stored(g, j) {
        assert Stored(gr, j);
      }
    }
  }

  /** The loop of optimized_dump before each dump: the rapid at the start k
      is cleared, first at its other end, then at k. */
  function Detach(gr: Graph, k: nat): (r: Graph)
    requires Routed(gr) && k < |gr.pos|
    ensures Routed(r) && r.pos == gr.pos && r.used == gr.used && |r.lines| == |gr.lines| && Load(r) <= Load(gr)
    ensures r.rapid[k].None? && Below(r, gr)
  {
    match gr.rapid[k]
    case None => gr
    case Some(m) =>
      ClearSymmetric(gr.rapid, k);
      LinkedClear(gr.rapid, k);
      LinkedClear(gr.rapid[k := None], m);
      assert gr.rapid[m := None][k := None] == gr.rapid[k := None][m := None];
      RoutedRapid(gr, gr.rapid[m := None][k := None]);
      gr.(rapid := gr.rapid[m := None][k := None])
  }

  /** The other end of k's rapid, or k itself when it has none. */
  function Partner(gr: Graph, k: nat): nat
    requires Sized(gr) && k < |gr.pos|
  {
    if gr.rapid[k].Some? then gr.rapid[k].value else k
  }

  /** From even degrees, clearing k's rapid leaves k and its partner as the
      odd pair. */
  lemma DetachPair(gr: Graph, k: nat)
    requires Routed(gr) && k < |gr.pos| && Even(gr)
    ensures Partner(gr, k) < |gr.pos| && Pair(Detach(gr, k), k, Partner(gr, k))
  {
    EvenPair(gr, k);
    if gr.rapid[k].Some? {
      var m := gr.rapid[k].value;
      var g := Detach(gr, k);
      assert g.rapid == gr.rapid[m := None][k := None];
      forall x | 0 <= x < |gr.pos|
        ensures Deg(g, x) == Deg(gr, x) - (if x == k then 1 else 0) - (if x == m then 1 else 0)
      {
      }
      DegPair(gr, g, k, m, k);
      PairSwap(g, m, k);
    }
  }

  lemma PairSwap(gr: Graph, c: nat, e: nat)
    requires Sized(gr) && Pair(gr, c, e)
    ensures Pair(gr, e, c)
  {
  }

  /** Lower degrees keep every used node settled. */
  lemma SettledBelow(gr: Graph, g: Graph)
    requires Routed(gr) && Routed(g) && g.pos == gr.pos && g.used == gr.used && Settled(gr) && Below(g, gr)
    ensures Settled(g)
  {
    forall x | 0 <= x < |g.pos| && g.used[x] ensures Deg(g, x) == 0 {
      DegNonNegative(g, x);
    }
  }

  /** One turn of the loop of optimized_dump. */
  datatype Turn =
    | Finished                            // next_point found no unused node
    | Stopped                             // the dump stopped the program
    | Next(gr: Graph, moves: seq<Move>)   // the graph after a dump, and what it wrote

  /** One turn of optimized_dump's loop: next_point, clearing the rapid of
      the start, and the dump from it (as written or as intended). */
  function Round(gr: Graph, home: Point -> real, dist: (Point, Point) -> real, fixed: bool): (r: Turn)
    requires Routed(gr)
    ensures r.Next? ==> Routed(r.gr) && r.gr.pos == gr.pos && |r.gr.lines| == |gr.lines|
    ensures r.Finished? <==> forall k :: 0 <= k < |gr.pos| ==> gr.used[k]
  {
    match NextPoint(gr, home, dist, |gr.pos|, None)
    case None => Finished
    case Some(k) =>
      var g1 := Detach(gr, k);
      match Dump(g1, k, fixed)
      case None => Stopped
      case Some((g, w)) => Next(g, Moves(g, k, w))
  }

  /** The intended turn either consumes part of the graph or marks one more
      node used. */
  lemma RoundProgress(gr: Graph, home: Point -> real, dist: (Point, Point) -> real)
    requires Routed(gr) && Round(gr, home, dist, true).Next?
    ensures var g := Round(gr, home, dist, true).gr;
      Load(g) < Load(gr) || (Load(g) == Load(gr) && Unset(g.used) < Unset(gr.used))
  {
    var k := NextPoint(gr, home, dist, |gr.pos|, None).value;
    var g1 := Detach(gr, k);
    var (g, w) := Dump(g1, k, true).value;
    if |w| == 0 {
      RoutedUsed(g1, g1.used[k := true]);
      UnsetMark(g1.used, k);
    }
  }

  /** The rest of optimized_dump's loop as intended: turns until next_point
      finds nothing; None when a dump stops the program. */
  function Finish(gr: Graph, home: Point -> real, dist: (Point, Point) -> real): (r: Option<(Graph, seq<Move>)>)
    requires Routed(gr)
    ensures r.Some? ==> Routed(r.value.0) && r.value.0.pos == gr.pos && |r.value.0.lines| == |gr.lines|
    decreases Load(gr), Unset(gr.used)
  {
    match Round(gr, home, dist, true)
    case Finished => Some((gr, []))
    case Stopped => None
    case Next(g, moves) =>
      RoundProgress(gr, home, dist);
      match Finish(g, home, dist)
      case None => None
      case Some((g2, rest)) => Some((g2, moves + rest))
  }

  /** The first n turns of optimized_dump's loop as written: Finished or
      Stopped when the loop ends within them, otherwise the graph they leave
      and what they wrote. */
  function Rounds(gr: Graph, home: Point -> real, dist: (Point, Point) -> real, n: nat): (r: Turn)
    requires Routed(gr)
    ensures r.Next? ==> Routed(r.gr) && r.gr.pos == gr.pos
    decreases n
  {
    if n == 0 then Next(gr, [])
    else
      match Round(gr, home, dist, false)
      case Next(g, moves) =>
        (match Rounds(g, home, dist, n - 1)
         case Next(g2, rest) => Next(g2, moves + rest)
         case t => t)
      case t => t
  }

  /** A turn that leaves the graph as it was is repeated for ever: the loop
      as written never ends. */
  lemma {:induction false} StallRepeats(gr: Graph, home: Point -> real, dist: (Point, Point) -> real, moves: seq<Move>, n: nat)
    requires Routed(gr) && Round(gr, home, dist, false) == Next(gr, moves)
    ensures Rounds(gr, home, dist, n).Next? && Rounds(gr, home, dist, n).gr == gr
    decreases n
  {
    if n > 0 {
      StallRepeats(gr, home, dist, moves, n - 1);
    }
  }

  /** next_point picks a node with nothing left. */
  predicate Stalls(gr: Graph, home: Point -> real, dist: (Point, Point) -> real)
    requires Routed(gr)
  {
    NextPoint(gr, home, dist, |gr.pos|, None).Some? && Deg(gr, NextPoint(gr, home, dist, |gr.pos|, None).value) == 0
  }

  /** From a graph on which next_point picks a node with nothing left, no
      number of turns as written ends the loop. */
  lemma StalledForever(gr: Graph, home: Point -> real, dist: (Point, Point) -> real, n: nat)
    requires Routed(gr) && Stalls(gr, home, dist)
    ensures Rounds(gr, home, dist, n).Next?
  {
    StalledRoundRepeats(gr, home, dist);
    StallRepeats(gr, home, dist, [Rapid(gr.pos[NextPoint(gr, home, dist, |gr.pos|, None).value])], n);
  }

  /** When next_point picks a node with nothing left, the dump as written
      neither walks nor marks it: the turn leaves the graph as it was, so
      the loop of optimized_dump picks the same node again for ever. */
  lemma StalledRoundRepeats(gr: Graph, home: Point -> real, dist: (Point, Point) -> real)
    requires Routed(gr) && NextPoint(gr, home, dist, |gr.pos|, None).Some?
    requires Deg(gr, NextPoint(gr, home, dist, |gr.pos|, None).value) == 0
    ensures var k := NextPoint(gr, home, dist, |gr.pos|, None).value;
      Round(gr, home, dist, false) == Next(gr, [Rapid(gr.pos[k])])
  {
    var k := NextPoint(gr, home, dist, |gr.pos|, None).value;
    DegNonNegative(gr, k);
    assert Detach(gr, k) == gr;
    StepStuck(gr, k);
    assert Dump(gr, k, false) == Some((gr, []));
  }

  /** The invariant of optimized_dump's loops: degrees even, and every node
      marked used has nothing left. */
  predicate Routing(gr: Graph) {
    Routed(gr) && Even(gr) && Settled(gr)
  }

  /** Under the invariant the intended turn never stops the program and
      keeps the invariant. */
  lemma RoundKeeps(gr: Graph, home: Point -> real, dist: (Point, Point) -> real)
    requires Routing(gr)
    ensures !Round(gr, home, dist, true).Stopped?
    ensures Round(gr, home, dist, true).Next? ==> Routing(Round(gr, home, dist, true).gr)
  {
    match NextPoint(gr, home, dist, |gr.pos|, None)
    case None =>
    case Some(k) =>
      var g1 := Detach(gr, k);
      DetachPair(gr, k);
      SettledBelow(gr, g1);
      DumpSettles(g1, k, Partner(gr, k));
  }

  /** An unused polyline puts an unused end at its start node. */
  lemma UnusedPositive(lines: seq<Polyline.Line>, taken: seq<bool>, j: nat, p: Point)
    requires |taken| == |lines| && NonEmpty(lines) && j < |lines| && !taken[j]
    ensures Unused(lines, taken, |lines|, p) >= Hits(lines[j], p)
  {
    UnusedGrows(lines, taken, j + 1, |lines|, p);
  }

  /** When no node has anything left, every polyline is used. */
  lemma AllTaken(gr: Graph)
    requires Routed(gr) && forall x :: 0 <= x < |gr.pos| ==> Deg(gr, x) == 0
    ensures forall j :: 0 <= j < |gr.lines| ==> gr.taken[j]
  {
    forall j | 0 <= j < |gr.lines| ensures gr.taken[j] {
      if !gr.taken[j] {
        var x := NodeAt(gr.pos, gr.lines[j].points[0]).value;
        UnusedPositive(gr.lines, gr.taken, j, gr.pos[x]);
        DegNonNegative(gr, x);
        assert false;
      }
    }
  }

  /** The intended loop of optimized_dump ends, and then every node is used,
      every polyline cut and every rapid travelled. */
  lemma {:induction false} FinishRoutesAll(gr: Graph, home: Point -> real, dist: (Point, Point) -> real)
    requires Routing(gr)
    ensures Finish(gr, home, dist).Some?
    ensures var g := Finish(gr, home, dist).value.0;
      Routing(g) && g.pos == gr.pos && |g.lines| == |gr.lines| &&
      (forall x :: 0 <= x < |g.pos| ==> g.used[x] && g.rapid[x].None?) &&
      (forall j :: 0 <= j < |g.lines| ==> g.taken[j])
    decreases Load(gr), Unset(gr.used)
  {
    RoundKeeps(gr, home, dist);
    match Round(gr, home, dist, true)
    case Finished =>
      FinishDone(gr, home, dist);
      AllCleared(gr);
    case Next(g, moves) =>
      RoundProgress(gr, home, dist);
      FinishRoutesAll(g, home, dist);
      FinishNext(gr, home, dist, g, moves, Finish(g, home, dist));
  }

  /** The loop ends at once when no node is left unused. */
  lemma FinishDone(gr: Graph, home: Point -> real, dist: (Point, Point) -> real)
    requires Routed(gr) && Round(gr, home, dist, true).Finished?
    ensures Finish(gr, home, dist) == Some((gr, []))
  {
  }

  /** After a turn the loop goes on from the graph the turn leaves. */
  lemma FinishNext(gr: Graph, home: Point -> real, dist: (Point, Point) -> real, g: Graph, moves: seq<Move>,
                    rest: Option<(Graph, seq<Move>)>)
    requires Routed(gr) && Round(gr, home, dist, true) == Next(g, moves) && Routed(g) && rest == Finish(g, home, dist)
    ensures Finish(gr, home, dist).Some? <==> rest.Some?
    ensures rest.Some? ==> Finish(gr, home, dist).value.0 == rest.value.0 && Finish(gr, home, dist).value.1 == moves + rest.value.1
  {
  }

  /** Once every node is used, the invariant leaves no rapid and no unused
      polyline. */
  lemma AllCleared(gr: Graph)
    requires Routing(gr) && forall x :: 0 <= x < |gr.pos| ==> gr.used[x]
    ensures forall x :: 0 <= x < |gr.pos| ==> gr.rapid[x].None?
    ensures forall j :: 0 <= j < |gr.lines| ==> gr.taken[j]
  {
    forall x | 0 <= x < |gr.pos| ensures gr.rapid[x].None? {
      DegNonNegative(gr, x);
    }
    AllTaken(gr);
  }

  /** The body of optimized_dump's first loop for node k: dump its
      component when it is unused and has exactly two polyline ends. */
  function Circle(gr: Graph, k: nat, fixed: bool): (r: Option<(Graph, seq<Move>)>)
    requires Routed(gr) && k < |gr.pos|
    ensures r.Some? ==> Routed(r.value.0) && r.value.0.pos == gr.pos && |r.value.0.lines| == |gr.lines|
  {
    if gr.count[k] == 2 && !gr.used[k] then
      match Dump(gr, k, fixed)
      case None => None
      case Some((g, w)) => Some((g, Moves(g, k, w)))
    else Some((gr, []))
  }

  /** The first loop of optimized_dump, walking the node list from the
      newest node (index n - 1) down. */
  function Circles(gr: Graph, n: nat, fixed: bool): (r: Option<(Graph, seq<Move>)>)
    requires Routed(gr) && n <= |gr.pos|
    ensures r.Some? ==> Routed(r.value.0) && r.value.0.pos == gr.pos && |r.value.0.lines| == |gr.lines|
    decreases n
  {
    if n == 0 then Some((gr, []))
    else
      match Circle(gr, n - 1, fixed)
      case None => None
      case Some((g, moves)) =>
        match Circles(g, n - 1, fixed)
        case None => None
        case Some((g2, rest)) => Some((g2, moves + rest))
  }

  /** Under the invariant the intended first loop never stops the program
      and keeps the invariant. */
  lemma {:induction false} CirclesKeep(gr: Graph, n: nat)
    requires Routing(gr) && n <= |gr.pos|
    ensures Circles(gr, n, true).Some? && Routing(Circles(gr, n, true).value.0)
    decreases n
  {
    if n > 0 {
      CircleKeeps(gr, n - 1);
      CirclesKeep(Circle(gr, n - 1, true).value.0, n - 1);
    }
  }

  lemma CircleKeeps(gr: Graph, k: nat)
    requires Routing(gr) && k < |gr.pos|
    ensures Circle(gr, k, true).Some? && Routing(Circle(gr, k, true).value.0)
  {
    EvenPair(gr, k);
    DumpSettles(gr, k, k);
  }

  /** After add_rapids: the graph create_graph built, with every odd node
      paired, is ready for routing. */
  lemma PairedRouting(g0: Graph, g: Graph)
    requires Sized(g0) && Built(g0, |g0.lines|) && Sized(g)
    requires g.pos == g0.pos && g.count == g0.count && g.lines == g0.lines && g.taken == g0.taken
    requires g.edge == g0.edge && g.used == g0.used && Matched(g)
    ensures Routing(g)
  {
    assert Held(g) by {
      forall j | 0 <= j < |g.lines| && !g.taken[j] ensures Stored(g, j) {
        assert Wired(g0, j);
      }
    }
    MatchedEven(g);
  }

  /** Rapids that pair the odd nodes are symmetric and make every degree
      even. */
  lemma MatchedEven(g: Graph)
    requires Sized(g) && Matched(g)
    ensures Symmetric(g.rapid) && Even(g)
  {
    forall k | 0 <= k < |g.rapid| && g.rapid[k].Some?
      ensures g.rapid[k].value < |g.rapid| && g.rapid[k].value != k && g.rapid[g.rapid[k].value] == Some(k)
    {
      assert MatchedAt(g.count, g.rapid, k);
    }
    forall x | 0 <= x < |g.pos| ensures !IsOdd(Deg(g, x)) {
      assert MatchedAt(g.count, g.rapid, x);
    }
  }

  /** Whenever add_rapids succeeds on the graph create_graph built, the
      result is ready for routing. */
  lemma RapidsRouting(g0: Graph, dist: (Point, Point) -> real)
    requires Sized(g0) && Built(g0, |g0.lines|) && AddRapids(g0, dist).Some?
    ensures Routing(AddRapids(g0, dist).value)
  {
    assert |g0.pos| > 0;
    Handshake(g0.count, |g0.lines|);
    AddRapidsMatches(g0, dist);
    PairedRouting(g0, AddRapids(g0, dist).value);
  }

  /** create_graph and add_rapids: None when either stops the program. */
  function Prepare(lines: seq<Polyline.Line>, dist: (Point, Point) -> real): (r: Option<Graph>)
    requires forall j :: 0 <= j < |lines| ==> Polyline.Ended(lines[j])
    ensures r.Some? ==> Routing(r.value) && |r.value.lines| == |lines|
  {
    match Build(lines)
    case None => None
    case Some(g0) =>
      BuildNet(lines);
      match AddRapids(g0, dist)
      case None => None
      case Some(g1) =>
        RapidsRouting(g0, dist);
        Some(g1)
  }

  /** optimized_dump as intended: create_graph, add_rapids, the circles,
      then next_point and a dump until no node is left; None when one of
      them stops the program. */
  function OptimizedDump(lines: seq<Polyline.Line>, home: Point -> real, dist: (Point, Point) -> real): (r: Option<(Graph, seq<Move>)>)
    requires forall j :: 0 <= j < |lines| ==> Polyline.Ended(lines[j])
    ensures r.Some? ==> Routed(r.value.0) && |r.value.0.lines| == |lines|
  {
    match Prepare(lines, dist)
    case None => None
    case Some(g1) =>
      match Circles(g1, |g1.pos|, true)
      case None => None
      case Some((g2, m1)) =>
        match Finish(g2, home, dist)
        case None => None
        case Some((g3, m2)) => Some((g3, m1 + m2))
  }

  /** create_graph and add_rapids succeed exactly when no point is an end of
      more than four polylines. */
  lemma PrepareFits(lines: seq<Polyline.Line>, dist: (Point, Point) -> real)
    requires 0 < |lines| && forall j :: 0 <= j < |lines| ==> Polyline.Ended(lines[j])
    ensures Prepare(lines, dist).Some? <==> FitsAll(lines, |lines|)
  {
    BuildNet(lines);
    if Build(lines).Some? {
      BuiltPairs(Build(lines).value, dist);
    }
  }

  /** add_rapids always succeeds on what create_graph builds: its odd
      nodes are even in number (the handshake), so the pairing matches
      them all. */
  lemma BuiltPairs(g0: Graph, dist: (Point, Point) -> real)
    requires Sized(g0) && 0 < |g0.lines| && Built(g0, |g0.lines|)
    ensures AddRapids(g0, dist).Some?
  {
    assert g0.lines[0].points[0] in g0.pos;
    Handshake(g0.count, |g0.lines|);
    AddRapidsMatches(g0, dist);
  }

  /** optimized_dump as intended routes everything whenever create_graph
      accepts the polylines: it ends with every node used, every polyline
      cut and every rapid travelled; otherwise the program stops. */
  lemma OptimizedDumpRoutesAll(lines: seq<Polyline.Line>, home: Point -> real, dist: (Point, Point) -> real)
    requires 0 < |lines| && forall j :: 0 <= j < |lines| ==> Polyline.Ended(lines[j])
    ensures OptimizedDump(lines, home, dist).Some? <==> FitsAll(lines, |lines|)
    ensures OptimizedDump(lines, home, dist).Some? ==>
      var g := OptimizedDump(lines, home, dist).value.0;
      (forall x :: 0 <= x < |g.pos| ==> g.used[x] && g.rapid[x].None?) &&
      (forall j :: 0 <= j < |g.lines| ==> g.taken[j])
  {
    PrepareFits(lines, dist);
    if Prepare(lines, dist).Some? {
      PreparedRoutesAll(lines, home, dist, Prepare(lines, dist).value);
    }
  }

  /** Once create_graph and add_rapids succeed, both loops of the intended
      optimized_dump go through and use everything. */
  lemma PreparedRoutesAll(lines: seq<Polyline.Line>, home: Point -> real, dist: (Point, Point) -> real, g1: Graph)
    requires forall j :: 0 <= j < |lines| ==> Polyline.Ended(lines[j])
    requires Prepare(lines, dist) == Some(g1)
    ensures OptimizedDump(lines, home, dist).Some?
    ensures var g := OptimizedDump(lines, home, dist).value.0;
      (forall x :: 0 <= x < |g.pos| ==> g.used[x] && g.rapid[x].None?) &&
      (forall j :: 0 <= j < |g.lines| ==> g.taken[j])
  {
    CirclesKeep(g1, |g1.pos|);
    var (g2, m1) := Circles(g1, |g1.pos|, true).value;
    FinishRoutesAll(g2, home, dist);
    var (g3, m2) := Finish(g2, home, dist).value;
    OptimizedDumpIs(lines, home, dist, g1, g2, m1, g3, m2);
  }

  /** optimized_dump is create_graph and add_rapids, then its two loops. */
  lemma OptimizedDumpIs(lines: seq<Polyline.Line>, home: Point -> real, dist: (Point, Point) -> real,
                        g1: Graph, g2: Graph, m1: seq<Move>, g3: Graph, m2: seq<Move>)
    requires forall j :: 0 <= j < |lines| ==> Polyline.Ended(lines[j])
    requires Prepare(lines, dist) == Some(g1) && Routed(g1) && Circles(g1, |g1.pos|, true) == Some((g2, m1))
    requires Routed(g2) && Finish(g2, home, dist) == Some((g3, m2))
    ensures OptimizedDump(lines, home, dist) == Some((g3, m1 + m2))
  {
  }
}
