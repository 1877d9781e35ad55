/** The endpoint multigraph of the route assembler (vectorize.c, create_graph).
    The end points of the polylines become the nodes, each polyline an edge
    between its two end nodes. The nodes live in an arena in creation order;
    the C list `first_mg` is newest first, so walking that list visits the
    arena from the highest index down. */
module Multigraph {
  import opened Basics
  import Polyline

  /** The edge and neighbour arrays of a node hold this many entries
      (vectorize.h:34-35). */
  const Slots := 4

  /** The multigraph and the polylines it routes, as struct multigraph and
      struct polyline hold them:
      - per node: coordinates, `count` (its unused edge ends), `used` (dumped),
        `dh` (visited by the pairing), the edge and neighbour arrays, `rapid`;
      - per polyline (in list order): its points and end, and `taken` (the
        polyline's own `used` flag). */
  datatype Graph = Graph(
    pos: seq<Point>, count: seq<int>, used: seq<bool>, dh: seq<bool>,
    edge: seq<seq<Option<nat>>>, neighbor: seq<seq<Option<nat>>>, rapid: seq<Option<nat>>,
    lines: seq<Polyline.Line>, taken: seq<bool>)

  /** Every per-node sequence has one entry per node, every node four slots,
      every polyline a used flag and its end as its last point. */
  predicate Sized(gr: Graph) {
    |gr.count| == |gr.pos| && |gr.used| == |gr.pos| && |gr.dh| == |gr.pos| &&
    |gr.edge| == |gr.pos| && |gr.neighbor| == |gr.pos| && |gr.rapid| == |gr.pos| &&
    |gr.taken| == |gr.lines| &&
    (forall k :: 0 <= k < |gr.pos| ==> |gr.edge[k]| == Slots && |gr.neighbor[k]| == Slots) &&
    (forall j :: 0 <= j < |gr.lines| ==> Polyline.Ended(gr.lines[j]))
  }

  /** No node has more than four edge ends. */
  predicate Bounded(gr: Graph)
    requires Sized(gr)
  {
    forall k :: 0 <= k < |gr.pos| ==> 0 <= gr.count[k] <= Slots
  }

  /** At most one node per coordinate. */
  predicate Unique(pos: seq<Point>) {
    forall a, b :: 0 <= a < b < |pos| ==> pos[a] != pos[b]
  }

  /** No polyline used yet. */
  function NoneTaken(lines: seq<Polyline.Line>): (r: seq<bool>)
    ensures |r| == |lines| && forall j :: 0 <= j < |r| ==> !r[j]
  {
    seq(|lines|, j => false)
  }

  /** The graph before create_graph: no nodes, no polyline used. */
  function Empty(lines: seq<Polyline.Line>): Graph {
    Graph([], [], [], [], [], [], [], lines, NoneTaken(lines))
  }

  // ---------------------------------------------------------------------------
  // Building the graph
  // ---------------------------------------------------------------------------

  /** search_mg: the first node of the list (the newest) at p. */
  function NodeAt(pos: seq<Point>, p: Point): (r: Option<nat>)
    ensures r.None? <==> p !in pos
    ensures r.Some? ==> r.value < |pos| && pos[r.value] == p
    ensures r.Some? ==> forall k :: r.value < k < |pos| ==> pos[k] != p
  {
    if |pos| == 0 then None
    else if pos[|pos| - 1] == p then Some(|pos| - 1)
    else NodeAt(pos[..|pos| - 1], p)
  }

  /** With one node per coordinate, the node found is the only one at p. */
  lemma NodeAtUnique(pos: seq<Point>, p: Point, k: nat)
    requires Unique(pos) && k < |pos| && pos[k] == p
    ensures NodeAt(pos, p) == Some(k)
  {
    var r := NodeAt(pos, p).value;
    assert pos[r] == pos[k];
  }

  /** A node created at another point does not change what search_mg finds. */
  lemma NodeAtAppend(pos: seq<Point>, q: Point, p: Point)
    requires p != q
    ensures NodeAt(pos + [q], p) == NodeAt(pos, p)
  {
    assert (pos + [q])[..|pos|] == pos;
  }

  function NoSlots(): (r: seq<Option<nat>>)
    ensures |r| == Slots && forall t :: 0 <= t < Slots ==> r[t].None?
  {
    [None, None, None, None]
  }

  /** create_graph_node: a zeroed node at p. */
  function AddNode(gr: Graph, p: Point): (r: Graph)
    requires Sized(gr)
    ensures Sized(r) && r.pos == gr.pos + [p] && r.lines == gr.lines && r.taken == gr.taken
    ensures r.count == gr.count + [0] && r.edge == gr.edge + [NoSlots()] && r.neighbor == gr.neighbor + [NoSlots()]
  {
    gr.(pos := gr.pos + [p], count := gr.count + [0], used := gr.used + [false], dh := gr.dh + [false],
        edge := gr.edge + [NoSlots()], neighbor := gr.neighbor + [NoSlots()], rapid := gr.rapid + [None])
  }

  /** The node at p, created when search_mg finds none. */
  function Lookup(gr: Graph, p: Point): (r: (Graph, nat))
    requires Sized(gr)
    ensures Sized(r.0) && r.1 < |r.0.pos| && r.0.pos[r.1] == p
    ensures p in gr.pos ==> r.0 == gr && Some(r.1) == NodeAt(gr.pos, p)
    ensures p !in gr.pos ==> r.0 == AddNode(gr, p) && r.1 == |gr.pos|
  {
    match NodeAt(gr.pos, p)
    case Some(k) => (gr, k)
    case None => (AddNode(gr, p), |gr.pos|)
  }

  /** The new counts of create_graph for polyline j between nodes s and e:
      one more end at each (two at one node for a closed loop). */
  function Counted(count: seq<int>, s: nat, e: nat): (r: seq<int>)
    requires s < |count| && e < |count|
    ensures |r| == |count|
    ensures forall k :: 0 <= k < |count| ==> r[k] == count[k] + (if k == s then 1 else 0) + (if k == e then 1 else 0)
  {
    var c1 := count[s := count[s] + 1];
    c1[e := c1[e] + 1]
  }

  /** The slot arrays with value v stored in slot t of node k. */
  function Put(slots: seq<seq<Option<nat>>>, k: nat, t: nat, v: Option<nat>): (r: seq<seq<Option<nat>>>)
    requires k < |slots| && t < |slots[k]|
    ensures |r| == |slots| && forall a :: 0 <= a < |r| ==> |r[a]| == |slots[a]|
    ensures forall a, b :: 0 <= a < |r| && 0 <= b < |r[a]| ==> r[a][b] == if a == k && b == t then v else slots[a][b]
  {
    slots[k := slots[k][t := v]]
  }

  /** The rest of create_graph's body for polyline j from node s to node e:
      store the polyline in the first free slot of each, the other node as
      its neighbour, and count the ends; fail when a node would get more than
      four. The C program stores the edge before that check (and so writes
      past the arrays of a node that already has four); here the check comes
      first. */
  function Connect(gr: Graph, j: nat, s: nat, e: nat): (r: Option<Graph>)
    requires Sized(gr) && Bounded(gr) && s < |gr.pos| && e < |gr.pos|
    ensures r.Some? ==> Sized(r.value) && Bounded(r.value) && r.value.pos == gr.pos
    ensures r.Some? ==> r.value.lines == gr.lines && r.value.taken == gr.taken && r.value.count == Counted(gr.count, s, e)
    ensures r.None? <==> Counted(gr.count, s, e)[s] > Slots || Counted(gr.count, s, e)[e] > Slots
  {
    var c := Counted(gr.count, s, e);
    if c[s] > Slots || c[e] > Slots then None
    else
      var cs, ce := gr.count[s], gr.count[e];
      Some(gr.(count := c,
               edge := Put(Put(gr.edge, s, cs, Some(j)), e, ce, Some(j)),
               neighbor := Put(Put(gr.neighbor, s, cs, Some(e)), e, ce, Some(s))))
  }

  /** The body of create_graph for polyline j: find or create its end node,
      then its start node, then connect them. */
  function Wire(gr: Graph, j: nat): (r: Option<Graph>)
    requires Sized(gr) && Bounded(gr) && j < |gr.lines|
    ensures r.Some? ==> Sized(r.value) && Bounded(r.value) && r.value.lines == gr.lines && r.value.taken == gr.taken
  {
    var l := gr.lines[j];
    var (g1, e) := Lookup(gr, l.end);
    var (g2, s) := Lookup(g1, l.points[0]);
    Connect(g2, j, s, e)
  }

  // ---------------------------------------------------------------------------
  // Degrees
  // ---------------------------------------------------------------------------

  /** The number of ends of polyline l at p: 2 for a closed loop at p. */
  function Hits(l: Polyline.Line, p: Point): nat
    requires |l.points| > 0
  {
    (if l.points[0] == p then 1 else 0) + (if l.end == p then 1 else 0)
  }

  predicate NonEmpty(lines: seq<Polyline.Line>) {
    forall j :: 0 <= j < |lines| ==> |lines[j].points| > 0
  }

  /** The ends at p of the polylines not yet used, among the first n. */
  function Unused(lines: seq<Polyline.Line>, taken: seq<bool>, n: nat, p: Point): nat
    requires n <= |lines| && n <= |taken| && NonEmpty(lines)
  {
    if n == 0 then 0
    else Unused(lines, taken, n - 1, p) + (if taken[n - 1] then 0 else Hits(lines[n - 1], p))
  }

  /** No end among the first n polylines lies at p. */
  lemma {:induction false} UnusedAway(lines: seq<Polyline.Line>, taken: seq<bool>, n: nat, p: Point)
    requires n <= |lines| && n <= |taken| && NonEmpty(lines)
    requires forall j :: 0 <= j < n ==> lines[j].points[0] != p && lines[j].end != p
    ensures Unused(lines, taken, n, p) == 0
  {
    if n > 0 {
      UnusedAway(lines, taken, n - 1, p);
    }
  }

  /** Counting more polylines never lowers the count. */
  lemma {:induction false} UnusedGrows(lines: seq<Polyline.Line>, taken: seq<bool>, m: nat, n: nat, p: Point)
    requires m <= n <= |lines| && n <= |taken| && NonEmpty(lines)
    ensures Unused(lines, taken, m, p) <= Unused(lines, taken, n, p)
  {
    if m < n {
      UnusedGrows(lines, taken, m, n - 1, p);
    }
  }

  function Sum(s: seq<int>): int {
    if |s| == 0 then 0 else Sum(s[..|s| - 1]) + s[|s| - 1]
  }

  /** The number of odd entries. */
  function Odd(s: seq<int>): nat {
    if |s| == 0 then 0 else Odd(s[..|s| - 1]) + (if s[|s| - 1] % 2 == 1 then 1 else 0)
  }

  lemma {:induction false} SumUpdate(s: seq<int>, k: nat, d: int)
    requires k < |s|
    ensures Sum(s[k := s[k] + d]) == Sum(s) + d
  {
    if k < |s| - 1 {
      SumUpdate(s[..|s| - 1], k, d);
      assert s[k := s[k] + d][..|s| - 1] == s[..|s| - 1][k := s[k] + d];
    } else {
      assert s[k := s[k] + d][..|s| - 1] == s[..|s| - 1];
    }
  }

  /** A sum and the number of its odd terms have the same parity. */
  lemma {:induction false} SumParity(s: seq<int>)
    ensures (Sum(s) - Odd(s)) % 2 == 0
  {
    if |s| > 0 {
      SumParity(s[..|s| - 1]);
    }
  }

  // ---------------------------------------------------------------------------
  // What create_graph establishes
  // ---------------------------------------------------------------------------

  /** Polyline j is stored at both its end nodes, each pointing to the other. */
  predicate Wired(gr: Graph, j: nat)
    requires Sized(gr) && j < |gr.lines|
  {
    var l := gr.lines[j];
    var s, e := NodeAt(gr.pos, l.points[0]), NodeAt(gr.pos, l.end);
    s.Some? && e.Some? &&
    (exists t :: 0 <= t < Slots && gr.edge[s.value][t] == Some(j) && gr.neighbor[s.value][t] == e) &&
    (exists t :: 0 <= t < Slots && gr.edge[e.value][t] == Some(j) && gr.neighbor[e.value][t] == s)
  }

  predicate AllWired(gr: Graph, n: nat)
    requires Sized(gr) && n <= |gr.lines|
  {
    forall j :: 0 <= j < n ==> Wired(gr, j)
  }

  /** The slots from `count` on are empty. */
  predicate Packed(gr: Graph)
    requires Sized(gr)
  {
    forall k, t :: 0 <= k < |gr.pos| && 0 <= t < Slots && gr.count[k] <= t ==>
      gr.edge[k][t].None? && gr.neighbor[k][t].None?
  }

  /** Every stored edge is one of the first n polylines and ends at the node. */
  predicate Incident(gr: Graph, n: nat)
    requires Sized(gr) && n <= |gr.lines|
  {
    forall k, t :: 0 <= k < |gr.pos| && 0 <= t < Slots && gr.edge[k][t].Some? ==>
      gr.edge[k][t].value < n && Hits(gr.lines[gr.edge[k][t].value], gr.pos[k]) > 0
  }

  /** Both ends of each of the first n polylines are nodes. */
  predicate Anchored(gr: Graph, n: nat)
    requires Sized(gr) && n <= |gr.lines|
  {
    forall j :: 0 <= j < n ==> gr.lines[j].points[0] in gr.pos && gr.lines[j].end in gr.pos
  }

  /** Each node counts the unused polyline ends at it. */
  predicate Counts(gr: Graph, n: nat)
    requires Sized(gr) && n <= |gr.lines|
  {
    forall k :: 0 <= k < |gr.pos| ==> gr.count[k] == Unused(gr.lines, gr.taken, n, gr.pos[k])
  }

  /** The invariant of create_graph after n polylines. */
  predicate Net(gr: Graph, n: nat)
    requires Sized(gr) && n <= |gr.lines|
  {
    Unique(gr.pos) && Anchored(gr, n) && Counts(gr, n) && Packed(gr) && Incident(gr, n) && AllWired(gr, n)
  }

  /** A node created by search-or-create keeps the invariant. */
  lemma AddNodeWired(gr: Graph, n: nat, p: Point)
    requires Sized(gr) && n <= |gr.lines| && AllWired(gr, n) && Anchored(gr, n) && p !in gr.pos
    ensures AllWired(AddNode(gr, p), n)
  {
    var g := AddNode(gr, p);
    forall j | 0 <= j < n
      ensures Wired(g, j)
    {
      var l := gr.lines[j];
      NodeAtAppend(gr.pos, p, l.points[0]);
      NodeAtAppend(gr.pos, p, l.end);
      assert Wired(gr, j);
      var a, b := NodeAt(gr.pos, l.points[0]).value, NodeAt(gr.pos, l.end).value;
      var t :| 0 <= t < Slots && gr.edge[a][t] == Some(j) && gr.neighbor[a][t] == Some(b);
      var u :| 0 <= u < Slots && gr.edge[b][u] == Some(j) && gr.neighbor[b][u] == Some(a);
      assert g.edge[a][t] == Some(j) && g.neighbor[a][t] == Some(b);
      assert g.edge[b][u] == Some(j) && g.neighbor[b][u] == Some(a);
    }
  }

  lemma AddNodeNet(gr: Graph, n: nat, p: Point)
    requires Sized(gr) && n <= |gr.lines| && Net(gr, n) && p !in gr.pos
    ensures Net(AddNode(gr, p), n)
  {
    var g := AddNode(gr, p);
    AddNodeWired(gr, n, p);
    UnusedAway(gr.lines, gr.taken, n, p);
    assert Counts(g, n);
    assert Incident(g, n);
  }

  lemma LookupNet(gr: Graph, n: nat, p: Point)
    requires Sized(gr) && n <= |gr.lines| && Net(gr, n)
    ensures Net(Lookup(gr, p).0, n) && gr.pos <= Lookup(gr, p).0.pos
  {
    if p !in gr.pos {
      AddNodeNet(gr, n, p);
    }
  }

  /** The counts after connecting polyline n are its ends among the first n+1. */
  lemma ConnectCounts(gr: Graph, n: nat, s: nat, e: nat)
    requires Sized(gr) && n < |gr.lines| && Unique(gr.pos) && Counts(gr, n) && !gr.taken[n]
    requires s < |gr.pos| && e < |gr.pos| && gr.pos[s] == gr.lines[n].points[0] && gr.pos[e] == gr.lines[n].end
    ensures forall k :: 0 <= k < |gr.pos| ==>
      Counted(gr.count, s, e)[k] == Unused(gr.lines, gr.taken, n + 1, gr.pos[k])
  {
    forall k | 0 <= k < |gr.pos|
      ensures Counted(gr.count, s, e)[k] == Unused(gr.lines, gr.taken, n + 1, gr.pos[k])
    {
      assert gr.pos[k] == gr.pos[s] ==> k == s;
      assert gr.pos[k] == gr.pos[e] ==> k == e;
    }
  }

  /** Where connecting polyline j writes: slot count[s] of s and count[e] of e. */
  lemma ConnectSlots(gr: Graph, j: nat, s: nat, e: nat)
    requires Sized(gr) && Bounded(gr) && s < |gr.pos| && e < |gr.pos| && Connect(gr, j, s, e).Some?
    ensures var r := Connect(gr, j, s, e).value;
      forall a, b :: 0 <= a < |gr.pos| && 0 <= b < Slots ==>
        r.edge[a][b] == (if (a == s && b == gr.count[s]) || (a == e && b == gr.count[e]) then Some(j) else gr.edge[a][b]) &&
        r.neighbor[a][b] == (if a == e && b == gr.count[e] then Some(s)
                             else if a == s && b == gr.count[s] then Some(e) else gr.neighbor[a][b])
  {
  }

  lemma ConnectWired(gr: Graph, n: nat, s: nat, e: nat)
    requires Sized(gr) && Bounded(gr) && n < |gr.lines| && Unique(gr.pos) && Packed(gr) && AllWired(gr, n)
    requires s < |gr.pos| && e < |gr.pos| && gr.pos[s] == gr.lines[n].points[0] && gr.pos[e] == gr.lines[n].end
    requires Connect(gr, n, s, e).Some?
    ensures AllWired(Connect(gr, n, s, e).value, n + 1)
  {
    var r := Connect(gr, n, s, e).value;
    ConnectSlots(gr, n, s, e);
    forall j | 0 <= j < n
      ensures Wired(r, j)
    {
      assert Wired(gr, j);
      var l := gr.lines[j];
      var a, b := NodeAt(gr.pos, l.points[0]).value, NodeAt(gr.pos, l.end).value;
      var t :| 0 <= t < Slots && gr.edge[a][t] == Some(j) && gr.neighbor[a][t] == Some(b);
      var u :| 0 <= u < Slots && gr.edge[b][u] == Some(j) && gr.neighbor[b][u] == Some(a);
      assert r.edge[a][t] == Some(j) && r.neighbor[a][t] == Some(b);
      assert r.edge[b][u] == Some(j) && r.neighbor[b][u] == Some(a);
    }
    NodeAtUnique(gr.pos, gr.lines[n].points[0], s);
    NodeAtUnique(gr.pos, gr.lines[n].end, e);
    assert r.edge[s][gr.count[s]] == Some(n) && r.neighbor[s][gr.count[s]] == Some(e);
    assert r.edge[e][gr.count[e]] == Some(n) && r.neighbor[e][gr.count[e]] == Some(s);
    assert Wired(r, n);
  }

  lemma ConnectNet(gr: Graph, n: nat, s: nat, e: nat)
    requires Sized(gr) && Bounded(gr) && n < |gr.lines| && Net(gr, n) && !gr.taken[n]
    requires s < |gr.pos| && e < |gr.pos| && gr.pos[s] == gr.lines[n].points[0] && gr.pos[e] == gr.lines[n].end
    requires Connect(gr, n, s, e).Some?
    ensures Net(Connect(gr, n, s, e).value, n + 1)
  {
    var r := Connect(gr, n, s, e).value;
    ConnectCounts(gr, n, s, e);
    ConnectWired(gr, n, s, e);
    ConnectSlots(gr, n, s, e);
    assert Packed(r);
    assert Incident(r, n + 1);
  }

  lemma WireNet(gr: Graph, n: nat)
    requires Sized(gr) && Bounded(gr) && n < |gr.lines| && Net(gr, n) && !gr.taken[n]
    requires Wire(gr, n).Some?
    ensures Net(Wire(gr, n).value, n + 1)
  {
    var l := gr.lines[n];
    var (g1, e) := Lookup(gr, l.end);
    LookupNet(gr, n, l.end);
    var (g2, s) := Lookup(g1, l.points[0]);
    LookupNet(g1, n, l.points[0]);
    ConnectNet(g2, n, s, e);
  }

  lemma SumZero(c: seq<int>)
    ensures Sum(c + [0]) == Sum(c)
  {
    assert (c + [0])[..|c|] == c;
  }

  lemma SumCounted(c: seq<int>, s: nat, e: nat)
    requires s < |c| && e < |c|
    ensures Sum(Counted(c, s, e)) == Sum(c) + 2
  {
    SumUpdate(c, s, 1);
    SumUpdate(c[s := c[s] + 1], e, 1);
  }

  lemma LookupSum(gr: Graph, p: Point)
    requires Sized(gr)
    ensures Sum(Lookup(gr, p).0.count) == Sum(gr.count)
  {
    if p !in gr.pos {
      SumZero(gr.count);
    }
  }

  lemma WireSum(gr: Graph, j: nat)
    requires Sized(gr) && Bounded(gr) && j < |gr.lines| && Wire(gr, j).Some?
    ensures Sum(Wire(gr, j).value.count) == Sum(gr.count) + 2
  {
    var l := gr.lines[j];
    var (g1, e) := Lookup(gr, l.end);
    LookupSum(gr, l.end);
    var (g2, s) := Lookup(g1, l.points[0]);
    LookupSum(g1, l.points[0]);
    SumCounted(g2.count, s, e);
  }

  /** The handshake property: counts adding up to twice the number of
      polylines have an even number of odd terms. */
  lemma Handshake(c: seq<int>, n: nat)
    requires Sum(c) == 2 * n
    ensures Odd(c) % 2 == 0
  {
    SumParity(c);
  }

  /** No point is an end of more than four of the first n polylines. */
  ghost predicate FitsAll(lines: seq<Polyline.Line>, n: nat)
    requires n <= |lines| && NonEmpty(lines)
  {
    forall p :: Unused(lines, NoneTaken(lines), n, p) <= Slots
  }

  lemma FitsPrefix(lines: seq<Polyline.Line>, m: nat, n: nat)
    requires m <= n <= |lines| && NonEmpty(lines) && FitsAll(lines, n)
    ensures FitsAll(lines, m)
  {
    forall p: Point
      ensures Unused(lines, NoneTaken(lines), m, p) <= Slots
    {
      UnusedGrows(lines, NoneTaken(lines), m, n, p);
    }
  }

  /** After a successful step every point is an end of at most four of the
      polylines so far. */
  lemma WiredFits(gr: Graph, m: nat)
    requires Sized(gr) && Bounded(gr) && m <= |gr.lines| && Net(gr, m) && gr.taken == NoneTaken(gr.lines)
    ensures FitsAll(gr.lines, m)
  {
    forall p: Point
      ensures Unused(gr.lines, NoneTaken(gr.lines), m, p) <= Slots
    {
      if p in gr.pos {
        var k :| 0 <= k < |gr.pos| && gr.pos[k] == p;
        assert gr.count[k] <= Slots;
      } else {
        UnusedAway(gr.lines, NoneTaken(gr.lines), m, p);
      }
    }
  }

  /** create_graph stops at polyline n exactly when it makes some point an end
      of more than four polylines (a closed loop counting twice). */
  lemma WireFits(gr: Graph, n: nat)
    requires Sized(gr) && Bounded(gr) && n < |gr.lines| && Net(gr, n) && gr.taken == NoneTaken(gr.lines)
    ensures Wire(gr, n).Some? <==> FitsAll(gr.lines, n + 1)
  {
    var lines := gr.lines;
    var m := n + 1;
    if Wire(gr, n).Some? {
      WireNet(gr, n);
      WiredFits(Wire(gr, n).value, m);
    } else {
      var l := lines[n];
      var (g1, e) := Lookup(gr, l.end);
      LookupNet(gr, n, l.end);
      var (g2, s) := Lookup(g1, l.points[0]);
      LookupNet(g1, n, l.points[0]);
      ConnectCounts(g2, n, s, e);
      assert Unused(lines, NoneTaken(lines), m, g2.pos[s]) > Slots ||
             Unused(lines, NoneTaken(lines), m, g2.pos[e]) > Slots;
    }
  }

  // ---------------------------------------------------------------------------
  // create_graph
  // ---------------------------------------------------------------------------

  /** The loop of create_graph from polyline i on: wire each in list order;
      None as soon as a node would get more than four edge ends. */
  function BuildFrom(gr: Graph, i: nat): (r: Option<Graph>)
    requires Sized(gr) && Bounded(gr) && i <= |gr.lines|
    ensures r.Some? ==> Sized(r.value) && Bounded(r.value) && r.value.lines == gr.lines && r.value.taken == gr.taken
    decreases |gr.lines| - i
  {
    if i == |gr.lines| then Some(gr)
    else
      match Wire(gr, i)
      case None => None
      case Some(g) => BuildFrom(g, i + 1)
  }

  /** create_graph: all polylines wired, starting from no nodes. */
  function Build(lines: seq<Polyline.Line>): (r: Option<Graph>)
    requires forall j :: 0 <= j < |lines| ==> Polyline.Ended(lines[j])
    ensures r.Some? ==> Sized(r.value) && Bounded(r.value) && r.value.lines == lines && r.value.taken == NoneTaken(lines)
  {
    BuildFrom(Empty(lines), 0)
  }

  /** No node is dumped, visited by the pairing or given a rapid yet. */
  predicate Untouched(gr: Graph)
    requires Sized(gr)
  {
    forall k :: 0 <= k < |gr.pos| ==> !gr.used[k] && !gr.dh[k] && gr.rapid[k].None?
  }

  lemma WireUntouched(gr: Graph, j: nat)
    requires Sized(gr) && Bounded(gr) && j < |gr.lines| && Untouched(gr) && Wire(gr, j).Some?
    ensures Untouched(Wire(gr, j).value)
  {
    var l := gr.lines[j];
    var (g1, e) := Lookup(gr, l.end);
    var (g2, s) := Lookup(g1, l.points[0]);
    assert Untouched(g1);
    assert Untouched(g2);
  }

  /** What holds of the graph after the first i polylines. */
  predicate Built(gr: Graph, i: nat)
    requires Sized(gr) && i <= |gr.lines|
  {
    NonEmpty(gr.lines) && Net(gr, i) && Untouched(gr) && gr.taken == NoneTaken(gr.lines) && Sum(gr.count) == 2 * i
  }

  lemma WireBuilt(gr: Graph, i: nat)
    requires Sized(gr) && Bounded(gr) && i < |gr.lines| && Built(gr, i) && Wire(gr, i).Some?
    ensures Built(Wire(gr, i).value, i + 1)
  {
    WireNet(gr, i);
    WireSum(gr, i);
    WireUntouched(gr, i);
  }

  /** The rest of the loop keeps what holds after each polyline. */
  lemma {:induction false} BuildFromBuilt(gr: Graph, i: nat)
    requires Sized(gr) && Bounded(gr) && i <= |gr.lines| && Built(gr, i)
    ensures BuildFrom(gr, i).Some? ==> Built(BuildFrom(gr, i).value, |gr.lines|)
    decreases |gr.lines| - i
  {
    if i < |gr.lines| && Wire(gr, i).Some? {
      WireBuilt(gr, i);
      BuildFromBuilt(Wire(gr, i).value, i + 1);
    }
  }

  /** The rest of the loop succeeds exactly when no point is an end of more
      than four polylines. */
  lemma {:induction false} BuildFromFits(lines: seq<Polyline.Line>, gr: Graph, i: nat)
    requires Sized(gr) && Bounded(gr) && gr.lines == lines && i <= |lines| && Built(gr, i)
    ensures BuildFrom(gr, i).Some? <==> FitsAll(lines, |lines|)
    decreases |lines| - i
  {
    if i == |lines| {
      WiredFits(gr, |lines|);
    } else if Wire(gr, i).Some? {
      WireBuilt(gr, i);
      BuildFromFits(lines, Wire(gr, i).value, i + 1);
    } else {
      WireStops(gr, i);
    }
  }

  /** A polyline that does not fit shows that not all of them fit. */
  lemma WireStops(gr: Graph, i: nat)
    requires Sized(gr) && Bounded(gr) && i < |gr.lines| && Built(gr, i) && Wire(gr, i).None?
    ensures !FitsAll(gr.lines, |gr.lines|)
  {
    WireFits(gr, i);
    if FitsAll(gr.lines, |gr.lines|) {
      FitsPrefix(gr.lines, i + 1, |gr.lines|);
    }
  }

  /** create_graph succeeds exactly when no point is an end of more than four
      polylines, and then every polyline is wired between its end nodes, the
      counts are its ends and add up to twice the number of polylines, and
      nothing is dumped, visited or paired yet. */
  lemma BuildNet(lines: seq<Polyline.Line>)
    requires forall j :: 0 <= j < |lines| ==> Polyline.Ended(lines[j])
    ensures Build(lines).Some? <==> FitsAll(lines, |lines|)
    ensures Build(lines).Some? ==> Built(Build(lines).value, |lines|)
  {
    var g := Empty(lines);
    assert Built(g, 0);
    BuildFromFits(lines, g, 0);
    BuildFromBuilt(g, 0);
  }
}
