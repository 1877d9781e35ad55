/** Inputs on which the routing loop of optimized_dump as written goes wrong,
    each beside what the intended version does with it. */
module RouteExamples {
  import opened Basics
  import Polyline
  import opened Multigraph
  import opened Rapids
  import opened Route

  // ---------------------------------------------------------------------------
  // A single open polyline: the loop never ends
  // ---------------------------------------------------------------------------

  /** One open polyline from a to b, two different points. */
  function OneLine(a: Point, b: Point): seq<Polyline.Line> {
    [Polyline.Line([a, b], b)]
  }

  /** The slots create_graph fills for it: the polyline in the first slot of
      both nodes. */
  predicate OneSlots(edge: seq<seq<Option<nat>>>) {
    |edge| == 2 && |edge[0]| > 0 && |edge[1]| > 0 && edge[0][0] == Some(0) && edge[1][0] == Some(0)
  }

  /** Two slot arrays agree when every node has four slots that agree. */
  lemma SameSlots(a: seq<seq<Option<nat>>>, b: seq<seq<Option<nat>>>)
    requires |a| == |b| && forall k :: 0 <= k < |a| ==> |a[k]| == Slots == |b[k]|
    requires forall k, t :: 0 <= k < |a| && 0 <= t < Slots ==> a[k][t] == b[k][t]
    ensures a == b
  {
    forall k | 0 <= k < |a| ensures a[k] == b[k] { }
  }

  /** Connecting polyline 0 from node 1 to node 0 of two fresh nodes puts
      it into the first slot of both. */
  lemma OneConnect(g: Graph)
    requires Sized(g) && Bounded(g) && |g.pos| == 2 && g.count == [0, 0] && g.edge == [NoSlots(), NoSlots()]
    ensures Connect(g, 0, 1, 0).Some?
    ensures var r := Connect(g, 0, 1, 0).value;
      r.pos == g.pos && r.count == [1, 1] && r.used == g.used && OneSlots(r.edge)
  {
  }

  /** search_mg finds no node on the empty list, so the end b becomes
      node 0. */
  lemma FirstLookup(g0: Graph, b: Point)
    requires Sized(g0) && g0.pos == [] && g0.count == [] && g0.used == [] && g0.edge == []
    ensures var (g1, e) := Lookup(g0, b);
      Sized(g1) && Bounded(g1) && e == 0 && g1.pos == [b] && g1.count == [0] && g1.used == [false] &&
      g1.edge == [NoSlots()] && g1.lines == g0.lines
  {
    var g1 := Lookup(g0, b).0;
    assert g1.used == [] + [false];
  }

  /** search_mg does not find the start a at node 0 (it lies elsewhere), so
      a becomes node 1. */
  lemma SecondLookup(g1: Graph, a: Point, b: Point)
    requires Sized(g1) && a != b && g1.pos == [b] && g1.count == [0] && g1.used == [false] && g1.edge == [NoSlots()]
    ensures var (g2, s) := Lookup(g1, a);
      Sized(g2) && Bounded(g2) && s == 1 && g2.pos == [b, a] && g2.count == [0, 0] && g2.used == [false, false] &&
      g2.edge == [NoSlots(), NoSlots()] && g2.lines == g1.lines
  {
    assert a !in g1.pos;
    var g2 := Lookup(g1, a).0;
    assert g2.used == [false] + [false];
  }

  /** Node 0 at b and node 1 at a, each with the polyline in its first slot
      and nothing marked used. */
  predicate OneWired(g: Graph, a: Point, b: Point) {
    g.pos == [b, a] && g.count == [1, 1] && g.used == [false, false] && OneSlots(g.edge)
  }

  /** create_graph wires a polyline from a to b, the first of the list,
      into the first slot of two fresh nodes. */
  lemma OneWire(g0: Graph, a: Point, b: Point)
    requires Sized(g0) && Bounded(g0) && g0.pos == [] && g0.count == [] && g0.used == [] && g0.edge == []
    requires a != b && |g0.lines| == 1 && g0.lines[0].end == b && g0.lines[0].points[0] == a
    ensures Wire(g0, 0).Some? && OneWired(Wire(g0, 0).value, a, b)
  {
    FirstLookup(g0, b);
    var (g1, e) := Lookup(g0, b);
    SecondLookup(g1, a, b);
    var (g2, s) := Lookup(g1, a);
    OneConnect(g2);
    assert Wire(g0, 0) == Connect(g2, 0, s, e);
  }

  /** create_graph on a single polyline from a to b makes node 0 at the end
      b, found or created first, and node 1 at the start a, with the
      polyline in the first slot of each. */
  lemma BuildOne(lines: seq<Polyline.Line>, a: Point, b: Point)
    requires a != b && |lines| == 1 && Polyline.Ended(lines[0]) && lines[0].end == b && lines[0].points[0] == a
    ensures Build(lines).Some? && OneWired(Build(lines).value, a, b)
  {
    var g0 := Empty(lines);
    EmptySized(lines);
    OneWire(g0, a, b);
    BuildOnly(g0, a, b);
  }

  /** The graph before create_graph has no nodes. */
  lemma EmptySized(lines: seq<Polyline.Line>)
    requires forall j :: 0 <= j < |lines| ==> Polyline.Ended(lines[j])
    ensures var g0 := Empty(lines);
      Sized(g0) && Bounded(g0) && g0.pos == [] && g0.count == [] && g0.used == [] && g0.edge == [] && g0.lines == lines
  {
  }

  /** create_graph on a list of one polyline is its single wiring step. */
  lemma BuildOnly(g0: Graph, a: Point, b: Point)
    requires Sized(g0) && Bounded(g0) && |g0.lines| == 1 && Wire(g0, 0).Some? && OneWired(Wire(g0, 0).value, a, b)
    ensures BuildFrom(g0, 0).Some? && OneWired(BuildFrom(g0, 0).value, a, b)
  {
    BuildStep(g0, 0);
  }

  /** create_graph on the open polyline of OneLine. */
  lemma OneBuild(a: Point, b: Point)
    requires a != b
    ensures Build(OneLine(a, b)).Some? && OneWired(Build(OneLine(a, b)).value, a, b)
  {
    BuildOne(OneLine(a, b), a, b);
  }

  /** What create_graph and add_rapids leave, given what create_graph
      builds: the rapids pair the odd nodes and nothing else changes that
      routing reads. */
  lemma Prepared(lines: seq<Polyline.Line>, g0: Graph, dist: (Point, Point) -> real)
    requires 0 < |lines| && (forall j :: 0 <= j < |lines| ==> Polyline.Ended(lines[j])) && Build(lines) == Some(g0)
    ensures Sized(g0) && NoneVisited(g0.dh) && AddRapids(g0, dist).Some? && Prepare(lines, dist) == AddRapids(g0, dist)
    ensures var p := AddRapids(g0, dist).value;
      Sized(p) && p.pos == g0.pos && p.count == g0.count && p.used == g0.used && p.edge == g0.edge &&
      p.lines == g0.lines && p.taken == g0.taken && Matched(p)
  {
    BuildNet(lines);
    assert g0.lines[0].points[0] in g0.pos;
    Handshake(g0.count, |lines|);
    AddRapidsMatches(g0, dist);
  }

  /** create_graph and add_rapids succeed on the open polyline, and the
      rapids pair its two ends. */
  lemma OnePrepared(a: Point, b: Point, dist: (Point, Point) -> real)
    requires a != b
    ensures Prepare(OneLine(a, b), dist).Some?
    ensures OneReady(Prepare(OneLine(a, b), dist).value, a, b)
  {
    OneBuild(a, b);
    var g0 := Build(OneLine(a, b)).value;
    Prepared(OneLine(a, b), g0, dist);
    PairOfTwo(AddRapids(g0, dist).value);
  }

  /** With two odd nodes the rapids pair them with each other. */
  lemma PairOfTwo(p: Graph)
    requires Sized(p) && Matched(p) && p.count == [1, 1]
    ensures p.rapid == [Some(1), Some(0)]
  {
    assert MatchedAt(p.count, p.rapid, 0);
    assert MatchedAt(p.count, p.rapid, 1);
  }

  /** The graph of the open polyline before any polyline is used, with the
      given used marks. */
  predicate OneAt(g: Graph, a: Point, b: Point, used: seq<bool>) {
    g.pos == [b, a] && g.count == [1, 1] && g.used == used && g.lines == OneLine(a, b) &&
    g.taken == [false] && OneSlots(g.edge)
  }

  /** The graph add_rapids leaves for the open polyline: its two ends
      linked by a rapid. */
  predicate OneReady(p: Graph, a: Point, b: Point) {
    OneAt(p, a, b, [false, false]) && p.rapid == [Some(1), Some(0)]
  }

  /** The two-node graph after the polyline was crossed from k: nothing
      left at either node, the far end marked used and k not. */
  predicate Crossed(g: Graph, k: nat) {
    Routed(g) && |g.pos| == 2 && k < 2 && g.count == [0, 0] && g.rapid == [None, None] && !g.used[k] && g.used[1 - k]
  }

  /** The first turn as written from the prepared graph: whichever end k
      next_point picks, the walk crosses the polyline to the other end, which
      is marked used, while k itself is not. */
  lemma OneFirstRound(p: Graph, a: Point, b: Point, home: Point -> real, dist: (Point, Point) -> real)
    requires Routed(p) && a != b && OneReady(p, a, b)
    ensures Round(p, home, dist, false).Next?
    ensures Crossed(Round(p, home, dist, false).gr, NextPoint(p, home, dist, |p.pos|, None).value)
  {
    var k := NextPoint(p, home, dist, |p.pos|, None).value;
    var g1 := Detach(p, k);
    assert g1.rapid == [None, None];
    OneDump(g1, a, b, k);
    RoundDumps(p, home, dist, k);
  }

  /** A turn as written whose dump goes through from k and leaves the
      polyline crossed. */
  lemma RoundDumps(gr: Graph, home: Point -> real, dist: (Point, Point) -> real, k: nat)
    requires Routed(gr) && NextPoint(gr, home, dist, |gr.pos|, None) == Some(k)
    requires Dump(Detach(gr, k), k, false).Some? && Crossed(Dump(Detach(gr, k), k, false).value.0, k)
    ensures Round(gr, home, dist, false).Next? && Crossed(Round(gr, home, dist, false).gr, k)
  {
  }

  /** The dump as written from end k once its rapid is cleared. */
  lemma OneDump(g1: Graph, a: Point, b: Point, k: nat)
    requires Routed(g1) && a != b && OneAt(g1, a, b, [false, false]) && g1.rapid == [None, None] && k < 2
    ensures Dump(g1, k, false).Some? && Crossed(Dump(g1, k, false).value.0, k)
  {
    OneStep(g1, a, b, k);
    var (g2, st) := EulerStep(g1, k).value;
    assert Scan(g2, [st], 0, 1) == (g2, [st]);
    assert Idle(g2, [st]);
    assert Visits([st], 1 - k);
    assert !Visits([st], k);
  }

  /** euler from end k takes the polyline to the other end. */
  lemma OneStep(g1: Graph, a: Point, b: Point, k: nat)
    requires Routed(g1) && a != b && OneAt(g1, a, b, [false, false]) && g1.rapid == [None, None] && k < 2
    ensures EulerStep(g1, k).Some?
    ensures var (g2, st) := EulerStep(g1, k).value;
      st == Step(k, 1 - k, Some(0)) && g2.count == [0, 0] && g2.rapid == [None, None] && g2.used == g1.used && Routed(g2)
  {
    assert FreeSlot(g1, k, 0) == Some(0);
    var (g2, m) := Take(g1, k, 0);
    assert m == 1 - k;
    assert g2.count == [0, 0];
  }

  /** After the first turn only the start k is left unused, with nothing at
      it: next_point picks it. */
  lemma OneStalls(t: Turn, home: Point -> real, dist: (Point, Point) -> real, k: nat)
    requires t.Next? && Crossed(t.gr, k)
    ensures t.Next? && Stalls(t.gr, home, dist)
  {
    assert NextPoint(t.gr, home, dist, |t.gr.pos|, None) == Some(k);
  }

  /** The loop of optimized_dump as written never ends on the prepared
      graph of one open polyline (OnePrepared): its first turn leaves a
      graph on which next_point picks a node with nothing left, from which
      no number of turns finishes or stops (Route.StalledForever). */
  lemma OneNeverEnds(p: Graph, a: Point, b: Point, home: Point -> real, dist: (Point, Point) -> real)
    requires Routed(p) && a != b && OneReady(p, a, b)
    ensures Round(p, home, dist, false).Next? && Stalls(Round(p, home, dist, false).gr, home, dist)
  {
    OneFirstRound(p, a, b, home, dist);
    var k := NextPoint(p, home, dist, |p.pos|, None).value;
    OneStalls(Round(p, home, dist, false), home, dist, k);
  }

  /** A single polyline never puts more than two ends at a point. */
  lemma SingleFits(lines: seq<Polyline.Line>)
    requires |lines| == 1 && NonEmpty(lines)
    ensures FitsAll(lines, 1)
  {
    forall p: Point ensures Unused(lines, NoneTaken(lines), 1, p) <= Slots {
      assert Unused(lines, NoneTaken(lines), 0, p) == 0;
    }
  }

  /** optimized_dump as intended routes any single polyline completely,
      the open one of OneLine among them. */
  lemma SingleRoutesAll(lines: seq<Polyline.Line>, home: Point -> real, dist: (Point, Point) -> real)
    requires |lines| == 1 && Polyline.Ended(lines[0])
    ensures OptimizedDump(lines, home, dist).Some?
  {
    SingleFits(lines);
    OptimizedDumpRoutesAll(lines, home, dist);
  }

  // ---------------------------------------------------------------------------
  // A spur and a loop: the scan misses the start of the walk
  // ---------------------------------------------------------------------------

  /** A polyline from (0,0) to (2,0), one on from (2,0) to (4,0), and a
      closed loop at (2,0). */
  function Spur(): seq<Polyline.Line> {
    [Polyline.Line([Point(0, 0), Point(1, 0), Point(2, 0)], Point(2, 0)),
     Polyline.Line([Point(2, 0), Point(3, 0), Point(4, 0)], Point(4, 0)),
     Polyline.Line([Point(2, 0), Point(2, 1), Point(2, 0)], Point(2, 0))]
  }

  /** The slots create_graph fills for it: node 0 at (2,0) holds all three
      polylines (the loop in one slot), node 1 at (0,0) the first, node 2
      at (4,0) the second. */
  function SpurEdges(): seq<seq<Option<nat>>> {
    [[Some(0), Some(1), Some(2), None], [Some(0), None, None, None], [Some(1), None, None, None]]
  }

  /** The nodes create_graph makes for the three polylines: node 0 at
      (2,0) with all four ends, node 1 at (0,0) and node 2 at (4,0) with
      one each. */
  predicate SpurNodes(g: Graph) {
    g.pos == [Point(2, 0), Point(0, 0), Point(4, 0)] && g.count == [4, 1, 1] && g.edge == SpurEdges()
  }

  /** create_graph on the first polyline: node 0 at its end (2,0), node 1
      at its start (0,0). */
  lemma SpurWire0(e0: Graph)
    requires Sized(e0) && Bounded(e0) && e0.pos == [] && e0.lines == Spur()
    ensures Wire(e0, 0).Some?
    ensures var g := Wire(e0, 0).value;
      g.pos == [Point(2, 0), Point(0, 0)] && g.count == [1, 1] && g.lines == Spur() &&
      g.edge == [[Some(0), None, None, None], [Some(0), None, None, None]]
  {
    var a0 := AddNode(e0, Point(2, 0));
    var a1 := AddNode(a0, Point(0, 0));
    assert Lookup(e0, Point(2, 0)) == (a0, 0);
    assert Lookup(a0, Point(0, 0)) == (a1, 1);
    var g := Connect(a1, 0, 1, 0).value;
    SameSlots(g.edge, [[Some(0), None, None, None], [Some(0), None, None, None]]);
  }

  /** The second polyline: node 2 at its end (4,0), its start at node 0. */
  lemma SpurWire1(g1: Graph)
    requires Sized(g1) && Bounded(g1) && g1.pos == [Point(2, 0), Point(0, 0)] && g1.count == [1, 1] && g1.lines == Spur()
    requires g1.edge == [[Some(0), None, None, None], [Some(0), None, None, None]]
    ensures Wire(g1, 1).Some?
    ensures var g := Wire(g1, 1).value;
      g.pos == [Point(2, 0), Point(0, 0), Point(4, 0)] && g.count == [2, 1, 1] && g.lines == Spur() &&
      g.edge == [[Some(0), Some(1), None, None], [Some(0), None, None, None], [Some(1), None, None, None]]
  {
    var a2 := AddNode(g1, Point(4, 0));
    assert Lookup(g1, Point(4, 0)) == (a2, 2);
    assert Lookup(a2, Point(2, 0)) == (a2, 0);
    var g := Connect(a2, 1, 0, 2).value;
    SameSlots(g.edge, [[Some(0), Some(1), None, None], [Some(0), None, None, None], [Some(1), None, None, None]]);
  }

  /** The loop: both ends at node 0, stored in one slot, counted twice. */
  lemma SpurWire2(g2: Graph)
    requires Sized(g2) && Bounded(g2) && g2.pos == [Point(2, 0), Point(0, 0), Point(4, 0)] && g2.count == [2, 1, 1]
    requires g2.lines == Spur()
    requires g2.edge == [[Some(0), Some(1), None, None], [Some(0), None, None, None], [Some(1), None, None, None]]
    ensures Wire(g2, 2).Some? && SpurNodes(Wire(g2, 2).value)
  {
    assert Lookup(g2, Point(2, 0)) == (g2, 0);
    var g := Connect(g2, 2, 0, 0).value;
    SameSlots(g.edge, SpurEdges());
  }

  /** create_graph on the three polylines, from the graph with no nodes. */
  lemma SpurBuild(e0: Graph)
    requires Sized(e0) && Bounded(e0) && e0.pos == [] && e0.lines == Spur()
    ensures BuildFrom(e0, 0).Some? && SpurNodes(BuildFrom(e0, 0).value)
  {
    SpurWire0(e0);
    var g1 := Wire(e0, 0).value;
    SpurWire1(g1);
    var g2 := Wire(g1, 1).value;
    SpurWire2(g2);
    var g3 := Wire(g2, 2).value;
    BuildStep(e0, 0);
    BuildStep(g1, 1);
    BuildStep(g2, 2);
    assert BuildFrom(g3, 3) == Some(g3);
  }

  /** create_graph wires polyline i and goes on with the next. */
  lemma BuildStep(gr: Graph, i: nat)
    requires Sized(gr) && Bounded(gr) && i < |gr.lines| && Wire(gr, i).Some?
    ensures BuildFrom(gr, i) == BuildFrom(Wire(gr, i).value, i + 1)
  {
  }

  /** What create_graph (SpurBuild) and add_rapids (PairOfThree) leave for
      the three polylines: the rapid links the two odd nodes, 1 and 2;
      node 0, with four ends, gets none. */
  predicate SpurReady(p: Graph) {
    SpurNodes(p) && p.used == [false, false, false] && p.lines == Spur() && p.taken == [false, false, false] &&
    p.rapid == [None, Some(2), Some(1)]
  }

  /** With counts 4, 1 and 1 the rapids add_rapids leaves (Matched, by
      Rapids.AddRapidsMatches) pair nodes 1 and 2. */
  lemma PairOfThree(p: Graph)
    requires Sized(p) && Matched(p) && p.count == [4, 1, 1]
    ensures p.rapid == [None, Some(2), Some(1)]
  {
    assert MatchedAt(p.count, p.rapid, 0);
    assert MatchedAt(p.count, p.rapid, 1);
    assert MatchedAt(p.count, p.rapid, 2);
  }

  /** The graph at the start of the turn from node 1: its rapid to node 2
      cleared, nothing used. */
  predicate SpurAt(g: Graph) {
    Routed(g) && g.pos == [Point(2, 0), Point(0, 0), Point(4, 0)] && g.count == [4, 1, 1] &&
    g.rapid == [None, None, None] && g.used == [false, false, false] && g.lines == Spur() &&
    g.taken == [false, false, false] && g.edge == SpurEdges()
  }

  /** The turn as written from node 1 stops the program, where the turn as
      intended goes through. */
  lemma SpurStops(p: Graph, home: Point -> real, dist: (Point, Point) -> real)
    requires Routed(p) && SpurReady(p) && NextPoint(p, home, dist, |p.pos|, None) == Some(1)
    ensures Round(p, home, dist, false).Stopped? && Round(p, home, dist, true).Next?
  {
    SpurDetached(p);
    var g := Detach(p, 1);
    SpurAsWritten(g);
    SpurIntended(g);
    SpurRounds(p, home, dist, g);
  }

  /** Clearing the rapid of node 1 clears both its ends. */
  lemma SpurDetached(p: Graph)
    requires Routed(p) && SpurReady(p)
    ensures SpurAt(Detach(p, 1))
  {
    assert Detach(p, 1).rapid == [None, None, None];
  }

  /** The turn from node 1 is the dump from node 1 after the rapid is
      cleared. */
  lemma SpurRounds(p: Graph, home: Point -> real, dist: (Point, Point) -> real, g: Graph)
    requires Routed(p) && |p.pos| == 3 && NextPoint(p, home, dist, |p.pos|, None) == Some(1) && g == Detach(p, 1)
    requires Dump(g, 1, false).None? && Dump(g, 1, true).Some?
    ensures Round(p, home, dist, false).Stopped? && Round(p, home, dist, true).Next?
  {
  }

  /** euler from node 1 crosses the first polyline to node 0. */
  lemma SpurFirstStep(g: Graph)
    requires SpurAt(g)
    ensures EulerStep(g, 1).Some?
    ensures var (g2, st) := EulerStep(g, 1).value;
      st == Step(1, 0, Some(0)) && Routed(g2) && g2.pos == g.pos && g2.count == [3, 0, 1] &&
      g2.rapid == g.rapid && g2.used == g.used && g2.edge == g.edge && g2.taken == [true, false, false] &&
      g2.lines[1] == g.lines[1] && g2.lines[2] == g.lines[2]
  {
    assert FreeSlot(g, 1, 0) == Some(0);
    SpurTake(g);
  }

  /** Crossing the first polyline from node 1 lands on node 0, its end,
      and takes one end from each. */
  lemma SpurTake(g: Graph)
    requires SpurAt(g)
    ensures var (g2, m) := Take(g, 1, 0);
      m == 0 && g2.count == [3, 0, 1] && g2.taken == [true, false, false] &&
      g2.lines[1] == g.lines[1] && g2.lines[2] == g.lines[2]
  {
    var (g2, m) := Take(g, 1, 0);
    assert g.pos[m] == Point(2, 0);
    assert m == 0;
  }

  /** The step from node 0 after that: on along the second polyline to
      node 2. */
  lemma SpurSecondStep(g2: Graph)
    requires Routed(g2) && g2.pos == [Point(2, 0), Point(0, 0), Point(4, 0)] && g2.count == [3, 0, 1]
    requires g2.rapid == [None, None, None] && g2.edge == SpurEdges() && g2.taken == [true, false, false]
    requires g2.lines[1] == Spur()[1] && g2.lines[2] == Spur()[2]
    ensures EulerStep(g2, 0).Some?
    ensures var (g3, st) := EulerStep(g2, 0).value;
      st == Step(0, 2, Some(1)) && Routed(g3) && g3.pos == g2.pos && g3.count == [2, 0, 0] &&
      g3.rapid == g2.rapid && g3.used == g2.used && g3.edge == g2.edge && g3.taken == [true, true, false] &&
      g3.lines[2] == g2.lines[2]
  {
    assert g2.taken[g2.edge[0][0].value];
    assert FreeSlot(g2, 0, 1) == Some(1);
    assert Leaving(g2.lines[1], g2.pos[0]) == g2.lines[1];
    var (g3, m) := Take(g2, 0, 1);
    assert m == 2;
  }

  /** The dump as written from node 1 stops the program: its scan starts
      over at the second step of the walk, so it never returns to node 0,
      where the loop is still left, and the check finds it. */
  lemma SpurAsWritten(g: Graph)
    requires SpurAt(g)
    ensures Dump(g, 1, false).None?
  {
    SpurFirstStep(g);
    var (g2, st) := EulerStep(g, 1).value;
    SpurSecondStep(g2);
    var (g3, s2) := EulerStep(g2, 0).value;
    TrailOne(g2, 0, g3, s2);
    ScanOnce(g2, st, g3, s2);
    DumpScans(g, 1, false, g3, [st, s2]);
    assert [st, s2][0].node == 0 && g3.count[0] == 2;
  }

  /** The dump as intended from node 1 goes through, with a walk from
      node 1 to node 2, the other odd node (Route.DumpSettles): its scan
      starts over at the first step, finds the loop at node 0 and splices
      it in. */
  lemma SpurIntended(g: Graph)
    requires SpurAt(g)
    ensures Dump(g, 1, true).Some? && Walks(Dump(g, 1, true).value.1, 1, 2)
  {
    assert Pair(g, 1, 2);
    DumpSettles(g, 1, 2);
  }

  /** The scan as written of a one-step walk whose end has a trail of one
      step to a node with nothing left: the trail is spliced in and the scan
      goes on after the first step, past the end of the walk. */
  lemma ScanOnce(g2: Graph, st: Step, g3: Graph, s2: Step)
    requires Routed(g2) && st.node < |g2.pos| && (st.edge.Some? ==> st.edge.value < |g2.lines|)
    requires Deg(g2, st.node) > 0 && Trail(g2, st.node) == (g3, [s2]) && s2.node < |g3.pos| && Deg(g3, s2.node) == 0
    ensures Scan(g2, [st], 0, 1) == (g3, [st, s2])
  {
    ScanFirst(g2, st, g3, s2);
    ScanLast(g3, [st, s2]);
  }

  /** The scan splices the trail from the first step's node in and starts
      over at the second step. */
  lemma ScanFirst(g2: Graph, st: Step, g3: Graph, s2: Step)
    requires Routed(g2) && st.node < |g2.pos| && (st.edge.Some? ==> st.edge.value < |g2.lines|)
    requires Deg(g2, st.node) > 0 && Trail(g2, st.node) == (g3, [s2])
    ensures Routed(g3) && Within([st, s2], |g3.pos|, |g3.lines|)
    ensures Scan(g2, [st], 0, 1) == Scan(g3, [st, s2], 1, 1)
  {
    ScanSplice(g2, [st], 0);
    TrailPos(g2, st.node);
    assert Spliced([st], 0, [s2]) == [st, s2];
  }

  /** A scan at the last step of a two-step walk whose end has nothing
      left leaves the walk as it is. */
  lemma ScanLast(g3: Graph, w: seq<Step>)
    requires Routed(g3) && |w| == 2 && Within(w, |g3.pos|, |g3.lines|) && Deg(g3, w[1].node) == 0
    ensures Scan(g3, w, 1, 1) == (g3, w)
  {
    assert Scan(g3, w, 2, 1) == (g3, w);
  }

  /** The dump from s when euler leaves s and the scan of that one step
      gives the walk w: it stops the program exactly when a node w reaches
      has something left. */
  lemma DumpScans(g: Graph, s: nat, fixed: bool, g3: Graph, w: seq<Step>)
    requires Routed(g) && s < |g.pos| && EulerStep(g, s).Some?
    requires Scan(EulerStep(g, s).value.0, [EulerStep(g, s).value.1], 0, if fixed then 0 else 1) == (g3, w)
    ensures Within(w, |g3.pos|, |g3.lines|)
    ensures Dump(g, s, fixed).None? <==> !Idle(g3, w)
  {
    var (g1, st) := EulerStep(g, s).value;
    ScanPos(g1, [st], 0, if fixed then 0 else 1);
    ScanWithin(g1, [st], 0, if fixed then 0 else 1);
  }

  /** A trail whose first step ends where nothing is left is that step. */
  lemma TrailOne(gr: Graph, k: nat, g: Graph, s: Step)
    requires Routed(gr) && k < |gr.pos| && EulerStep(gr, k) == Some((g, s)) && Deg(g, s.node) == 0
    ensures Trail(gr, k) == (g, [s])
  {
    TrailUnfold2(gr, k, g, s);
    StepStuck(g, s.node);
    assert Trail(g, s.node) == (g, []);
    assert [s] + [] == [s];
  }
}
