/** Two graphs create_graph can build on which drake_hougardy as written
    fails, each beside what the intended version does with it. */
module RapidsExamples {
  import opened Basics
  import opened Multigraph
  import opened Rapids
  import Polyline

  /** Two closed loops, one at (0,0) and one at (5,5). */
  function LoopsLines(): seq<Polyline.Line> {
    [Polyline.Line([Point(0, 0), Point(1, 0), Point(0, 0)], Point(0, 0)),
     Polyline.Line([Point(5, 5), Point(6, 5), Point(5, 5)], Point(5, 5))]
  }

  /** The graph after create_graph has wired the first loop. */
  function LoopsOne(): Graph {
    Graph([Point(0, 0)], [2], [false], [false],
          [[Some(0), None, None, None]], [[Some(0), None, None, None]], [None], LoopsLines(), [false, false])
  }

  /** The graph create_graph builds from the two loops: two nodes, each with
      two edge ends. */
  function Loops(): Graph {
    Graph([Point(0, 0), Point(5, 5)], [2, 2], [false, false], [false, false],
          [[Some(0), None, None, None], [Some(1), None, None, None]],
          [[Some(0), None, None, None], [Some(1), None, None, None]],
          [None, None], LoopsLines(), [false, false])
  }

  /** Two slot arrays agree when every node has four slots that agree. */
  lemma SameSlots(a: seq<seq<Option<nat>>>, b: seq<seq<Option<nat>>>)
    requires |a| == |b| && forall k :: 0 <= k < |a| ==> |a[k]| == Slots == |b[k]|
    requires forall k, t :: 0 <= k < |a| && 0 <= t < Slots ==> a[k][t] == b[k][t]
    ensures a == b
  {
    forall k | 0 <= k < |a| ensures a[k] == b[k] { }
  }

  lemma LoopsWire0()
    ensures Sized(Empty(LoopsLines())) && Bounded(Empty(LoopsLines()))
    ensures Wire(Empty(LoopsLines()), 0) == Some(LoopsOne())
  {
    var g0 := Empty(LoopsLines());
    assert g0.taken == [false, false];
    assert NodeAt(g0.pos, Point(0, 0)).None?;
    var a0 := AddNode(g0, Point(0, 0));
    assert NodeAt(a0.pos, Point(0, 0)) == Some(0);
    assert Lookup(g0, Point(0, 0)) == (a0, 0);
    assert Lookup(a0, Point(0, 0)) == (a0, 0);
    assert Wire(g0, 0) == Connect(a0, 0, 0, 0);
    var g1 := Connect(a0, 0, 0, 0).value;
    assert g1.count == [2];
    SameSlots(g1.edge, [[Some(0), None, None, None]]);
    SameSlots(g1.neighbor, [[Some(0), None, None, None]]);
    assert g1.pos == [Point(0, 0)];
    assert g1.used == [false];
    assert g1.dh == [false];
    assert g1.rapid == [None];
    assert g1.lines == LoopsLines();
    assert g1.taken == [false, false];
  }

  lemma LoopsWire1()
    ensures Sized(LoopsOne()) && Bounded(LoopsOne())
    ensures Wire(LoopsOne(), 1) == Some(Loops())
  {
    var g0 := LoopsOne();
    assert NodeAt(g0.pos, Point(5, 5)).None?;
    var a0 := AddNode(g0, Point(5, 5));
    assert NodeAt(a0.pos, Point(5, 5)) == Some(1);
    assert Lookup(g0, Point(5, 5)) == (a0, 1);
    assert Lookup(a0, Point(5, 5)) == (a0, 1);
    assert Wire(g0, 1) == Connect(a0, 1, 1, 1);
    var g1 := Connect(a0, 1, 1, 1).value;
    assert g1.count == [2, 2];
    SameSlots(g1.edge, Loops().edge);
    SameSlots(g1.neighbor, Loops().neighbor);
    assert g1.pos == Loops().pos;
    assert g1.used == [false, false];
    assert g1.dh == [false, false];
    assert g1.rapid == [None, None];
  }

  /** An open polyline from (0,0) to (2,0) and a closed loop at (4,4). */
  function MixedLines(): seq<Polyline.Line> {
    [Polyline.Line([Point(0, 0), Point(1, 0), Point(2, 0)], Point(2, 0)),
     Polyline.Line([Point(4, 4), Point(5, 4), Point(4, 4)], Point(4, 4))]
  }

  /** The graph after create_graph has wired the open polyline. */
  function MixedOne(): Graph {
    Graph([Point(2, 0), Point(0, 0)], [1, 1], [false, false], [false, false],
          [[Some(0), None, None, None], [Some(0), None, None, None]],
          [[Some(1), None, None, None], [Some(0), None, None, None]],
          [None, None], MixedLines(), [false, false])
  }

  /** The graph create_graph builds from them: node 0 at (2,0) and node 1 at
      (0,0), one end each, and node 2 at (4,4) with two; node 2 was created
      last and so heads the C list. */
  function Mixed(): Graph {
    Graph([Point(2, 0), Point(0, 0), Point(4, 4)], [1, 1, 2], [false, false, false], [false, false, false],
          [[Some(0), None, None, None], [Some(0), None, None, None], [Some(1), None, None, None]],
          [[Some(1), None, None, None], [Some(0), None, None, None], [Some(2), None, None, None]],
          [None, None, None], MixedLines(), [false, false])
  }

  lemma MixedWire0()
    ensures Sized(Empty(MixedLines())) && Bounded(Empty(MixedLines()))
    ensures Wire(Empty(MixedLines()), 0) == Some(MixedOne())
  {
    var g0 := Empty(MixedLines());
    MixedFirstLookup(g0);
    var (g1, e) := Lookup(g0, Point(2, 0));
    MixedSecondLookup(g1);
    var (g2, s) := Lookup(g1, Point(0, 0));
    MixedFirstConnect(g2);
    assert Wire(g0, 0) == Connect(g2, 0, s, e);
  }

  /** The end (2,0) of the open polyline becomes node 0. */
  lemma MixedFirstLookup(g0: Graph)
    requires g0 == Empty(MixedLines())
    ensures Sized(g0) && Bounded(g0)
    ensures var (g1, e) := Lookup(g0, Point(2, 0));
      e == 0 && g1.pos == [Point(2, 0)] && g1.count == [0] && g1.used == [false] && g1.dh == [false] &&
      g1.edge == [NoSlots()] && g1.neighbor == [NoSlots()] && g1.rapid == [None] &&
      g1.lines == MixedLines() && g1.taken == [false, false]
  {
    assert g0.taken == [false, false];
    var g1 := Lookup(g0, Point(2, 0)).0;
    assert g1.used == [] + [false];
    assert g1.dh == [] + [false];
    assert g1.rapid == [] + [None];
  }

  /** Its start (0,0), found nowhere, becomes node 1. */
  lemma MixedSecondLookup(g1: Graph)
    requires g1.pos == [Point(2, 0)] && g1.count == [0] && g1.used == [false] && g1.dh == [false]
    requires g1.edge == [NoSlots()] && g1.neighbor == [NoSlots()] && g1.rapid == [None]
    requires g1.lines == MixedLines() && g1.taken == [false, false]
    ensures Sized(g1)
    ensures var (g2, s) := Lookup(g1, Point(0, 0));
      s == 1 && g2.pos == [Point(2, 0), Point(0, 0)] && g2.count == [0, 0] && g2.used == [false, false] &&
      g2.dh == [false, false] && g2.edge == [NoSlots(), NoSlots()] && g2.neighbor == [NoSlots(), NoSlots()] &&
      g2.rapid == [None, None] && g2.lines == MixedLines() && g2.taken == [false, false]
  {
    assert Point(0, 0) !in g1.pos;
    var g2 := Lookup(g1, Point(0, 0)).0;
    assert g2.used == [false] + [false];
    assert g2.dh == [false] + [false];
    assert g2.rapid == [None] + [None];
  }

  /** Connecting the open polyline from node 1 to node 0 gives MixedOne. */
  lemma MixedFirstConnect(g2: Graph)
    requires g2.pos == [Point(2, 0), Point(0, 0)] && g2.count == [0, 0] && g2.used == [false, false]
    requires g2.dh == [false, false] && g2.edge == [NoSlots(), NoSlots()] && g2.neighbor == [NoSlots(), NoSlots()]
    requires g2.rapid == [None, None] && g2.lines == MixedLines() && g2.taken == [false, false]
    ensures Sized(g2) && Bounded(g2) && Connect(g2, 0, 1, 0) == Some(MixedOne())
  {
    var g := Connect(g2, 0, 1, 0).value;
    assert g.count == [1, 1];
    SameSlots(g.edge, MixedOne().edge);
    SameSlots(g.neighbor, MixedOne().neighbor);
  }

  lemma MixedWire1()
    ensures Sized(MixedOne()) && Bounded(MixedOne())
    ensures Wire(MixedOne(), 1) == Some(Mixed())
  {
    var g0 := MixedOne();
    assert NodeAt(g0.pos, Point(4, 4)).None?;
    var a0 := AddNode(g0, Point(4, 4));
    assert NodeAt(a0.pos, Point(4, 4)) == Some(2);
    assert Lookup(g0, Point(4, 4)) == (a0, 2);
    assert Lookup(a0, Point(4, 4)) == (a0, 2);
    assert Wire(g0, 1) == Connect(a0, 1, 2, 2);
    var g1 := Connect(a0, 1, 2, 2).value;
    assert g1.count == [1, 1, 2];
    SameSlots(g1.edge, Mixed().edge);
    SameSlots(g1.neighbor, Mixed().neighbor);
    assert g1.pos == Mixed().pos;
    assert g1.used == [false, false, false];
    assert g1.dh == [false, false, false];
    assert g1.rapid == [None, None, None];
  }

  /** With no odd node the chain of drake_hougardy as written never finds a
      start: the C loop walks off the end of the node list. The intended
      version leaves the graph without rapids, a perfect matching of its
      (absent) odd nodes. */
  lemma LoopsNoOddNode(dist: (Point, Point) -> real)
    ensures Sized(Loops()) && NoneVisited(Loops().dh)
    ensures DrakeHougardyAsWritten(Loops(), dist).None?
    ensures DrakeHougardy(Loops(), dist) == Some(Loops()) && Matched(Loops())
  {
    assert FirstOdd(Loops().count, 2) == None;
    assert MatchedAt(Loops().count, Loops().rapid, 0) && MatchedAt(Loops().count, Loops().rapid, 1);
  }

  /** The chain on Mixed from node 1: node 1 pairs with node 0 in L0, and node
      0, left without a candidate, closes L1 with `close`. */
  lemma MixedChain(dist: (Point, Point) -> real, close: nat)
    requires close < 3
    ensures var gr := Mixed();
      var p1 := Pairing([false, true, false], [1, 0], [], dist(Point(0, 0), Point(2, 0)), 0.0, 1);
      Chain(gr.pos, gr.count, dist, Pairing(gr.dh, [], [], 0.0, 0.0, 0), 1, close) == Some(Close(p1, 0, close))
  {
    var gr := Mixed();
    var p0 := Pairing(gr.dh, [], [], 0.0, 0.0, 0);
    assert Nearest(gr.pos, gr.count, gr.dh, dist, 1, 2) == None;
    assert Nearest(gr.pos, gr.count, gr.dh, dist, 1, 0) == Some(0);
    var p1 := Advance(gr.pos, dist, p0, 1, 0);
    assert p1 == Pairing([false, true, false], [1, 0], [], dist(Point(0, 0), Point(2, 0)), 0.0, 1);
    assert Nearest(gr.pos, gr.count, p1.dh, dist, 0, 1) == None;
    assert Nearest(gr.pos, gr.count, p1.dh, dist, 0, 0) == None;
    assert Chain(gr.pos, gr.count, dist, p1, 0, close) == Some(Close(p1, 0, close));
  }

  /** drake_hougardy as written closes node 0 with the list head, node 2,
      whose length is not added: for any distance that is not negative L1 is
      chosen, node 1 (odd) gets no rapid, node 2 (even) gets one, and
      add_rapids exits. */
  lemma MixedClosesWithHead(dist: (Point, Point) -> real)
    requires dist(Point(0, 0), Point(2, 0)) >= 0.0
    ensures Sized(Mixed()) && NoneVisited(Mixed().dh)
    ensures DrakeHougardyAsWritten(Mixed(), dist).Some?
    ensures var g := DrakeHougardyAsWritten(Mixed(), dist).value;
      IsOdd(g.count[1]) && g.rapid[1].None? && !IsOdd(g.count[2]) && g.rapid[2] == Some(0)
    ensures CheckRapids(DrakeHougardyAsWritten(Mixed(), dist)).None?
  {
    var gr := Mixed();
    assert FirstOdd(gr.count, 3) == Some(1);
    MixedChain(dist, 2);
    assert Link(gr.rapid, [0, 2]) == [Some(2), None, Some(0)];
    assert Unpaired(gr.count, [Some(2), None, Some(0)], 3) == 1;
  }

  /** Closing with the chain's first node pairs nodes 0 and 1 instead. */
  lemma MixedClosesWithFirst(dist: (Point, Point) -> real)
    requires dist(Point(0, 0), Point(2, 0)) >= 0.0
    ensures Sized(Mixed()) && NoneVisited(Mixed().dh)
    ensures AddRapids(Mixed(), dist).Some? && AddRapids(Mixed(), dist).value.rapid == [Some(1), Some(0), None]
  {
    var gr := Mixed();
    assert FirstOdd(gr.count, 3) == Some(1);
    MixedChain(dist, 1);
    assert Link(gr.rapid, [0, 1]) == [Some(1), Some(0), None];
    assert Unpaired(gr.count, [Some(1), Some(0), None], 3) == 0;
  }
}
