/** The route assembler of vectorize.c as the C program runs it: one object
    holding the node list, whose methods update it in place step by step.
    Each method is proved to do what the functions of Multigraph and Route
    describe, so what is proved about those (BuildNet, DumpSettles,
    OptimizedDumpRoutesAll, ...) holds for these loops. */
module Router {
  import opened Basics
  import Polyline
  import opened Multigraph
  import opened Route
  import Rapids

  /** The multigraph of an image (first_mg and its nodes, first_polyline
      and its polylines), and what the router has written to the
      postprocessor so far. */
  class Router {
    var gr: Graph
    var moves: seq<Move>

    /** An image whose polylines are `lines`, before create_graph. */
    constructor (lines: seq<Polyline.Line>)
      requires forall j :: 0 <= j < |lines| ==> Polyline.Ended(lines[j])
      ensures gr == Empty(lines) && moves == []
    {
      gr := Empty(lines);
      moves := [];
    }

    // -------------------------------------------------------------------------
    // create_graph
    // -------------------------------------------------------------------------

    /** search_mg: walk the node list from its head, the newest node, and
        stop at the first node at p. */
    method SearchMg(p: Point) returns (r: Option<nat>)
      ensures r == NodeAt(gr.pos, p)
    {
      var i := |gr.pos|;
      while i > 0
        invariant 0 <= i <= |gr.pos|
        invariant NodeAt(gr.pos, p) == NodeAt(gr.pos[..i], p)
      {
        assert gr.pos[..i][..i - 1] == gr.pos[..i - 1];
        if gr.pos[i - 1] == p {
          return Some(i - 1);
        }
        i := i - 1;
      }
      return None;
    }

    /** create_graph_node: a zeroed node at p, put at the head of the list. */
    method CreateGraphNode(p: Point) returns (k: nat)
      requires Sized(gr)
      modifies this
      ensures gr == AddNode(old(gr), p) && k == |old(gr.pos)| && moves == old(moves)
    {
      k := |gr.pos|;
      gr := gr.(pos := gr.pos + [p], count := gr.count + [0], used := gr.used + [false], dh := gr.dh + [false],
                edge := gr.edge + [NoSlots()], neighbor := gr.neighbor + [NoSlots()], rapid := gr.rapid + [None]);
    }

    /** The end of create_graph's body: polyline j goes into the next free
        slot of its start node s and its end node e, each becomes the
        other's neighbour, and both counts go up. More than four ends at a
        node stops the program (exit(1)), found here before the slot is
        written. */
    method Link(j: nat, s: nat, e: nat) returns (ok: bool)
      requires Sized(gr) && Bounded(gr) && s < |gr.pos| && e < |gr.pos|
      modifies this
      ensures ok <==> Connect(old(gr), j, s, e).Some?
      ensures ok ==> gr == Connect(old(gr), j, s, e).value
      ensures !ok ==> gr == old(gr)
      ensures moves == old(moves)
    {
      var cs, ce := gr.count[s], gr.count[e];
      var count := gr.count[s := cs + 1];
      count := count[e := count[e] + 1];
      if count[s] > Slots || count[e] > Slots {
        return false;
      }
      var edge := gr.edge[s := gr.edge[s][cs := Some(j)]];
      edge := edge[e := edge[e][ce := Some(j)]];
      var neighbor := gr.neighbor[s := gr.neighbor[s][cs := Some(e)]];
      neighbor := neighbor[e := neighbor[e][ce := Some(s)]];
      gr := gr.(count := count, edge := edge, neighbor := neighbor);
      return true;
    }

    /** create_graph's body for polyline j: find or create its end node,
        then its start node, then link them. */
    method AddPolyline(j: nat) returns (ok: bool)
      requires Sized(gr) && Bounded(gr) && j < |gr.lines|
      modifies this
      ensures ok <==> Wire(old(gr), j).Some?
      ensures ok ==> gr == Wire(old(gr), j).value
      ensures moves == old(moves)
    {
      var l := gr.lines[j];
      ghost var g0 := gr;
      var e := SearchMg(l.end);
      var en: nat;
      if e.None? {
        en := CreateGraphNode(l.end);
      } else {
        en := e.value;
      }
      assert Lookup(g0, l.end) == (gr, en);
      ghost var g1 := gr;
      var s := SearchMg(l.points[0]);
      var sn: nat;
      if s.None? {
        sn := CreateGraphNode(l.points[0]);
      } else {
        sn := s.value;
      }
      assert Lookup(g1, l.points[0]) == (gr, sn);
      ok := Link(j, sn, en);
    }

    /** create_graph: every polyline of the list in turn. It may run only
        once: with nodes already present the program stops (exit(0)). */
    method CreateGraph() returns (ok: bool)
      requires Sized(gr)
      modifies this
      ensures old(gr.pos) != [] ==> !ok && gr == old(gr)
      ensures old(gr.pos) == [] ==> (ok <==> BuildFrom(old(gr), 0).Some?) && (ok ==> gr == BuildFrom(old(gr), 0).value)
      ensures old(gr) == Empty(old(gr.lines)) ==> (ok <==> FitsAll(old(gr.lines), |old(gr.lines)|))
      ensures moves == old(moves)
    {
      if gr.pos != [] {
        return false;
      }
      ghost var g0 := gr;
      var i := 0;
      while i < |gr.lines|
        invariant 0 <= i <= |gr.lines| && Sized(gr) && Bounded(gr) && gr.lines == g0.lines
        invariant BuildFrom(gr, i) == BuildFrom(g0, 0) && moves == old(moves)
        decreases |gr.lines| - i
      {
        ok := AddPolyline(i);
        if !ok {
          BuildNet(g0.lines);
          return false;
        }
        i := i + 1;
      }
      BuildNet(g0.lines);
      return true;
    }

    // -------------------------------------------------------------------------
    // euler and dump_graph_component
    // -------------------------------------------------------------------------

    /** euler from node k: the first of its four slots holding an unused
        polyline wins; the polyline is turned to start at k, the node at its
        end is looked up, both counts drop and the polyline is marked used.
        Without one the rapid is taken and cleared at both ends; without
        that there is no step. */
    method Euler(k: nat) returns (st: Option<Step>)
      requires Routed(gr) && k < |gr.pos|
      modifies this
      ensures st.None? <==> EulerStep(old(gr), k).None?
      ensures st.Some? ==> EulerStep(old(gr), k) == Some((gr, st.value))
      ensures st.None? ==> gr == old(gr)
      ensures moves == old(moves)
    {
      for t := 0 to Slots
        invariant FreeSlot(gr, k, 0) == FreeSlot(gr, k, t)
      {
        if gr.edge[k][t].Some? && !gr.taken[gr.edge[k][t].value] {
          var j := gr.edge[k][t].value;
          var m := TakePolyline(k, j);
          return Some(Step(k, m, Some(j)));
        }
      }
      if gr.rapid[k].Some? {
        var m := gr.rapid[k].value;
        gr := gr.(rapid := gr.rapid[k := None]);
        gr := gr.(rapid := gr.rapid[m := None]);
        return Some(Step(k, m, None));
      }
      return None;
    }

    /** What euler does with the unused polyline j it found at node k: the
        polyline is turned to start at k, the node m at its end is looked
        up, both counts drop and the polyline is marked used. */
    method TakePolyline(k: nat, j: nat) returns (m: nat)
      requires Sized(gr) && Anchored(gr, |gr.lines|) && k < |gr.pos| && j < |gr.lines| && Hits(gr.lines[j], gr.pos[k]) > 0
      modifies this
      ensures (gr, m) == Take(old(gr), k, j)
      ensures moves == old(moves)
    {
      ghost var g0 := gr;
      assert g0.pos[Take(g0, k, j).1] == Leaving(g0.lines[j], g0.pos[k]).end;
      gr := gr.(lines := gr.lines[j := Leaving(gr.lines[j], gr.pos[k])]);
      var found := SearchMg(gr.lines[j].end);
      m := found.value;
      gr := gr.(count := gr.count[k := gr.count[k] - 1]);
      gr := gr.(taken := gr.taken[j := true]);
      gr := gr.(count := gr.count[m := gr.count[m] - 1]);
    }

    /** The inner loop of dump_graph_component: euler from node k, then
        from the node reached, until no step is left. */
    method WalkFrom(k: nat) returns (t: seq<Step>)
      requires Routed(gr) && k < |gr.pos|
      modifies this
      ensures gr == Trail(old(gr), k).0 && t == Trail(old(gr), k).1
      ensures moves == old(moves)
    {
      ghost var g0 := gr;
      t := [];
      var at: nat := k;
      while true
        invariant Routed(gr) && at < |gr.pos| && moves == old(moves)
        invariant Trail(g0, k).0 == Trail(gr, at).0 && Trail(g0, k).1 == t + Trail(gr, at).1
        decreases Load(gr)
      {
        ghost var g := gr;
        var st := Euler(at);
        if st.None? {
          TrailEnd(g0, k, g, at, t);
          return;
        }
        TrailAfter(g0, k, g, at, t, gr, st.value);
        t := t + [st.value];
        at := st.value.node;
      }
    }

    /** The scan of dump_graph_component over the walk w0: wherever the node
        a step reaches still has an unused polyline end or a rapid, the walk
        from it is spliced in after that step and the scan starts over at
        step `restart`. */
    method ScanWalk(w0: seq<Step>, restart: nat) returns (w: seq<Step>)
      requires Routed(gr) && restart <= 1 && Within(w0, |gr.pos|, |gr.lines|)
      modifies this
      ensures gr == Scan(old(gr), w0, 0, restart).0 && w == Scan(old(gr), w0, 0, restart).1
      ensures moves == old(moves)
    {
      ghost var g0 := gr;
      w := w0;
      var i: nat := 0;
      while i < |w|
        invariant Routed(gr) && i <= |w| && Within(w, |gr.pos|, |gr.lines|) && moves == old(moves)
        invariant Scan(gr, w, i, restart).0 == Scan(g0, w0, 0, restart).0
        invariant Scan(gr, w, i, restart).1 == Scan(g0, w0, 0, restart).1
        decreases Load(gr), |w| - i
      {
        DegNonNegative(gr, w[i].node);
        if gr.count[w[i].node] != 0 || gr.rapid[w[i].node].Some? {
          ScanSplice(gr, w, i);
          var sub := WalkFrom(w[i].node);
          w := w[..i + 1] + sub + w[i + 1..];
          i := restart;
        } else {
          i := i + 1;
        }
      }
    }

    /** The check of dump_graph_component: a node the walk reaches with an
        unused polyline end left stops the program. */
    method Check(w: seq<Step>) returns (ok: bool)
      requires Sized(gr) && Within(w, |gr.pos|, |gr.lines|)
      ensures ok <==> Idle(gr, w)
    {
      for j := 0 to |w|
        invariant forall q :: 0 <= q < j ==> gr.count[w[q].node] == 0
      {
        if gr.count[w[j].node] != 0 {
          return false;
        }
      }
      return true;
    }

    /** The last loop of dump_graph_component: each node the walk reaches
        is marked used, and the polyline of the step (or a rapid to its
        node) is written. */
    method MarkWalk(w: seq<Step>)
      requires Sized(gr) && Within(w, |gr.pos|, |gr.lines|)
      modifies this
      ensures gr == old(gr).(used := MarkAll(old(gr.used), w))
      ensures moves == old(moves) + Written(old(gr), w)
    {
      ghost var g0 := gr;
      for j := 0 to |w|
        invariant gr == g0.(used := gr.used) && |gr.used| == |g0.used|
        invariant forall x :: 0 <= x < |g0.used| ==> (gr.used[x] <==> g0.used[x] || exists q :: 0 <= q < j && w[q].node == x)
        invariant moves == old(moves) + Written(g0, w[..j])
      {
        gr := gr.(used := gr.used[w[j].node := true]);
        moves := moves + [Emit(gr, w[j])];
        assert w[..j + 1][..j] == w[..j];
      }
      assert w[..|w|] == w;
      assert gr.used == MarkAll(g0.used, w);
    }

    /** dump_graph_component from node s: a rapid to s is written, euler
        takes the first step, the scan splices in the rest, the check may
        stop the program, and the walk is marked and written. As written
        (`fixed` false) the scan starts over at the second step and a start
        with nothing left is not marked; as intended it starts over at the
        first step and such a start is marked used. */
    method DumpGraphComponent(s: nat, fixed: bool) returns (ok: bool, w: seq<Step>)
      requires Routed(gr) && s < |gr.pos|
      modifies this
      ensures ok <==> Dump(old(gr), s, fixed).Some?
      ensures ok ==> gr == Dump(old(gr), s, fixed).value.0 && w == Dump(old(gr), s, fixed).value.1
      ensures ok ==> moves == old(moves) + Moves(gr, s, w)
    {
      ghost var g0 := gr;
      moves := moves + [Rapid(gr.pos[s])];
      var first := Euler(s);
      if first.None? {
        DumpEmpty(g0, s, fixed);
        if fixed {
          gr := gr.(used := gr.used[s := true]);
        }
        assert Moves(gr, s, []) == [Rapid(g0.pos[s])];
        return true, [];
      }
      ok, w := DumpSteps(g0, s, fixed, first.value);
      if ok {
        MovesAfter(old(moves), gr, s, w, moves);
      }
    }

    /** dump_graph_component after euler took the first step st from node
        s of the graph g0: the scan, the check and the marking. */
    method DumpSteps(ghost g0: Graph, s: nat, fixed: bool, st: Step) returns (ok: bool, w: seq<Step>)
      requires Routed(g0) && s < |g0.pos| && EulerStep(g0, s) == Some((gr, st))
      modifies this
      ensures ok <==> Dump(g0, s, fixed).Some?
      ensures ok ==> gr == Dump(g0, s, fixed).value.0 && w == Dump(g0, s, fixed).value.1
      ensures ok ==> Sized(gr) && gr.pos == g0.pos && Within(w, |gr.pos|, |gr.lines|)
      ensures ok ==> moves == old(moves) + Written(gr, w)
    {
      ghost var g1 := gr;
      var restart := if fixed then 0 else 1;
      w := ScanWalk([st], restart);
      DumpVia(g0, s, fixed, g1, st, gr, w);
      ok := CheckAndMark(w);
    }

    /** The last two loops of dump_graph_component on the walk w: the check
        and, when it passes, the marking and writing. */
    method CheckAndMark(w: seq<Step>) returns (ok: bool)
      requires Sized(gr) && Within(w, |gr.pos|, |gr.lines|)
      modifies this
      ensures ok <==> Idle(old(gr), w)
      ensures ok ==> gr == old(gr).(used := MarkAll(old(gr.used), w)) && moves == old(moves) + Written(gr, w)
    {
      ok := Check(w);
      if !ok {
        return;
      }
      ghost var g := gr;
      MarkWalk(w);
      WrittenUsed(g, gr.used, w);
    }

    // -------------------------------------------------------------------------
    // next_point and optimized_dump
    // -------------------------------------------------------------------------

    /** next_point: walk the node list from its head and keep the last
        unused node whose score (its distance from `home` less the length
        of its rapid) is at most the best so far. */
    method NextPointScan(home: Point -> real, dist: (Point, Point) -> real) returns (r: Option<nat>)
      requires Sized(gr) && Symmetric(gr.rapid)
      ensures r == NextPoint(gr, home, dist, |gr.pos|, None)
    {
      r := None;
      var i := |gr.pos|;
      while i > 0
        invariant 0 <= i <= |gr.pos|
        invariant r.Some? ==> r.value < |gr.pos| && !gr.used[r.value]
        invariant NextPoint(gr, home, dist, i, r) == NextPoint(gr, home, dist, |gr.pos|, None)
      {
        var k := i - 1;
        if !gr.used[k] && (r.None? || Score(gr, home, dist, k) <= Score(gr, home, dist, r.value)) {
          r := Some(k);
        }
        i := k;
      }
    }

    /** The start of optimized_dump's second loop at node k: the rapid of
        k is cleared at its other end and at k. */
    method ClearRapid(k: nat)
      requires Routed(gr) && k < |gr.pos|
      modifies this
      ensures gr == Detach(old(gr), k) && moves == old(moves)
    {
      if gr.rapid[k].Some? {
        var m := gr.rapid[k].value;
        gr := gr.(rapid := gr.rapid[m := None]);
      } else {
        assert gr.rapid[k := None] == gr.rapid;
      }
      gr := gr.(rapid := gr.rapid[k := None]);
    }

    /** The body of optimized_dump's first loop for node k: an unused node
        with exactly two polyline ends has its component dumped. */
    method CircleAt(k: nat, fixed: bool) returns (ok: bool, ghost m: seq<Move>)
      requires Routed(gr) && k < |gr.pos|
      modifies this
      ensures ok <==> Circle(old(gr), k, fixed).Some?
      ensures ok ==> gr == Circle(old(gr), k, fixed).value.0 && m == Circle(old(gr), k, fixed).value.1
      ensures ok ==> moves == old(moves) + m
    {
      m := [];
      if gr.count[k] == 2 && !gr.used[k] {
        var w;
        ok, w := DumpGraphComponent(k, fixed);
        if ok {
          m := Moves(gr, k, w);
        }
      } else {
        ok := true;
      }
    }

    /** The first loop of optimized_dump: walking the node list from its
        head, each unused node with exactly two polyline ends has its
        component dumped. */
    method DumpCircles(fixed: bool) returns (ok: bool)
      requires Routed(gr)
      modifies this
      ensures ok <==> Circles(old(gr), |old(gr.pos)|, fixed).Some?
      ensures ok ==> gr == Circles(old(gr), |old(gr.pos)|, fixed).value.0
      ensures ok ==> moves == old(moves) + Circles(old(gr), |old(gr.pos)|, fixed).value.1
    {
      ghost var g0 := gr;
      ghost var done: seq<Move> := [];
      var i: nat := |gr.pos|;
      AfterNothing(Circles(gr, i, fixed));
      while i > 0
        invariant 0 <= i <= |gr.pos| && Routed(gr) && gr.pos == g0.pos && moves == old(moves) + done
        invariant Circles(g0, |g0.pos|, fixed) == After(done, Circles(gr, i, fixed))
      {
        ghost var g, n, d0, before := gr, i, done, moves;
        var k := i - 1;
        var dumped;
        ghost var m;
        dumped, m := CircleAt(k, fixed);
        if !dumped {
          CirclesStop(g0, g, n, k, fixed, done);
          return false;
        }
        Appended(old(moves), d0, m, before, moves);
        done := done + m;
        i := k;
        CirclesAfter(g0, g, n, k, fixed, d0, gr, m, done);
      }
      assert done + [] == done;
      return true;
    }

    /** One turn of optimized_dump's second loop, as intended: next_point,
        then the rapid of the node found is cleared and its component
        dumped. */
    method Turn(home: Point -> real, dist: (Point, Point) -> real) returns (found: bool, ok: bool, ghost m: seq<Move>)
      requires Routed(gr)
      modifies this
      ensures !found ==> Round(old(gr), home, dist, true).Finished? && gr == old(gr) && moves == old(moves)
      ensures found && !ok ==> Round(old(gr), home, dist, true).Stopped?
      ensures found && ok ==> Round(old(gr), home, dist, true) == Next(gr, m) && moves == old(moves) + m
    {
      ghost var g := gr;
      m := [];
      var k := NextPointScan(home, dist);
      if k.None? {
        return false, true, [];
      }
      found := true;
      ClearRapid(k.value);
      var w;
      ok, w := DumpGraphComponent(k.value, true);
      if ok {
        m := Moves(gr, k.value, w);
        RoundIs(g, home, dist, k.value, w, gr);
      }
    }

    /** The second loop of optimized_dump, as intended: turns until
        next_point finds no unused node. */
    method DumpRest(home: Point -> real, dist: (Point, Point) -> real) returns (ok: bool)
      requires Routed(gr)
      modifies this
      ensures ok <==> Finish(old(gr), home, dist).Some?
      ensures ok ==> gr == Finish(old(gr), home, dist).value.0
      ensures ok ==> moves == old(moves) + Finish(old(gr), home, dist).value.1
    {
      ghost var g0 := gr;
      ghost var done: seq<Move> := [];
      AfterNothing(Finish(gr, home, dist));
      while true
        invariant Routed(gr) && moves == old(moves) + done
        invariant Finish(g0, home, dist) == After(done, Finish(gr, home, dist))
        decreases Load(gr), Unset(gr.used)
      {
        ghost var before := moves;
        var found;
        ghost var m;
        found, ok, m := RestTurn(g0, home, dist, done);
        if !found {
          return true;
        }
        if !ok {
          return false;
        }
        Appended(old(moves), done, m, before, moves);
        done := done + m;
      }
    }

    /** One turn of the second loop of optimized_dump, and what remains of
        the loop after it. */
    method RestTurn(ghost g0: Graph, home: Point -> real, dist: (Point, Point) -> real, ghost done: seq<Move>)
      returns (found: bool, ok: bool, ghost m: seq<Move>)
      requires Routed(g0) && Routed(gr) && Finish(g0, home, dist) == After(done, Finish(gr, home, dist))
      modifies this
      ensures !found ==> Finish(g0, home, dist).Some?
      ensures !found ==> gr == Finish(g0, home, dist).value.0 && Finish(g0, home, dist).value.1 == done && moves == old(moves)
      ensures found && !ok ==> Finish(g0, home, dist).None?
      ensures found && ok ==> Routed(gr) && moves == old(moves) + m
      ensures found && ok ==> Finish(g0, home, dist) == After(done + m, Finish(gr, home, dist))
      ensures found && ok ==> Load(gr) < old(Load(gr)) || (Load(gr) == old(Load(gr)) && Unset(gr.used) < old(Unset(gr.used)))
    {
      ghost var g := gr;
      found, ok, m := Turn(home, dist);
      if !found {
        FinishDone(g, home, dist);
        assert done + [] == done;
      } else if ok {
        RoundProgress(g, home, dist);
        FinishNext(g, home, dist, gr, m, Finish(gr, home, dist));
        AfterThen(done, m, Finish(g, home, dist), Finish(gr, home, dist));
      }
    }

    // -------------------------------------------------------------------------
    // optimized_dump
    // -------------------------------------------------------------------------

    /** optimized_dump, as intended, on an image with no node yet:
        create_graph, add_rapids, the circles, then the rest. It finishes
        exactly when Route.OptimizedDump gives a result, with the same
        graph and the same moves written. */
    method OptimizedDump(home: Point -> real, dist: (Point, Point) -> real) returns (ok: bool)
      requires forall j :: 0 <= j < |gr.lines| ==> Polyline.Ended(gr.lines[j])
      requires gr == Empty(gr.lines)
      modifies this
      ensures ok <==> Route.OptimizedDump(old(gr.lines), home, dist).Some?
      ensures ok ==> gr == Route.OptimizedDump(old(gr.lines), home, dist).value.0
      ensures ok ==> moves == old(moves) + Route.OptimizedDump(old(gr.lines), home, dist).value.1
    {
      ghost var lines := gr.lines;
      ok := PrepareGraph(dist);
      if !ok {
        return;
      }
      ghost var g1 := gr;
      OptimizedDumpStops(lines, home, dist, g1);
      ok := DumpCircles(true);
      if !ok {
        return;
      }
      ghost var g2, m1, before := gr, Circles(g1, |g1.pos|, true).value.1, moves;
      OptimizedDumpSplit(lines, home, dist, g1, g2, m1);
      ok := DumpRest(home, dist);
      if ok {
        Appended(old(moves), m1, Finish(g2, home, dist).value.1, before, moves);
      }
    }

    /** create_graph on an image with no node yet. */
    method BuildGraph() returns (ok: bool)
      requires forall j :: 0 <= j < |gr.lines| ==> Polyline.Ended(gr.lines[j])
      requires gr == Empty(gr.lines)
      modifies this
      ensures ok <==> Build(old(gr.lines)).Some?
      ensures ok ==> gr == Build(old(gr.lines)).value
      ensures moves == old(moves)
    {
      ok := CreateGraph();
    }

    /** create_graph, then add_rapids on the graph it built. */
    method PrepareGraph(dist: (Point, Point) -> real) returns (ok: bool)
      requires forall j :: 0 <= j < |gr.lines| ==> Polyline.Ended(gr.lines[j])
      requires gr == Empty(gr.lines)
      modifies this
      ensures ok <==> Prepare(old(gr.lines), dist).Some?
      ensures ok ==> gr == Prepare(old(gr.lines), dist).value
      ensures moves == old(moves)
    {
      ghost var lines := gr.lines;
      ok := BuildGraph();
      PrepareVia(lines, dist);
      if !ok {
        return;
      }
      var rapids := Rapids.AddRapids(gr, dist);
      if rapids.None? {
        return false;
      }
      gr := rapids.value;
    }
  }

  /** Prepare is add_rapids on what create_graph built. */
  lemma PrepareVia(lines: seq<Polyline.Line>, dist: (Point, Point) -> real)
    requires forall j :: 0 <= j < |lines| ==> Polyline.Ended(lines[j])
    ensures Build(lines).None? ==> Prepare(lines, dist).None?
    ensures Build(lines).Some? ==> Rapids.NoneVisited(Build(lines).value.dh)
    ensures Build(lines).Some? ==> Prepare(lines, dist) == Rapids.AddRapids(Build(lines).value, dist)
  {
    BuildNet(lines);
  }

  /** optimized_dump stops the program when the circles do. */
  lemma OptimizedDumpStops(lines: seq<Polyline.Line>, home: Point -> real, dist: (Point, Point) -> real, g1: Graph)
    requires forall j :: 0 <= j < |lines| ==> Polyline.Ended(lines[j])
    requires Prepare(lines, dist) == Some(g1)
    ensures Routed(g1)
    ensures Circles(g1, |g1.pos|, true).None? ==> Route.OptimizedDump(lines, home, dist).None?
  {
  }

  /** After the circles, optimized_dump is the rest. */
  lemma OptimizedDumpSplit(lines: seq<Polyline.Line>, home: Point -> real, dist: (Point, Point) -> real, g1: Graph, g2: Graph, m1: seq<Move>)
    requires forall j :: 0 <= j < |lines| ==> Polyline.Ended(lines[j])
    requires Prepare(lines, dist) == Some(g1) && Routed(g1) && Circles(g1, |g1.pos|, true).Some?
    requires g2 == Circles(g1, |g1.pos|, true).value.0 && m1 == Circles(g1, |g1.pos|, true).value.1
    ensures Routed(g2) && (Route.OptimizedDump(lines, home, dist).Some? <==> Finish(g2, home, dist).Some?)
    ensures Finish(g2, home, dist).Some? ==>
      Route.OptimizedDump(lines, home, dist).value.0 == Finish(g2, home, dist).value.0 &&
      Route.OptimizedDump(lines, home, dist).value.1 == m1 + Finish(g2, home, dist).value.1
  {
    assert Circles(g1, |g1.pos|, true) == Some((g2, m1));
    if Finish(g2, home, dist).Some? {
      var (g3, m2) := Finish(g2, home, dist).value;
      OptimizedDumpIs(lines, home, dist, g1, g2, m1, g3, m2);
    }
  }

  /** The inner loop of dump_graph_component ends where euler finds no
      step: the trail begun at k is what was walked. */
  lemma TrailEnd(g0: Graph, k: nat, g: Graph, at: nat, t: seq<Step>)
    requires Routed(g0) && k < |g0.pos| && Routed(g) && at < |g.pos| && EulerStep(g, at).None?
    requires Trail(g0, k).0 == Trail(g, at).0 && Trail(g0, k).1 == t + Trail(g, at).1
    ensures Trail(g0, k).0 == g && Trail(g0, k).1 == t
  {
    assert t + [] == t;
  }

  /** One step of the inner loop of dump_graph_component. */
  lemma TrailAfter(g0: Graph, k: nat, g: Graph, at: nat, t: seq<Step>, g1: Graph, st: Step)
    requires Routed(g0) && k < |g0.pos| && Routed(g) && at < |g.pos| && EulerStep(g, at) == Some((g1, st))
    requires Trail(g0, k).0 == Trail(g, at).0 && Trail(g0, k).1 == t + Trail(g, at).1
    ensures Routed(g1) && st.node < |g1.pos|
    ensures Trail(g0, k).0 == Trail(g1, st.node).0 && Trail(g0, k).1 == t + [st] + Trail(g1, st.node).1
  {
    TrailUnfold2(g, at, g1, st);
    assert t + ([st] + Trail(g1, st.node).1) == t + [st] + Trail(g1, st.node).1;
  }

  /** What dump_graph_component writes: the rapid to its start, then the
      walk. */
  lemma MovesAfter(m0: seq<Move>, gr: Graph, s: nat, w: seq<Step>, m: seq<Move>)
    requires Sized(gr) && s < |gr.pos| && Within(w, |gr.pos|, |gr.lines|)
    requires m == m0 + [Rapid(gr.pos[s])] + Written(gr, w)
    ensures m == m0 + Moves(gr, s, w)
  {
  }

  /** dump_graph_component when euler finds no first step. */
  lemma DumpEmpty(gr: Graph, s: nat, fixed: bool)
    requires Routed(gr) && s < |gr.pos| && EulerStep(gr, s).None?
    ensures Dump(gr, s, fixed) == Some((if fixed then gr.(used := gr.used[s := true]) else gr, []))
  {
  }

  /** dump_graph_component after the first step and the scan: the check
      decides, and the walk is marked. */
  lemma DumpVia(gr: Graph, s: nat, fixed: bool, g1: Graph, st: Step, g: Graph, w: seq<Step>)
    requires Routed(gr) && s < |gr.pos| && EulerStep(gr, s) == Some((g1, st))
    requires g == Scan(g1, [st], 0, if fixed then 0 else 1).0 && w == Scan(g1, [st], 0, if fixed then 0 else 1).1
    ensures Sized(g) && g.pos == gr.pos && Within(w, |g.pos|, |g.lines|)
    ensures Dump(gr, s, fixed).Some? <==> Idle(g, w)
    ensures Idle(g, w) ==> Dump(gr, s, fixed).value.0 == g.(used := MarkAll(g.used, w)) && Dump(gr, s, fixed).value.1 == w
  {
    var restart := if fixed then 0 else 1;
    ScanPos(g1, [st], 0, restart);
    ScanWithin(g1, [st], 0, restart);
  }

  /** Marking nodes used changes nothing the last loop writes. */
  lemma {:induction false} WrittenUsed(gr: Graph, used: seq<bool>, walk: seq<Step>)
    requires Sized(gr) && |used| == |gr.used| && Within(walk, |gr.pos|, |gr.lines|)
    ensures Written(gr.(used := used), walk) == Written(gr, walk)
  {
    if |walk| > 0 {
      WrittenUsed(gr, used, walk[..|walk| - 1]);
    }
  }

  /** The first loop of optimized_dump, one node at a time. */
  lemma CirclesStep(gr: Graph, n: nat, fixed: bool)
    requires Routed(gr) && 0 < n <= |gr.pos|
    ensures Circle(gr, n - 1, fixed).None? ==> Circles(gr, n, fixed).None?
    ensures Circle(gr, n - 1, fixed).Some? ==>
      var (g, m) := Circle(gr, n - 1, fixed).value;
      (Circles(gr, n, fixed).Some? <==> Circles(g, n - 1, fixed).Some?) &&
      (Circles(g, n - 1, fixed).Some? ==>
        Circles(gr, n, fixed).value.0 == Circles(g, n - 1, fixed).value.0 &&
        Circles(gr, n, fixed).value.1 == m + Circles(g, n - 1, fixed).value.1)
  {
  }

  /** One turn of optimized_dump's second loop, as intended. */
  lemma RoundIs(gr: Graph, home: Point -> real, dist: (Point, Point) -> real, k: nat, w: seq<Step>, g: Graph)
    requires Routed(gr) && NextPoint(gr, home, dist, |gr.pos|, None) == Some(k)
    requires Dump(Detach(gr, k), k, true).Some? && g == Dump(Detach(gr, k), k, true).value.0 && w == Dump(Detach(gr, k), k, true).value.1
    ensures Round(gr, home, dist, true) == Next(g, Moves(g, k, w))
  {
  }

  /** Writing m after a + d writes a + (d + m). */
  lemma Appended(a: seq<Move>, d: seq<Move>, m: seq<Move>, before: seq<Move>, after: seq<Move>)
    requires before == a + d && after == before + m
    ensures after == a + (d + m)
  {
  }

  /** A result with `done` written before it. */
  ghost function After(done: seq<Move>, r: Option<(Graph, seq<Move>)>): Option<(Graph, seq<Move>)> {
    match r
    case None => None
    case Some((g, m)) => Some((g, done + m))
  }

  lemma AfterNothing(r: Option<(Graph, seq<Move>)>)
    ensures After([], r) == r
  {
    if r.Some? {
      assert [] + r.value.1 == r.value.1;
    }
  }

  /** The first loop of optimized_dump after node n - 1. */
  lemma CirclesAfter(g0: Graph, gr: Graph, n: nat, k: nat, fixed: bool, d0: seq<Move>, g: Graph, m: seq<Move>, done: seq<Move>)
    requires Routed(g0) && Routed(gr) && 0 < n <= |gr.pos| && k == n - 1 && gr.pos == g0.pos
    requires Circles(g0, |g0.pos|, fixed) == After(d0, Circles(gr, n, fixed))
    requires Circle(gr, k, fixed).Some?
    requires g == Circle(gr, k, fixed).value.0 && m == Circle(gr, k, fixed).value.1 && done == d0 + m
    ensures Routed(g) && k <= |g.pos| && g.pos == g0.pos && Circles(g0, |g0.pos|, fixed) == After(done, Circles(g, k, fixed))
  {
    if gr.count[k] == 2 && !gr.used[k] {
      CirclesStep(gr, n, fixed);
    } else {
      CirclesStep(gr, n, fixed);
    }
    AfterThen(d0, m, Circles(gr, n, fixed), Circles(g, k, fixed));
  }

  /** The first loop of optimized_dump stops the program at node n - 1. */
  lemma CirclesStop(g0: Graph, gr: Graph, n: nat, k: nat, fixed: bool, done: seq<Move>)
    requires Routed(g0) && Routed(gr) && 0 < n <= |gr.pos| && k == n - 1
    requires Circles(g0, |g0.pos|, fixed) == After(done, Circles(gr, n, fixed))
    requires Circle(gr, k, fixed).None?
    ensures Circles(g0, |g0.pos|, fixed).None?
  {
    if gr.count[k] == 2 && !gr.used[k] {
      CirclesStep(gr, n, fixed);
    } else {
      CirclesStep(gr, n, fixed);
    }
  }

  /** A result that is m followed by r2, after done. */
  lemma AfterThen(done: seq<Move>, m: seq<Move>, r: Option<(Graph, seq<Move>)>, r2: Option<(Graph, seq<Move>)>)
    requires r.Some? <==> r2.Some?
    requires r2.Some? ==> r.value.0 == r2.value.0 && r.value.1 == m + r2.value.1
    ensures After(done, r) == After(done + m, r2)
  {
    if r2.Some? {
      assert done + (m + r2.value.1) == done + m + r2.value.1;
    }
  }
}
