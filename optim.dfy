/** The path-tree optimiser of the route planner. Each traced polyline gets a
    binary tree over its points: a node covers the points from `start` to `end`
    and is split at the interior point farthest from the chord start-end. A node
    whose chord may replace the path it covers gets `direct` = 1, a node that must
    never be replaced gets -1, and a pass over the trees splices every accepted
    chord into its polyline by dropping the points strictly inside it.

    The point lists are the polylines as built, in list order (index 0 is the
    list head); a point is identified by its index, and the points spliced out of
    polyline i form the set `gone[i]`. Tree nodes are values and the passes over
    them return the updated tree.

    Distances are doubles in the C program. Only the sign and the size of the
    deviation from a chord are kept, exactly, as the integer cross product; the
    signal value `sig`, the hole-to-chord test and the old/new clearance test of
    check_line are parameters of the model (`Geometry`). */
module Optim {
  import opened Basics
  import Image

  // ---------------------------------------------------------------------------
  // Geometry
  // ---------------------------------------------------------------------------

  /** The numerator of the signed distance from p to the line through a and b
      (the denominator is the length of a-b, which is the same for every point
      tested against one chord). */
  function Cross(a: Point, b: Point, p: Point): int {
    (b.x - a.x) * (a.y - p.y) - (a.x - p.x) * (b.y - a.y)
  }

  /** The squared length of the chord a-b. */
  function Len2(a: Point, b: Point): (r: int)
    ensures r >= 0
    ensures r == 0 <==> a == b
  {
    (a.x - b.x) * (a.x - b.x) + (a.y - b.y) * (a.y - b.y)
  }

  /** dev > 0: p lies strictly on the positive side of the chord a-b. For a chord
      of length zero the C distance is NaN, which is not positive. */
  predicate Above(a: Point, b: Point, p: Point) {
    a != b && Cross(a, b, p) > 0
  }

  /** What the optimiser knows about the board besides the polylines: the
      original raster (read by the copper test), the optimisation level, and the
      floating-point tests, which are left abstract.
      - `sig(p, s, e)`: the squared-deviation signal of the node from s to e of
        polyline p;
      - `holeClose(a, b)`: some drill hole is closer to the chord a-b than to its
        isolation (holeToLine);
      - `keeps(pts, gone, i, s, e)`: replacing the path from s to e of polyline i
        by its chord keeps a positive distance, at least the old one, to every
        point of the other polylines (the two distance loops of check_line). */
  datatype Geometry = Geometry(
    raster: seq<byte>, w: int, h: int, route: int,
    sig: (seq<Point>, nat, nat) -> real,
    holeClose: (Point, Point) -> bool,
    keeps: (seq<seq<Point>>, seq<set<nat>>, nat, nat, nat) -> bool)

  predicate GeomOk(g: Geometry) {
    |g.raster| == g.w * g.h
  }

  /** The raster line tested by bres_line_test: both ends halved, since the
      polylines live on a grid twice as fine as the raster. */
  function Chord(a: Point, b: Point): Image.Line {
    Image.Line(CDiv(a.x, 2), CDiv(a.y, 2), CDiv(b.x, 2), CDiv(b.y, 2))
  }

  /** bres_line_test returns -1: the chord a-b crosses copper in the original
      raster (Image.BresLineTest computes exactly this). */
  predicate Crosses(g: Geometry, a: Point, b: Point)
    requires GeomOk(g)
  {
    Image.Blocked(g.raster, g.w, g.h, Chord(a, b), Image.Steps(Chord(a, b)))
  }

  // ---------------------------------------------------------------------------
  // The statistics gathered over a node's interior points
  // ---------------------------------------------------------------------------

  /** The tree fields accumulated by the loop of polyline_tree0: the two side
      counts, whether the sides stayed balanced, the largest |deviation| so far,
      the point that attained it last, and the deviation sum. */
  datatype Stats = Stats(plus: nat, minus: nat, alternating: bool, maxDev: nat, pmax: Option<nat>, sum: int)

  /** The statistics after visiting the interior points s+1 .. j-1 of the node
      from s to e. */
  function StatsTo(p: seq<Point>, s: nat, e: nat, j: nat): (r: Stats)
    requires s < j <= e < |p|
    ensures r.plus + r.minus == j - s - 1
    ensures r.pmax.Some? ==> s < r.pmax.value < j
    decreases j
  {
    if j == s + 1 then Stats(0, 0, true, 0, None, 0)
    else
      var st := StatsTo(p, s, e, j - 1);
      var c := Cross(p[s], p[e], p[j - 1]);
      var up := Above(p[s], p[e], p[j - 1]);
      var plus := if up then st.plus + 1 else st.plus;
      var minus := if up then st.minus else st.minus + 1;
      var far := p[s] != p[e] && Abs(c) >= st.maxDev;
      Stats(plus, minus, st.alternating && Abs(plus - minus) <= 1,
            if far then Abs(c) else st.maxDev,
            if far then Some(j - 1) else st.pmax,
            st.sum + c)
  }

  /** The side of the chord each interior point s+1 .. j-1 lies on, true for
      the positive side. */
  function Sides(p: seq<Point>, s: nat, e: nat, j: nat): seq<bool>
    requires s < j <= e < |p|
  {
    seq(j - s - 1, i requires 0 <= i < j - s - 1 => Above(p[s], p[e], p[s + 1 + i]))
  }

  /** plus counts the interior points with positive deviation and minus the
      others. */
  lemma {:induction false} StatsCounts(p: seq<Point>, s: nat, e: nat, j: nat)
    requires s < j <= e < |p|
    ensures StatsTo(p, s, e, j).plus == multiset(Sides(p, s, e, j))[true]
    ensures StatsTo(p, s, e, j).minus == multiset(Sides(p, s, e, j))[false]
  {
    if j > s + 1 {
      StatsCounts(p, s, e, j - 1);
      assert Sides(p, s, e, j) == Sides(p, s, e, j - 1) + [Above(p[s], p[e], p[j - 1])];
    }
  }

  /** The balance flag survives exactly when every prefix of the interior has
      side counts differing by at most one. */
  lemma {:induction false} StatsAlternating(p: seq<Point>, s: nat, e: nat, j: nat)
    requires s < j <= e < |p|
    ensures StatsTo(p, s, e, j).alternating <==>
      forall i :: s < i <= j ==> Abs(StatsTo(p, s, e, i).plus - StatsTo(p, s, e, i).minus) <= 1
  {
    if j > s + 1 {
      StatsAlternating(p, s, e, j - 1);
      assert StatsTo(p, s, e, s + 1).plus == StatsTo(p, s, e, s + 1).minus;
    }
  }

  /** For a chord of positive length, pmax is the last interior point whose
      |deviation| is the largest. */
  lemma {:induction false} StatsFar(p: seq<Point>, s: nat, e: nat, j: nat)
    requires s + 1 < j <= e < |p| && p[s] != p[e]
    ensures StatsTo(p, s, e, j).pmax.Some?
    ensures Abs(Cross(p[s], p[e], p[StatsTo(p, s, e, j).pmax.value])) == StatsTo(p, s, e, j).maxDev
    ensures forall k :: s < k < j ==> Abs(Cross(p[s], p[e], p[k])) <= StatsTo(p, s, e, j).maxDev
    ensures forall k :: StatsTo(p, s, e, j).pmax.value < k < j ==>
      Abs(Cross(p[s], p[e], p[k])) < StatsTo(p, s, e, j).maxDev
  {
    if j > s + 2 {
      StatsFar(p, s, e, j - 1);
    }
  }

  /** For a chord of length zero every deviation is NaN: no point counts as
      positive and none becomes pmax. */
  lemma {:induction false} StatsDegenerate(p: seq<Point>, s: nat, e: nat, j: nat)
    requires s < j <= e < |p| && p[s] == p[e]
    ensures StatsTo(p, s, e, j).pmax.None? && StatsTo(p, s, e, j).maxDev == 0
    ensures StatsTo(p, s, e, j).plus == 0
  {
    if j > s + 1 {
      StatsDegenerate(p, s, e, j - 1);
    }
  }

  /** The tests a balanced node must pass to stay diagonal: both sides used, the
      largest deviation at most sqrt 2 (max_dev > M_SQRT2 squared out, exact on
      integers), and below level 1 an average deviation of at most 1e-8 of the
      chord length. */
  predicate DiagonalTests(g: Geometry, st: Stats, a: Point, b: Point) {
    st.alternating && st.plus > 0 && st.minus > 0 && a != b &&
    st.maxDev * st.maxDev <= 2 * Len2(a, b) &&
    (g.route >= 1 || Abs(st.sum) as real <= 0.00000001 * Len2(a, b) as real)
  }

  // ---------------------------------------------------------------------------
  // The path tree
  // ---------------------------------------------------------------------------

  /** A node of struct polyline_tree; len and air_len, which nothing reads back,
      are left out. */
  datatype Tree = Tree(start: nat, end: nat, level: nat, components: nat,
                       plus: nat, minus: nat, diagonal: bool, direct: int, sig: real,
                       left: Option<Tree>, right: Option<Tree>)

  /** Both children or none, the children covering the parent contiguously. */
  predicate Split(t: Tree)
    decreases t
  {
    t.start < t.end && t.left.Some? == t.right.Some? &&
    (t.left.Some? ==>
      t.left.value.start == t.start && t.left.value.end == t.right.value.start &&
      t.right.value.end == t.end && t.start < t.left.value.end < t.end &&
      Split(t.left.value) && Split(t.right.value))
  }

  /** A split tree over a polyline of n points. */
  predicate Shaped(t: Tree, n: nat) {
    Split(t) && t.end < n
  }

  /** The node polyline_tree0 builds for the points s .. e of p at depth lvl. */
  function TreeOf(g: Geometry, p: seq<Point>, s: nat, e: nat, lvl: nat): (r: Tree)
    requires GeomOk(g) && s < e < |p|
    ensures r.start == s && r.end == e && Split(r)
    decreases e - s
  {
    if e == s + 1 then Tree(s, e, lvl, 1, 0, 0, true, 0, 0.0, None, None)
    else
      var st := StatsTo(p, s, e, e);
      var diag := DiagonalTests(g, st, p[s], p[e]);
      var direct := if diag && !Crosses(g, p[s], p[e]) then (if g.holeClose(p[s], p[e]) then -1 else 1) else 0;
      var node := Tree(s, e, lvl, e - s - 1, st.plus, st.minus, diag && direct != -1, direct, g.sig(p, s, e), None, None);
      if direct == 1 || st.pmax.None? then node
      else
        node.(left := Some(TreeOf(g, p, s, st.pmax.value, lvl + 1)),
              right := Some(TreeOf(g, p, st.pmax.value, e, lvl + 1)))
  }

  /** A node over two consecutive points is a leaf: one component, balanced,
      undecided, no children. */
  lemma TreeLeaf(g: Geometry, p: seq<Point>, s: nat, lvl: nat)
    requires GeomOk(g) && s + 1 < |p|
    ensures var t := TreeOf(g, p, s, s + 1, lvl);
      t.components == 1 && t.plus == 0 && t.minus == 0 && t.diagonal && t.direct == 0 &&
      t.left.None? && t.right.None?
  {
  }

  /** A node with interior points counts them as components, plus those with
      positive deviation and minus the others. */
  lemma TreeCounts(g: Geometry, p: seq<Point>, s: nat, e: nat, lvl: nat)
    requires GeomOk(g) && s + 1 < e < |p|
    ensures var t := TreeOf(g, p, s, e, lvl);
      t.components == e - s - 1 &&
      t.plus == multiset(Sides(p, s, e, e))[true] && t.minus == multiset(Sides(p, s, e, e))[false]
  {
    StatsCounts(p, s, e, e);
  }

  /** A node with interior points that ends diagonal was balanced at every
      prefix of its interior and has points on both sides of its chord. */
  lemma TreeDiagonal(g: Geometry, p: seq<Point>, s: nat, e: nat, lvl: nat)
    requires GeomOk(g) && s + 1 < e < |p| && TreeOf(g, p, s, e, lvl).diagonal
    ensures forall i :: s < i <= e ==> Abs(StatsTo(p, s, e, i).plus - StatsTo(p, s, e, i).minus) <= 1
    ensures TreeOf(g, p, s, e, lvl).plus > 0 && TreeOf(g, p, s, e, lvl).minus > 0
  {
    StatsAlternating(p, s, e, e);
  }

  /** A node is split exactly when its chord was not accepted and has positive
      length; the split point m is the last interior point of largest
      |deviation|, and the children are the nodes over s .. m and m .. e one
      level deeper, both strictly shorter. */
  lemma TreeSplit(g: Geometry, p: seq<Point>, s: nat, e: nat, lvl: nat)
    requires GeomOk(g) && s + 1 < e < |p|
    ensures var t := TreeOf(g, p, s, e, lvl);
      t.left.Some? <==> t.direct != 1 && p[s] != p[e]
    ensures var t := TreeOf(g, p, s, e, lvl);
      t.left.Some? ==>
        var m := t.left.value.end;
        s < m < e &&
        (forall k :: s < k < e ==> Abs(Cross(p[s], p[e], p[k])) <= Abs(Cross(p[s], p[e], p[m]))) &&
        (forall k :: m < k < e ==> Abs(Cross(p[s], p[e], p[k])) < Abs(Cross(p[s], p[e], p[m]))) &&
        t.left.value == TreeOf(g, p, s, m, lvl + 1) && t.right.value == TreeOf(g, p, m, e, lvl + 1)
  {
    if p[s] != p[e] {
      StatsFar(p, s, e, e);
    } else {
      StatsDegenerate(p, s, e, e);
    }
  }

  /** A node is diagonal and accepted (direct = 1) only when its chord is clear
      of copper and of every hole; an accepted node is never split. */
  lemma TreeDirect(g: Geometry, p: seq<Point>, s: nat, e: nat, lvl: nat)
    requires GeomOk(g) && s + 1 < e < |p|
    ensures var t := TreeOf(g, p, s, e, lvl);
      (t.direct == 1 <==>
        DiagonalTests(g, StatsTo(p, s, e, e), p[s], p[e]) && !Crosses(g, p[s], p[e]) && !g.holeClose(p[s], p[e])) &&
      (t.direct == 1 ==> t.diagonal && t.left.None?) &&
      (t.direct == -1 ==> !t.diagonal)
  {
  }

  /** The loop of polyline_tree0 over the interior points s+1 .. e-1. */
  method Survey(p: seq<Point>, s: nat, e: nat) returns (st: Stats, components: nat)
    requires s + 1 < e < |p|
    ensures st == StatsTo(p, s, e, e) && components == e - s - 1
  {
    var a, b := p[s], p[e];
    var plus, minus, alternating, maxDev, sum := 0, 0, true, 0, 0;
    var pmax: Option<nat> := None;
    components := 0;
    var k := s + 1;
    while k != e
      invariant s < k <= e
      invariant Stats(plus, minus, alternating, maxDev, pmax, sum) == StatsTo(p, s, e, k)
      invariant components == k - s - 1
      decreases e - k
    {
      var dev := Cross(a, b, p[k]);
      if Above(a, b, p[k]) {
        plus := plus + 1;
      } else {
        minus := minus + 1;
      }
      if Abs(plus - minus) > 1 {
        alternating := false;
      }
      sum := sum + dev;
      if a != b && Abs(dev) >= maxDev {
        maxDev, pmax := Abs(dev), Some(k);
      }
      components := components + 1;
      k := k + 1;
    }
    st := Stats(plus, minus, alternating, maxDev, pmax, sum);
  }

  /** polyline_tree0: builds the node over s .. e and, unless its chord was
      accepted or no point could split it, the two subtrees. */
  method Build(g: Geometry, p: seq<Point>, s: nat, e: nat, lvl: nat) returns (t: Tree)
    requires GeomOk(g) && s < e < |p|
    ensures t == TreeOf(g, p, s, e, lvl)
    decreases e - s
  {
    if e == s + 1 {
      return Tree(s, e, lvl, 1, 0, 0, true, 0, 0.0, None, None);
    }
    var st, components := Survey(p, s, e);
    var diagonal := DiagonalTests(g, st, p[s], p[e]);
    var direct := 0;
    if diagonal && !Crosses(g, p[s], p[e]) {
      direct := 1;
      if g.holeClose(p[s], p[e]) {
        direct := -1;
      }
      if direct != 1 {
        diagonal := false;
      }
    }
    t := Tree(s, e, lvl, components, st.plus, st.minus, diagonal, direct, g.sig(p, s, e), None, None);
    if direct == 1 || st.pmax.None? {
      return;
    }
    var left := Build(g, p, s, st.pmax.value, lvl + 1);
    var right := Build(g, p, st.pmax.value, e, lvl + 1);
    t := t.(left := Some(left), right := Some(right));
  }

  // ---------------------------------------------------------------------------
  // Splicing chords into the polylines
  // ---------------------------------------------------------------------------

  /** The indices strictly between s and e. */
  function Between(s: nat, e: nat): (r: set<nat>)
    ensures forall k :: k in r <==> s < k < e
    decreases e
  {
    if e <= s + 1 then {} else Between(s, e - 1) + {e - 1}
  }

  /** b is the successor of a in the point list once the points in `gone` are
      spliced out. */
  predicate Linked(gone: set<nat>, a: nat, b: nat) {
    a < b && a !in gone && b !in gone && forall k :: a < k < b ==> k in gone
  }

  /** exclude_path_nodes: the points strictly inside the node are spliced out. */
  function ExcludePathNodes(gone: set<nat>, s: nat, e: nat): (r: set<nat>)
    ensures gone <= r && forall k :: k in r && k !in gone ==> s < k < e
  {
    gone + Between(s, e)
  }

  /** After exclude_path_nodes the end follows the start directly, and every
      other live point keeps its successor. */
  lemma ExcludeLinks(gone: set<nat>, s: nat, e: nat)
    requires s < e && s !in gone && e !in gone
    ensures Linked(ExcludePathNodes(gone, s, e), s, e)
    ensures forall a: nat, b: nat :: a != s && a !in ExcludePathNodes(gone, s, e) ==>
      (Linked(ExcludePathNodes(gone, s, e), a, b) <==> Linked(gone, a, b))
  {
    var r := ExcludePathNodes(gone, s, e);
    forall a: nat, b: nat | a != s && a !in r
      ensures Linked(r, a, b) <==> Linked(gone, a, b)
    {
      if a < s && s < b {
        assert s !in r && s !in gone;
      }
    }
  }

  /** The points of p that are still in the list, in list order. */
  function Live(p: seq<Point>, gone: set<nat>): (r: seq<Point>)
    ensures |r| <= |p|
  {
    if |p| == 0 then []
    else Live(p[..|p| - 1], gone) + (if |p| - 1 in gone then [] else [p[|p| - 1]])
  }

  /** Only interior points are ever spliced out. */
  predicate Inside(gone: set<nat>, n: nat) {
    forall k :: k in gone ==> 0 < k < n - 1
  }

  /** While only interior points are spliced out, the list still starts at the
      polyline's first point and ends at its last one. */
  lemma {:induction false} LiveEnds(p: seq<Point>, gone: set<nat>)
    requires |p| >= 2 && Inside(gone, |p|)
    ensures |Live(p, gone)| >= 2
    ensures Live(p, gone)[0] == p[0] && Live(p, gone)[|Live(p, gone)| - 1] == p[|p| - 1]
  {
    LiveFirst(p[..|p| - 1], gone);
  }

  lemma {:induction false} LiveFirst(p: seq<Point>, gone: set<nat>)
    requires |p| >= 1 && 0 !in gone
    ensures |Live(p, gone)| >= 1 && Live(p, gone)[0] == p[0]
  {
    if |p| > 1 {
      LiveFirst(p[..|p| - 1], gone);
      assert p[..|p| - 1][..|p| - 2] == p[..|p| - 2];
    }
  }

  // ---------------------------------------------------------------------------
  // The passes over a tree (traverse_tree: the node first, then its left and
  // right subtrees as the node operation left them)
  // ---------------------------------------------------------------------------

  /** Both ends of every node of t are still in the point list. */
  predicate EndsLive(t: Tree, gone: set<nat>)
    decreases t
  {
    t.start !in gone && t.end !in gone &&
    (t.left.Some? ==> EndsLive(t.left.value, gone)) &&
    (t.right.Some? ==> EndsLive(t.right.value, gone))
  }

  /** Nodes whose direct flag is not -1: the candidates still open. */
  function Active(t: Tree): nat
    decreases t
  {
    (if t.direct >= 0 then 1 else 0) +
    (if t.left.Some? then Active(t.left.value) else 0) +
    (if t.right.Some? then Active(t.right.value) else 0)
  }

  /** Some node of t is marked for replacement by its chord. */
  predicate HasDirect(t: Tree)
    decreases t
  {
    t.direct > 0 ||
    (t.left.Some? && HasDirect(t.left.value)) ||
    (t.right.Some? && HasDirect(t.right.value))
  }

  /** u is t with flags changed and perhaps some subtrees cut off, where every
      node marked -1 in t is still marked -1 in u. */
  predicate Persists(t: Tree, u: Tree)
    decreases t
  {
    u.start == t.start && u.end == t.end && (t.direct < 0 ==> u.direct < 0) &&
    (u.left.Some? ==> t.left.Some? && Persists(t.left.value, u.left.value)) &&
    (u.right.Some? ==> t.right.Some? && Persists(t.right.value, u.right.value))
  }

  /** u is t with only the direct flags changed, none of them away from -1. */
  predicate Retagged(t: Tree, u: Tree)
    decreases t
  {
    u.start == t.start && u.end == t.end && (t.direct < 0 ==> u.direct < 0) &&
    u.left.Some? == t.left.Some? && u.right.Some? == t.right.Some? &&
    (u.left.Some? ==> Retagged(t.left.value, u.left.value)) &&
    (u.right.Some? ==> Retagged(t.right.value, u.right.value))
  }

  lemma {:induction false} RetaggedKeeps(t: Tree, u: Tree, gone: set<nat>)
    requires Retagged(t, u) && Split(t)
    ensures Split(u) && Persists(t, u)
    ensures EndsLive(t, gone) ==> EndsLive(u, gone)
    decreases t
  {
    if t.left.Some? {
      RetaggedKeeps(t.left.value, u.left.value, gone);
      RetaggedKeeps(t.right.value, u.right.value, gone);
    }
  }

  /** Cutting subtrees and vetoing nodes never opens a candidate. */
  lemma {:induction false} PersistsActive(t: Tree, u: Tree)
    requires Persists(t, u)
    ensures Active(u) <= Active(t)
    decreases t
  {
    if u.left.Some? {
      PersistsActive(t.left.value, u.left.value);
    }
    if u.right.Some? {
      PersistsActive(t.right.value, u.right.value);
    }
  }

  /** holeToLine: the node is vetoed when a hole lies too close to its chord. */
  function HoleToLine(g: Geometry, p: seq<Point>, t: Tree): (r: Tree)
    requires t.start < |p| && t.end < |p|
    ensures r == t.(direct := r.direct)
    ensures r.direct == t.direct || r.direct == -1
  {
    if g.holeClose(p[t.start], p[t.end]) then t.(direct := -1) else t
  }

  /** traverse_tree(holeToLine) */
  function HolePass(g: Geometry, p: seq<Point>, t: Tree): (r: Tree)
    requires Shaped(t, |p|)
    decreases t
  {
    var n := HoleToLine(g, p, t);
    if t.left.None? then n
    else n.(left := Some(HolePass(g, p, t.left.value)), right := Some(HolePass(g, p, t.right.value)))
  }

  /** holeToLine only ever vetoes: every node keeps its flag or gets -1, and
      the shape is unchanged. */
  lemma {:induction false} HolePassVetoes(g: Geometry, p: seq<Point>, t: Tree)
    requires Shaped(t, |p|)
    ensures Retagged(t, HolePass(g, p, t))
    ensures HolePass(g, p, t).direct == t.direct || HolePass(g, p, t).direct == -1
    decreases t
  {
    if t.left.Some? {
      HolePassVetoes(g, p, t.left.value);
      HolePassVetoes(g, p, t.right.value);
    }
  }

  /** check_line for the node t of polyline i, with c the polyline's
      optimized_count: a vetoed node is left alone; a chord across copper is
      vetoed; otherwise the node is marked when (above level 2) its signal is
      below the sum of its children's, and marked and counted when the chord
      keeps its distance to the other polylines. */
  function CheckLine(g: Geometry, pts: seq<seq<Point>>, gone: seq<set<nat>>, i: nat, c: int, t: Tree): (r: (int, Tree))
    requires GeomOk(g) && i < |pts| && t.start < |pts[i]| && t.end < |pts[i]|
    ensures r.1 == t.(direct := r.1.direct)
    ensures t.direct < 0 ==> r == (c, t)
    ensures r.1.direct == t.direct || r.1.direct == -1 || r.1.direct == 1
    ensures r.0 == c || (r.0 == t.components > c && r.1.direct == 1)
  {
    var p := pts[i];
    if t.direct < 0 then (c, t)
    else if Crosses(g, p[t.start], p[t.end]) then (c, t.(direct := -1))
    else
      var d := if t.left.Some? && t.right.Some? && g.route > 2 && t.sig < t.right.value.sig + t.left.value.sig
               then 1 else t.direct;
      if g.keeps(pts, gone, i, t.start, t.end) then (Max(c, t.components), t.(direct := 1))
      else (c, t.(direct := d))
  }

  /** traverse_tree(check_line) over the tree of polyline i. */
  function CheckPass(g: Geometry, pts: seq<seq<Point>>, gone: seq<set<nat>>, i: nat, c: int, t: Tree): (r: (int, Tree))
    requires GeomOk(g) && i < |pts| && Shaped(t, |pts[i]|)
    decreases t
  {
    var n := CheckLine(g, pts, gone, i, c, t);
    if t.left.None? then n
    else
      var l := CheckPass(g, pts, gone, i, n.0, t.left.value);
      var r := CheckPass(g, pts, gone, i, l.0, t.right.value);
      (r.0, n.1.(left := Some(l.1), right := Some(r.1)))
  }

  /** A check pass never lifts a veto and never lowers the count; when it
      raises the count, the node that raised it is still marked at the end. */
  lemma {:induction false} CheckPassFacts(g: Geometry, pts: seq<seq<Point>>, gone: seq<set<nat>>, i: nat, c: int, t: Tree)
    requires GeomOk(g) && i < |pts| && Shaped(t, |pts[i]|)
    ensures Retagged(t, CheckPass(g, pts, gone, i, c, t).1)
    ensures CheckPass(g, pts, gone, i, c, t).0 >= c
    ensures CheckPass(g, pts, gone, i, c, t).0 > c ==> HasDirect(CheckPass(g, pts, gone, i, c, t).1)
    decreases t
  {
    var n := CheckLine(g, pts, gone, i, c, t);
    if t.left.Some? {
      CheckPassFacts(g, pts, gone, i, n.0, t.left.value);
      var l := CheckPass(g, pts, gone, i, n.0, t.left.value);
      CheckPassFacts(g, pts, gone, i, l.0, t.right.value);
    }
  }

  /** check_line decides a node it has already checked the same way: the
      count it reaches does not change. */
  lemma CheckLineStable(g: Geometry, pts: seq<seq<Point>>, gone: seq<set<nat>>, i: nat, c: int, t: Tree, u: Tree)
    requires GeomOk(g) && i < |pts| && t.start < |pts[i]| && t.end < |pts[i]|
    requires u.start == t.start && u.end == t.end && u.components == t.components
    requires u.direct == CheckLine(g, pts, gone, i, c, t).1.direct
    ensures CheckLine(g, pts, gone, i, c, u).0 == CheckLine(g, pts, gone, i, c, t).0
  {
  }

  /** A second check pass over a checked tree, with the polylines unchanged,
      raises the count exactly as far as the first did. */
  lemma {:induction false} CheckPassStable(g: Geometry, pts: seq<seq<Point>>, gone: seq<set<nat>>, i: nat, c: int, t: Tree)
    requires GeomOk(g) && i < |pts| && Shaped(t, |pts[i]|)
    ensures Shaped(CheckPass(g, pts, gone, i, c, t).1, |pts[i]|)
    ensures CheckPass(g, pts, gone, i, c, CheckPass(g, pts, gone, i, c, t).1).0 == CheckPass(g, pts, gone, i, c, t).0
    decreases t
  {
    var u := CheckPass(g, pts, gone, i, c, t).1;
    CheckPassFacts(g, pts, gone, i, c, t);
    RetaggedKeeps(t, u, {});
    var n := CheckLine(g, pts, gone, i, c, t);
    CheckLineStable(g, pts, gone, i, c, t, u);
    if t.left.Some? {
      var l := CheckPass(g, pts, gone, i, n.0, t.left.value);
      CheckPassStable(g, pts, gone, i, n.0, t.left.value);
      CheckPassStable(g, pts, gone, i, l.0, t.right.value);
    }
  }

  /** The count and tree check_line leaves on the tree t of polyline i, the
      count starting from 0. */
  function Checked(g: Geometry, pts: seq<seq<Point>>, gone: seq<set<nat>>, i: nat, t: Tree): (r: (int, Tree))
    requires GeomOk(g) && i < |pts| && Shaped(t, |pts[i]|)
    ensures Shaped(r.1, |pts[i]|)
  {
    CheckPassFacts(g, pts, gone, i, 0, t);
    RetaggedKeeps(t, CheckPass(g, pts, gone, i, 0, t).1, {});
    CheckPass(g, pts, gone, i, 0, t)
  }

  /** exclude_tree: the subtrees are dropped. */
  function ExcludeTree(t: Tree): (r: Tree)
    ensures r.left.None? && r.right.None? && r == t.(left := None, right := None)
  {
    t.(left := None, right := None)
  }

  /** exclude_direct: a marked node has its interior spliced out (exclude_path),
      loses its subtrees and is vetoed; any other node is left alone. */
  function ExcludeDirect(gone: set<nat>, t: Tree): (r: (set<nat>, Tree))
    ensures t.direct <= 0 ==> r == (gone, t)
    ensures t.direct > 0 ==> r.1.direct == -1 && r.1.left.None? && r.1.start == t.start && r.1.end == t.end
  {
    if t.direct > 0 then (ExcludePathNodes(gone, t.start, t.end), ExcludeTree(t).(direct := -1))
    else (gone, t)
  }

  /** traverse_tree(exclude_direct) */
  function ExcludePass(gone: set<nat>, t: Tree): (r: (set<nat>, Tree))
    requires Split(t)
    decreases t
  {
    var n := ExcludeDirect(gone, t);
    if n.1.left.None? then n
    else
      var l := ExcludePass(n.0, t.left.value);
      var r := ExcludePass(l.0, t.right.value);
      (r.0, n.1.(left := Some(l.1), right := Some(r.1)))
  }

  /** The exclusion pass keeps the tree split, keeps every node's ends in the
      list, splices out only points strictly inside t, and leaves no node
      marked. */
  lemma {:induction false} ExcludePassSound(gone: set<nat>, t: Tree)
    requires Split(t) && EndsLive(t, gone)
    ensures var r := ExcludePass(gone, t);
      Split(r.1) && EndsLive(r.1, r.0) && Persists(t, r.1) && !HasDirect(r.1) &&
      gone <= r.0 && (forall k :: k in r.0 && k !in gone ==> t.start < k < t.end)
    decreases t
  {
    if t.direct <= 0 && t.left.Some? {
      var l := ExcludePass(gone, t.left.value);
      ExcludePassSound(gone, t.left.value);
      EndsLiveAdd(t.right.value, gone, l.0);
      ExcludePassSound(l.0, t.right.value);
      var r := ExcludePass(l.0, t.right.value);
      EndsLiveAdd(l.1, l.0, r.0);
    }
  }

  /** Splicing out points outside a subtree's range keeps its ends live. */
  lemma {:induction false} EndsLiveAdd(t: Tree, gone: set<nat>, more: set<nat>)
    requires Split(t) && EndsLive(t, gone) && gone <= more
    requires forall k :: k in more && k !in gone ==> k < t.start || t.end < k
    ensures EndsLive(t, more)
    decreases t
  {
    if t.left.Some? {
      EndsLiveAdd(t.left.value, gone, more);
      EndsLiveAdd(t.right.value, gone, more);
    }
  }

  /** A pass over a tree with a marked node closes at least one candidate. */
  lemma {:induction false} ExcludePassShrinks(gone: set<nat>, t: Tree)
    requires Split(t) && HasDirect(t)
    ensures Active(ExcludePass(gone, t).1) < Active(t)
    decreases t
  {
    if t.direct <= 0 {
      var l := ExcludePass(gone, t.left.value);
      if HasDirect(t.left.value) {
        ExcludePassShrinks(gone, t.left.value);
        ExcludePassPersists(l.0, t.right.value);
        PersistsActive(t.right.value, ExcludePass(l.0, t.right.value).1);
      } else {
        ExcludePassPersists(gone, t.left.value);
        PersistsActive(t.left.value, l.1);
        ExcludePassShrinks(l.0, t.right.value);
      }
    }
  }

  lemma {:induction false} ExcludePassPersists(gone: set<nat>, t: Tree)
    requires Split(t)
    ensures Persists(t, ExcludePass(gone, t).1)
    decreases t
  {
    if t.direct <= 0 && t.left.Some? {
      var l := ExcludePass(gone, t.left.value);
      ExcludePassPersists(gone, t.left.value);
      ExcludePassPersists(l.0, t.right.value);
    }
  }

  /** On a tree with no marked node the pass changes nothing. */
  lemma {:induction false} ExcludePassIdle(gone: set<nat>, t: Tree)
    requires Split(t) && !HasDirect(t)
    ensures ExcludePass(gone, t) == (gone, t)
    decreases t
  {
    if t.left.Some? {
      ExcludePassIdle(gone, t.left.value);
      ExcludePassIdle(gone, t.right.value);
    }
  }

  /** exclude_direct acts only on marked nodes and vetoes them, so a second
      pass changes nothing. */
  lemma ExcludePassIdempotent(gone: set<nat>, t: Tree)
    requires Split(t) && EndsLive(t, gone)
    ensures var r := ExcludePass(gone, t); Split(r.1) && ExcludePass(r.0, r.1) == r
  {
    ExcludePassSound(gone, t);
    var r := ExcludePass(gone, t);
    ExcludePassIdle(r.0, r.1);
  }

  // ---------------------------------------------------------------------------
  // The optimiser state
  // ---------------------------------------------------------------------------

  /** A polyline the optimiser can work on: at least two points, of which only
      interior ones have been spliced out. */
  predicate Ready(p: seq<Point>, gone: set<nat>) {
    |p| >= 2 && Inside(gone, |p|)
  }

  /** The tree of a polyline: split, spanning the whole polyline, with the ends
      of every node still in the list. */
  predicate Rooted(t: Tree, gone: set<nat>, n: nat) {
    Shaped(t, n) && t.start == 0 && t.end == n - 1 && EndsLive(t, gone)
  }

  lemma {:induction false} EndsLiveNone(t: Tree)
    ensures EndsLive(t, {})
    decreases t
  {
    if t.left.Some? {
      EndsLiveNone(t.left.value);
    }
    if t.right.Some? {
      EndsLiveNone(t.right.value);
    }
  }

  /** The exclusion pass keeps a polyline and its tree in good order. */
  lemma ExcludeSound(p: seq<Point>, gone: set<nat>, t: Tree)
    requires Ready(p, gone) && Rooted(t, gone, |p|)
    ensures Ready(p, ExcludePass(gone, t).0) && Rooted(ExcludePass(gone, t).1, ExcludePass(gone, t).0, |p|)
  {
    ExcludePassSound(gone, t);
  }

  /** The candidates still open over all trees: the measure of the round loop. */
  function TotalActive(ts: seq<Tree>): nat {
    if |ts| == 0 then 0 else TotalActive(ts[..|ts| - 1]) + Active(ts[|ts| - 1])
  }

  /** Closing candidates tree by tree lowers the total, strictly when one tree
      loses one. */
  lemma {:induction false} TotalActiveBelow(ts: seq<Tree>, us: seq<Tree>, k: int)
    requires |ts| == |us| && forall i :: 0 <= i < |ts| ==> Active(us[i]) <= Active(ts[i])
    ensures TotalActive(us) <= TotalActive(ts)
    ensures 0 <= k < |ts| && Active(us[k]) < Active(ts[k]) ==> TotalActive(us) < TotalActive(ts)
  {
    if |ts| > 0 {
      TotalActiveBelow(ts[..|ts| - 1], us[..|us| - 1], k);
    }
  }

  /** The polyline_tree fields of every polyline, with the count that
      check_line raises, and the point lists they modify. */
  class Optimiser {
    const g: Geometry
    const pts: seq<seq<Point>>
    var gone: seq<set<nat>>
    var trees: seq<Tree>
    var counts: seq<int>

    ghost predicate Valid()
      reads this
    {
      GeomOk(g) && |gone| == |pts| && |counts| == |pts| &&
      (forall i :: 0 <= i < |pts| ==> Ready(pts[i], gone[i]) && counts[i] >= 0) &&
      (|trees| == |pts| ==> forall i :: 0 <= i < |pts| ==> Rooted(trees[i], gone[i], |pts[i]|))
    }

    /** Every polyline whole, no tree yet, every optimized_count 0 (the
        polylines are allocated zeroed). */
    constructor(g: Geometry, pts: seq<seq<Point>>)
      requires GeomOk(g) && forall i :: 0 <= i < |pts| ==> |pts[i]| >= 2
      ensures Valid() && this.g == g && this.pts == pts && trees == []
      ensures |gone| == |pts| && forall i :: 0 <= i < |pts| ==> gone[i] == {} && counts[i] == 0
    {
      this.g, this.pts := g, pts;
      gone := seq(|pts|, i => {});
      counts := seq(|pts|, i => 0);
      trees := [];
    }

    /** polyline_tree: the tree of every polyline, from its first point to its
        last. */
    method BuildTrees()
      requires Valid() && forall i :: 0 <= i < |pts| ==> gone[i] == {}
      modifies this
      ensures Valid() && gone == old(gone) && counts == old(counts) && |trees| == |pts|
      ensures forall i :: 0 <= i < |pts| ==> trees[i] == TreeOf(g, pts[i], 0, |pts[i]| - 1, 0)
    {
      var ts: seq<Tree> := [];
      for i := 0 to |pts|
        invariant |ts| == i && gone == old(gone) && counts == old(counts) && trees == old(trees)
        invariant forall j :: 0 <= j < i ==> ts[j] == TreeOf(g, pts[j], 0, |pts[j]| - 1, 0)
      {
        var t := Build(g, pts[i], 0, |pts[i]| - 1, 0);
        ts := ts + [t];
      }
      trees := ts;
      forall i | 0 <= i < |pts|
        ensures Rooted(trees[i], gone[i], |pts[i]|)
      {
        EndsLiveNone(trees[i]);
      }
    }

    /** traverse_tree(exclude_direct) over every polyline's tree. */
    method ExcludeAll()
      requires Valid() && |trees| == |pts|
      modifies this
      ensures Valid() && counts == old(counts) && |trees| == |pts|
      ensures forall i :: 0 <= i < |pts| ==>
        gone[i] == ExcludePass(old(gone)[i], old(trees)[i]).0 && trees[i] == ExcludePass(old(gone)[i], old(trees)[i]).1
      ensures forall i :: 0 <= i < |pts| ==> !HasDirect(trees[i])
    {
      for i := 0 to |pts|
        invariant Valid() && counts == old(counts) && |trees| == |pts|
        invariant forall j :: 0 <= j < i ==>
          gone[j] == ExcludePass(old(gone)[j], old(trees)[j]).0 && trees[j] == ExcludePass(old(gone)[j], old(trees)[j]).1
        invariant forall j :: 0 <= j < i ==> !HasDirect(trees[j])
        invariant forall j :: i <= j < |pts| ==> gone[j] == old(gone)[j] && trees[j] == old(trees)[j]
      {
        ExcludeOne(i);
      }
    }

    /** traverse_tree(exclude_direct) over the tree of polyline k. */
    method ExcludeOne(k: nat)
      requires Valid() && |trees| == |pts| && k < |pts|
      modifies this
      ensures Valid() && counts == old(counts) && |trees| == |pts|
      ensures gone == old(gone)[k := ExcludePass(old(gone)[k], old(trees)[k]).0]
      ensures trees == old(trees)[k := ExcludePass(old(gone)[k], old(trees)[k]).1]
      ensures !HasDirect(trees[k]) && Persists(old(trees)[k], trees[k])
    {
      var r := ExcludePass(gone[k], trees[k]);
      ExcludeSound(pts[k], gone[k], trees[k]);
      ExcludePassSound(gone[k], trees[k]);
      gone := gone[k := r.0];
      trees := trees[k := r.1];
    }

    /** traverse_tree(holeToLine) over every polyline's tree. */
    method HoleAll()
      requires Valid() && |trees| == |pts|
      modifies this
      ensures Valid() && gone == old(gone) && counts == old(counts) && |trees| == |pts|
      ensures forall i :: 0 <= i < |pts| ==> trees[i] == HolePass(g, pts[i], old(trees)[i])
      ensures forall i :: 0 <= i < |pts| ==> Retagged(old(trees)[i], trees[i])
    {
      for i := 0 to |pts|
        invariant Valid() && gone == old(gone) && counts == old(counts) && |trees| == |pts|
        invariant forall j :: 0 <= j < i ==> trees[j] == HolePass(g, pts[j], old(trees)[j])
        invariant forall j :: 0 <= j < i ==> Retagged(old(trees)[j], trees[j])
        invariant forall j :: i <= j < |pts| ==> trees[j] == old(trees)[j]
      {
        HoleOne(i);
      }
    }

    method HoleOne(k: nat)
      requires Valid() && |trees| == |pts| && k < |pts|
      modifies this
      ensures Valid() && gone == old(gone) && counts == old(counts) && |trees| == |pts|
      ensures trees == old(trees)[k := HolePass(g, pts[k], old(trees)[k])]
      ensures Retagged(old(trees)[k], trees[k])
    {
      HolePassVetoes(g, pts[k], trees[k]);
      RetaggedKeeps(trees[k], HolePass(g, pts[k], trees[k]), gone[k]);
      trees := trees[k := HolePass(g, pts[k], trees[k])];
    }

    /** traverse_tree(check_line) over every polyline's tree. */
    method CheckAll()
      requires Valid() && |trees| == |pts|
      modifies this
      ensures Valid() && gone == old(gone) && |trees| == |pts|
      ensures forall i :: 0 <= i < |pts| ==>
        counts[i] == CheckPass(g, pts, gone, i, old(counts)[i], old(trees)[i]).0 &&
        trees[i] == CheckPass(g, pts, gone, i, old(counts)[i], old(trees)[i]).1
      ensures forall i :: 0 <= i < |pts| ==>
        Active(trees[i]) <= Active(old(trees)[i]) && counts[i] >= old(counts)[i] &&
        (counts[i] > old(counts)[i] ==> HasDirect(trees[i]))
    {
      for i := 0 to |pts|
        invariant Valid() && gone == old(gone) && |trees| == |pts| && |counts| == |pts|
        invariant forall j :: 0 <= j < i ==>
          counts[j] == CheckPass(g, pts, gone, j, old(counts)[j], old(trees)[j]).0 &&
          trees[j] == CheckPass(g, pts, gone, j, old(counts)[j], old(trees)[j]).1
        invariant forall j :: 0 <= j < i ==>
          Active(trees[j]) <= Active(old(trees)[j]) && counts[j] >= old(counts)[j] &&
          (counts[j] > old(counts)[j] ==> HasDirect(trees[j]))
        invariant forall j :: i <= j < |pts| ==> counts[j] == old(counts)[j] && trees[j] == old(trees)[j]
      {
        CheckOne(i);
      }
    }

    method CheckOne(k: nat)
      requires Valid() && |trees| == |pts| && k < |pts|
      modifies this
      ensures Valid() && gone == old(gone) && |trees| == |pts| && |counts| == |pts|
      ensures counts == old(counts)[k := CheckPass(g, pts, gone, k, old(counts)[k], old(trees)[k]).0]
      ensures trees == old(trees)[k := CheckPass(g, pts, gone, k, old(counts)[k], old(trees)[k]).1]
      ensures Active(trees[k]) <= Active(old(trees)[k]) && counts[k] >= old(counts)[k]
      ensures counts[k] > old(counts)[k] ==> HasDirect(trees[k])
    {
      var r := CheckPass(g, pts, gone, k, counts[k], trees[k]);
      CheckPassFacts(g, pts, gone, k, counts[k], trees[k]);
      RetaggedKeeps(trees[k], r.1, gone[k]);
      PersistsActive(trees[k], r.1);
      counts := counts[k := r.0];
      trees := trees[k := r.1];
    }

    /** The reset loop at the end of a round. */
    method ResetCounts()
      requires Valid()
      modifies this
      ensures Valid() && gone == old(gone) && trees == old(trees)
      ensures forall i :: 0 <= i < |counts| ==> counts[i] == 0
    {
      for i := 0 to |counts|
        invariant Valid() && gone == old(gone) && trees == old(trees)
        invariant forall j :: 0 <= j < i ==> counts[j] == 0
      {
        counts := counts[i := 0];
      }
    }

    /** optim: nothing below level 0; the trees and the diagonal pass below
        level 2; above that, after the hole vetoes, rounds that each check
        every tree and splice the marked chords of the polyline with the
        largest count, until no count is raised. */
    method Run()
      requires Valid() && trees == []
      requires forall i :: 0 <= i < |pts| ==> gone[i] == {} && counts[i] == 0
      modifies this
      ensures Valid()
      ensures g.route < 0 ==> trees == [] && gone == old(gone) && counts == old(counts)
      ensures g.route >= 0 ==> |trees| == |pts|
      ensures 0 <= g.route < 2 ==> forall i :: 0 <= i < |pts| ==>
        gone[i] == ExcludePass({}, TreeOf(g, pts[i], 0, |pts[i]| - 1, 0)).0 &&
        trees[i] == ExcludePass({}, TreeOf(g, pts[i], 0, |pts[i]| - 1, 0)).1 &&
        !HasDirect(trees[i])
      ensures g.route >= 2 ==> forall i :: 0 <= i < |pts| ==> counts[i] == 0
      ensures g.route >= 2 ==> forall i :: 0 <= i < |pts| ==> Checked(g, pts, gone, i, trees[i]).0 <= 0
    {
      if g.route < 0 {
        return;
      }
      BuildTrees();
      ExcludeAll();
      if g.route < 2 {
        return;
      }
      HoleAll();
      var done := false;
      while !done
        invariant Valid() && |trees| == |pts|
        invariant forall i :: 0 <= i < |pts| ==> counts[i] == 0
        invariant done ==> forall i :: 0 <= i < |pts| ==> Checked(g, pts, gone, i, trees[i]).0 <= 0
        decreases !done, TotalActive(trees)
      {
        ghost var ts := trees;
        var pick := Round();
        done := pick.None?;
        if done {
          forall i | 0 <= i < |pts|
            ensures Checked(g, pts, gone, i, trees[i]).0 <= 0
          {
            CheckPassStable(g, pts, gone, i, 0, ts[i]);
          }
        }
      }
    }

    /** The count and tree check_line leaves for every polyline, each count
        starting from 0. */
    ghost function Checks(): (r: seq<(int, Tree)>)
      reads this
      requires Valid() && |trees| == |pts|
      ensures |r| == |pts| && forall i :: 0 <= i < |pts| ==> r[i] == Checked(g, pts, gone, i, trees[i])
    {
      var gs, ts := gone, trees;
      seq(|pts|, i requires 0 <= i < |pts| => Checked(g, pts, gs, i, ts[i]))
    }

    /** One pass of the for(;;) loop of optim: check every tree, pick the
        polyline with the largest count (ps_max), splice the marked chords of
        its tree and reset the counts; none is picked when no count was
        raised, and then only the check pass has changed the trees. A round
        that picks one closes at least one candidate. */
    method Round() returns (pick: Option<nat>)
      requires Valid() && |trees| == |pts|
      requires forall i :: 0 <= i < |pts| ==> counts[i] == 0
      modifies this
      ensures Valid() && |trees| == |pts|
      ensures forall i :: 0 <= i < |pts| ==> counts[i] == 0
      ensures var c := old(Checks());
        pick.None? <==> forall i :: 0 <= i < |pts| ==> c[i].0 <= 0
      ensures var c := old(Checks());
        pick.Some? ==> (
          pick.value < |pts| && c[pick.value].0 > 0 &&
          (forall i :: 0 <= i < |pts| ==> c[i].0 <= c[pick.value].0) &&
          (forall i :: 0 <= i < pick.value ==> c[i].0 < c[pick.value].0))
      ensures var c := old(Checks());
        pick.None? ==> gone == old(gone) && forall i :: 0 <= i < |pts| ==> trees[i] == c[i].1
      ensures var c := old(Checks());
        pick.Some? && pick.value < |pts| ==>
        var k := pick.value;
        gone == old(gone)[k := ExcludePass(old(gone)[k], c[k].1).0] &&
        trees[k] == ExcludePass(old(gone)[k], c[k].1).1 &&
        forall i :: 0 <= i < |pts| && i != k ==> trees[i] == c[i].1
      ensures pick.Some? ==> TotalActive(trees) < TotalActive(old(trees))
    {
      pick := CheckAndPick();
      if pick.None? {
        return;
      }
      Splice(pick.value);
    }

    /** The check pass of a round and the choice of ps_max. */
    method CheckAndPick() returns (pick: Option<nat>)
      requires Valid() && |trees| == |pts|
      requires forall i :: 0 <= i < |pts| ==> counts[i] == 0
      modifies this
      ensures Valid() && |trees| == |pts| && gone == old(gone)
      ensures var c := old(Checks());
        forall i :: 0 <= i < |pts| ==> counts[i] == c[i].0 && trees[i] == c[i].1
      ensures TotalActive(trees) <= TotalActive(old(trees))
      ensures var c := old(Checks());
        pick.None? <==> forall i :: 0 <= i < |pts| ==> c[i].0 <= 0
      ensures var c := old(Checks());
        pick.Some? ==> (
          pick.value < |pts| && c[pick.value].0 > 0 && HasDirect(trees[pick.value]) &&
          (forall i :: 0 <= i < |pts| ==> c[i].0 <= c[pick.value].0) &&
          (forall i :: 0 <= i < pick.value ==> c[i].0 < c[pick.value].0))
    {
      ghost var before, c := trees, Checks();
      CheckAll();
      assert forall i :: 0 <= i < |pts| ==> counts[i] == c[i].0 && trees[i] == c[i].1;
      TotalActiveBelow(before, trees, -1);
      pick := PickMax(counts);
    }

    /** The end of a round that picked polyline k, whose tree holds a marked
        node: its marked chords spliced out, then every count reset. */
    method Splice(k: nat)
      requires Valid() && |trees| == |pts| && k < |pts| && HasDirect(trees[k])
      modifies this
      ensures Valid() && |trees| == |pts|
      ensures forall i :: 0 <= i < |pts| ==> counts[i] == 0
      ensures gone == old(gone)[k := ExcludePass(old(gone)[k], old(trees)[k]).0]
      ensures trees == old(trees)[k := ExcludePass(old(gone)[k], old(trees)[k]).1]
      ensures TotalActive(trees) < TotalActive(old(trees))
    {
      ghost var checked, spliced := trees, gone[k];
      ExcludeOne(k);
      ExcludePassShrinks(spliced, checked[k]);
      TotalActiveBelow(checked, trees, k);
      ResetCounts();
    }
  }

  /** The selection of a round: the first polyline with the strictly greatest
      positive count, or none when every count is 0. */
  method PickMax(counts: seq<int>) returns (k: Option<nat>)
    ensures k.None? <==> forall i :: 0 <= i < |counts| ==> counts[i] <= 0
    ensures k.Some? ==> (k.value < |counts| && counts[k.value] > 0 &&
      (forall i :: 0 <= i < |counts| ==> counts[i] <= counts[k.value]) &&
      (forall i :: 0 <= i < k.value ==> counts[i] < counts[k.value]))
  {
    var max := 0;
    k := None;
    for i := 0 to |counts|
      invariant k.None? ==> max == 0 && forall j :: 0 <= j < i ==> counts[j] <= 0
      invariant k.Some? ==> (k.value < i && max == counts[k.value] > 0 &&
        (forall j :: 0 <= j < i ==> counts[j] <= max) &&
        (forall j :: 0 <= j < k.value ==> counts[j] < max))
    {
      if counts[i] > max {
        k, max := Some(i), counts[i];
      }
    }
  }
}
