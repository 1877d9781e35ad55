/** Board outline cutting: line and arc segments read from the cut file are
    stitched into chains (struct polygons), chains whose ends lie within a
    tolerance are joined, the outline is chosen by the shoelace area and every
    chain is turned to the cutting direction.

    Coordinates are doubles in the C program; here they are reals, so the
    shoelace sum and the tolerance tests are exact. */
module Cut {
  import opened Basics

  datatype Pt = Pt(x: real, y: real)

  /** struct polygon: a segment from s to e. An arc has arc = 1 or -1 (G2/G3)
      and the absolute centre c; a line has arc = 0. */
  datatype Segment = Segment(s: Pt, e: Pt, c: Pt, arc: int)

  /** struct polygons: a chain of segments, its two end points and its area. */
  datatype Chain = Chain(start: Pt, end: Pt, segs: seq<Segment>, area: real)

  function RAbs(a: real): (r: real)
    ensures r >= 0.0 && (r == a || r == -a)
  {
    if a < 0.0 then -a else a
  }

  // ---------------------------------------------------------------------------
  // Flipping segments and chains
  // ---------------------------------------------------------------------------

  /** flip_segment: the end points exchanged and the arc sense negated; the
      centre is absolute and stays. */
  function FlipSegment(p: Segment): Segment {
    Segment(p.e, p.s, p.c, -p.arc)
  }

  lemma FlipSegmentInvolution(p: Segment)
    ensures FlipSegment(FlipSegment(p)) == p
    ensures FlipSegment(p).s == p.e && FlipSegment(p).e == p.s && FlipSegment(p).c == p.c
  {
  }

  /** The segment list of flip_polygon: reversed, every segment flipped. */
  function FlipSegs(s: seq<Segment>): (r: seq<Segment>)
    ensures |r| == |s|
    ensures forall k :: 0 <= k < |s| ==> r[k] == FlipSegment(s[|s| - 1 - k])
  {
    if |s| == 0 then [] else FlipSegs(s[1..]) + [FlipSegment(s[0])]
  }

  /** flip_polygon on values: the chain run backwards. The stored area is not
      touched. */
  function Flipped(c: Chain): Chain {
    Chain(c.end, c.start, FlipSegs(c.segs), c.area)
  }

  lemma FlipSegsInvolution(s: seq<Segment>)
    ensures FlipSegs(FlipSegs(s)) == s
  {
    var r := FlipSegs(FlipSegs(s));
    forall k | 0 <= k < |s|
      ensures r[k] == s[k]
    {
      FlipSegmentInvolution(s[k]);
    }
  }

  /** flip_polygon applied twice restores the chain. */
  lemma FlippedInvolution(c: Chain)
    ensures Flipped(Flipped(c)) == c
  {
    FlipSegsInvolution(c.segs);
  }

  // ---------------------------------------------------------------------------
  // Linked chains
  // ---------------------------------------------------------------------------

  /** The join tolerance C_TOL. */
  const Tol: real := 0.0005

  /** Both coordinates closer than C_TOL. */
  predicate Near(a: Pt, b: Pt) {
    RAbs(a.x - b.x) < Tol && RAbs(a.y - b.y) < Tol
  }

  lemma NearSymmetric(a: Pt, b: Pt)
    ensures Near(a, b) <==> Near(b, a)
  {
    assert RAbs(a.x - b.x) == RAbs(b.x - a.x);
    assert RAbs(a.y - b.y) == RAbs(b.y - a.y);
  }

  /** A chain whose recorded ends are its first start and its last end, and whose
      consecutive segments meet up to the tolerance (exactly when attached by
      the segment search, within C_TOL when two chains were joined). */
  predicate Linked(c: Chain) {
    && |c.segs| > 0
    && c.start == c.segs[0].s
    && c.end == c.segs[|c.segs| - 1].e
    && forall k, j :: 0 <= k && j == k + 1 < |c.segs| ==> Near(c.segs[k].e, c.segs[j].s)
  }

  lemma FlippedLinked(c: Chain)
    requires Linked(c)
    ensures Linked(Flipped(c))
  {
    var s, r := c.segs, FlipSegs(c.segs);
    forall k, j | 0 <= k && j == k + 1 < |r|
      ensures Near(r[k].e, r[j].s)
    {
      var a, b := |s| - 1 - j, |s| - 1 - k;
      assert r[k].e == s[b].s && r[j].s == s[a].e;
      NearSymmetric(s[a].e, s[b].s);
    }
  }

  /** append on values: the segments of b after those of a; the end of b. */
  function Joined(a: Chain, b: Chain): Chain {
    Chain(a.start, b.end, a.segs + b.segs, a.area)
  }

  lemma JoinedLinked(a: Chain, b: Chain)
    requires Linked(a) && Linked(b) && Near(a.end, b.start)
    ensures Linked(Joined(a, b))
  {
    var s := a.segs + b.segs;
    forall k, j | 0 <= k && j == k + 1 < |s|
      ensures Near(s[k].e, s[j].s)
    {
      if j < |a.segs| {
        assert s[k] == a.segs[k] && s[j] == a.segs[j];
      } else if k >= |a.segs| {
        assert s[k] == b.segs[k - |a.segs|] && s[j] == b.segs[j - |a.segs|];
      }
    }
  }

  // ---------------------------------------------------------------------------
  // Attaching one segment (find_polygon)
  // ---------------------------------------------------------------------------

  /** What find_polygon does with one chain: a segment starting at the chain's
      start is flipped first; a segment ending at the start is then prepended.
      Otherwise a segment ending at the chain's end is flipped, and a segment
      starting at the end is appended. */
  function Attach(c: Chain, p: Segment): (r: Option<Chain>)
    ensures r.Some? ==> |r.value.segs| == |c.segs| + 1 && r.value.area == c.area
  {
    var q := if p.s == c.start then FlipSegment(p) else p;
    if q.e == c.start then
      Some(Chain(q.s, c.end, [q] + c.segs, c.area))
    else
      var u := if q.e == c.end then FlipSegment(q) else q;
      if u.s == c.end then Some(Chain(c.start, u.e, c.segs + [u], c.area)) else None
  }

  /** An attached segment, flipped or not, either ends at the chain's start and
      is prepended or starts at its end and is appended. */
  lemma AttachShape(c: Chain, p: Segment)
    requires Attach(c, p).Some?
    ensures var r := Attach(c, p).value;
      || (exists q :: (q == p || q == FlipSegment(p)) && q.e == c.start &&
            r == Chain(q.s, c.end, [q] + c.segs, c.area))
      || (exists q :: (q == p || q == FlipSegment(p)) && q.s == c.end &&
            r == Chain(c.start, q.e, c.segs + [q], c.area))
  {
    var q := if p.s == c.start then FlipSegment(p) else p;
    var u := if q.e == c.end then FlipSegment(q) else q;
    if q.e != c.start {
      assert u == p || u == FlipSegment(p) by { FlipSegmentInvolution(p); }
    }
  }

  /** A segment attaches to a chain exactly when one of its ends meets one of
      the chain's ends. */
  lemma AttachNoneIff(c: Chain, p: Segment)
    ensures Attach(c, p).None? <==> p.s != c.start && p.e != c.start && p.e != c.end && p.s != c.end
  {
  }

  lemma NearSelf(a: Pt)
    ensures Near(a, a)
  {
  }

  /** Attaching keeps a chain linked, exactly, and adds one segment. */
  lemma AttachLinked(c: Chain, p: Segment)
    requires Linked(c) && Attach(c, p).Some?
    ensures Linked(Attach(c, p).value) && |Attach(c, p).value.segs| == |c.segs| + 1
  {
    var q := if p.s == c.start then FlipSegment(p) else p;
    var s := Attach(c, p).value.segs;
    if q.e == c.start {
      assert s == [q] + c.segs;
      forall k, j | 0 <= k && j == k + 1 < |s|
        ensures Near(s[k].e, s[j].s)
      {
        if k == 0 {
          NearSelf(q.e);
        } else {
          assert s[k] == c.segs[k - 1] && s[j] == c.segs[j - 1];
        }
      }
    } else {
      var u := if q.e == c.end then FlipSegment(q) else q;
      assert s == c.segs + [u];
      forall k, j | 0 <= k && j == k + 1 < |s|
        ensures Near(s[k].e, s[j].s)
      {
        if j < |c.segs| {
          assert s[k] == c.segs[k] && s[j] == c.segs[j];
        } else {
          assert s[k] == c.segs[|c.segs| - 1] && s[j] == u;
          NearSelf(u.s);
        }
      }
    }
  }

  /** The position in `order` of the first chain the segment attaches to. */
  function FirstAttach(chains: map<nat, Chain>, order: seq<nat>, p: Segment): (r: Option<nat>)
    requires forall k :: 0 <= k < |order| ==> order[k] in chains
    ensures r.Some? ==> r.value < |order| && Attach(chains[order[r.value]], p).Some?
    ensures r.Some? ==> forall j :: 0 <= j < r.value ==> Attach(chains[order[j]], p).None?
    ensures r.None? ==> forall j :: 0 <= j < |order| ==> Attach(chains[order[j]], p).None?
  {
    if |order| == 0 then None
    else if Attach(chains[order[0]], p).Some? then Some(0)
    else match FirstAttach(chains, order[1..], p)
      case None => None
      case Some(k) => Some(k + 1)
  }

  // ---------------------------------------------------------------------------
  // Joining two chains (connect_polygons)
  // ---------------------------------------------------------------------------

  /** What connect_polygons does with the chain a being built and another
      chain b, in the order of its four tolerance tests. */
  function ConnectWith(a: Chain, b: Chain): Option<Chain> {
    if Near(b.start, a.end) then Some(Joined(a, b))
    else if Near(b.end, a.start) then Some(Joined(Flipped(a), Flipped(b)))
    else if Near(b.end, a.end) then Some(Joined(a, Flipped(b)))
    else if Near(b.start, a.start) then Some(Joined(Flipped(a), b))
    else None
  }

  /** Two chains join exactly when an end of one is within C_TOL of an end of
      the other; the join is linked and holds the segments of both. */
  lemma ConnectWithLinked(a: Chain, b: Chain)
    requires Linked(a) && Linked(b)
    ensures ConnectWith(a, b).None? <==>
      !Near(b.start, a.end) && !Near(b.end, a.start) && !Near(b.end, a.end) && !Near(b.start, a.start)
    ensures ConnectWith(a, b).Some? ==>
      Linked(ConnectWith(a, b).value) && |ConnectWith(a, b).value.segs| == |a.segs| + |b.segs|
  {
    FlippedLinked(a);
    FlippedLinked(b);
    if Near(b.start, a.end) {
      NearSymmetric(b.start, a.end);
      JoinedLinked(a, b);
    } else if Near(b.end, a.start) {
      NearSymmetric(b.end, a.start);
      JoinedLinked(Flipped(a), Flipped(b));
    } else if Near(b.end, a.end) {
      NearSymmetric(b.end, a.end);
      JoinedLinked(a, Flipped(b));
    } else if Near(b.start, a.start) {
      NearSymmetric(b.start, a.start);
      JoinedLinked(Flipped(a), b);
    }
  }

  /** The position in `order` of the first chain other than g that joins g. */
  function FirstConnect(chains: map<nat, Chain>, order: seq<nat>, g: nat): (r: Option<nat>)
    requires g in chains && forall k :: 0 <= k < |order| ==> order[k] in chains
    ensures r.Some? ==> r.value < |order| && order[r.value] != g
    ensures r.Some? ==> ConnectWith(chains[g], chains[order[r.value]]).Some?
    ensures r.Some? ==> forall j :: 0 <= j < r.value && order[j] != g ==> ConnectWith(chains[g], chains[order[j]]).None?
    ensures r.None? ==> forall j :: 0 <= j < |order| && order[j] != g ==> ConnectWith(chains[g], chains[order[j]]).None?
  {
    if |order| == 0 then None
    else if order[0] != g && ConnectWith(chains[g], chains[order[0]]).Some? then Some(0)
    else match FirstConnect(chains, order[1..], g)
      case None => None
      case Some(k) => Some(k + 1)
  }

  /** The invariant of the list polygons_first: every chain handle in the list
      once, every chain non-empty, handles below the next fresh one. */
  predicate StoreInv(chains: map<nat, Chain>, order: seq<nat>, nextId: nat) {
    && (forall k :: 0 <= k < |order| ==> order[k] in chains && order[k] < nextId)
    && (forall id :: id in chains ==> id in order)
    && (forall id :: id in chains ==> |chains[id].segs| > 0)
    && Distinct(order)
  }

  /** Before the areas are computed every chain is linked and its area field
      still holds the 0 of calloc. */
  predicate Stitched(chains: map<nat, Chain>) {
    forall id :: id in chains ==> Linked(chains[id]) && chains[id].area == 0.0
  }

  lemma JoinStitched(chains: map<nat, Chain>, a: nat, b: nat, c: Chain)
    requires Stitched(chains) && Linked(c) && c.area == 0.0
    ensures Stitched(chains[a := c] - {b})
  {
  }

  lemma JoinKeeps(chains: map<nat, Chain>, order: seq<nat>, n: nat, a: nat, b: nat, c: Chain)
    requires StoreInv(chains, order, n) && a in chains && b in chains && a != b && |c.segs| > 0
    ensures StoreInv(chains[a := c] - {b}, Removed(order, b), n)
  {
    var m := chains[a := c] - {b};
    assert m.Keys == chains.Keys - {b};
    RemovedMembers(order, b);
    var r := Removed(order, b);
    forall k | 0 <= k < |r|
      ensures r[k] in m && r[k] < n
    {
      assert r[k] in r;
      var j :| 0 <= j < |order| && order[j] == r[k];
    }
    forall id | id in m
      ensures id in r && |m[id].segs| > 0
    {
      assert id in chains && id != b;
    }
  }

  /** The store after chain p is joined onto chain g. */
  function JoinPairResult(chains: map<nat, Chain>, order: seq<nat>, g: nat, p: nat): (r: (map<nat, Chain>, seq<nat>))
    requires g in chains && p in chains && g != p && ConnectWith(chains[g], chains[p]).Some?
    ensures r.1 == Removed(order, p) && g in r.0 && p !in r.0
    ensures r.0[g] == ConnectWith(chains[g], chains[p]).value
  {
    (chains[g := ConnectWith(chains[g], chains[p]).value] - {p}, Removed(order, p))
  }

  /** The flips done before a join leave no trace once p is gone. */
  lemma FlipsForgotten(m: map<nat, Chain>, m': map<nat, Chain>, g: nat, p: nat, z: Chain)
    requires m'.Keys == m.Keys && forall k :: k in m && k != g && k != p ==> m'[k] == m[k]
    ensures m'[g := z] - {p} == m[g := z] - {p}
  {
  }

  /** read_cut's `while (connect_polygons (pgs));` on values: g is joined with
      the first chain that meets it until none does. */
  function Connected(chains: map<nat, Chain>, order: seq<nat>, g: nat): (r: (map<nat, Chain>, seq<nat>))
    requires g in chains && Distinct(order) && forall k :: 0 <= k < |order| ==> order[k] in chains
    ensures g in r.0 && |r.1| <= |order| && Distinct(r.1)
    ensures forall k :: 0 <= k < |r.1| ==> r.1[k] in r.0
    ensures forall j :: 0 <= j < |r.1| && r.1[j] != g ==> ConnectWith(r.0[g], r.0[r.1[j]]).None?
    decreases |order|
  {
    match FirstConnect(chains, order, g)
      case None => (chains, order)
      case Some(k) =>
        var next := JoinPairResult(chains, order, g, order[k]);
        JoinMembers(chains, order, g, k);
        Connected(next.0, next.1, g)
  }

  lemma JoinMembers(chains: map<nat, Chain>, order: seq<nat>, g: nat, k: nat)
    requires g in chains && k < |order| && order[k] != g && Distinct(order)
    requires forall j :: 0 <= j < |order| ==> order[j] in chains
    requires ConnectWith(chains[g], chains[order[k]]).Some?
    ensures var next := JoinPairResult(chains, order, g, order[k]);
      Distinct(next.1) && forall j :: 0 <= j < |next.1| ==> next.1[j] in next.0
  {
    var next := JoinPairResult(chains, order, g, order[k]);
    RemovedMembers(order, order[k]);
    forall j | 0 <= j < |next.1|
      ensures next.1[j] in next.0
    {
      assert next.1[j] in next.1;
      var i :| 0 <= i < |order| && order[i] == next.1[j];
    }
  }

  lemma ConnectWithLen(a: Chain, b: Chain)
    requires |a.segs| > 0 && ConnectWith(a, b).Some?
    ensures |ConnectWith(a, b).value.segs| > 0 && ConnectWith(a, b).value.area == a.area
  {
  }

  // ---------------------------------------------------------------------------
  // Area and direction
  // ---------------------------------------------------------------------------

  /** One term of the shoelace sum of polygon_area. */
  function Term(p: Segment): real {
    (p.e.x - p.s.x) * (p.e.y + p.s.y)
  }

  /** The shoelace sum over the segments, in list order. */
  function Shoelace(s: seq<Segment>): real {
    if |s| == 0 then 0.0 else Term(s[0]) + Shoelace(s[1..])
  }

  lemma {:induction false} ShoelaceAppend(a: seq<Segment>, b: seq<Segment>)
    ensures Shoelace(a + b) == Shoelace(a) + Shoelace(b)
  {
    if |a| > 0 {
      assert (a + b)[0] == a[0] && (a + b)[1..] == a[1..] + b;
      ShoelaceAppend(a[1..], b);
      assert Shoelace(a + b) == Term(a[0]) + Shoelace(a[1..] + b);
      assert Shoelace(a) == Term(a[0]) + Shoelace(a[1..]);
    } else {
      assert a + b == b;
    }
  }

  lemma TermFlip(p: Segment)
    ensures Term(FlipSegment(p)) == -Term(p)
  {
    assert (p.s.x - p.e.x) * (p.s.y + p.e.y) == -((p.e.x - p.s.x) * (p.e.y + p.s.y));
  }

  /** Running a chain backwards negates its shoelace sum: the direction test of
      rotate_cut is consistent with flip_polygon. */
  lemma {:induction false} ShoelaceFlip(s: seq<Segment>)
    ensures Shoelace(FlipSegs(s)) == -Shoelace(s)
  {
    if |s| > 0 {
      var p, rest := s[0], FlipSegs(s[1..]);
      assert FlipSegs(s) == rest + [FlipSegment(p)];
      ShoelaceFlip(s[1..]);
      ShoelaceAppend(rest, [FlipSegment(p)]);
      TermFlip(p);
      assert Shoelace([FlipSegment(p)]) == Term(FlipSegment(p));
    }
  }

  /** The area polygon_area stores: a single segment is a full circle, whose
      area comes from the abstract `circle` (it takes a square root); otherwise
      the shoelace sum is added to the stored value. */
  function WithArea(c: Chain, circle: Segment -> real): Chain
    requires |c.segs| > 0
  {
    if |c.segs| == 1 then c.(area := circle(c.segs[0])) else c.(area := c.area + Shoelace(c.segs))
  }

  const DirCCW := 0
  const DirCW := 1

  /** rotate_cut: flipped when the stored area is positive and the cut should
      run counter-clockwise, or negative and it should run clockwise. */
  function Rotated(c: Chain, dir: int): Chain {
    if (c.area > 0.0 && dir == DirCCW) || (c.area < 0.0 && dir == DirCW) then Flipped(c) else c
  }

  /** With the stored area equal to the shoelace sum, rotate_cut leaves a
      counter-clockwise chain with a non-positive sum and a clockwise one with a
      non-negative sum. */
  lemma RotatedOrientation(c: Chain, dir: int)
    requires c.area == Shoelace(c.segs)
    ensures dir == DirCCW ==> Shoelace(Rotated(c, dir).segs) <= 0.0
    ensures dir == DirCW ==> Shoelace(Rotated(c, dir).segs) >= 0.0
  {
    ShoelaceFlip(c.segs);
  }

  /** What create_cut routes: holes clockwise, the outline counter-clockwise
      unless it is a single circle. */
  function Planned(c: Chain, outline: bool): Chain {
    if !outline then Rotated(c, DirCW)
    else if |c.segs| == 1 then c
    else Rotated(c, DirCCW)
  }

  /** A stitched chain of several segments, once its area is computed and it is
      planned, runs clockwise as a hole and counter-clockwise as the outline. */
  lemma PlannedOrientation(c: Chain, circle: Segment -> real, outline: bool)
    requires |c.segs| > 1 && c.area == 0.0
    ensures var d := Planned(WithArea(c, circle), outline);
      (outline ==> Shoelace(d.segs) <= 0.0) && (!outline ==> Shoelace(d.segs) >= 0.0)
  {
    RotatedOrientation(WithArea(c, circle), DirCW);
    RotatedOrientation(WithArea(c, circle), DirCCW);
  }

  /** The first routing loop of create_cut after the holes in `done`: those
      turned clockwise, every other chain but the outline unchanged. */
  ghost predicate HolesTurned(m0: map<nat, Chain>, m: map<nat, Chain>, done: seq<nat>, outline: nat) {
    forall id :: id in m && id != outline ==>
      id in m0 && m[id] == if id in done then Rotated(m0[id], DirCW) else m0[id]
  }

  lemma HolesTurnedStep(m0: map<nat, Chain>, m: map<nat, Chain>, order: seq<nat>, i: nat, outline: nat)
    requires i < |order| && Distinct(order) && order[i] in m
    requires HolesTurned(m0, m, order[..i], outline) && order[i] in m0
    ensures var id := order[i];
      HolesTurned(m0, if id != outline then m[id := Rotated(m[id], DirCW)] else m, order[..i + 1], outline)
  {
    var id := order[i];
    var m' := if id != outline then m[id := Rotated(m[id], DirCW)] else m;
    assert order[..i + 1] == order[..i] + [id];
    assert id !in order[..i];
    forall id' | id' in m' && id' != outline
      ensures id' in m0 && m'[id'] == if id' in order[..i + 1] then Rotated(m0[id'], DirCW) else m0[id']
    {
      assert id' in order[..i + 1] <==> id' in order[..i] || id' == id;
    }
  }

  /** The position create_cut takes as the outline: the first chain whose
      |area| is strictly larger than that of every chain before it and at least
      that of every chain after it; position 0 when every area is 0. */
  predicate IsOutline(chains: map<nat, Chain>, order: seq<nat>, k: nat)
    requires forall j :: 0 <= j < |order| ==> order[j] in chains
  {
    && k < |order|
    && (forall j :: 0 <= j < k ==> RAbs(chains[order[j]].area) < RAbs(chains[order[k]].area))
    && (forall j :: k < j < |order| ==> RAbs(chains[order[j]].area) <= RAbs(chains[order[k]].area))
  }

  /** Turning chains does not change their areas, so the outline stays the
      outline. */
  lemma OutlineKept(m: map<nat, Chain>, m': map<nat, Chain>, order: seq<nat>, outline: nat, k: nat)
    requires forall j :: 0 <= j < |order| ==> order[j] in m
    requires forall id :: id in m ==> id in m' && m'[id] == Planned(m[id], id == outline)
    requires IsOutline(m, order, k)
    ensures forall j :: 0 <= j < |order| ==> m'[order[j]].area == m[order[j]].area
    ensures IsOutline(m', order, k)
  {
  }

  predicate Closed(c: Chain) {
    c.start == c.end
  }

  /** How create_cut ends: a chain that is not closed is fatal; an empty list
      leaves the outline pointer NULL, which the routing step reads through;
      otherwise the outline is routed last. */
  datatype CutOutcome = NotClosed | NullOutline | Routed(outline: nat)

  /** The link-reversal loop of flip_polygon: every segment is taken from the
      front of the old list, flipped and pushed on the front of the new one. */
  method FlipList(segs: seq<Segment>) returns (acc: seq<Segment>)
    ensures acc == FlipSegs(segs)
  {
    var rest := segs;
    acc := [];
    while |rest| > 0
      invariant FlipSegs(segs) == FlipSegs(rest) + acc
    {
      assert FlipSegs(rest) + acc == FlipSegs(rest[1..]) + ([FlipSegment(rest[0])] + acc);
      acc := [FlipSegment(rest[0])] + acc;
      rest := rest[1..];
    }
  }

  /** The shoelace loop of polygon_area: each segment's term added to `area`. */
  method AddShoelace(segs: seq<Segment>, area0: real) returns (area: real)
    ensures area == area0 + Shoelace(segs)
  {
    var rest := segs;
    area := area0;
    while |rest| > 0
      invariant area + Shoelace(rest) == area0 + Shoelace(segs)
    {
      area := area + Term(rest[0]);
      rest := rest[1..];
    }
  }

  // ---------------------------------------------------------------------------
  // The token scanners of read_cut
  // ---------------------------------------------------------------------------

  /** isspace in the C locale. */
  predicate IsSpace(ch: char) {
    ch == ' ' || ch == '\t' || ch == '\n' || ch == '\U{000B}' || ch == '\U{000C}' || ch == '\r'
  }

  /** A C string in its buffer: the last character is the terminating NUL. */
  predicate Terminated(s: string) {
    |s| > 0 && s[|s| - 1] == '\0'
  }

  /** skip_space: the first position at or after i that is not white space
      (the NUL is not, so the scan stays in the string). */
  method SkipSpace(s: string, i: nat) returns (r: nat)
    requires Terminated(s) && i < |s|
    ensures i <= r < |s| && !IsSpace(s[r])
    ensures forall k :: i <= k < r ==> IsSpace(s[k])
  {
    r := i;
    while IsSpace(s[r])
      invariant i <= r < |s|
      invariant forall k :: i <= k < r ==> IsSpace(s[k])
      decreases |s| - r
    {
      r := r + 1;
    }
  }

  /** skip_arg as written: it stops only at '#' or white space, so a token that
      ends at the NUL is scanned past the end of the buffer (None). */
  function ArgEndAsWritten(s: string, i: nat): (r: Option<nat>)
    decreases |s| - i
    ensures r.Some? ==> i <= r.value < |s| && (s[r.value] == '#' || IsSpace(s[r.value]))
  {
    if i >= |s| then None
    else if s[i] == '#' || IsSpace(s[i]) then Some(i)
    else ArgEndAsWritten(s, i + 1)
  }

  /** The last line of a cut file without a newline: after the token "7" the
      scan of skip_arg runs over the NUL and off the buffer. */
  lemma ArgRunsPastNul()
    ensures Terminated("7\0") && ArgEndAsWritten("7\0", 0).None?
  {
    assert ArgEndAsWritten("7\0", 2).None?;
    assert ArgEndAsWritten("7\0", 1) == ArgEndAsWritten("7\0", 2);
  }

  /** A character skip_arg steps over, once the NUL also stops it. */
  predicate ArgChar(ch: char) {
    ch != '#' && ch != '\0' && !IsSpace(ch)
  }

  /** skip_arg, stopping at the NUL as well: the end of the token at i, which
      always lies inside the buffer. */
  method SkipArg(s: string, i: nat) returns (r: nat)
    requires Terminated(s) && i < |s|
    ensures i <= r < |s| && !ArgChar(s[r])
    ensures forall k :: i <= k < r ==> ArgChar(s[k])
  {
    r := i;
    while ArgChar(s[r])
      invariant i <= r < |s|
      invariant forall k :: i <= k < r ==> ArgChar(s[k])
      decreases |s| - r
    {
      r := r + 1;
    }
  }

  // ---------------------------------------------------------------------------
  // The chain store: the list polygons_first
  // ---------------------------------------------------------------------------

  /** The chains by handle, and the list polygons_first as a list of handles in
      list order (newest first). */
  class CutStore {
    var chains: map<nat, Chain>
    var order: seq<nat>
    var nextId: nat

    ghost predicate Valid()
      reads this
    {
      StoreInv(chains, order, nextId)
    }

    constructor ()
      ensures Valid() && Stitched(chains) && chains == map[] && order == []
    {
      chains := map[];
      order := [];
      nextId := 0;
    }

    /** create_polygons: a new chain of the one segment at the list head. */
    method CreatePolygons(p: Segment) returns (id: nat)
      requires Valid()
      modifies this
      ensures Valid() && id == old(nextId) && id !in old(chains)
      ensures chains == old(chains)[id := Chain(p.s, p.e, [p], 0.0)] && order == [id] + old(order)
      ensures old(Stitched(chains)) ==> Stitched(chains)
    {
      id := nextId;
      nextId := nextId + 1;
      chains := chains[id := Chain(p.s, p.e, [p], 0.0)];
      order := [id] + order;
    }

    /** find_polygon: the segment is attached to the first chain, in list order,
        that one of its ends meets exactly; None and no change when none does. */
    method FindPolygon(p: Segment) returns (found: Option<nat>)
      requires Valid()
      modifies this
      ensures Valid() && order == old(order) && nextId == old(nextId)
      ensures var k := FirstAttach(old(chains), old(order), p);
        && (k.None? ==> found.None? && chains == old(chains))
        && (k.Some? ==> var id := old(order)[k.value];
              found == Some(id) && chains == old(chains)[id := Attach(old(chains)[id], p).value])
      ensures old(Stitched(chains)) ==> Stitched(chains)
    {
      var q := p;
      var i := 0;
      while i < |order|
        invariant 0 <= i <= |order| && q == p
        invariant chains == old(chains) && order == old(order) && nextId == old(nextId)
        invariant forall j :: 0 <= j < i ==> Attach(chains[order[j]], p).None?
      {
        var id := order[i];
        var c := chains[id];
        if q.s == c.start {
          q := FlipSegment(q);
        }
        if q.e == c.start {
          AttachFound(chains, order, nextId, i, p);
          chains := chains[id := Chain(q.s, c.end, [q] + c.segs, c.area)];
          return Some(id);
        }
        if q.e == c.end {
          q := FlipSegment(q);
        }
        if q.s == c.end {
          AttachFound(chains, order, nextId, i, p);
          chains := chains[id := Chain(c.start, q.e, c.segs + [q], c.area)];
          return Some(id);
        }
        i := i + 1;
      }
      found := None;
    }

    /** append: the segments of b after those of a, b's end as a's end, b
        unlinked from the list and freed. */
    method Append(a: nat, b: nat)
      requires Valid() && a in chains && b in chains && a != b
      modifies this
      ensures Valid() && nextId == old(nextId)
      ensures chains == old(chains)[a := Joined(old(chains)[a], old(chains)[b])] - {b}
      ensures order == Removed(old(order), b)
      ensures old(Stitched(chains)) && Near(old(chains)[a].end, old(chains)[b].start) ==> Stitched(chains)
    {
      var j := Joined(chains[a], chains[b]);
      JoinKeeps(chains, order, nextId, a, b, j);
      if Stitched(chains) && Near(chains[a].end, chains[b].start) {
        JoinedLinked(chains[a], chains[b]);
        JoinStitched(chains, a, b, j);
      }
      var o := Unlink(order, b);
      chains := chains[a := j] - {b};
      order := o;
    }

    /** flip_polygon: the segment list reversed link by link, each segment
        flipped on the way, and the two ends exchanged. */
    method FlipPolygon(id: nat)
      requires Valid() && id in chains
      modifies this
      ensures Valid() && order == old(order) && nextId == old(nextId)
      ensures chains == old(chains)[id := Flipped(old(chains)[id])]
      ensures old(Stitched(chains)) ==> Stitched(chains)
    {
      var c := chains[id];
      var segs := FlipList(c.segs);
      if Stitched(chains) {
        FlippedLinked(c);
      }
      ReplaceKeeps(chains, order, nextId, id, Flipped(c));
      chains := chains[id := Chain(c.end, c.start, segs, c.area)];
    }

    /** The second case of connect_polygons: b ends where g starts, so both are flipped before the append. */
    method JoinBothFlipped(g: nat, p: nat)
      requires Valid() && g in chains && p in chains && g != p
      modifies this
      ensures Valid() && nextId == old(nextId)
      ensures var a, b := old(chains)[g], old(chains)[p];
        chains == old(chains)[g := Joined(Flipped(a), Flipped(b))] - {p} && order == Removed(old(order), p)
      ensures var a, b := old(chains)[g], old(chains)[p];
        old(Stitched(chains)) && Near(a.start, b.end) ==> Stitched(chains)
    {
      ghost var m := chains;
      var a, b := chains[g], chains[p];
      FlipPolygon(g);
      FlipPolygon(p);
      assert chains[g] == Flipped(a) && chains[p] == Flipped(b);
      FlipsForgotten(m, chains, g, p, Joined(Flipped(a), Flipped(b)));
      Append(g, p);
    }

    /** The third case of connect_polygons: the two chains end together, so p is flipped. */
    method JoinTailFlipped(g: nat, p: nat)
      requires Valid() && g in chains && p in chains && g != p
      modifies this
      ensures Valid() && nextId == old(nextId)
      ensures var a, b := old(chains)[g], old(chains)[p];
        chains == old(chains)[g := Joined(a, Flipped(b))] - {p} && order == Removed(old(order), p)
      ensures var a, b := old(chains)[g], old(chains)[p];
        old(Stitched(chains)) && Near(a.end, b.end) ==> Stitched(chains)
    {
      ghost var m := chains;
      var a, b := chains[g], chains[p];
      FlipPolygon(p);
      assert chains[g] == a && chains[p] == Flipped(b);
      FlipsForgotten(m, chains, g, p, Joined(a, Flipped(b)));
      Append(g, p);
    }

    /** The fourth case of connect_polygons: the two chains start together, so g is flipped. */
    method JoinHeadFlipped(g: nat, p: nat)
      requires Valid() && g in chains && p in chains && g != p
      modifies this
      ensures Valid() && nextId == old(nextId)
      ensures var a, b := old(chains)[g], old(chains)[p];
        chains == old(chains)[g := Joined(Flipped(a), b)] - {p} && order == Removed(old(order), p)
      ensures var a, b := old(chains)[g], old(chains)[p];
        old(Stitched(chains)) && Near(a.start, b.start) ==> Stitched(chains)
    {
      ghost var m := chains;
      var a, b := chains[g], chains[p];
      FlipPolygon(g);
      assert chains[g] == Flipped(a) && chains[p] == b;
      FlipsForgotten(m, chains, g, p, Joined(Flipped(a), b));
      Append(g, p);
    }

    /** The join of connect_polygons once g and p are known to meet: the
        flips of the first matching case, then append. */
    method JoinPair(g: nat, p: nat)
      requires Valid() && g in chains && p in chains && g != p
      requires ConnectWith(chains[g], chains[p]).Some?
      modifies this
      ensures Valid() && nextId == old(nextId)
      ensures (chains, order) == JoinPairResult(old(chains), old(order), g, p)
      ensures old(Stitched(chains)) ==> Stitched(chains)
    {
      var a, b := chains[g], chains[p];
      if Stitched(chains) {
        ConnectWithLinked(a, b);
      }
      if Near(b.start, a.end) {
        NearSymmetric(b.start, a.end);
        Append(g, p);
      } else if Near(b.end, a.start) {
        NearSymmetric(b.end, a.start);
        JoinBothFlipped(g, p);
      } else if Near(b.end, a.end) {
        NearSymmetric(b.end, a.end);
        JoinTailFlipped(g, p);
      } else {
        NearSymmetric(b.start, a.start);
        JoinHeadFlipped(g, p);
      }
    }

    /** connect_polygons: g is joined with the first other chain, in list order,
        whose ends meet one of g's ends within C_TOL, after the flips that bring
        the matching ends together (1); 0 and no change when there is none. */
    method ConnectPolygons(g: nat) returns (r: int)
      requires Valid() && g in chains
      modifies this
      ensures Valid() && g in chains && nextId == old(nextId)
      ensures var k := FirstConnect(old(chains), old(order), g);
        && (k.None? ==> r == 0 && chains == old(chains) && order == old(order))
        && (k.Some? ==> r == 1 && (chains, order) == JoinPairResult(old(chains), old(order), g, old(order)[k.value]))
      ensures r == 1 ==> |order| == |old(order)| - 1
      ensures old(Stitched(chains)) ==> Stitched(chains)
    {
      var i := 0;
      while i < |order|
        invariant 0 <= i <= |order|
        invariant chains == old(chains) && order == old(order) && nextId == old(nextId)
        invariant forall j :: 0 <= j < i && order[j] != g ==> ConnectWith(chains[g], chains[order[j]]).None?
      {
        var p := order[i];
        if p != g {
          var a, b := chains[g], chains[p];
          if Near(b.start, a.end) || Near(b.end, a.start) || Near(b.end, a.end) || Near(b.start, a.start) {
            ConnectFound(chains, order, nextId, g, i);
            JoinPair(g, p);
            return 1;
          }
        }
        i := i + 1;
      }
      r := 0;
    }

    /** read_cut's `while (connect_polygons (pgs));`: joins until none applies.
        Every join removes one chain from the list, so the loop ends. */
    method ConnectAll(g: nat)
      requires Valid() && g in chains
      modifies this
      ensures Valid() && g in chains && nextId == old(nextId)
      ensures (chains, order) == Connected(old(chains), old(order), g)
      ensures old(Stitched(chains)) ==> Stitched(chains)
    {
      var r := ConnectPolygons(g);
      while r == 1
        invariant Valid() && g in chains && nextId == old(nextId) && (r == 0 || r == 1)
        invariant r == 0 ==> (chains, order) == Connected(old(chains), old(order), g)
        invariant r == 1 ==> Connected(chains, order, g) == Connected(old(chains), old(order), g)
        invariant old(Stitched(chains)) ==> Stitched(chains)
        decreases |order| + r
      {
        r := ConnectPolygons(g);
      }
    }

    /** The stitching step of read_cut for one segment: attached to a chain
        (and that chain then joined as far as it goes) or started as a new
        chain. */
    method AddSegment(p: Segment)
      requires Valid()
      modifies this
      ensures Valid()
      ensures var k := FirstAttach(old(chains), old(order), p);
        && (k.None? ==> chains == old(chains)[old(nextId) := Chain(p.s, p.e, [p], 0.0)] && order == [old(nextId)] + old(order))
        && (k.Some? ==> var id := old(order)[k.value];
              (chains, order) == Connected(old(chains)[id := Attach(old(chains)[id], p).value], old(order), id))
      ensures old(Stitched(chains)) ==> Stitched(chains)
    {
      var found := FindPolygon(p);
      if found.None? {
        var _ := CreatePolygons(p);
      } else {
        ConnectAll(found.value);
      }
    }

    /** polygon_area: a one-segment chain is a circle and gets the circle's
        area; otherwise the shoelace sum is added to the stored area. */
    method PolygonArea(id: nat, circle: Segment -> real)
      requires Valid() && id in chains
      modifies this
      ensures Valid() && order == old(order) && nextId == old(nextId)
      ensures chains == old(chains)[id := WithArea(old(chains)[id], circle)]
    {
      var c := chains[id];
      ReplaceKeeps(chains, order, nextId, id, WithArea(c, circle));
      if |c.segs| == 1 {
        chains := chains[id := c.(area := circle(c.segs[0]))];
        return;
      }
      var area := AddShoelace(c.segs, c.area);
      chains := chains[id := c.(area := area)];
    }

    /** rotate_cut: the chain flipped when its stored area disagrees with the
        requested direction. */
    method RotateCut(id: nat, dir: int)
      requires Valid() && id in chains
      modifies this
      ensures Valid() && order == old(order) && nextId == old(nextId)
      ensures chains == old(chains)[id := Rotated(old(chains)[id], dir)]
    {
      if chains[id].area > 0.0 && dir == DirCCW {
        FlipPolygon(id);
      }
      if chains[id].area < 0.0 && dir == DirCW {
        FlipPolygon(id);
      }
    }

    /** The area loop of create_cut over the whole list. */
    method ComputeAreas(circle: Segment -> real)
      requires Valid()
      modifies this
      ensures Valid() && order == old(order) && nextId == old(nextId) && chains.Keys == old(chains).Keys
      ensures forall id :: id in chains ==> chains[id] == WithArea(old(chains)[id], circle)
    {
      var i := 0;
      while i < |order|
        invariant 0 <= i <= |order| && Valid()
        invariant order == old(order) && nextId == old(nextId) && chains.Keys == old(chains).Keys
        invariant forall id :: id in chains ==>
          chains[id] == if id in order[..i] then WithArea(old(chains)[id], circle) else old(chains)[id]
      {
        ghost var before := chains;
        PolygonArea(order[i], circle);
        forall id | id in chains
          ensures chains[id] == if id in order[..i + 1] then WithArea(old(chains)[id], circle) else old(chains)[id]
        {
          assert id in order[..i + 1] <==> id in order[..i] || id == order[i];
          if id == order[i] {
            assert id !in order[..i];
          }
        }
        i := i + 1;
      }
      forall id | id in chains
        ensures chains[id] == WithArea(old(chains)[id], circle)
      {
        assert order[..i] == order;
      }
    }

    /** The outline loop of create_cut: p_max starts at the list head and moves
        to every chain whose |area| is strictly above the largest seen so far,
        which starts at 0. It is NULL (None) only for an empty list. */
    method SelectOutline() returns (pmax: Option<nat>)
      requires Valid()
      ensures pmax.None? <==> |order| == 0
      ensures pmax.Some? ==> exists k: nat :: IsOutline(chains, order, k) && order[k] == pmax.value
    {
      if |order| == 0 {
        return None;
      }
      var best := 0;
      var max := 0.0;
      var i := 0;
      while i < |order|
        invariant 0 <= i <= |order| && best < |order|
        invariant i == 0 ==> best == 0 && max == 0.0
        invariant i > 0 ==> best < i && max == RAbs(chains[order[best]].area)
        invariant forall j :: 0 <= j < i ==> RAbs(chains[order[j]].area) <= max
        invariant forall j :: 0 <= j < best ==> RAbs(chains[order[j]].area) < max
      {
        var a := RAbs(chains[order[i]].area);
        if a > max {
          max := a;
          best := i;
        }
        i := i + 1;
      }
      assert IsOutline(chains, order, best);
      pmax := Some(order[best]);
    }

    /** The closed check of create_cut: true exactly when every chain ends where
        it starts. */
    method AllClosed() returns (ok: bool)
      requires Valid()
      ensures ok <==> forall k :: 0 <= k < |order| ==> Closed(chains[order[k]])
    {
      var i := 0;
      while i < |order|
        invariant 0 <= i <= |order|
        invariant forall k :: 0 <= k < i ==> Closed(chains[order[k]])
      {
        if chains[order[i]].start != chains[order[i]].end {
          return false;
        }
        i := i + 1;
      }
      return true;
    }

    /** The first routing loop of create_cut: every chain but the outline
        turned clockwise. */
    method TurnHoles(outline: nat)
      requires Valid() && outline in chains
      modifies this
      ensures Valid() && order == old(order) && nextId == old(nextId) && chains.Keys == old(chains).Keys
      ensures chains[outline] == old(chains)[outline]
      ensures forall id :: id in chains && id != outline ==> chains[id] == Rotated(old(chains)[id], DirCW)
    {
      var i := 0;
      while i < |order|
        invariant 0 <= i <= |order| && Valid()
        invariant order == old(order) && nextId == old(nextId) && chains.Keys == old(chains).Keys
        invariant chains[outline] == old(chains)[outline]
        invariant HolesTurned(old(chains), chains, order[..i], outline)
      {
        var id := order[i];
        HolesTurnedStep(old(chains), chains, order, i, outline);
        if id != outline {
          RotateCut(id, DirCW);
        }
        i := i + 1;
      }
      assert order[..i] == order;
    }

    /** The routing loops of create_cut: every hole turned clockwise, then the
        outline counter-clockwise unless it is a circle. */
    method PlanAll(outline: nat)
      requires Valid() && outline in chains
      modifies this
      ensures Valid() && order == old(order) && nextId == old(nextId) && chains.Keys == old(chains).Keys
      ensures forall id :: id in chains ==> chains[id] == Planned(old(chains)[id], id == outline)
      ensures forall k: nat :: IsOutline(old(chains), order, k) ==> IsOutline(chains, order, k)
      ensures forall id :: id in chains && |chains[id].segs| > 1 && old(chains)[id].area == Shoelace(old(chains)[id].segs) ==>
        (id == outline ==> Shoelace(chains[id].segs) <= 0.0) && (id != outline ==> Shoelace(chains[id].segs) >= 0.0)
    {
      TurnHoles(outline);
      if |chains[outline].segs| != 1 {
        RotateCut(outline, DirCCW);
      }
      forall k: nat | IsOutline(old(chains), order, k)
        ensures IsOutline(chains, order, k)
      {
        OutlineKept(old(chains), chains, order, outline, k);
      }
      forall id | id in chains && |chains[id].segs| > 1 && old(chains)[id].area == Shoelace(old(chains)[id].segs)
        ensures (id == outline ==> Shoelace(chains[id].segs) <= 0.0) && (id != outline ==> Shoelace(chains[id].segs) >= 0.0)
      {
        RotatedOrientation(old(chains)[id], DirCW);
        RotatedOrientation(old(chains)[id], DirCCW);
      }
    }

    /** The first three loops of create_cut: every area computed, the outline
        picked, and whether every chain is closed. */
    method Survey(circle: Segment -> real) returns (pmax: Option<nat>, ok: bool)
      requires Valid()
      modifies this
      ensures Valid() && order == old(order) && nextId == old(nextId) && chains.Keys == old(chains).Keys
      ensures forall id :: id in chains ==> chains[id] == WithArea(old(chains)[id], circle)
      ensures pmax.None? <==> |order| == 0
      ensures pmax.Some? ==> exists k: nat :: IsOutline(chains, order, k) && order[k] == pmax.value
      ensures ok <==> forall k :: 0 <= k < |order| ==> Closed(old(chains)[order[k]])
      ensures old(Stitched(chains)) ==> forall id :: id in chains && |chains[id].segs| > 1 ==>
        chains[id].area == Shoelace(chains[id].segs)
    {
      ComputeAreas(circle);
      pmax := SelectOutline();
      ok := AllClosed();
      forall k | 0 <= k < |order|
        ensures Closed(chains[order[k]]) <==> Closed(old(chains)[order[k]])
      {
        assert chains[order[k]].start == old(chains)[order[k]].start;
        assert chains[order[k]].end == old(chains)[order[k]].end;
      }
      if old(Stitched(chains)) {
        forall id | id in chains && |chains[id].segs| > 1
          ensures chains[id].area == Shoelace(chains[id].segs)
        {
          assert old(chains)[id].area == 0.0;
        }
      }
    }

    /** create_cut after reading: the areas, the outline, the closed check, then
        holes and outline turned to their cutting directions. */
    method CreateCut(circle: Segment -> real) returns (outcome: CutOutcome)
      requires Valid()
      modifies this
      ensures Valid() && order == old(order) && chains.Keys == old(chains).Keys
      ensures outcome == NotClosed <==> exists k :: 0 <= k < |order| && !Closed(old(chains)[order[k]])
      ensures outcome == NullOutline <==> order == []
      ensures outcome.Routed? ==> exists k: nat :: IsOutline(chains, order, k) && order[k] == outcome.outline
      ensures outcome.Routed? ==> forall id :: id in chains ==>
        chains[id] == Planned(WithArea(old(chains)[id], circle), id == outcome.outline)
      ensures outcome.Routed? && old(Stitched(chains)) ==> forall id :: id in chains && |chains[id].segs| > 1 ==>
        (id == outcome.outline ==> Shoelace(chains[id].segs) <= 0.0) &&
        (id != outcome.outline ==> Shoelace(chains[id].segs) >= 0.0)
    {
      var pmax, ok := Survey(circle);
      if !ok {
        return NotClosed;
      }
      if pmax.None? {
        return NullOutline;
      }
      PlanAll(pmax.value);
      outcome := Routed(pmax.value);
    }
  }

  lemma AttachFound(chains: map<nat, Chain>, order: seq<nat>, n: nat, i: nat, p: Segment)
    requires StoreInv(chains, order, n) && i < |order| && Attach(chains[order[i]], p).Some?
    requires forall j :: 0 <= j < i ==> Attach(chains[order[j]], p).None?
    ensures FirstAttach(chains, order, p) == Some(i)
    ensures StoreInv(chains[order[i] := Attach(chains[order[i]], p).value], order, n)
    ensures Stitched(chains) ==> Stitched(chains[order[i] := Attach(chains[order[i]], p).value])
  {
    FirstAttachAt(chains, order, i, p);
    AttachKeeps(chains, order, n, order[i], p);
  }

  lemma FirstAttachAt(chains: map<nat, Chain>, order: seq<nat>, i: nat, p: Segment)
    requires (forall k :: 0 <= k < |order| ==> order[k] in chains) && i < |order|
    requires Attach(chains[order[i]], p).Some?
    requires forall j :: 0 <= j < i ==> Attach(chains[order[j]], p).None?
    ensures FirstAttach(chains, order, p) == Some(i)
  {
  }

  lemma AttachKeeps(chains: map<nat, Chain>, order: seq<nat>, n: nat, id: nat, p: Segment)
    requires StoreInv(chains, order, n) && id in chains && Attach(chains[id], p).Some?
    ensures StoreInv(chains[id := Attach(chains[id], p).value], order, n)
    ensures Stitched(chains) ==> Stitched(chains[id := Attach(chains[id], p).value])
  {
    var c := Attach(chains[id], p).value;
    if Stitched(chains) {
      AttachLinked(chains[id], p);
    }
    ReplaceKeeps(chains, order, n, id, c);
  }

  lemma ConnectFound(chains: map<nat, Chain>, order: seq<nat>, n: nat, g: nat, i: nat)
    requires StoreInv(chains, order, n) && g in chains && i < |order| && order[i] != g
    requires ConnectWith(chains[g], chains[order[i]]).Some?
    requires forall j :: 0 <= j < i && order[j] != g ==> ConnectWith(chains[g], chains[order[j]]).None?
    ensures FirstConnect(chains, order, g) == Some(i)
  {
  }

  lemma ReplaceKeeps(chains: map<nat, Chain>, order: seq<nat>, n: nat, id: nat, c: Chain)
    requires StoreInv(chains, order, n) && id in chains && |c.segs| > 0
    ensures StoreInv(chains[id := c], order, n)
    ensures Stitched(chains) && Linked(c) && c.area == 0.0 ==> Stitched(chains[id := c])
  {
  }
}
