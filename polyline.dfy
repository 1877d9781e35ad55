/** The polyline store of the tracer (polyline.c). A polyline is a singly
    linked chain of points at double pixel resolution, newest point first,
    with its end point recorded separately; the polylines form the list
    `first_polyline`, newest first. Here a polyline is a value, the list is a
    sequence of handles, and the records live in a map from handles. */
module Polyline {
  import opened Basics

  /** A polyline: its points newest first (points[0] is what the C program
      calls the start) and the recorded end point. */
  datatype Line = Line(points: seq<Point>, end: Point)

  /** The recorded end is the oldest point: the invariant every operation of
      the store keeps. */
  predicate Ended(l: Line) {
    |l.points| > 0 && l.points[|l.points| - 1] == l.end
  }

  /** The points in the opposite order. */
  function Rev(s: seq<Point>): (r: seq<Point>)
    ensures |r| == |s| && forall k :: 0 <= k < |s| ==> r[k] == s[|s| - 1 - k]
  {
    if |s| == 0 then [] else Rev(s[1..]) + [s[0]]
  }

  lemma RevRev(s: seq<Point>)
    ensures Rev(Rev(s)) == s
  {
  }

  // ---------------------------------------------------------------------------
  // The value-level operations
  // ---------------------------------------------------------------------------

  /** polyline_reverse on a value: the end becomes the old first point and the
      points run the other way. */
  function Reversed(l: Line): (r: Line)
    requires |l.points| > 0
    ensures |r.points| == |l.points| && r.end == l.points[0]
    ensures Ended(l) ==> Ended(r) && r.points[0] == l.end
  {
    Line(Rev(l.points), l.points[0])
  }

  /** Reversing twice restores a polyline whose last point is its end. */
  lemma ReversedInvolution(l: Line)
    requires Ended(l)
    ensures Reversed(Reversed(l)) == l
  {
    RevRev(l.points);
  }

  /** Without the end invariant the second reversal does not restore the end:
      a polyline whose recorded end is not its last point. */
  lemma ReversedNeedsEnded()
    ensures var l := Line([Point(0, 0), Point(2, 0)], Point(4, 0));
      Reversed(Reversed(l)) != l
  {
    var l := Line([Point(0, 0), Point(2, 0)], Point(4, 0));
    assert Reversed(l).points[0] == Point(2, 0);
  }

  /** The integer test of polyline_extend: the cross product of (p - a) and
      (b - a) is zero, so p lies on the line through a and b. */
  predicate Collinear(p: Point, a: Point, b: Point) {
    (p.x - a.x) * (b.y - a.y) == (b.x - a.x) * (p.y - a.y)
  }

  /** polyline_extend on a value: with at least two points and p on the line
      through the first two, the first point is moved to p; otherwise p is
      prepended. */
  function Extended(l: Line, p: Point): (r: Line)
    requires |l.points| > 0
    ensures |r.points| > 0 && r.points[0] == p && r.end == l.end
    ensures |l.points| <= |r.points| <= |l.points| + 1
    ensures |r.points| == |l.points| <==> |l.points| >= 2 && Collinear(p, l.points[0], l.points[1])
    ensures |r.points| == |l.points| ==> r.points[1..] == l.points[1..]
    ensures |r.points| > |l.points| ==> r.points[1..] == l.points
    ensures Ended(l) ==> Ended(r)
  {
    if |l.points| >= 2 && Collinear(p, l.points[0], l.points[1]) then
      l.(points := l.points[0 := p])
    else
      l.(points := [p] + l.points)
  }

  /** The points of polyline_delete_m_line's m-line: exactly three, the middle
      one the exact midpoint of the other two, the end recorded as the last
      point, and the two ends a and b in either order. */
  predicate MLine(l: Line, a: Point, b: Point) {
    && |l.points| == 3
    && l.end == l.points[2]
    && l.points[0].x + l.end.x == 2 * l.points[1].x
    && l.points[0].y + l.end.y == 2 * l.points[1].y
    && ((a == l.points[0] && b == l.end) || (b == l.points[0] && a == l.end))
  }

  // ---------------------------------------------------------------------------
  // The store invariant
  // ---------------------------------------------------------------------------

  predicate NonEmpty(lines: map<nat, Line>) {
    forall id :: id in lines ==> |lines[id].points| > 0
  }

  predicate Members(lines: map<nat, Line>, order: seq<nat>) {
    forall k :: 0 <= k < |order| ==> order[k] in lines
  }

  /** The invariant of the list first_polyline: every polyline once in the
      list, every polyline with a point, handles below the next fresh one. */
  predicate StoreInv(lines: map<nat, Line>, order: seq<nat>, nextId: nat) {
    && Members(lines, order)
    && (forall k :: 0 <= k < |order| ==> order[k] < nextId)
    && (forall id :: id in lines ==> id in order)
    && NonEmpty(lines)
    && Distinct(order)
  }

  predicate AllEnded(lines: map<nat, Line>) {
    forall id :: id in lines ==> Ended(lines[id])
  }

  lemma ReplaceKeeps(lines: map<nat, Line>, order: seq<nat>, n: nat, id: nat, l: Line)
    requires StoreInv(lines, order, n) && id in lines && |l.points| > 0
    ensures StoreInv(lines[id := l], order, n)
    ensures AllEnded(lines) && Ended(l) ==> AllEnded(lines[id := l])
  {
  }

  /** The store once a polyline is deleted. */
  function Deleted(lines: map<nat, Line>, order: seq<nat>, id: nat): (r: (map<nat, Line>, seq<nat>))
    requires NonEmpty(lines) && Members(lines, order) && Distinct(order)
    ensures NonEmpty(r.0) && Members(r.0, r.1) && Distinct(r.1)
    ensures r.0 == lines - {id} && r.1 == Removed(order, id)
    ensures forall x :: x in r.1 <==> x in order && x != id
  {
    RemovedMembers(order, id);
    var o := Removed(order, id);
    assert Members(lines - {id}, o) by {
      forall k | 0 <= k < |o|
        ensures o[k] in lines - {id}
      {
        assert o[k] in o;
        var j :| 0 <= j < |order| && order[j] == o[k];
      }
    }
    (lines - {id}, o)
  }

  lemma DeletedKeeps(lines: map<nat, Line>, order: seq<nat>, n: nat, id: nat)
    requires StoreInv(lines, order, n)
    ensures var d := Deleted(lines, order, id); StoreInv(d.0, d.1, n)
    ensures AllEnded(lines) ==> AllEnded(Deleted(lines, order, id).0)
  {
    var d := Deleted(lines, order, id);
    forall k | 0 <= k < |d.1|
      ensures d.1[k] < n
    {
      assert d.1[k] in d.1;
      var j :| 0 <= j < |order| && order[j] == d.1[k];
    }
  }

  // ---------------------------------------------------------------------------
  // Searches
  // ---------------------------------------------------------------------------

  /** polyline_search_at_start: the position of the first polyline, in list
      order, whose first point is p. */
  function FirstStart(lines: map<nat, Line>, order: seq<nat>, p: Point): (r: Option<nat>)
    requires NonEmpty(lines) && Members(lines, order)
    ensures r.Some? ==> r.value < |order| && lines[order[r.value]].points[0] == p
    ensures r.Some? ==> forall j :: 0 <= j < r.value ==> lines[order[j]].points[0] != p
    ensures r.None? ==> forall j :: 0 <= j < |order| ==> lines[order[j]].points[0] != p
  {
    if |order| == 0 then None
    else if lines[order[0]].points[0] == p then Some(0)
    else match FirstStart(lines, order[1..], p)
      case None => None
      case Some(k) => Some(k + 1)
  }

  /** The position of the first m-line between a and b, in list order. */
  function FirstMLine(lines: map<nat, Line>, order: seq<nat>, a: Point, b: Point): (r: Option<nat>)
    requires Members(lines, order)
    ensures r.Some? ==> r.value < |order| && MLine(lines[order[r.value]], a, b)
    ensures r.Some? ==> forall j :: 0 <= j < r.value ==> !MLine(lines[order[j]], a, b)
    ensures r.None? ==> forall j :: 0 <= j < |order| ==> !MLine(lines[order[j]], a, b)
  {
    if |order| == 0 then None
    else if MLine(lines[order[0]], a, b) then Some(0)
    else match FirstMLine(lines, order[1..], a, b)
      case None => None
      case Some(k) => Some(k + 1)
  }

  // ---------------------------------------------------------------------------
  // polyline_join_in_point on values
  // ---------------------------------------------------------------------------

  /** The endpoint matches of one polyline, in the order the scan meets them:
      its first point (false), then its end (true). */
  function Hits(id: nat, l: Line, p: Point): (r: seq<(nat, bool)>)
    requires |l.points| > 0
    ensures forall k :: 0 <= k < |r| ==> r[k].0 == id && if r[k].1 then l.end == p else l.points[0] == p
    ensures l.points[0] == p ==> |r| > 0 && r[0] == (id, false)
    ensures l.end == p ==> |r| > 0 && r[|r| - 1] == (id, true)
  {
    (if l.points[0] == p then [(id, false)] else []) + (if l.end == p then [(id, true)] else [])
  }

  /** Every endpoint match at p along the first j polylines of the list, in
      scan order. */
  function MatchesTo(lines: map<nat, Line>, order: seq<nat>, p: Point, j: nat): (r: seq<(nat, bool)>)
    requires NonEmpty(lines) && Members(lines, order) && j <= |order|
    ensures forall k :: 0 <= k < |r| ==> r[k].0 in order
  {
    if j == 0 then [] else MatchesTo(lines, order, p, j - 1) + Hits(order[j - 1], lines[order[j - 1]], p)
  }

  /** Every endpoint match at p along the list. */
  function Matches(lines: map<nat, Line>, order: seq<nat>, p: Point): (r: seq<(nat, bool)>)
    requires NonEmpty(lines) && Members(lines, order)
  {
    MatchesTo(lines, order, p, |order|)
  }

  /** The matches up to some point of the scan lead those further on. */
  lemma {:induction false} MatchesPrefix(lines: map<nat, Line>, order: seq<nat>, p: Point, j: nat, n: nat)
    requires NonEmpty(lines) && Members(lines, order) && j <= n <= |order|
    ensures MatchesTo(lines, order, p, j) <= MatchesTo(lines, order, p, n)
    decreases n
  {
    if j < n {
      MatchesPrefix(lines, order, p, j, n - 1);
    }
  }

  /** The polylines with an end match among the matches e. */
  function Ends(e: seq<(nat, bool)>): set<nat> {
    set k | 0 <= k < |e| && e[k].1 :: e[k].0
  }

  /** The polylines in s reversed. */
  function RevAt(lines: map<nat, Line>, s: set<nat>): (r: map<nat, Line>)
    requires NonEmpty(lines)
    ensures r.Keys == lines.Keys && NonEmpty(r)
    ensures AllEnded(lines) ==> AllEnded(r)
  {
    map id | id in lines :: if id in s then Reversed(lines[id]) else lines[id]
  }

  /** The first and second polyline matched. */
  function Pick(e: seq<(nat, bool)>, k: nat): Option<nat> {
    if k < |e| then Some(e[k].0) else None
  }

  /** polyline_join_in_point as it is meant: every polyline ending at p up to
      the third match is reversed; with more than two matches the result is
      -1, with fewer than two or with both ends of one closed polyline 0, and
      with two distinct polylines p1 and p2 the points of p1, reversed, go in
      front of those of p2, p2 keeps its end, p1 is deleted and the result
      is 1. */
  function JoinResult(lines: map<nat, Line>, order: seq<nat>, p: Point): (r: (map<nat, Line>, seq<nat>, int))
    requires NonEmpty(lines) && Members(lines, order) && Distinct(order)
    ensures NonEmpty(r.0) && Members(r.0, r.1) && Distinct(r.1)
    ensures r.2 == -1 <==> |Matches(lines, order, p)| > 2
    ensures r.2 == 1 <==> |Matches(lines, order, p)| == 2 && Pick(Matches(lines, order, p), 0) != Pick(Matches(lines, order, p), 1)
    ensures r.2 != 1 ==> r.1 == order && r.0.Keys == lines.Keys
    ensures r.2 == 1 ==> r.1 == Removed(order, Pick(Matches(lines, order, p), 0).value)
    ensures AllEnded(lines) ==> AllEnded(r.0)
  {
    var e := Matches(lines, order, p);
    var m := RevAt(lines, Ends(e[..Min(3, |e|)]));
    if |e| > 2 || |e| < 2 || e[0].0 == e[1].0 then (m, order, if |e| > 2 then -1 else 0)
    else
      var p1, p2 := e[0].0, e[1].0;
      var joined := m[p2 := m[p2].(points := Rev(m[p1].points) + m[p2].points)];
      var d := Deleted(joined, order, p1);
      (d.0, d.1, 1)
  }

  /** After a join the two copies of the shared point meet in the middle of
      the joined polyline, which ends where p2 ended once p2 was turned to
      start at p. */
  lemma JoinSharedPoint(lines: map<nat, Line>, order: seq<nat>, p: Point)
    requires NonEmpty(lines) && Members(lines, order) && Distinct(order) && AllEnded(lines)
    requires JoinResult(lines, order, p).2 == 1
    ensures var e := Matches(lines, order, p);
      var p1, p2 := e[0].0, e[1].0;
      var n1 := |lines[p1].points|;
      var l := JoinResult(lines, order, p).0[p2];
      && |l.points| == n1 + |lines[p2].points|
      && l.points[n1 - 1] == p && l.points[n1] == p
      && l.end == (if lines[p2].end == p then lines[p2].points[0] else lines[p2].end)
  {
    var e := Matches(lines, order, p);
    var p1, p2 := e[0].0, e[1].0;
    assert e[..Min(3, |e|)] == e;
    var m := RevAt(lines, Ends(e));
    HitAt(lines, order, p, 0);
    HitAt(lines, order, p, 1);
    EndsMeaning(lines, order, p);
    var l := m[p2].(points := Rev(m[p1].points) + m[p2].points);
    assert JoinResult(lines, order, p).0[p2] == l;
  }

  /** After RevAt on every end match, a matched polyline starts at p. */
  lemma HitAt(lines: map<nat, Line>, order: seq<nat>, p: Point, k: nat)
    requires NonEmpty(lines) && Members(lines, order) && AllEnded(lines)
    requires k < |Matches(lines, order, p)|
    ensures var e := Matches(lines, order, p); RevAt(lines, Ends(e))[e[k].0].points[0] == p
  {
    var e := Matches(lines, order, p);
    var id := e[k].0;
    MatchMeaning(lines, order, p, |order|, k);
    EndsMeaning(lines, order, p);
    if e[k].1 {
      assert id in Ends(e);
    }
  }

  /** The polylines with an end match among the first j are those among the
      first j that end at p. */
  lemma {:induction false} EndsMeaningTo(lines: map<nat, Line>, order: seq<nat>, p: Point, j: nat)
    requires NonEmpty(lines) && Members(lines, order) && j <= |order|
    ensures forall id :: id in Ends(MatchesTo(lines, order, p, j)) <==>
      (exists i :: 0 <= i < j && order[i] == id) && id in lines && lines[id].end == p
  {
    if j > 0 {
      EndsMeaningTo(lines, order, p, j - 1);
      var id := order[j - 1];
      var h := Hits(id, lines[id], p);
      EndsConcat(MatchesTo(lines, order, p, j - 1), h);
      assert Ends(h) == if lines[id].end == p then {id} else {} by {
        if lines[id].end == p {
          assert h[|h| - 1] == (id, true);
        }
      }
    }
  }

  /** The polylines with an end match are exactly those in the list that end
      at p. */
  lemma EndsMeaning(lines: map<nat, Line>, order: seq<nat>, p: Point)
    requires NonEmpty(lines) && Members(lines, order)
    ensures forall id :: id in Ends(Matches(lines, order, p)) <==> id in order && lines[id].end == p
  {
    EndsMeaningTo(lines, order, p, |order|);
  }

  lemma EndsConcat(a: seq<(nat, bool)>, b: seq<(nat, bool)>)
    ensures Ends(a + b) == Ends(a) + Ends(b)
  {
    var c := a + b;
    forall x | x in Ends(c)
      ensures x in Ends(a) + Ends(b)
    {
      var k :| 0 <= k < |c| && c[k].1 && c[k].0 == x;
      if k >= |a| {
        assert b[k - |a|] == c[k];
      }
    }
    forall x | x in Ends(b)
      ensures x in Ends(c)
    {
      var k :| 0 <= k < |b| && b[k].1 && b[k].0 == x;
      assert c[|a| + k] == b[k];
    }
    forall x | x in Ends(a)
      ensures x in Ends(c)
    {
      var k :| 0 <= k < |a| && a[k].1 && a[k].0 == x;
      assert c[k] == a[k];
    }
  }

  /** A match (id, b) says that id's end (b) or first point (not b) is p. */
  lemma {:induction false} MatchMeaning(lines: map<nat, Line>, order: seq<nat>, p: Point, j: nat, k: nat)
    requires NonEmpty(lines) && Members(lines, order) && j <= |order|
    requires k < |MatchesTo(lines, order, p, j)|
    ensures var e := MatchesTo(lines, order, p, j)[k];
      e.0 in lines && if e.1 then lines[e.0].end == p else lines[e.0].points[0] == p
  {
    var pre := MatchesTo(lines, order, p, j - 1);
    if k < |pre| {
      MatchMeaning(lines, order, p, j - 1, k);
    } else {
      var id := order[j - 1];
      var h := Hits(id, lines[id], p);
      assert MatchesTo(lines, order, p, j)[k] == h[k - |pre|];
    }
  }

  // ---------------------------------------------------------------------------
  // The joining loop as written, when p1 and p2 are one polyline
  // ---------------------------------------------------------------------------

  /** One pass of the loop that moves p1's points onto p2: the first point of
      p1 is unlinked and pushed in front of p2's points.  When p1 and p2 are
      the same polyline (same), both names share one list, so the point is
      pushed back onto the list it was just taken from. */
  function MoveStep(from: seq<Point>, onto: seq<Point>, same: bool): (r: (seq<Point>, seq<Point>))
    requires |from| > 0
    requires same ==> onto == from
    ensures !same ==> r == (from[1..], [from[0]] + onto)
  {
    var rest := from[1..];
    var moved := [from[0]] + (if same then rest else onto);
    if same then (moved, moved) else (rest, moved)
  }

  /** The loop's state after n passes; it stops once p1 has no points. */
  function MoveRun(from: seq<Point>, onto: seq<Point>, same: bool, n: nat): (seq<Point>, seq<Point>)
    requires same ==> onto == from
    decreases n
  {
    if n == 0 || |from| == 0 then (from, onto)
    else
      var r := MoveStep(from, onto, same);
      MoveRun(r.0, r.1, same, n - 1)
  }

  /** With p1 and p2 distinct, |from| passes move every point, reversed, in
      front of p2's points and leave p1 empty. */
  lemma {:induction false} MoveRunDistinct(from: seq<Point>, onto: seq<Point>)
    ensures MoveRun(from, onto, false, |from|) == ([], Rev(from) + onto)
    decreases |from|
  {
    if |from| > 0 {
      assert MoveRun(from, onto, false, |from|) == MoveRun(from[1..], [from[0]] + onto, false, |from[1..]|);
      MoveRunDistinct(from[1..], [from[0]] + onto);
      assert Rev(from) == Rev(from[1..]) + [from[0]];
      assert Rev(from[1..]) + [from[0]] + onto == Rev(from[1..]) + ([from[0]] + onto);
    } else {
      assert Rev(from) + onto == onto;
    }
  }

  /** With p1 and p2 one polyline, no number of passes empties p1: the list
      never changes and the loop does not end. */
  lemma {:induction false} AliasedMoveNeverEnds(l: seq<Point>, n: nat)
    requires |l| > 0
    ensures MoveRun(l, l, true, n) == (l, l)
    decreases n
  {
    if n > 0 {
      assert [l[0]] + l[1..] == l;
      AliasedMoveNeverEnds(l, n - 1);
    }
  }

  /** A closed polyline whose both ends lie on p, alone in the store, is the
      polyline of both matches, so the join as written would move it onto
      itself; the model leaves it alone and reports 0. */
  lemma ClosedLoopMatchesTwice()
    ensures var a, b := Point(0, 0), Point(1, 0);
      var lines := map[0 := Line([a, b, a], a)];
      && Matches(lines, [0], a) == [(0, false), (0, true)]
      && JoinResult(lines, [0], a).2 == 0
  {
    var a, b := Point(0, 0), Point(1, 0);
    var lines := map[0 := Line([a, b, a], a)];
    assert MatchesTo(lines, [0], a, 0) == [];
    assert Hits(0, lines[0], a) == [(0, false), (0, true)];
  }

  // ---------------------------------------------------------------------------
  // Loops on values
  // ---------------------------------------------------------------------------

  /** The link-moving loop shared by polyline_reverse and
      polyline_join_in_point: points are taken from the front of `from` one by
      one and pushed on the front of `onto`. */
  method MovePoints(from: seq<Point>, onto: seq<Point>) returns (r: seq<Point>)
    ensures r == Rev(from) + onto
  {
    var rest := from;
    r := onto;
    while |rest| > 0
      invariant Rev(rest) + r == Rev(from) + onto
    {
      assert Rev(rest) == Rev(rest[1..]) + [rest[0]];
      r := [rest[0]] + r;
      rest := rest[1..];
    }
  }

  /** polyline_reverse on a value, with its loop. */
  method ReverseLine(l: Line) returns (r: Line)
    requires |l.points| > 0
    ensures r == Reversed(l)
  {
    var pts := MovePoints(l.points, []);
    r := Line(pts, l.points[0]);
  }

  /** The scan of polyline_join_in_point: each polyline's first point and
      then its end are compared with p, and a polyline ending at p is
      reversed before it is recorded; a third match ends the scan with -1. */
  method ScanEnds(lines: map<nat, Line>, order: seq<nat>, p: Point)
    returns (m: map<nat, Line>, p1: Option<nat>, p2: Option<nat>, status: int)
    requires NonEmpty(lines) && Members(lines, order) && Distinct(order)
    ensures var e := Matches(lines, order, p);
      && m == RevAt(lines, Ends(e[..Min(3, |e|)]))
      && (status == -1 <==> |e| > 2) && (status == 0 <==> |e| <= 2)
      && (|e| <= 2 ==> p1 == Pick(e, 0) && p2 == Pick(e, 1))
  {
    m := lines;
    p1, p2 := None, None;
    var i := 0;
    assert RevAt(lines, {}) == lines;
    while i < |order|
      invariant 0 <= i <= |order|
      invariant Scanned(lines, order, p, i, m, p1, p2)
    {
      var done;
      m, p1, p2, done := ScanOne(lines, order, p, i, m, p1, p2);
      if done {
        ScanStopped(lines, order, p, i + 1, m);
        return m, p1, p2, -1;
      }
      i := i + 1;
    }
    ScanFinished(lines, order, p, m, p1, p2);
    status := 0;
  }

  /** The state of the scan after the first i polylines: at most two
      matches so far, the polylines among them ending at p reversed, and p1
      and p2 the first two. */
  predicate Scanned(lines: map<nat, Line>, order: seq<nat>, p: Point, i: nat,
                    m: map<nat, Line>, p1: Option<nat>, p2: Option<nat>)
    requires NonEmpty(lines) && Members(lines, order) && i <= |order|
  {
    var e := MatchesTo(lines, order, p, i);
    |e| <= 2 && m == RevAt(lines, Ends(e)) && p1 == Pick(e, 0) && p2 == Pick(e, 1)
  }

  /** Once the first j polylines give three matches, so does the whole list,
      and its first three are theirs. */
  lemma ScanStopped(lines: map<nat, Line>, order: seq<nat>, p: Point, j: nat, m: map<nat, Line>)
    requires NonEmpty(lines) && Members(lines, order) && j <= |order|
    requires |MatchesTo(lines, order, p, j)| > 2
    requires m == RevAt(lines, Ends(MatchesTo(lines, order, p, j)[..3]))
    ensures var e := Matches(lines, order, p); |e| > 2 && m == RevAt(lines, Ends(e[..Min(3, |e|)]))
  {
    MatchesPrefix(lines, order, p, j, |order|);
    var e := Matches(lines, order, p);
    assert e[..Min(3, |e|)] == MatchesTo(lines, order, p, j)[..3];
  }

  lemma ScanFinished(lines: map<nat, Line>, order: seq<nat>, p: Point,
                     m: map<nat, Line>, p1: Option<nat>, p2: Option<nat>)
    requires NonEmpty(lines) && Members(lines, order)
    requires Scanned(lines, order, p, |order|, m, p1, p2)
    ensures var e := Matches(lines, order, p);
      |e| <= 2 && m == RevAt(lines, Ends(e[..Min(3, |e|)])) && p1 == Pick(e, 0) && p2 == Pick(e, 1)
  {
    var e := Matches(lines, order, p);
    assert e[..Min(3, |e|)] == e;
  }

  /** One polyline of the scan: its first point, then its end. */
  method ScanOne(lines: map<nat, Line>, order: seq<nat>, p: Point, i: nat,
                 m: map<nat, Line>, p1: Option<nat>, p2: Option<nat>)
    returns (m': map<nat, Line>, p1': Option<nat>, p2': Option<nat>, done: bool)
    requires NonEmpty(lines) && Members(lines, order) && Distinct(order) && i < |order|
    requires Scanned(lines, order, p, i, m, p1, p2)
    ensures done <==> |MatchesTo(lines, order, p, i + 1)| > 2
    ensures done ==> m' == RevAt(lines, Ends(MatchesTo(lines, order, p, i + 1)[..3]))
    ensures !done ==> Scanned(lines, order, p, i + 1, m', p1', p2')
  {
    var id := order[i];
    ghost var e0, e1 := MatchesTo(lines, order, p, i), MatchesTo(lines, order, p, i + 1);
    StepFacts(lines, order, p, i);
    assert id in lines && m[id] == lines[id];
    m', p1', p2' := m, p1, p2;
    var l := m[id];
    if l.points[0] == p {
      if p1'.None? {
        p1' := Some(id);
      } else if p2'.None? {
        p2' := Some(id);
      } else {
        assert |e1| > 2 && Ends(e1[..3]) == Ends(e0);
        return m', p1', p2', true;
      }
    }
    if l.end == p {
      var r := ReverseLine(l);
      RevAtAdd(lines, Ends(e0), id);
      m' := m'[id := r];
      assert m' == RevAt(lines, Ends(e1));
      if p1'.None? {
        p1' := Some(id);
      } else if p2'.None? {
        p2' := Some(id);
      } else {
        return m', p1', p2', true;
      }
    }
    done := false;
  }

  /** How the matches grow by the polyline at position i. */
  lemma StepFacts(lines: map<nat, Line>, order: seq<nat>, p: Point, i: nat)
    requires NonEmpty(lines) && Members(lines, order) && Distinct(order) && i < |order|
    ensures var e0, e1 := MatchesTo(lines, order, p, i), MatchesTo(lines, order, p, i + 1);
      var id := order[i];
      var s, t := lines[id].points[0] == p, lines[id].end == p;
      && id !in Ends(e0)
      && |e1| == |e0| + (if s then 1 else 0) + (if t then 1 else 0)
      && (forall k :: 0 <= k < |e0| ==> e1[k] == e0[k])
      && (s ==> e1[|e0|].0 == id)
      && (t ==> e1[|e1| - 1].0 == id)
      && Ends(e1) == Ends(e0) + (if t then {id} else {})
      && (|e0| == 2 && s ==> Ends(e1[..3]) == Ends(e0))
      && (|e1| == 3 ==> e1[..3] == e1)
  {
    var id := order[i];
    var e0, e1 := MatchesTo(lines, order, p, i), MatchesTo(lines, order, p, i + 1);
    var h := Hits(id, lines[id], p);
    EndsConcat(e0, h);
    assert Ends(h) == if lines[id].end == p then {id} else {} by {
      if lines[id].end == p {
        assert h[|h| - 1] == (id, true);
      }
    }
    EndsMeaningTo(lines, order, p, i);
    if |e0| == 2 && lines[id].points[0] == p {
      assert e1[..3] == e0 + [(id, false)];
      EndsConcat(e0, [(id, false)]);
    }
  }

  lemma RevAtAdd(lines: map<nat, Line>, s: set<nat>, id: nat)
    requires NonEmpty(lines) && id in lines && id !in s
    ensures RevAt(lines, s)[id := Reversed(lines[id])] == RevAt(lines, s + {id})
  {
    var a, b := RevAt(lines, s)[id := Reversed(lines[id])], RevAt(lines, s + {id});
    assert a.Keys == b.Keys;
    forall x | x in a
      ensures a[x] == b[x]
    {
    }
  }

  /** polyline_delete_m_line on values: the first m-line between a and b
      deleted and the store then joined at a and at b; without one the
      store as it was. */
  function MLineDeleted(lines: map<nat, Line>, order: seq<nat>, a: Point, b: Point): (r: (map<nat, Line>, seq<nat>))
    requires NonEmpty(lines) && Members(lines, order) && Distinct(order)
    ensures NonEmpty(r.0) && Members(r.0, r.1) && Distinct(r.1)
  {
    match FirstMLine(lines, order, a, b)
    case None => (lines, order)
    case Some(k) =>
      var d := Deleted(lines, order, order[k]);
      var j1 := JoinResult(d.0, d.1, a);
      var j2 := JoinResult(j1.0, j1.1, b);
      (j2.0, j2.1)
  }

  // ---------------------------------------------------------------------------
  // The store
  // ---------------------------------------------------------------------------

  /** The polylines by handle, and the list first_polyline as the handles in
      list order (newest first); the head is the "default" polyline. */
  class Store {
    var lines: map<nat, Line>
    var order: seq<nat>
    var nextId: nat

    ghost predicate Valid()
      reads this
    {
      StoreInv(lines, order, nextId)
    }

    constructor ()
      ensures Valid() && AllEnded(lines) && lines == map[] && order == []
    {
      lines := map[];
      order := [];
      nextId := 0;
    }

    /** polyline_start: a new polyline with the one point p and end p at the
        list head. */
    method Start(p: Point) returns (id: nat)
      requires Valid()
      modifies this
      ensures Valid() && id == old(nextId) && id !in old(lines)
      ensures lines == old(lines)[id := Line([p], p)] && order == [id] + old(order)
      ensures Ended(lines[id]) && (old(AllEnded(lines)) ==> AllEnded(lines))
    {
      id := nextId;
      nextId := nextId + 1;
      lines := lines[id := Line([p], p)];
      order := [id] + order;
    }

    /** polyline_append: p in front of the points of the head polyline; its
        end and every other polyline unchanged. */
    method Append(p: Point)
      requires Valid() && |order| > 0
      modifies this
      ensures Valid() && order == old(order) && nextId == old(nextId)
      ensures var h := old(order)[0];
        lines == old(lines)[h := old(lines)[h].(points := [p] + old(lines)[h].points)]
      ensures old(AllEnded(lines)) ==> AllEnded(lines)
    {
      var h := order[0];
      var l := lines[h];
      ReplaceKeeps(lines, order, nextId, h, l.(points := [p] + l.points));
      lines := lines[h := l.(points := [p] + l.points)];
    }

    /** polyline_extend: the head polyline extended to p, by moving its first
        point when p continues the first segment's line. */
    method Extend(p: Point)
      requires Valid() && |order| > 0
      modifies this
      ensures Valid() && order == old(order) && nextId == old(nextId)
      ensures var h := old(order)[0]; lines == old(lines)[h := Extended(old(lines)[h], p)]
      ensures old(AllEnded(lines)) ==> AllEnded(lines)
    {
      var h := order[0];
      var l := lines[h];
      ReplaceKeeps(lines, order, nextId, h, Extended(l, p));
      if |l.points| >= 2 {
        var k1c, k1m := p.x - l.points[0].x, p.y - l.points[0].y;
        var k2c, k2m := l.points[1].x - l.points[0].x, l.points[1].y - l.points[0].y;
        if k1c * k2m == k2c * k1m {
          lines := lines[h := l.(points := l.points[0 := p])];
          return;
        }
      }
      Append(p);
    }

    /** polyline_search_at_start: the first polyline in list order whose first
        point is p. */
    method SearchAtStart(p: Point) returns (found: Option<nat>)
      requires Valid()
      ensures var k := FirstStart(lines, order, p);
        (k.None? ==> found.None?) && (k.Some? ==> found == Some(order[k.value]))
    {
      var i := 0;
      while i < |order|
        invariant 0 <= i <= |order|
        invariant forall j :: 0 <= j < i ==> lines[order[j]].points[0] != p
      {
        if lines[order[i]].points[0] == p {
          FirstStartAt(lines, order, p, i);
          return Some(order[i]);
        }
        i := i + 1;
      }
      found := None;
    }

    /** polyline_find_append: q in front of the first polyline that starts at
        p, and 1; 0 and no change when none does. */
    method FindAppend(p: Point, q: Point) returns (r: int)
      requires Valid()
      modifies this
      ensures Valid() && order == old(order) && nextId == old(nextId)
      ensures var k := FirstStart(old(lines), old(order), p);
        && (k.None? ==> r == 0 && lines == old(lines))
        && (k.Some? ==> var id := old(order)[k.value];
              r == 1 && lines == old(lines)[id := old(lines)[id].(points := [q] + old(lines)[id].points)])
      ensures old(AllEnded(lines)) ==> AllEnded(lines)
    {
      var found := SearchAtStart(p);
      if found.None? {
        return 0;
      }
      var id := found.value;
      var l := lines[id];
      ReplaceKeeps(lines, order, nextId, id, l.(points := [q] + l.points));
      lines := lines[id := l.(points := [q] + l.points)];
      r := 1;
    }

    /** polyline_reverse. */
    method Reverse(id: nat)
      requires Valid() && id in lines
      modifies this
      ensures Valid() && order == old(order) && nextId == old(nextId)
      ensures lines == old(lines)[id := Reversed(old(lines)[id])]
      ensures old(AllEnded(lines)) ==> AllEnded(lines)
    {
      var r := ReverseLine(lines[id]);
      ReplaceKeeps(lines, order, nextId, id, r);
      lines := lines[id := r];
    }

    /** polyline_delete: the polyline unlinked from the list and freed; the
        others keep their order. A handle not in the list changes nothing. */
    method Delete(id: nat)
      requires Valid()
      modifies this
      ensures Valid() && nextId == old(nextId)
      ensures (lines, order) == Deleted(old(lines), old(order), id)
      ensures old(AllEnded(lines)) ==> AllEnded(lines)
    {
      DeletedKeeps(lines, order, nextId, id);
      var o := Unlink(order, id);
      lines := lines - {id};
      order := o;
    }

    /** polyline_delete_default: the list head deleted; nothing on an empty
        list. */
    method DeleteDefault()
      requires Valid()
      modifies this
      ensures Valid() && nextId == old(nextId)
      ensures |old(order)| == 0 ==> lines == old(lines) && order == old(order)
      ensures |old(order)| > 0 ==> lines == old(lines) - {old(order)[0]} && order == old(order)[1..]
      ensures old(AllEnded(lines)) ==> AllEnded(lines)
    {
      if |order| == 0 {
        return;
      }
      DeletedKeeps(lines, order, nextId, order[0]);
      lines := lines - {order[0]};
      order := order[1..];
    }

    /** polyline_join_in_point, with a closed polyline whose two ends are the
        only matches left alone. */
    method JoinInPoint(p: Point) returns (r: int)
      requires Valid()
      modifies this
      ensures Valid() && nextId == old(nextId)
      ensures (lines, order, r) == JoinResult(old(lines), old(order), p)
      ensures old(AllEnded(lines)) ==> AllEnded(lines)
    {
      var m, p1, p2, status := ScanEnds(lines, order, p);
      ghost var l0, e := lines, Matches(lines, order, p);
      ScanKeeps(lines, order, nextId, Ends(e[..Min(3, |e|)]));
      lines := m;
      if status == -1 {
        return -1;
      }
      assert e[..Min(3, |e|)] == e;
      r := JoinPicked(l0, p, p1, p2);
    }

    /** The joining half of polyline_join_in_point, once the scan has turned
        every polyline ending at p and picked p1 and p2. */
    method JoinPicked(ghost l0: map<nat, Line>, p: Point, p1: Option<nat>, p2: Option<nat>) returns (r: int)
      requires Valid() && NonEmpty(l0) && Members(l0, order)
      requires var e := Matches(l0, order, p);
        |e| <= 2 && lines == RevAt(l0, Ends(e)) && p1 == Pick(e, 0) && p2 == Pick(e, 1)
      modifies this
      ensures Valid() && nextId == old(nextId)
      ensures (lines, order, r) == JoinResult(l0, old(order), p)
    {
      ghost var e := Matches(l0, order, p);
      assert e[..Min(3, |e|)] == e;
      if p1.Some? && p2.Some? && p1.value != p2.value {
        var a, b := p1.value, p2.value;
        var pts := MovePoints(lines[a].points, lines[b].points);
        ReplaceKeeps(lines, order, nextId, b, lines[b].(points := pts));
        lines := lines[b := lines[b].(points := pts)];
        Delete(a);
        return 1;
      }
      r := 0;
    }

    /** polyline_delete_m_line: the first m-line between a and b is deleted
        and the store is then joined at a and at b; without one nothing
        changes. */
    method DeleteMLine(a: Point, b: Point)
      requires Valid()
      modifies this
      ensures Valid() && nextId == old(nextId)
      ensures (lines, order) == MLineDeleted(old(lines), old(order), a, b)
      ensures old(AllEnded(lines)) ==> AllEnded(lines)
    {
      var i := 0;
      while i < |order|
        invariant 0 <= i <= |order|
        invariant lines == old(lines) && order == old(order) && nextId == old(nextId)
        invariant forall j :: 0 <= j < i ==> !MLine(lines[order[j]], a, b)
      {
        if MLine(lines[order[i]], a, b) {
          FirstMLineAt(lines, order, a, b, i);
          Delete(order[i]);
          var _ := JoinInPoint(a);
          var _ := JoinInPoint(b);
          return;
        }
        i := i + 1;
      }
    }
  }

  lemma FirstStartAt(lines: map<nat, Line>, order: seq<nat>, p: Point, i: nat)
    requires NonEmpty(lines) && Members(lines, order) && i < |order| && lines[order[i]].points[0] == p
    requires forall j :: 0 <= j < i ==> lines[order[j]].points[0] != p
    ensures FirstStart(lines, order, p) == Some(i)
  {
  }

  lemma FirstMLineAt(lines: map<nat, Line>, order: seq<nat>, a: Point, b: Point, i: nat)
    requires Members(lines, order) && i < |order| && MLine(lines[order[i]], a, b)
    requires forall j :: 0 <= j < i ==> !MLine(lines[order[j]], a, b)
    ensures FirstMLine(lines, order, a, b) == Some(i)
  {
  }

  lemma ScanKeeps(lines: map<nat, Line>, order: seq<nat>, n: nat, s: set<nat>)
    requires StoreInv(lines, order, n)
    ensures StoreInv(RevAt(lines, s), order, n)
  {
  }
}
