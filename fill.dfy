/** The scanline flood fill of fill.c: a work stack of seed pixels; each
    popped seed is painted together with the horizontal run of non-border
    pixels around it, and one seed is pushed for every maximal run of pixels
    that still need filling in the rows just above and below. */
module Fill {
  import opened Basics

  // ---------------------------------------------------------------------------
  // Raster views
  // ---------------------------------------------------------------------------

  predicate InRaster(w: nat, h: nat, c: int, r: int) {
    0 <= c < w && 0 <= r < h
  }

  /** The byte of pixel (c, r) of a row-major raster w pixels wide. */
  function At(s: seq<byte>, w: nat, h: nat, c: int, r: int): byte
    requires |s| == w * h && InRaster(w, h, c, r)
  {
    s[Idx(w, h, c, r)]
  }

  /** A pixel that still needs filling: neither border nor fill. */
  predicate Live(b: byte, border: byte, fill: byte) {
    b != border && b != fill
  }

  /** Every byte of t is the byte of s, or a byte of s that still needed
      filling, now fill. */
  predicate Converted(s: seq<byte>, t: seq<byte>, border: byte, fill: byte) {
    |s| == |t| && forall i :: 0 <= i < |s| ==> t[i] == s[i] || (Live(s[i], border, fill) && t[i] == fill)
  }

  lemma {:induction false} ConvertedTrans(s: seq<byte>, t: seq<byte>, u: seq<byte>, border: byte, fill: byte)
    requires Converted(s, t, border, fill) && Converted(t, u, border, fill)
    ensures Converted(s, u, border, fill)
  {
  }

  /** t differs from s at most at the offsets a to b. */
  predicate SameOutside(s: seq<byte>, t: seq<byte>, a: int, b: int) {
    |s| == |t| && forall i :: 0 <= i < |s| && (i < a || i > b) ==> t[i] == s[i]
  }

  /** The offsets of row y between columns lo and hi hold no other pixel. */
  lemma {:induction false} IdxOutsideRun(w: nat, h: nat, c: int, r: int, y: int, lo: int, hi: int)
    requires InRaster(w, h, c, r) && 0 <= lo <= hi < w && 0 <= y < h
    requires !(r == y && lo <= c <= hi)
    ensures Idx(w, h, c, r) < Idx(w, h, lo, y) || Idx(w, h, c, r) > Idx(w, h, hi, y)
  {
    if r < y {
      MulMonotone(w, r + 1, y);
      assert w * (r + 1) == w * r + w;
    } else if r > y {
      MulMonotone(w, y + 1, r);
      assert w * (y + 1) == w * y + w;
    }
  }

  // ---------------------------------------------------------------------------
  // The work stack: fill_push and fill_pop
  // ---------------------------------------------------------------------------

  /** The static stack of fill.c: its seeds (top first), its depth and the
      greatest depth reached since the counters were reset. */
  class FillStack {
    var items: seq<Point>
    var level: nat
    var maxLevel: nat

    ghost predicate Valid()
      reads this
    {
      level == |items| && level <= maxLevel
    }

    constructor ()
      ensures Valid() && items == [] && maxLevel == 0
    {
      items := [];
      level := 0;
      maxLevel := 0;
    }

    /** The counters reset at the start of image_fill; the stack itself is
        empty, as every fill leaves it. */
    method Reset()
      requires Valid() && items == []
      modifies this
      ensures Valid() && items == [] && maxLevel == 0
    {
      level := 0;
      maxLevel := 0;
    }

    /** fill_push: the seed on top, one level deeper, the greatest depth
        updated. */
    method Push(p: Point)
      requires Valid()
      modifies this
      ensures Valid() && items == [p] + old(items)
      ensures maxLevel == Max(old(maxLevel), |items|)
    {
      items := [p] + items;
      level := level + 1;
      if level > maxLevel {
        maxLevel := level;
      }
    }

    /** fill_pop: the top seed removed and returned; None on an empty stack. */
    method Pop() returns (s: Option<Point>)
      requires Valid()
      modifies this
      ensures Valid() && maxLevel == old(maxLevel)
      ensures old(items) == [] ==> s.None? && items == []
      ensures old(items) != [] ==> s == Some(old(items)[0]) && items == old(items)[1..]
    {
      if items == [] {
        return None;
      }
      s := Some(items[0]);
      items := items[1..];
      level := level - 1;
    }
  }

  // ---------------------------------------------------------------------------
  // Painting one run
  // ---------------------------------------------------------------------------

  /** The left scan of image_fill: from column x - 1 leftwards every pixel
      is painted until a border pixel or column 0; count grows by one per
      pixel painted. */
  method ScanLeft(data: array<byte>, w: nat, h: nat, x: int, y: int, fill: byte, border: byte, count: int)
    returns (lo: int, count': int)
    requires data.Length == w * h && InRaster(w, h, x, y)
    modifies data
    ensures 0 <= lo <= x && count' == count + (x - lo)
    ensures lo == 0 || data[Idx(w, h, lo - 1, y)] == border
    ensures forall c :: lo <= c < x ==> data[Idx(w, h, c, y)] == fill && old(data[Idx(w, h, c, y)]) != border
    ensures Converted(old(data[..]), data[..], border, fill)
    ensures SameOutside(old(data[..]), data[..], Idx(w, h, lo, y), Idx(w, h, x, y) - 1)
  {
    lo, count' := x, count;
    if x > 0 {
      var sx := x - 1;
      while sx >= 0
        invariant -1 <= sx < x && lo == sx + 1
        invariant count' == count + (x - lo)
        invariant forall c :: lo <= c < x ==> data[Idx(w, h, c, y)] == fill && old(data[Idx(w, h, c, y)]) != border
        invariant Converted(old(data[..]), data[..], border, fill)
        invariant SameOutside(old(data[..]), data[..], Idx(w, h, lo, y), Idx(w, h, x, y) - 1)
      {
        if data[Idx(w, h, sx, y)] == border {
          break;
        }
        data[Idx(w, h, sx, y)] := fill;
        count' := count' + 1;
        lo := sx;
        sx := sx - 1;
      }
    }
  }

  /** The right scan of image_fill: from column x + 1 rightwards every pixel
      is painted until a border pixel or the last column. */
  method ScanRight(data: array<byte>, w: nat, h: nat, x: int, y: int, fill: byte, border: byte, count: int)
    returns (hi: int, count': int)
    requires data.Length == w * h && InRaster(w, h, x, y)
    modifies data
    ensures x <= hi < w && count' == count + (hi - x)
    ensures hi == w - 1 || data[Idx(w, h, hi + 1, y)] == border
    ensures forall c :: x < c <= hi ==> data[Idx(w, h, c, y)] == fill && old(data[Idx(w, h, c, y)]) != border
    ensures Converted(old(data[..]), data[..], border, fill)
    ensures SameOutside(old(data[..]), data[..], Idx(w, h, x, y) + 1, Idx(w, h, hi, y))
  {
    hi, count' := x, count;
    if x < w - 1 {
      var sx := x + 1;
      while sx < w
        invariant x < sx <= w && hi == sx - 1
        invariant count' == count + (hi - x)
        invariant forall c :: x < c <= hi ==> data[Idx(w, h, c, y)] == fill && old(data[Idx(w, h, c, y)]) != border
        invariant Converted(old(data[..]), data[..], border, fill)
        invariant SameOutside(old(data[..]), data[..], Idx(w, h, x, y) + 1, Idx(w, h, hi, y))
      {
        if data[Idx(w, h, sx, y)] == border {
          break;
        }
        data[Idx(w, h, sx, y)] := fill;
        count' := count' + 1;
        hi := sx;
        sx := sx + 1;
      }
    }
  }

  /** A popped seed: its pixel painted, then the scans to both sides.  The
      painted run lo..hi of row y is bounded by border pixels or the raster's
      edges, and nothing outside it changes. */
  method PaintRun(data: array<byte>, w: nat, h: nat, x: int, y: int, fill: byte, border: byte, count: int)
    returns (lo: int, hi: int, count': int)
    requires data.Length == w * h && InRaster(w, h, x, y)
    requires Live(data[Idx(w, h, x, y)], border, fill) || data[Idx(w, h, x, y)] == fill
    modifies data
    ensures 0 <= lo <= x <= hi < w && count' == count + (hi - lo)
    ensures RunPainted(old(data[..]), data[..], w, h, border, fill, Point(x, y), lo, hi)
  {
    ghost var s := data[..];
    data[Idx(w, h, x, y)] := fill;
    ghost var s1 := data[..];
    assert Converted(s, s1, border, fill);
    lo, count' := ScanLeft(data, w, h, x, y, fill, border, count);
    ghost var s2 := data[..];
    ConvertedTrans(s, s1, s2, border, fill);
    hi, count' := ScanRight(data, w, h, x, y, fill, border, count');
    ConvertedTrans(s, s2, data[..], border, fill);
    assert lo > 0 ==> s[Idx(w, h, lo - 1, y)] == s2[Idx(w, h, lo - 1, y)];
    assert hi < w - 1 ==> s[Idx(w, h, hi + 1, y)] == s1[Idx(w, h, hi + 1, y)];
  }

  // ---------------------------------------------------------------------------
  // Seeding the neighbouring rows
  // ---------------------------------------------------------------------------

  /** Every pixel of row r from column min(a, b) to max(a, b) is not border. */
  predicate Clear(s: seq<byte>, w: nat, h: nat, border: byte, r: int, a: int, b: int) {
    && |s| == w * h && 0 <= r < h && 0 <= a < w && 0 <= b < w
    && forall x :: Min(a, b) <= x <= Max(a, b) ==> At(s, w, h, x, r) != border
  }

  /** Some seed of the stack lies in row r and reaches column c without a
      border pixel in between, so popping it paints (c, r). */
  predicate Covered(s: seq<byte>, w: nat, h: nat, border: byte, stack: seq<Point>, c: int, r: int) {
    exists k :: 0 <= k < |stack| && stack[k].y == r && Clear(s, w, h, border, r, stack[k].x, c)
  }

  lemma {:induction false} CoveredGrow(s: seq<byte>, w: nat, h: nat, border: byte, a: seq<Point>, b: seq<Point>, c: int, r: int)
    ensures Covered(s, w, h, border, a, c, r) ==> Covered(s, w, h, border, a + b, c, r)
    ensures Covered(s, w, h, border, b, c, r) ==> Covered(s, w, h, border, a + b, c, r)
  {
    if Covered(s, w, h, border, a, c, r) {
      var k :| 0 <= k < |a| && a[k].y == r && Clear(s, w, h, border, r, a[k].x, c);
      assert (a + b)[k] == a[k];
    }
    if Covered(s, w, h, border, b, c, r) {
      var k :| 0 <= k < |b| && b[k].y == r && Clear(s, w, h, border, r, b[k].x, c);
      assert (a + b)[|a| + k] == b[k];
    }
  }

  /** Seeds all in row r, between columns lo and hi, on pixels that still
      need filling. */
  predicate SeedsAt(s: seq<byte>, w: nat, h: nat, border: byte, fill: byte, seeds: seq<Point>, r: int, lo: int, hi: int) {
    && |s| == w * h && 0 <= r < h && 0 <= lo && hi < w
    && forall k :: 0 <= k < |seeds| ==>
         seeds[k].y == r && lo <= seeds[k].x <= hi && Live(At(s, w, h, seeds[k].x, r), border, fill)
  }

  /** Every pixel of row r from column lo up to n - 1 that still needs
      filling is covered by one of the seeds. */
  predicate RowCovered(s: seq<byte>, w: nat, h: nat, border: byte, fill: byte, seeds: seq<Point>, r: int, lo: int, n: int) {
    && |s| == w * h && 0 <= r < h && 0 <= lo && n <= w
    && forall c :: lo <= c < n ==> !Live(At(s, w, h, c, r), border, fill) || Covered(s, w, h, border, seeds, c, r)
  }

  /** Column x of row r starts a run that needs a seed: its pixel needs
      filling and it is column lo or follows a pixel that does not. */
  predicate RunStart(s: seq<byte>, w: nat, h: nat, border: byte, fill: byte, r: int, lo: int, x: int)
    requires |s| == w * h && 0 <= r < h && 0 <= lo <= x < w
  {
    Live(At(s, w, h, x, r), border, fill) && (x == lo || !Live(At(s, w, h, x - 1, r), border, fill))
  }

  /** The seeds the seeding loop of image_fill pushes while it scans columns
      lo to n - 1 of row r, the latest first. */
  function RowSeeds(s: seq<byte>, w: nat, h: nat, border: byte, fill: byte, r: int, lo: int, n: int): (seeds: seq<Point>)
    requires |s| == w * h && 0 <= r < h && 0 <= lo <= n <= w
    ensures |seeds| <= n - lo
    decreases n - lo
  {
    if n == lo then []
    else if RunStart(s, w, h, border, fill, r, lo, n - 1) then [Point(n - 1, r)] + RowSeeds(s, w, h, border, fill, r, lo, n - 1)
    else RowSeeds(s, w, h, border, fill, r, lo, n - 1)
  }

  /** The seeds pushed for neighbouring row r of the run lo..hi: none when r
      is outside the raster. */
  function NeighbourSeeds(s: seq<byte>, w: nat, h: nat, border: byte, fill: byte, r: int, lo: int, hi: int): (seeds: seq<Point>)
    requires |s| == w * h && 0 <= lo <= hi < w
    ensures |seeds| <= hi - lo + 1
    ensures !(0 <= r < h) ==> seeds == []
  {
    if 0 <= r < h then RowSeeds(s, w, h, border, fill, r, lo, hi + 1) else []
  }

  /** The seeds of a scan lie in the scanned row, between lo and hi, on
      pixels that need filling. */
  lemma {:induction false} RowSeedsIn(s: seq<byte>, w: nat, h: nat, border: byte, fill: byte, r: int, lo: int, hi: int, n: int)
    requires |s| == w * h && 0 <= r < h && 0 <= lo <= n <= hi + 1 <= w
    ensures SeedsAt(s, w, h, border, fill, RowSeeds(s, w, h, border, fill, r, lo, n), r, lo, hi)
    decreases n - lo
  {
    if n > lo {
      RowSeedsIn(s, w, h, border, fill, r, lo, hi, n - 1);
      if RunStart(s, w, h, border, fill, r, lo, n - 1) {
        SeedsAtCons(s, w, h, border, fill, RowSeeds(s, w, h, border, fill, r, lo, n - 1), Point(n - 1, r), r, lo, hi);
      }
    }
  }

  lemma {:induction false} SeedsAtCons(s: seq<byte>, w: nat, h: nat, border: byte, fill: byte, seeds: seq<Point>, q: Point, r: int, lo: int, hi: int)
    requires SeedsAt(s, w, h, border, fill, seeds, r, lo, hi)
    requires q.y == r && lo <= q.x <= hi && Live(At(s, w, h, q.x, r), border, fill)
    ensures SeedsAt(s, w, h, border, fill, [q] + seeds, r, lo, hi)
  {
    forall k | 0 < k < |[q] + seeds|
      ensures ([q] + seeds)[k] == seeds[k - 1]
    {
    }
  }

  /** When the last scanned pixel needs filling, the latest seed lies in its
      run, with no border pixel in between. */
  lemma {:induction false} RowSeedsReach(s: seq<byte>, w: nat, h: nat, border: byte, fill: byte, r: int, lo: int, n: int)
    requires |s| == w * h && 0 <= r < h && 0 <= lo < n <= w && Live(At(s, w, h, n - 1, r), border, fill)
    ensures |RowSeeds(s, w, h, border, fill, r, lo, n)| > 0
    ensures RowSeeds(s, w, h, border, fill, r, lo, n)[0].y == r
    ensures lo <= RowSeeds(s, w, h, border, fill, r, lo, n)[0].x <= n - 1
    ensures Clear(s, w, h, border, r, RowSeeds(s, w, h, border, fill, r, lo, n)[0].x, n - 1)
    decreases n - lo
  {
    if !RunStart(s, w, h, border, fill, r, lo, n - 1) {
      RowSeedsReach(s, w, h, border, fill, r, lo, n - 1);
      ClearExtend(s, w, h, border, r, RowSeeds(s, w, h, border, fill, r, lo, n - 1)[0].x, n - 1);
    }
  }

  /** Every pixel of a scanned stretch that needs filling is covered by the
      seeds of the scan. */
  lemma {:induction false} RowSeedsCovered(s: seq<byte>, w: nat, h: nat, border: byte, fill: byte, r: int, lo: int, n: int)
    requires |s| == w * h && 0 <= r < h && 0 <= lo <= n <= w
    ensures RowCovered(s, w, h, border, fill, RowSeeds(s, w, h, border, fill, r, lo, n), r, lo, n)
    decreases n - lo
  {
    if n > lo {
      var prev := RowSeeds(s, w, h, border, fill, r, lo, n - 1);
      var seeds := RowSeeds(s, w, h, border, fill, r, lo, n);
      RowSeedsCovered(s, w, h, border, fill, r, lo, n - 1);
      if Live(At(s, w, h, n - 1, r), border, fill) {
        RowCoveredGrow(s, w, h, border, fill, prev, seeds, r, lo, n - 1);
        RowSeedsReach(s, w, h, border, fill, r, lo, n);
        assert Covered(s, w, h, border, seeds, n - 1, r) by {
          assert seeds[0].y == r && Clear(s, w, h, border, r, seeds[0].x, n - 1);
        }
        RowCoveredStep(s, w, h, border, fill, seeds, r, lo, n - 1);
      } else {
        RowCoveredStep(s, w, h, border, fill, prev, r, lo, n - 1);
      }
    }
  }

  /** Coverage by the seeds of a prefix of the scan carries over to the
      seeds of a longer scan, which only adds seeds on top. */
  lemma {:induction false} RowCoveredGrow(s: seq<byte>, w: nat, h: nat, border: byte, fill: byte, prev: seq<Point>, seeds: seq<Point>, r: int, lo: int, n: int)
    requires RowCovered(s, w, h, border, fill, prev, r, lo, n)
    requires seeds == prev || (|seeds| > 0 && seeds[1..] == prev)
    ensures RowCovered(s, w, h, border, fill, seeds, r, lo, n)
  {
    if seeds != prev {
      assert seeds == [seeds[0]] + prev;
      forall c | lo <= c < n && Covered(s, w, h, border, prev, c, r)
        ensures Covered(s, w, h, border, seeds, c, r)
      {
        CoveredGrow(s, w, h, border, [seeds[0]], prev, c, r);
      }
    }
  }

  /** The seeding loop of image_fill for one neighbouring row: along columns
      lo to hi, a seed is pushed at the first pixel of every maximal run of
      pixels that still need filling. */
  method SeedRow(data: array<byte>, ghost s: seq<byte>, w: nat, h: nat, st: FillStack, lo: int, hi: int, row: int, fill: byte, border: byte)
    returns (ghost pushed: seq<Point>)
    requires data.Length == w * h && data[..] == s && st.Valid() && 0 <= lo <= hi < w && 0 <= row < h
    modifies st
    ensures st.Valid() && st.items == pushed + old(st.items) && st.maxLevel >= old(st.maxLevel)
    ensures pushed == RowSeeds(s, w, h, border, fill, row, lo, hi + 1)
    ensures data[..] == s
  {
    pushed := [];
    var f := true;
    var sx := lo;
    while sx <= hi
      invariant lo <= sx <= hi + 1
      invariant st.Valid() && st.items == pushed + old(st.items) && st.maxLevel >= old(st.maxLevel)
      invariant pushed == RowSeeds(s, w, h, border, fill, row, lo, sx)
      invariant f <==> sx == lo || !Live(At(s, w, h, sx - 1, row), border, fill)
    {
      var b := data[Idx(w, h, sx, row)];
      assert b == At(s, w, h, sx, row);
      if b != border && b != fill {
        if f {
          st.Push(Point(sx, row));
          pushed := [Point(sx, row)] + pushed;
          f := false;
        }
      } else {
        f := true;
      }
      sx := sx + 1;
    }
  }

  lemma {:induction false} RowCoveredStep(s: seq<byte>, w: nat, h: nat, border: byte, fill: byte, seeds: seq<Point>, r: int, lo: int, n: int)
    requires RowCovered(s, w, h, border, fill, seeds, r, lo, n) && lo <= n < w
    requires !Live(At(s, w, h, n, r), border, fill) || Covered(s, w, h, border, seeds, n, r)
    ensures RowCovered(s, w, h, border, fill, seeds, r, lo, n + 1)
  {
  }

  lemma {:induction false} ClearExtend(s: seq<byte>, w: nat, h: nat, border: byte, r: int, a: int, b: int)
    requires Clear(s, w, h, border, r, a, b - 1) && a < b < w && At(s, w, h, b, r) != border
    ensures Clear(s, w, h, border, r, a, b)
  {
  }

  // ---------------------------------------------------------------------------
  // The invariant of the fill loop
  // ---------------------------------------------------------------------------

  /** The region record of fill.c: bounding box, count and stack depth. */
  datatype FillData = FillData(xmin: int, xmax: int, ymin: int, ymax: int, count: int, level: int)

  /** Pixel (c, r), when it is in the raster, is border, holds fill, or is
      covered by a seed on the stack. */
  predicate Done(s: seq<byte>, w: nat, h: nat, border: byte, fill: byte, stack: seq<Point>, c: int, r: int) {
    |s| == w * h &&
    (!InRaster(w, h, c, r) || !Live(At(s, w, h, c, r), border, fill) || Covered(s, w, h, border, stack, c, r))
  }

  /** The closure invariant: the four neighbours of every pixel holding fill
      are done. */
  ghost predicate Closed(s: seq<byte>, w: nat, h: nat, border: byte, fill: byte, stack: seq<Point>) {
    |s| == w * h &&
    forall c, r :: InRaster(w, h, c, r) && At(s, w, h, c, r) == fill ==> NeighboursDone(s, w, h, border, fill, stack, c, r)
  }

  predicate NeighboursDone(s: seq<byte>, w: nat, h: nat, border: byte, fill: byte, stack: seq<Point>, c: int, r: int) {
    && Done(s, w, h, border, fill, stack, c - 1, r) && Done(s, w, h, border, fill, stack, c + 1, r)
    && Done(s, w, h, border, fill, stack, c, r - 1) && Done(s, w, h, border, fill, stack, c, r + 1)
  }

  /** Every seed is in the raster, on a pixel that needs filling or already
      holds fill. */
  predicate SeedsOk(s: seq<byte>, w: nat, h: nat, border: byte, fill: byte, stack: seq<Point>) {
    |s| == w * h &&
    forall k :: 0 <= k < |stack| ==>
      InRaster(w, h, stack[k].x, stack[k].y) &&
      (Live(At(s, w, h, stack[k].x, stack[k].y), border, fill) || At(s, w, h, stack[k].x, stack[k].y) == fill)
  }

  /** The box holds the seed and every pixel that changed; count is at least
      one. */
  ghost predicate BoxOk(s0: seq<byte>, s: seq<byte>, w: nat, h: nat, v: FillData, vx: int, vy: int) {
    && |s0| == w * h && |s| == w * h
    && 0 <= v.xmin <= vx <= v.xmax < w && 0 <= v.ymin <= vy <= v.ymax < h && v.count >= 1
    && forall c, r :: InRaster(w, h, c, r) && At(s, w, h, c, r) != At(s0, w, h, c, r) ==>
         v.xmin <= c <= v.xmax && v.ymin <= r <= v.ymax
  }

  /** The case in which image_fill fills the whole region: no pixel holds
      fill beforehand, and fill differs from border. */
  predicate Clean(s0: seq<byte>, border: byte, fill: byte) {
    fill != border && forall i :: 0 <= i < |s0| ==> s0[i] != fill
  }

  ghost predicate FillInv(s0: seq<byte>, s: seq<byte>, w: nat, h: nat, border: byte, fill: byte,
                    stack: seq<Point>, vx: int, vy: int, v: FillData) {
    && InRaster(w, h, vx, vy)
    && SeedsOk(s, w, h, border, fill, stack)
    && Converted(s0, s, border, fill)
    && BoxOk(s0, s, w, h, v, vx, vy)
    && (Clean(s0, border, fill) ==>
          Closed(s, w, h, border, fill, stack) && (At(s, w, h, vx, vy) == fill || stack == [Point(vx, vy)]))
  }

  // ---------------------------------------------------------------------------
  // Termination: fewer pixels that need filling, or else fewer stale seeds
  // ---------------------------------------------------------------------------

  function LiveCount(s: seq<byte>, border: byte, fill: byte): nat {
    if |s| == 0 then 0
    else LiveCount(s[..|s| - 1], border, fill) + (if Live(s[|s| - 1], border, fill) then 1 else 0)
  }

  /** Converting pixels to fill never adds one that needs filling, and any
      change removes one. */
  lemma {:induction false} LiveCountDrops(s: seq<byte>, t: seq<byte>, border: byte, fill: byte)
    requires Converted(s, t, border, fill)
    ensures LiveCount(t, border, fill) <= LiveCount(s, border, fill)
    ensures t != s ==> LiveCount(t, border, fill) < LiveCount(s, border, fill)
    decreases |s|
  {
    if |s| > 0 {
      var n := |s| - 1;
      assert Converted(s[..n], t[..n], border, fill);
      LiveCountDrops(s[..n], t[..n], border, fill);
      assert t == t[..n] + [t[n]] && s == s[..n] + [s[n]];
    }
  }

  /** A seed whose pixel no longer needs filling. */
  predicate Stale(s: seq<byte>, w: nat, h: nat, border: byte, fill: byte, q: Point) {
    |s| == w * h && InRaster(w, h, q.x, q.y) && !Live(At(s, w, h, q.x, q.y), border, fill)
  }

  function StaleCount(s: seq<byte>, w: nat, h: nat, border: byte, fill: byte, stack: seq<Point>): nat {
    if |stack| == 0 then 0
    else (if Stale(s, w, h, border, fill, stack[0]) then 1 else 0) + StaleCount(s, w, h, border, fill, stack[1..])
  }

  /** Seeds pushed on pixels that need filling are not stale. */
  predicate NoneStale(s: seq<byte>, w: nat, h: nat, border: byte, fill: byte, seeds: seq<Point>) {
    forall k :: 0 <= k < |seeds| ==> !Stale(s, w, h, border, fill, seeds[k])
  }


  lemma {:induction false} StaleCountLive(s: seq<byte>, w: nat, h: nat, border: byte, fill: byte,
                                          seeds: seq<Point>, rest: seq<Point>)
    requires NoneStale(s, w, h, border, fill, seeds)
    ensures StaleCount(s, w, h, border, fill, seeds + rest) == StaleCount(s, w, h, border, fill, rest)
    decreases |seeds|
  {
    if |seeds| > 0 {
      assert (seeds + rest)[1..] == seeds[1..] + rest;
      assert (seeds + rest)[0] == seeds[0];
      assert !Stale(s, w, h, border, fill, seeds[0]);
      assert NoneStale(s, w, h, border, fill, seeds[1..]) by {
        forall k | 0 <= k < |seeds| - 1
          ensures !Stale(s, w, h, border, fill, seeds[1..][k])
        {
          assert seeds[1..][k] == seeds[k + 1];
        }
      }
      StaleCountLive(s, w, h, border, fill, seeds[1..], rest);
    } else {
      assert seeds + rest == rest;
    }
  }

  /** One pass of the fill loop removes a pixel that needs filling, or else
      a stale seed. */
  ghost predicate Progress(s: seq<byte>, t: seq<byte>, w: nat, h: nat, border: byte, fill: byte,
                     before: seq<Point>, after: seq<Point>) {
    LiveCount(t, border, fill) < LiveCount(s, border, fill) ||
    (t == s && StaleCount(t, w, h, border, fill, after) < StaleCount(s, w, h, border, fill, before))
  }

  // ---------------------------------------------------------------------------
  // One pass of the fill loop keeps the invariant
  // ---------------------------------------------------------------------------

  /** What a popped seed q leaves behind: the run lo..hi of its row painted,
      bounded by border pixels or the raster's edges, nothing else changed. */
  ghost predicate RunPainted(s: seq<byte>, t: seq<byte>, w: nat, h: nat, border: byte, fill: byte, q: Point, lo: int, hi: int) {
    && |s| == w * h && InRaster(w, h, q.x, q.y) && 0 <= lo <= q.x <= hi < w
    && Converted(s, t, border, fill)
    && (lo == 0 || At(s, w, h, lo - 1, q.y) == border)
    && (hi == w - 1 || At(s, w, h, hi + 1, q.y) == border)
    && (forall c :: lo <= c <= hi ==> At(t, w, h, c, q.y) == fill)
    && SameOutside(s, t, Idx(w, h, lo, q.y), Idx(w, h, hi, q.y))
  }

  /** A clear stretch of a row stays clear when pixels only turn into fill. */
  lemma {:induction false} ClearKept(s: seq<byte>, t: seq<byte>, w: nat, h: nat, border: byte, fill: byte, r: int, a: int, b: int)
    requires Clear(s, w, h, border, r, a, b) && Converted(s, t, border, fill) && fill != border
    ensures Clear(t, w, h, border, r, a, b)
  {
    forall x | Min(a, b) <= x <= Max(a, b)
      ensures At(t, w, h, x, r) != border
    {
      assert At(s, w, h, x, r) != border;
    }
  }

  /** A pixel the popped seed reaches without crossing border lies in the
      painted run. */
  lemma {:induction false} SeedRunFilled(s: seq<byte>, t: seq<byte>, w: nat, h: nat, border: byte, fill: byte,
                      q: Point, lo: int, hi: int, c: int, r: int)
    requires RunPainted(s, t, w, h, border, fill, q, lo, hi) && InRaster(w, h, c, r)
    ensures r == q.y && Clear(s, w, h, border, r, q.x, c) ==> At(t, w, h, c, r) == fill
  {
  }

  /** A pixel that was done before the pass is done after it: a pixel the
      popped seed covered lies in the painted run. */
  lemma {:induction false} DoneKept(s: seq<byte>, t: seq<byte>, w: nat, h: nat, border: byte, fill: byte,
                 q: Point, rest: seq<Point>, pushed: seq<Point>, lo: int, hi: int, c: int, r: int)
    requires fill != border && RunPainted(s, t, w, h, border, fill, q, lo, hi)
    requires Done(s, w, h, border, fill, [q] + rest, c, r)
    ensures Done(t, w, h, border, fill, pushed + rest, c, r)
  {
    if InRaster(w, h, c, r) && Live(At(t, w, h, c, r), border, fill) {
      var i := Idx(w, h, c, r);
      assert t[i] == s[i];
      SeedRunFilled(s, t, w, h, border, fill, q, lo, hi, c, r);
      var k :| 0 <= k < |[q] + rest| && ([q] + rest)[k].y == r && Clear(s, w, h, border, r, ([q] + rest)[k].x, c);
      assert k != 0;
      assert rest[k - 1] == ([q] + rest)[k];
      ClearKept(s, t, w, h, border, fill, r, rest[k - 1].x, c);
      assert Covered(t, w, h, border, rest, c, r);
      CoveredGrow(t, w, h, border, pushed, rest, c, r);
    }
  }

  /** A pixel of the painted run has its four neighbours done after the pass,
      the vertical ones through the seeds pushed for the rows above (up) and
      below (down). */
  lemma {:induction false} RunNeighboursDone(s: seq<byte>, t: seq<byte>, w: nat, h: nat, border: byte, fill: byte,
                          q: Point, rest: seq<Point>, up: seq<Point>, down: seq<Point>, lo: int, hi: int, c: int)
    requires fill != border && RunPainted(s, t, w, h, border, fill, q, lo, hi) && lo <= c <= hi
    requires q.y > 0 ==> RowCovered(t, w, h, border, fill, up, q.y - 1, lo, hi + 1)
    requires q.y < h - 1 ==> RowCovered(t, w, h, border, fill, down, q.y + 1, lo, hi + 1)
    ensures Done(t, w, h, border, fill, down + up + rest, c - 1, q.y)
    ensures Done(t, w, h, border, fill, down + up + rest, c + 1, q.y)
    ensures Done(t, w, h, border, fill, down + up + rest, c, q.y - 1)
    ensures Done(t, w, h, border, fill, down + up + rest, c, q.y + 1)
  {
    SidesDone(s, t, w, h, border, fill, q, down + up + rest, lo, hi, c);
    VerticalDone(t, w, h, border, fill, up, q.y - 1, lo, hi, c);
    DoneGrow(t, w, h, border, fill, down, up, c, q.y - 1);
    DoneGrow(t, w, h, border, fill, down + up, rest, c, q.y - 1);
    VerticalDone(t, w, h, border, fill, down, q.y + 1, lo, hi, c);
    DoneGrow(t, w, h, border, fill, down, up, c, q.y + 1);
    DoneGrow(t, w, h, border, fill, down + up, rest, c, q.y + 1);
  }

  /** The run is bounded by border pixels or the raster's edges. */
  lemma {:induction false} SidesDone(s: seq<byte>, t: seq<byte>, w: nat, h: nat, border: byte, fill: byte,
                                     q: Point, stack: seq<Point>, lo: int, hi: int, c: int)
    requires fill != border && RunPainted(s, t, w, h, border, fill, q, lo, hi) && lo <= c <= hi
    ensures Done(t, w, h, border, fill, stack, c - 1, q.y)
    ensures Done(t, w, h, border, fill, stack, c + 1, q.y)
  {
    if c == lo && lo > 0 {
      IdxOutsideRun(w, h, lo - 1, q.y, q.y, lo, hi);
    }
    if c == hi && hi < w - 1 {
      IdxOutsideRun(w, h, hi + 1, q.y, q.y, lo, hi);
    }
  }

  /** A pixel of a seeded row above or below the run is done by its seeds;
      a row outside the raster is done trivially. */
  lemma {:induction false} VerticalDone(t: seq<byte>, w: nat, h: nat, border: byte, fill: byte,
                                        seeds: seq<Point>, r: int, lo: int, hi: int, c: int)
    requires |t| == w * h && lo <= c <= hi
    requires 0 <= r < h ==> RowCovered(t, w, h, border, fill, seeds, r, lo, hi + 1)
    ensures Done(t, w, h, border, fill, seeds, c, r)
  {
  }

  lemma {:induction false} DoneGrow(t: seq<byte>, w: nat, h: nat, border: byte, fill: byte, a: seq<Point>, b: seq<Point>, c: int, r: int)
    ensures Done(t, w, h, border, fill, a, c, r) ==> Done(t, w, h, border, fill, a + b, c, r)
    ensures Done(t, w, h, border, fill, b, c, r) ==> Done(t, w, h, border, fill, a + b, c, r)
  {
    CoveredGrow(t, w, h, border, a, b, c, r);
  }

  /** A filled pixel has its neighbours done after the pass. */
  lemma {:induction false} PixelKept(s: seq<byte>, t: seq<byte>, w: nat, h: nat, border: byte, fill: byte,
                  q: Point, rest: seq<Point>, up: seq<Point>, down: seq<Point>, lo: int, hi: int, c: int, r: int)
    requires fill != border && RunPainted(s, t, w, h, border, fill, q, lo, hi)
    requires Closed(s, w, h, border, fill, [q] + rest)
    requires q.y > 0 ==> RowCovered(t, w, h, border, fill, up, q.y - 1, lo, hi + 1)
    requires q.y < h - 1 ==> RowCovered(t, w, h, border, fill, down, q.y + 1, lo, hi + 1)
    requires InRaster(w, h, c, r) && At(t, w, h, c, r) == fill
    ensures NeighboursDone(t, w, h, border, fill, down + up + rest, c, r)
  {
    assert down + up + rest == (down + up) + rest;
    if r == q.y && lo <= c <= hi {
      RunNeighboursDone(s, t, w, h, border, fill, q, rest, up, down, lo, hi, c);
    } else {
      OldPixelKept(s, t, w, h, border, fill, q, rest, down + up, lo, hi, c, r);
    }
  }

  /** A pixel outside the painted run held fill before the pass, and its
      neighbours stay done. */
  lemma {:induction false} OldPixelKept(s: seq<byte>, t: seq<byte>, w: nat, h: nat, border: byte, fill: byte,
                     q: Point, rest: seq<Point>, pushed: seq<Point>, lo: int, hi: int, c: int, r: int)
    requires fill != border && RunPainted(s, t, w, h, border, fill, q, lo, hi)
    requires Closed(s, w, h, border, fill, [q] + rest)
    requires InRaster(w, h, c, r) && At(t, w, h, c, r) == fill && !(r == q.y && lo <= c <= hi)
    ensures NeighboursDone(t, w, h, border, fill, pushed + rest, c, r)
  {
    IdxOutsideRun(w, h, c, r, q.y, lo, hi);
    assert At(s, w, h, c, r) == fill;
    assert NeighboursDone(s, w, h, border, fill, [q] + rest, c, r);
    DoneKept(s, t, w, h, border, fill, q, rest, pushed, lo, hi, c - 1, r);
    DoneKept(s, t, w, h, border, fill, q, rest, pushed, lo, hi, c + 1, r);
    DoneKept(s, t, w, h, border, fill, q, rest, pushed, lo, hi, c, r - 1);
    DoneKept(s, t, w, h, border, fill, q, rest, pushed, lo, hi, c, r + 1);
  }

  /** The closure invariant survives one pass of the fill loop. */
  lemma {:induction false} ClosedKept(s: seq<byte>, t: seq<byte>, w: nat, h: nat, border: byte, fill: byte,
                   q: Point, rest: seq<Point>, up: seq<Point>, down: seq<Point>, lo: int, hi: int)
    requires fill != border && RunPainted(s, t, w, h, border, fill, q, lo, hi)
    requires Closed(s, w, h, border, fill, [q] + rest)
    requires q.y > 0 ==> RowCovered(t, w, h, border, fill, up, q.y - 1, lo, hi + 1)
    requires q.y < h - 1 ==> RowCovered(t, w, h, border, fill, down, q.y + 1, lo, hi + 1)
    ensures Closed(t, w, h, border, fill, down + up + rest)
  {
    forall c, r | InRaster(w, h, c, r) && At(t, w, h, c, r) == fill
      ensures NeighboursDone(t, w, h, border, fill, down + up + rest, c, r)
    {
      PixelKept(s, t, w, h, border, fill, q, rest, up, down, lo, hi, c, r);
    }
  }

  /** Seeds stay in the raster and on pixels that need filling or hold fill. */
  lemma {:induction false} SeedsOkKept(s: seq<byte>, t: seq<byte>, w: nat, h: nat, border: byte, fill: byte,
                    q: Point, rest: seq<Point>, up: seq<Point>, down: seq<Point>, lo: int, hi: int)
    requires RunPainted(s, t, w, h, border, fill, q, lo, hi) && SeedsOk(s, w, h, border, fill, [q] + rest)
    requires q.y > 0 ==> SeedsAt(t, w, h, border, fill, up, q.y - 1, lo, hi)
    requires q.y == 0 ==> up == []
    requires q.y < h - 1 ==> SeedsAt(t, w, h, border, fill, down, q.y + 1, lo, hi)
    requires q.y == h - 1 ==> down == []
    ensures SeedsOk(t, w, h, border, fill, down + up + rest)
  {
    var stack := down + up + rest;
    forall k | 0 <= k < |stack|
      ensures InRaster(w, h, stack[k].x, stack[k].y)
      ensures Live(At(t, w, h, stack[k].x, stack[k].y), border, fill) || At(t, w, h, stack[k].x, stack[k].y) == fill
    {
      if k < |down| {
        assert stack[k] == down[k];
      } else if k < |down| + |up| {
        assert stack[k] == up[k - |down|];
      } else {
        assert stack[k] == ([q] + rest)[k - |down| - |up| + 1];
      }
    }
  }

  /** A pass that changes nothing popped a stale seed and pushed only live
      ones, so the stack holds one stale seed fewer. */
  lemma {:induction false} StaleDrops(s: seq<byte>, w: nat, h: nat, border: byte, fill: byte,
                   q: Point, rest: seq<Point>, up: seq<Point>, down: seq<Point>, lo: int, hi: int)
    requires |s| == w * h && InRaster(w, h, q.x, q.y) && At(s, w, h, q.x, q.y) == fill
    requires NoneStale(s, w, h, border, fill, up) && NoneStale(s, w, h, border, fill, down)
    ensures StaleCount(s, w, h, border, fill, down + up + rest) < StaleCount(s, w, h, border, fill, [q] + rest)
  {
    var ur := up + rest;
    var dur := down + ur;
    var n := StaleCount(s, w, h, border, fill, rest);
    StaleCountCons(s, w, h, border, fill, q, rest);
    StaleCountLive(s, w, h, border, fill, up, rest);
    StaleCountLive(s, w, h, border, fill, down, ur);
    assert down + up + rest == dur;
  }

  lemma {:induction false} StaleCountCons(s: seq<byte>, w: nat, h: nat, border: byte, fill: byte, q: Point, rest: seq<Point>)
    ensures StaleCount(s, w, h, border, fill, [q] + rest)
         == (if Stale(s, w, h, border, fill, q) then 1 else 0) + StaleCount(s, w, h, border, fill, rest)
  {
    assert ([q] + rest)[0] == q && ([q] + rest)[1..] == rest;
  }

  // ---------------------------------------------------------------------------
  // image_fill
  // ---------------------------------------------------------------------------

  /** The pixels reachable from the seed: a path of 4-neighbours, none of
      them border in the original raster. */
  ghost predicate Path(s0: seq<byte>, w: nat, h: nat, border: byte, path: seq<Point>) {
    && |s0| == w * h
    && (forall k :: 0 <= k < |path| ==> InRaster(w, h, path[k].x, path[k].y) && At(s0, w, h, path[k].x, path[k].y) != border)
    && (forall k :: 0 < k < |path| ==> Abs(path[k].x - path[k - 1].x) + Abs(path[k].y - path[k - 1].y) == 1)
  }

  /** In a closed raster with no seed left, a pixel next to a filled one
      that was not border in the original raster holds fill. */
  lemma {:induction false} NeighbourFilled(s0: seq<byte>, s: seq<byte>, w: nat, h: nat, border: byte, fill: byte, p: Point, q: Point)
    requires Converted(s0, s, border, fill) && fill != border && Closed(s, w, h, border, fill, [])
    requires InRaster(w, h, p.x, p.y) && At(s, w, h, p.x, p.y) == fill
    requires InRaster(w, h, q.x, q.y) && At(s0, w, h, q.x, q.y) != border
    requires Abs(q.x - p.x) + Abs(q.y - p.y) == 1
    ensures At(s, w, h, q.x, q.y) == fill
  {
    assert NeighboursDone(s, w, h, border, fill, [], p.x, p.y);
    assert Done(s, w, h, border, fill, [], q.x, q.y);
  }

  /** Completeness: in a closed raster with no seed left, every pixel on a
      non-border path starting at a filled pixel holds fill. */
  lemma {:induction false} PathFilled(s0: seq<byte>, s: seq<byte>, w: nat, h: nat, border: byte, fill: byte, path: seq<Point>)
    requires Path(s0, w, h, border, path) && |path| > 0
    requires Converted(s0, s, border, fill) && fill != border
    requires Closed(s, w, h, border, fill, []) && At(s, w, h, path[0].x, path[0].y) == fill
    ensures forall k :: 0 <= k < |path| ==> At(s, w, h, path[k].x, path[k].y) == fill
    decreases |path|
  {
    if |path| > 1 {
      var n := |path| - 1;
      var prefix := path[..n];
      assert Path(s0, w, h, border, prefix) by {
        forall k | 0 <= k < n
          ensures prefix[k] == path[k]
        {
        }
      }
      PathFilled(s0, s, w, h, border, fill, prefix);
      assert path[n - 1] == prefix[n - 1];
      NeighbourFilled(s0, s, w, h, border, fill, path[n - 1], path[n]);
      forall k | 0 <= k < |path|
        ensures At(s, w, h, path[k].x, path[k].y) == fill
      {
        if k < n {
          assert path[k] == prefix[k];
        }
      }
    }
  }

  /** The run lo..hi of row y that one popped seed painted. */
  datatype Run = Run(y: int, lo: int, hi: int)

  /** The run holds fill from end to end and is bounded by border pixels or
      the raster's edges. */
  ghost predicate RunOk(s: seq<byte>, w: nat, h: nat, border: byte, fill: byte, run: Run) {
    && |s| == w * h && 0 <= run.y < h && 0 <= run.lo <= run.hi < w
    && (forall c :: run.lo <= c <= run.hi ==> At(s, w, h, c, run.y) == fill)
    && (run.lo == 0 || At(s, w, h, run.lo - 1, run.y) == border)
    && (run.hi == w - 1 || At(s, w, h, run.hi + 1, run.y) == border)
  }

  /** The pixels the two side scans of the runs painted: each run's pixels
      but its seed. */
  function Width(runs: seq<Run>): int {
    if |runs| == 0 then 0 else Width(runs[..|runs| - 1]) + (runs[|runs| - 1].hi - runs[|runs| - 1].lo)
  }

  /** The smallest box (xmin, xmax, ymin, ymax) that holds every run. */
  function Hull(runs: seq<Run>): (int, int, int, int)
    requires |runs| > 0
  {
    var r := runs[|runs| - 1];
    if |runs| == 1 then (r.lo, r.hi, r.y, r.y)
    else
      var b := Hull(runs[..|runs| - 1]);
      (Min(b.0, r.lo), Max(b.1, r.hi), Min(b.2, r.y), Max(b.3, r.y))
  }

  /** The hull holds every run and each of its four sides is reached by a
      run. */
  lemma {:induction false} HullTight(runs: seq<Run>)
    requires |runs| > 0
    ensures var b := Hull(runs);
      (forall k :: 0 <= k < |runs| ==> b.0 <= runs[k].lo && runs[k].hi <= b.1 && b.2 <= runs[k].y <= b.3)
      && (exists k :: 0 <= k < |runs| && runs[k].lo == b.0)
      && (exists k :: 0 <= k < |runs| && runs[k].hi == b.1)
      && (exists k :: 0 <= k < |runs| && runs[k].y == b.2)
      && (exists k :: 0 <= k < |runs| && runs[k].y == b.3)
  {
    var n := |runs| - 1;
    if n > 0 {
      var init := runs[..n];
      HullTight(init);
      var b := Hull(init);
      assert forall k :: 0 <= k < n ==> init[k] == runs[k];
      if runs[n].lo < b.0 {
        assert runs[n].lo == Hull(runs).0;
      } else {
        var k :| 0 <= k < n && init[k].lo == b.0;
        assert runs[k].lo == Hull(runs).0;
      }
      if runs[n].hi > b.1 {
        assert runs[n].hi == Hull(runs).1;
      } else {
        var k :| 0 <= k < n && init[k].hi == b.1;
        assert runs[k].hi == Hull(runs).1;
      }
      if runs[n].y < b.2 {
        assert runs[n].y == Hull(runs).2;
      } else {
        var k :| 0 <= k < n && init[k].y == b.2;
        assert runs[k].y == Hull(runs).2;
      }
      if runs[n].y > b.3 {
        assert runs[n].y == Hull(runs).3;
      } else {
        var k :| 0 <= k < n && init[k].y == b.3;
        assert runs[k].y == Hull(runs).3;
      }
    }
  }

  /** Painted runs stay painted, and their bounding border pixels stay
      border, while pixels only turn into fill. */
  lemma {:induction false} RunsKept(s: seq<byte>, t: seq<byte>, w: nat, h: nat, border: byte, fill: byte, runs: seq<Run>)
    requires Converted(s, t, border, fill)
    requires forall k :: 0 <= k < |runs| ==> RunOk(s, w, h, border, fill, runs[k])
    ensures forall k :: 0 <= k < |runs| ==> RunOk(t, w, h, border, fill, runs[k])
  {
    forall k | 0 <= k < |runs|
      ensures RunOk(t, w, h, border, fill, runs[k])
    {
      var run := runs[k];
      assert RunOk(s, w, h, border, fill, run);
      forall c | run.lo <= c <= run.hi
        ensures At(t, w, h, c, run.y) == fill
      {
        assert At(s, w, h, c, run.y) == fill;
      }
    }
  }

  /** image_fill: None, with nothing changed, when the seed pixel is border.
      Otherwise pixels only turn from "needs filling" into fill, every changed
      pixel and the seed lie in the returned box, the recorded depth is at
      least one and the stack is empty again; and when no pixel held fill
      beforehand and fill is not border, the filled pixels are closed: no
      pixel next to a filled one still needs filling (see PathFilled). */
  method ImageFill(data: array<byte>, w: nat, h: nat, st: FillStack, vx: int, vy: int, fill: byte, border: byte)
    returns (res: Option<FillData>, ghost runs: seq<Run>)
    requires data.Length == w * h && InRaster(w, h, vx, vy) && st.Valid() && st.items == []
    modifies data, st
    ensures st.Valid() && st.items == []
    ensures old(data[Idx(w, h, vx, vy)]) == border <==> res.None?
    ensures res.None? ==> data[..] == old(data[..])
    ensures res.Some? ==> res.value.level >= 1 && res.value.level == st.maxLevel
    ensures res.Some? ==> Converted(old(data[..]), data[..], border, fill)
    ensures res.Some? ==> BoxOk(old(data[..]), data[..], w, h, res.value, vx, vy)
    ensures res.Some? && Clean(old(data[..]), border, fill) ==>
              Closed(data[..], w, h, border, fill, []) && At(data[..], w, h, vx, vy) == fill
    ensures res.Some? ==> |runs| > 0 && runs[0].y == vy && runs[0].lo <= vx <= runs[0].hi
    ensures res.Some? ==> forall k :: 0 <= k < |runs| ==> RunOk(data[..], w, h, border, fill, runs[k])
    ensures res.Some? ==> res.value.count == 1 + Width(runs)
    ensures res.Some? && |runs| > 0 ==> (res.value.xmin, res.value.xmax, res.value.ymin, res.value.ymax) == Hull(runs)
  {
    runs := [];
    if data[Idx(w, h, vx, vy)] == border {
      return None, runs;
    }
    ghost var s0 := data[..];
    st.Reset();
    st.Push(Point(vx, vy));
    var v := FillData(vx, vx, vy, vy, 1, 0);
    assert Closed(s0, w, h, border, fill, [Point(vx, vy)]) <== Clean(s0, border, fill) by {
      if Clean(s0, border, fill) {
        forall c, r | InRaster(w, h, c, r)
          ensures At(s0, w, h, c, r) != fill
        {
          assert s0[Idx(w, h, c, r)] != fill;
        }
      }
    }
    while true
      invariant st.Valid() && st.maxLevel >= 1
      invariant FillInv(s0, data[..], w, h, border, fill, st.items, vx, vy, v)
      invariant runs == [] ==> st.items == [Point(vx, vy)] && v == FillData(vx, vx, vy, vy, 1, 0)
      invariant runs != [] ==> runs[0].y == vy && runs[0].lo <= vx <= runs[0].hi
      invariant runs != [] ==> (v.xmin, v.xmax, v.ymin, v.ymax) == Hull(runs)
      invariant forall k :: 0 <= k < |runs| ==> RunOk(data[..], w, h, border, fill, runs[k])
      invariant v.count == 1 + Width(runs)
      decreases LiveCount(data[..], border, fill), StaleCount(data[..], w, h, border, fill, st.items)
    {
      ghost var stack, s := st.items, data[..];
      var top := st.Pop();
      if top.None? {
        v := v.(level := st.maxLevel);
        return Some(v), runs;
      }
      assert stack == [top.value] + st.items;
      ghost var run, v0 := Run(0, 0, 0), v;
      v, run := Scanline(data, w, h, st, top.value, fill, border, v, s0, vx, vy);
      RunsGrow(s, data[..], w, h, border, fill, runs, run, v0, v, top.value, vx, vy);
      runs := runs + [run];
    }
  }

  /** The body of the fill loop for a popped seed q: its run painted, the
      box widened to the run, and the rows above and below seeded. The fill
      invariant is kept, and the pass removes a pixel that needs filling or
      else a stale seed. */
  method Scanline(data: array<byte>, w: nat, h: nat, st: FillStack, q: Point, fill: byte, border: byte,
                  v: FillData, ghost s0: seq<byte>, ghost vx: int, ghost vy: int)
    returns (v': FillData, ghost run: Run)
    requires data.Length == w * h && st.Valid() && st.maxLevel >= 1
    requires FillInv(s0, data[..], w, h, border, fill, [q] + st.items, vx, vy, v)
    modifies data, st
    ensures st.Valid() && st.maxLevel >= 1
    ensures FillInv(s0, data[..], w, h, border, fill, st.items, vx, vy, v')
    ensures Progress(old(data[..]), data[..], w, h, border, fill, [q] + old(st.items), st.items)
    ensures Converted(old(data[..]), data[..], border, fill) && RunOk(data[..], w, h, border, fill, run)
    ensures run.y == q.y && run.lo <= q.x <= run.hi
    ensures v' == v.(xmin := Min(v.xmin, run.lo), xmax := Max(v.xmax, run.hi), ymin := Min(v.ymin, q.y),
                     ymax := Max(v.ymax, q.y), count := v.count + (run.hi - run.lo))
  {
    ghost var s := data[..];
    ghost var rest := st.items;
    SeedOnTop(s0, s, w, h, border, fill, q, rest, vx, vy, v);
    var lo, hi, count := PaintRun(data, w, h, q.x, q.y, fill, border, v.count);
    ghost var t := data[..];
    v' := v.(ymin := Min(v.ymin, q.y), ymax := Max(v.ymax, q.y), count := count);
    v' := v'.(xmin := Min(v'.xmin, lo), xmax := Max(v'.xmax, hi));
    ghost var up, down := SeedRows(data, t, w, h, st, lo, hi, q.y, fill, border);
    PassKeeps(s0, s, t, w, h, border, fill, q, rest, up, down, lo, hi, vx, vy, v, v');
    PassProgress(s, t, w, h, border, fill, q, rest, up, down, lo, hi);
    RunPaintedOk(s, t, w, h, border, fill, q, lo, hi);
    run := Run(q.y, lo, hi);
  }

  /** The bookkeeping of the runs across one pass of the fill loop that
      painted run from the popped seed q. */
  lemma RunsGrow(s: seq<byte>, t: seq<byte>, w: nat, h: nat, border: byte, fill: byte,
                 runs: seq<Run>, run: Run, v: FillData, v': FillData, q: Point, vx: int, vy: int)
    requires Converted(s, t, border, fill) && RunOk(t, w, h, border, fill, run)
    requires run.y == q.y && run.lo <= q.x <= run.hi
    requires v' == v.(xmin := Min(v.xmin, run.lo), xmax := Max(v.xmax, run.hi), ymin := Min(v.ymin, q.y),
                      ymax := Max(v.ymax, q.y), count := v.count + (run.hi - run.lo))
    requires runs == [] ==> q == Point(vx, vy) && v == FillData(vx, vx, vy, vy, 1, 0)
    requires runs != [] ==> runs[0].y == vy && runs[0].lo <= vx <= runs[0].hi
    requires runs != [] ==> (v.xmin, v.xmax, v.ymin, v.ymax) == Hull(runs)
    requires forall k :: 0 <= k < |runs| ==> RunOk(s, w, h, border, fill, runs[k])
    requires v.count == 1 + Width(runs)
    ensures var rs := runs + [run];
      && rs[0].y == vy && rs[0].lo <= vx <= rs[0].hi
      && (v'.xmin, v'.xmax, v'.ymin, v'.ymax) == Hull(rs)
      && (forall k :: 0 <= k < |rs| ==> RunOk(t, w, h, border, fill, rs[k]))
      && v'.count == 1 + Width(rs)
  {
    RunsKept(s, t, w, h, border, fill, runs);
    AddRun(runs, run);
    var rs := runs + [run];
    assert forall k :: 0 <= k < |runs| ==> rs[k] == runs[k];
    assert rs[|runs|] == run;
  }

  /** A painted run, seen as a run of the fill. */
  lemma RunPaintedOk(s: seq<byte>, t: seq<byte>, w: nat, h: nat, border: byte, fill: byte, q: Point, lo: int, hi: int)
    requires RunPainted(s, t, w, h, border, fill, q, lo, hi)
    ensures Converted(s, t, border, fill) && RunOk(t, w, h, border, fill, Run(q.y, lo, hi))
  {
    if lo > 0 {
      assert At(t, w, h, lo - 1, q.y) == At(s, w, h, lo - 1, q.y);
    }
    if hi < w - 1 {
      assert At(t, w, h, hi + 1, q.y) == At(s, w, h, hi + 1, q.y);
    }
  }

  /** The width and hull of the runs grow by the run appended. */
  lemma AddRun(runs: seq<Run>, run: Run)
    ensures Width(runs + [run]) == Width(runs) + (run.hi - run.lo)
    ensures |runs| > 0 ==> var b := Hull(runs);
      Hull(runs + [run]) == (Min(b.0, run.lo), Max(b.1, run.hi), Min(b.2, run.y), Max(b.3, run.y))
    ensures |runs| == 0 ==> Hull(runs + [run]) == (run.lo, run.hi, run.y, run.y)
  {
    assert (runs + [run])[..|runs|] == runs;
  }

  /** The seeds pushed for the rows above (up) and below (down) the run lo..hi
      of row y: on pixels that need filling, covering every such pixel of the
      two rows between lo and hi; none for a row outside the raster. */
  predicate Seeded(t: seq<byte>, w: nat, h: nat, border: byte, fill: byte, up: seq<Point>, down: seq<Point>, y: int, lo: int, hi: int) {
    && SeedsPlaced(t, w, h, border, fill, up, down, y, lo, hi)
    && (y > 0 ==> RowCovered(t, w, h, border, fill, up, y - 1, lo, hi + 1))
    && (y < h - 1 ==> RowCovered(t, w, h, border, fill, down, y + 1, lo, hi + 1))
  }

  predicate SeedsPlaced(t: seq<byte>, w: nat, h: nat, border: byte, fill: byte, up: seq<Point>, down: seq<Point>, y: int, lo: int, hi: int) {
    && (y > 0 ==> SeedsAt(t, w, h, border, fill, up, y - 1, lo, hi))
    && (y == 0 ==> up == [])
    && (y < h - 1 ==> SeedsAt(t, w, h, border, fill, down, y + 1, lo, hi))
    && (y == h - 1 ==> down == [])
  }

  /** The seeds of a pass are placed and cover the neighbouring rows. */
  lemma {:induction false} MkSeeded(t: seq<byte>, w: nat, h: nat, border: byte, fill: byte, up: seq<Point>, down: seq<Point>, y: int, lo: int, hi: int)
    requires |t| == w * h && 0 <= lo <= hi < w && 0 <= y < h
    requires up == NeighbourSeeds(t, w, h, border, fill, y - 1, lo, hi)
    requires down == NeighbourSeeds(t, w, h, border, fill, y + 1, lo, hi)
    ensures Seeded(t, w, h, border, fill, up, down, y, lo, hi)
  {
    NeighbourSeeded(t, w, h, border, fill, y - 1, lo, hi);
    NeighbourSeeded(t, w, h, border, fill, y + 1, lo, hi);
  }

  lemma {:induction false} NeighbourSeeded(t: seq<byte>, w: nat, h: nat, border: byte, fill: byte, r: int, lo: int, hi: int)
    requires |t| == w * h && 0 <= lo <= hi < w
    ensures 0 <= r < h ==> SeedsAt(t, w, h, border, fill, NeighbourSeeds(t, w, h, border, fill, r, lo, hi), r, lo, hi)
    ensures 0 <= r < h ==> RowCovered(t, w, h, border, fill, NeighbourSeeds(t, w, h, border, fill, r, lo, hi), r, lo, hi + 1)
  {
    if 0 <= r < h {
      RowSeedsIn(t, w, h, border, fill, r, lo, hi, hi + 1);
      RowSeedsCovered(t, w, h, border, fill, r, lo, hi + 1);
    }
  }

  lemma {:induction false} SeededNoneStale(t: seq<byte>, w: nat, h: nat, border: byte, fill: byte, up: seq<Point>, down: seq<Point>, y: int, lo: int, hi: int)
    requires SeedsPlaced(t, w, h, border, fill, up, down, y, lo, hi) && 0 <= y < h
    ensures NoneStale(t, w, h, border, fill, up) && NoneStale(t, w, h, border, fill, down)
  {
    if y > 0 {
      SeedsAtNoneStale(t, w, h, border, fill, up, y - 1, lo, hi);
    }
    if y < h - 1 {
      SeedsAtNoneStale(t, w, h, border, fill, down, y + 1, lo, hi);
    }
  }

  lemma {:induction false} SeedsAtNoneStale(s: seq<byte>, w: nat, h: nat, border: byte, fill: byte, seeds: seq<Point>, r: int, lo: int, hi: int)
    requires SeedsAt(s, w, h, border, fill, seeds, r, lo, hi)
    ensures NoneStale(s, w, h, border, fill, seeds)
  {
    forall k | 0 <= k < |seeds|
      ensures !Stale(s, w, h, border, fill, seeds[k])
    {
      assert seeds[k].y == r && Live(At(s, w, h, seeds[k].x, r), border, fill);
    }
  }

  /** The two seeding loops of a pass: the row above is seeded first, so its
      seeds end up below those of the row beneath. */
  method SeedRows(data: array<byte>, ghost s: seq<byte>, w: nat, h: nat, st: FillStack, lo: int, hi: int, y: int, fill: byte, border: byte)
    returns (ghost up: seq<Point>, ghost down: seq<Point>)
    requires data.Length == w * h && data[..] == s && st.Valid() && 0 <= lo <= hi < w && 0 <= y < h
    modifies st
    ensures st.Valid() && st.items == down + (up + old(st.items)) && st.maxLevel >= old(st.maxLevel)
    ensures up == NeighbourSeeds(s, w, h, border, fill, y - 1, lo, hi)
    ensures down == NeighbourSeeds(s, w, h, border, fill, y + 1, lo, hi)
    ensures data[..] == s
  {
    ghost var items := st.items;
    up, down := [], [];
    if y > 0 {
      up := SeedRow(data, s, w, h, st, lo, hi, y - 1, fill, border);
    } else {
      EmptyConcat(items);
    }
    if y < h - 1 {
      down := SeedRow(data, s, w, h, st, lo, hi, y + 1, fill, border);
    } else {
      EmptyConcat(up + items);
    }
  }

  lemma EmptyConcat(a: seq<Point>)
    ensures [] + a == a
  {
  }

  lemma SeqAssoc(a: seq<Point>, b: seq<Point>, c: seq<Point>)
    ensures a + (b + c) == a + b + c
  {
  }

  /** The popped seed is in the raster, on a pixel that needs filling or
      holds fill. */
  lemma {:induction false} SeedOnTop(s0: seq<byte>, s: seq<byte>, w: nat, h: nat, border: byte, fill: byte,
                  q: Point, rest: seq<Point>, vx: int, vy: int, v: FillData)
    requires FillInv(s0, s, w, h, border, fill, [q] + rest, vx, vy, v)
    ensures InRaster(w, h, q.x, q.y)
    ensures Live(At(s, w, h, q.x, q.y), border, fill) || At(s, w, h, q.x, q.y) == fill
  {
    assert ([q] + rest)[0] == q;
  }

  /** The fill invariant and progress across one pass, on raster values. */
  lemma {:induction false} PassKeeps(s0: seq<byte>, s: seq<byte>, t: seq<byte>, w: nat, h: nat, border: byte, fill: byte,
                  q: Point, rest: seq<Point>, up: seq<Point>, down: seq<Point>, lo: int, hi: int,
                  vx: int, vy: int, v: FillData, v': FillData)
    requires FillInv(s0, s, w, h, border, fill, [q] + rest, vx, vy, v)
    requires RunPainted(s, t, w, h, border, fill, q, lo, hi)
    requires up == NeighbourSeeds(t, w, h, border, fill, q.y - 1, lo, hi)
    requires down == NeighbourSeeds(t, w, h, border, fill, q.y + 1, lo, hi)
    requires v' == v.(ymin := Min(v.ymin, q.y), ymax := Max(v.ymax, q.y), xmin := Min(v.xmin, lo), xmax := Max(v.xmax, hi), count := v'.count)
    requires v'.count >= 1
    ensures FillInv(s0, t, w, h, border, fill, down + (up + rest), vx, vy, v')
  {
    MkSeeded(t, w, h, border, fill, up, down, q.y, lo, hi);
    SeqAssoc(down, up, rest);
    SeedsOkKept(s, t, w, h, border, fill, q, rest, up, down, lo, hi);
    if Clean(s0, border, fill) {
      ClosedKept(s, t, w, h, border, fill, q, rest, up, down, lo, hi);
      SeedFilled(s0, s, t, w, h, border, fill, q, rest, lo, hi, vx, vy);
    }
    BoxKept(s0, s, t, w, h, v', vx, vy, q.y, lo, hi);
    ConvertedTrans(s0, s, t, border, fill);
  }

  /** A pass removes a pixel that needs filling, or else a stale seed. */
  lemma {:induction false} PassProgress(s: seq<byte>, t: seq<byte>, w: nat, h: nat, border: byte, fill: byte,
                  q: Point, rest: seq<Point>, up: seq<Point>, down: seq<Point>, lo: int, hi: int)
    requires RunPainted(s, t, w, h, border, fill, q, lo, hi)
    requires up == NeighbourSeeds(t, w, h, border, fill, q.y - 1, lo, hi)
    requires down == NeighbourSeeds(t, w, h, border, fill, q.y + 1, lo, hi)
    ensures Progress(s, t, w, h, border, fill, [q] + rest, down + (up + rest))
  {
    MkSeeded(t, w, h, border, fill, up, down, q.y, lo, hi);
    SeqAssoc(down, up, rest);
    LiveCountDrops(s, t, border, fill);
    if t == s {
      SeededNoneStale(t, w, h, border, fill, up, down, q.y, lo, hi);
      StaleDrops(t, w, h, border, fill, q, rest, up, down, lo, hi);
    }
  }

  /** After the first pass the seed pixel holds fill. */
  lemma {:induction false} SeedFilled(s0: seq<byte>, s: seq<byte>, t: seq<byte>, w: nat, h: nat, border: byte, fill: byte,
                   q: Point, rest: seq<Point>, lo: int, hi: int, vx: int, vy: int)
    requires RunPainted(s, t, w, h, border, fill, q, lo, hi) && InRaster(w, h, vx, vy)
    requires At(s, w, h, vx, vy) == fill || [q] + rest == [Point(vx, vy)]
    ensures At(t, w, h, vx, vy) == fill
  {
    if At(s, w, h, vx, vy) != fill {
      assert ([q] + rest)[0] == q;
    }
  }

  /** Pixels changed by a pass lie in its run, which the updated box holds. */
  lemma {:induction false} BoxKept(s0: seq<byte>, s: seq<byte>, t: seq<byte>, w: nat, h: nat, v: FillData, vx: int, vy: int, y: int, lo: int, hi: int)
    requires |s0| == w * h && |s| == w * h && 0 <= y < h && 0 <= lo <= hi < w
    requires 0 <= v.xmin <= vx <= v.xmax < w && 0 <= v.ymin <= vy <= v.ymax < h && v.count >= 1
    requires v.xmin <= lo && hi <= v.xmax && v.ymin <= y <= v.ymax
    requires forall c, r :: InRaster(w, h, c, r) && At(s, w, h, c, r) != At(s0, w, h, c, r) ==>
               v.xmin <= c <= v.xmax && v.ymin <= r <= v.ymax
    requires SameOutside(s, t, Idx(w, h, lo, y), Idx(w, h, hi, y))
    ensures BoxOk(s0, t, w, h, v, vx, vy)
  {
    forall c, r | InRaster(w, h, c, r) && At(t, w, h, c, r) != At(s0, w, h, c, r)
      ensures v.xmin <= c <= v.xmax && v.ymin <= r <= v.ymax
    {
      if !(r == y && lo <= c <= hi) {
        IdxOutsideRun(w, h, c, r, y, lo, hi);
      }
    }
  }
}
