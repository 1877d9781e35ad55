/** Raster helpers of the image module: the Bresenham line-of-sight test on the
    original raster, the copper frame drawn around the working raster, and the
    in-place decoding of PBM (P4) and PGM (P5) sample rows. */
module Image {
  import opened Basics

  // ---------------------------------------------------------------------------
  // Bresenham line of sight
  // ---------------------------------------------------------------------------

  /** The two end pixels of a line to test. */
  datatype Line = Line(x0: int, y0: int, x1: int, y1: int)

  /** The state of the walk: the current pixel and the error term. */
  datatype Walker = Walker(x: int, y: int, err: int)

  function Dx(l: Line): int { Abs(l.x1 - l.x0) }
  function Dy(l: Line): int { Abs(l.y1 - l.y0) }
  function Sx(l: Line): int { if l.x0 < l.x1 then 1 else -1 }
  function Sy(l: Line): int { if l.y0 < l.y1 then 1 else -1 }

  /** The number of steps of the walk: the larger of the two extents. */
  function Steps(l: Line): nat { Abs(Max(Dx(l), Dy(l))) }

  /** The initial error `(dx > dy ? dx : -dy) / 2`, with C's truncating division. */
  function Err0(l: Line): int {
    CDiv(if Dx(l) > Dy(l) then Dx(l) else -Dy(l), 2)
  }

  /** One pass of the loop body: both tests look at the error before the pass. */
  function BresStep(l: Line, w: Walker): Walker {
    var w1 := if w.err > -Dx(l) then Walker(w.x + Sx(l), w.y, w.err - Dy(l)) else w;
    if w.err < Dy(l) then Walker(w1.x, w1.y + Sy(l), w1.err + Dx(l)) else w1
  }

  /** The walker after `k` passes. */
  function BresAt(l: Line, k: nat): Walker {
    if k == 0 then Walker(l.x0, l.y0, Err0(l)) else BresStep(l, BresAt(l, k - 1))
  }

  /** `a` moved `p` units in direction `s`. */
  function Advance(a: int, s: int, p: int): int {
    if s == 1 then a + p else a - p
  }

  /** The pixel the walk visits on pass `k`. */
  function BresPoint(l: Line, k: nat): Point {
    Point(BresAt(l, k).x, BresAt(l, k).y)
  }

  lemma TimesSmall(t: int, d: int)
    requires d > 0 && -d < t * d < d
    ensures t == 0
  {
  }

  /** The initial error lies in the range the loop keeps. */
  lemma Err0Range(l: Line)
    ensures Dx(l) > Dy(l) ==> 0 <= Err0(l) < Dx(l)
    ensures Dx(l) <= Dy(l) ==> Err0(l) <= 0 && (Dy(l) == 0 || -Dy(l) < Err0(l))
  {
  }

  /** A pass of a walk whose major axis is x: x always advances, and y advances
      only while it is behind. */
  lemma MajorXStep(dx: int, dy: int, e0: int, px: int, py: int, err: int)
    requires 0 <= dy < dx && 0 <= e0 < dx
    requires 0 <= px < dx && 0 <= py <= dy
    requires err == e0 - px * dy + py * dx && 0 <= err < dx
    ensures err < dy ==> py < dy
    ensures var ny := if err < dy then py + 1 else py;
      var nerr := err - dy + (if err < dy then dx else 0);
      nerr == e0 - (px + 1) * dy + ny * dx && 0 <= nerr < dx
  {
    if err < dy && py == dy {
      assert err == e0 + dy * (dx - px);
      MulMonotone(dy, 1, dx - px);
    }
    assert (px + 1) * dy == px * dy + dy;
    assert (py + 1) * dx == py * dx + dx;
  }

  /** A pass of a walk whose major axis is y. */
  lemma MajorYStep(dx: int, dy: int, e0: int, px: int, py: int, err: int)
    requires 0 <= dx <= dy && 0 < dy && -dy < e0 <= 0
    requires 0 <= px <= dx && 0 <= py < dy
    requires err == e0 - px * dy + py * dx && -dy < err <= 0
    ensures err > -dx ==> px < dx
    ensures var nx := if err > -dx then px + 1 else px;
      var nerr := err + dx - (if err > -dx then dy else 0);
      nerr == e0 - nx * dy + (py + 1) * dx && -dy < nerr <= 0
  {
    if err > -dx && px == dx {
      assert err == e0 - dx * (dy - py);
      MulMonotone(dx, 1, dy - py);
    }
    assert (px + 1) * dy == px * dy + dy;
    assert (py + 1) * dx == py * dx + dx;
  }

  lemma AdvanceAbs(a: int, s: int, p: nat)
    requires s == 1 || s == -1
    ensures Abs(Advance(a, s, p) - a) == p
    ensures Advance(a, s, p) + s == Advance(a, s, p + 1)
  {
  }

  /** The walk's invariant after `k` passes: the progress `px`, `py` along
      each axis never passes the target, the error term is a closed form of the
      progress, and the major axis advances on every pass. */
  predicate Progress(l: Line, k: nat, w: Walker) {
    var px := Abs(w.x - l.x0);
    var py := Abs(w.y - l.y0);
    && w.x == Advance(l.x0, Sx(l), px) && w.y == Advance(l.y0, Sy(l), py)
    && px <= Dx(l) && py <= Dy(l)
    && w.err == Err0(l) - px * Dy(l) + py * Dx(l)
    && (Dx(l) > Dy(l) ==> px == k && 0 <= w.err < Dx(l))
    && (Dx(l) <= Dy(l) ==> py == k && w.err <= 0 && (Dy(l) == 0 || -Dy(l) < w.err))
  }

  lemma ProgressMajorX(l: Line, k: nat, v: Walker)
    requires Dx(l) > Dy(l) && k < Steps(l) && Progress(l, k, v)
    ensures Progress(l, k + 1, BresStep(l, v))
  {
    var dx, dy, e0 := Dx(l), Dy(l), Err0(l);
    var px, py := Abs(v.x - l.x0), Abs(v.y - l.y0);
    Err0Range(l);
    MajorXStep(dx, dy, e0, px, py, v.err);
    var ny := if v.err < dy then py + 1 else py;
    AdvanceAbs(l.x0, Sx(l), px);
    AdvanceAbs(l.x0, Sx(l), px + 1);
    AdvanceAbs(l.y0, Sy(l), py);
    AdvanceAbs(l.y0, Sy(l), ny);
  }

  lemma ProgressMajorY(l: Line, k: nat, v: Walker)
    requires Dx(l) <= Dy(l) && k < Steps(l) && Progress(l, k, v)
    ensures Progress(l, k + 1, BresStep(l, v))
  {
    var dx, dy, e0 := Dx(l), Dy(l), Err0(l);
    var px, py := Abs(v.x - l.x0), Abs(v.y - l.y0);
    Err0Range(l);
    MajorYStep(dx, dy, e0, px, py, v.err);
    var nx := if v.err > -dx then px + 1 else px;
    AdvanceAbs(l.x0, Sx(l), px);
    AdvanceAbs(l.x0, Sx(l), nx);
    AdvanceAbs(l.y0, Sy(l), py);
    AdvanceAbs(l.y0, Sy(l), py + 1);
  }

  lemma ProgressStart(l: Line)
    ensures Progress(l, 0, BresAt(l, 0))
  {
    Err0Range(l);
    assert 0 * Dy(l) == 0 && 0 * Dx(l) == 0;
  }

  /** The invariant holds after every pass up to the last. */
  lemma {:induction false} BresProgress(l: Line, k: nat)
    requires k <= Steps(l)
    ensures Progress(l, k, BresAt(l, k))
  {
    if k == 0 {
      ProgressStart(l);
    } else {
      BresProgress(l, k - 1);
      var v := BresAt(l, k - 1);
      assert BresAt(l, k) == BresStep(l, v);
      if Dx(l) > Dy(l) {
        ProgressMajorX(l, k - 1, v);
      } else {
        ProgressMajorY(l, k - 1, v);
      }
    }
  }

  lemma MajorXEnd(dx: int, dy: int, e0: int, py: int, err: int)
    requires 0 <= e0 < dx && 0 <= err < dx && err == e0 - dx * dy + py * dx
    ensures py == dy
  {
    assert (py - dy) * dx == err - e0;
    TimesSmall(py - dy, dx);
  }

  lemma MajorYEnd(dx: int, dy: int, e0: int, px: int, err: int)
    requires -dy < e0 <= 0 && -dy < err <= 0 && err == e0 - px * dy + dy * dx
    ensures px == dx
  {
    assert (dx - px) * dy == err - e0;
    TimesSmall(dx - px, dy);
  }

  /** The walk starts at the first end pixel and reaches the second after
      exactly `Steps` passes. */
  lemma BresEnds(l: Line)
    ensures BresPoint(l, 0) == Point(l.x0, l.y0)
    ensures BresPoint(l, Steps(l)) == Point(l.x1, l.y1)
  {
    var n := Steps(l);
    BresProgress(l, n);
    Err0Range(l);
    var w := BresAt(l, n);
    var px, py := Abs(w.x - l.x0), Abs(w.y - l.y0);
    if Dx(l) > Dy(l) {
      MajorXEnd(Dx(l), Dy(l), Err0(l), py, w.err);
    } else if Dy(l) > 0 {
      MajorYEnd(Dx(l), Dy(l), Err0(l), px, w.err);
    }
    AdvanceAbs(l.x0, Sx(l), Dx(l));
    AdvanceAbs(l.y0, Sy(l), Dy(l));
  }

  /** Before the last pass the walk is not yet at the second end pixel, so the
      loop stops exactly at pass `Steps`. */
  lemma BresNotEarly(l: Line, k: nat)
    requires k < Steps(l)
    ensures BresPoint(l, k) != Point(l.x1, l.y1)
  {
    BresProgress(l, k);
  }

  /** Every visited pixel lies in the bounding box of the two end pixels. */
  lemma BresInBox(l: Line, k: nat)
    requires k <= Steps(l)
    ensures Min(l.x0, l.x1) <= BresPoint(l, k).x <= Max(l.x0, l.x1)
    ensures Min(l.y0, l.y1) <= BresPoint(l, k).y <= Max(l.y0, l.y1)
  {
    BresProgress(l, k);
  }

  /** Each pass moves each coordinate by nothing or by one unit toward the target. */
  lemma BresUnitStep(l: Line, k: nat)
    requires k < Steps(l)
    ensures var d := BresPoint(l, k + 1).x - BresPoint(l, k).x; d == 0 || d == Sx(l)
    ensures var d := BresPoint(l, k + 1).y - BresPoint(l, k).y; d == 0 || d == Sy(l)
    ensures BresPoint(l, k + 1) != BresPoint(l, k)
  {
    BresProgress(l, k);
    BresProgress(l, k + 1);
  }

  predicate InRaster(w: int, h: int, p: Point) {
    0 <= p.x < w && 0 <= p.y < h
  }

  /** A walk between two pixels of a raster stays inside it. */
  lemma WalkInRaster(w: int, h: int, l: Line, k: nat)
    requires InRaster(w, h, Point(l.x0, l.y0)) && InRaster(w, h, Point(l.x1, l.y1))
    requires k <= Steps(l)
    ensures InRaster(w, h, BresPoint(l, k))
  {
    BresInBox(l, k);
  }

  /** The walk is at its second end pixel exactly after the last pass. */
  lemma WalkEnds(l: Line, k: nat)
    requires k <= Steps(l)
    ensures BresPoint(l, k) == Point(l.x1, l.y1) <==> k == Steps(l)
  {
    BresEnds(l);
    if k < Steps(l) {
      BresNotEarly(l, k);
    }
  }

  /** A pixel of the raster that holds copper (value 0). */
  predicate Copper(raster: seq<byte>, w: int, h: int, p: Point)
    requires |raster| == w * h
  {
    InRaster(w, h, p) && raster[Idx(w, h, p.x, p.y)] == 0
  }

  /** Some pixel among the first n + 1 of the walk holds copper. */
  predicate Blocked(raster: seq<byte>, w: int, h: int, l: Line, n: nat)
    requires |raster| == w * h
  {
    exists k :: 0 <= k <= n && Copper(raster, w, h, BresPoint(l, k))
  }

  /** bres_line_test: -1 when the straight path between two raster pixels crosses
      copper in the original raster, 0 when it is clear. Only the original
      raster is read. */
  method BresLineTest(orig: array<byte>, w: int, h: int, l: Line) returns (r: int)
    requires orig.Length == w * h
    requires InRaster(w, h, Point(l.x0, l.y0)) && InRaster(w, h, Point(l.x1, l.y1))
    ensures r == 0 || r == -1
    ensures r == -1 <==> Blocked(orig[..], w, h, l, Steps(l))
  {
    var dx: int, sx := Abs(l.x1 - l.x0), if l.x0 < l.x1 then 1 else -1;
    var dy: int, sy := Abs(l.y1 - l.y0), if l.y0 < l.y1 then 1 else -1;
    var err := CDiv(if dx > dy then dx else -dy, 2);
    var x0, y0 := l.x0, l.y0;
    ghost var raster := orig[..];
    ghost var k := 0;
    assert dx == Dx(l) && dy == Dy(l) && sx == Sx(l) && sy == Sy(l);
    while true
      invariant 0 <= k <= Steps(l)
      invariant Walker(x0, y0, err) == BresAt(l, k)
      invariant ClearBefore(raster, w, h, l, k)
      decreases Steps(l) - k
    {
      assert BresPoint(l, k) == Point(x0, y0);
      WalkInRaster(w, h, l, k);
      if orig[Idx(w, h, x0, y0)] == 0 {
        BlockedAt(raster, w, h, l, k);
        return -1;
      }
      WalkEnds(l, k);
      if x0 == l.x1 && y0 == l.y1 {
        ClearToEnd(raster, w, h, l, k);
        break;
      }
      ghost var before := Walker(x0, y0, err);
      var e2 := err;
      if e2 > -dx {
        err := err - dy;
        x0 := x0 + sx;
      }
      if e2 < dy {
        err := err + dx;
        y0 := y0 + sy;
      }
      assert Walker(x0, y0, err) == BresStep(l, before);
      ClearExtend(raster, w, h, l, k);
      k := k + 1;
    }
    r := 0;
  }

  /** None of the first k pixels of the walk holds copper. */
  predicate ClearBefore(raster: seq<byte>, w: int, h: int, l: Line, k: nat)
    requires |raster| == w * h
  {
    forall j :: 0 <= j < k ==> !Copper(raster, w, h, BresPoint(l, j))
  }

  lemma BlockedAt(raster: seq<byte>, w: int, h: int, l: Line, k: nat)
    requires |raster| == w * h && k <= Steps(l)
    requires InRaster(w, h, BresPoint(l, k))
    requires raster[Idx(w, h, BresPoint(l, k).x, BresPoint(l, k).y)] == 0
    ensures Blocked(raster, w, h, l, Steps(l))
  {
    assert Copper(raster, w, h, BresPoint(l, k));
  }

  lemma ClearExtend(raster: seq<byte>, w: int, h: int, l: Line, k: nat)
    requires |raster| == w * h && ClearBefore(raster, w, h, l, k)
    requires InRaster(w, h, BresPoint(l, k))
    requires raster[Idx(w, h, BresPoint(l, k).x, BresPoint(l, k).y)] != 0
    ensures ClearBefore(raster, w, h, l, k + 1)
  {
  }

  lemma ClearToEnd(raster: seq<byte>, w: int, h: int, l: Line, k: nat)
    requires |raster| == w * h && ClearBefore(raster, w, h, l, k) && k == Steps(l)
    requires InRaster(w, h, BresPoint(l, k))
    requires raster[Idx(w, h, BresPoint(l, k).x, BresPoint(l, k).y)] != 0
    ensures !Blocked(raster, w, h, l, Steps(l))
  {
    ClearExtend(raster, w, h, l, k);
  }

  // ---------------------------------------------------------------------------
  // Copper frame
  // ---------------------------------------------------------------------------

  /** Rows 0, 1, h-2 and h-1 of a raster `h` rows high. */
  predicate FrameRow(h: int, r: int) { r < 2 || r >= h - 2 }

  /** Columns 0, 1, w-2 and w-1 of a raster `w` columns wide. */
  predicate FrameColumn(w: int, c: int) { c < 2 || c >= w - 2 }

  /** `t` is `s` with its two-pixel frame set to copper and every other pixel kept. */
  predicate FramedFrom(s: seq<byte>, t: seq<byte>, w: int, h: int)
    requires |s| == w * h && |t| == w * h
  {
    forall c, r :: 0 <= c < w && 0 <= r < h ==>
      t[Idx(w, h, c, r)] == if FrameRow(h, r) || FrameColumn(w, c) then 0 else s[Idx(w, h, c, r)]
  }

  /** Framing an already framed raster changes nothing. */
  lemma FramedIdempotent(s: seq<byte>, t: seq<byte>, u: seq<byte>, w: int, h: int)
    requires w > 0 && |s| == w * h && |t| == w * h && |u| == w * h
    requires FramedFrom(s, t, w, h) && FramedFrom(t, u, w, h)
    ensures u == t
  {
    forall i | 0 <= i < |u|
      ensures u[i] == t[i]
    {
      IdxOfOffset(w, h, i);
    }
  }

  /** create_border: draws the copper frame in place. */
  method CreateBorder(data: array<byte>, w: int, h: int)
    requires w >= 2 && h >= 2 && data.Length == w * h
    modifies data
    ensures FramedFrom(old(data[..]), data[..], w, h)
  {
    var sx := 0;
    while sx < w
      invariant 0 <= sx <= w
      invariant forall c, r :: 0 <= c < w && 0 <= r < h ==>
        data[Idx(w, h, c, r)] == if c < sx && FrameRow(h, r) then 0 else old(data[Idx(w, h, c, r)])
    {
      SetPixel(data, w, h, sx, 0, 0);
      SetPixel(data, w, h, sx, 1, 0);
      SetPixel(data, w, h, sx, h - 2, 0);
      SetPixel(data, w, h, sx, h - 1, 0);
      sx := sx + 1;
    }
    sx := 0;
    while sx < h
      invariant 0 <= sx <= h
      invariant forall c, r :: 0 <= c < w && 0 <= r < h ==>
        data[Idx(w, h, c, r)] ==
          if FrameRow(h, r) || (r < sx && FrameColumn(w, c)) then 0 else old(data[Idx(w, h, c, r)])
    {
      SetPixel(data, w, h, 0, sx, 0);
      SetPixel(data, w, h, 1, sx, 0);
      SetPixel(data, w, h, w - 2, sx, 0);
      SetPixel(data, w, h, w - 1, sx, 0);
      sx := sx + 1;
    }
  }

  /** Writes `v` at column c, row r, and nothing else. */
  method SetPixel(data: array<byte>, w: int, h: int, c: int, r: int, v: byte)
    requires data.Length == w * h && 0 <= c < w && 0 <= r < h
    modifies data
    ensures forall c', r' :: 0 <= c' < w && 0 <= r' < h ==>
      data[Idx(w, h, c', r')] == if c' == c && r' == r then v else old(data[Idx(w, h, c', r')])
  {
    data[Idx(w, h, c, r)] := v;
    forall c', r' | 0 <= c' < w && 0 <= r' < h
      ensures data[Idx(w, h, c', r')] == if c' == c && r' == r then v else old(data[Idx(w, h, c', r')])
    {
      IdxInjective(w, h, c, r, c', r');
    }
  }

  // ---------------------------------------------------------------------------
  // PBM (P4) unpacking and PGM (P5) thresholding
  // ---------------------------------------------------------------------------

  function Pow2(n: nat): (p: nat)
    ensures p >= 1
  {
    if n == 0 then 1 else 2 * Pow2(n - 1)
  }

  /** Bit `j` (0 = least significant) of a byte, by arithmetic. */
  predicate BitSet(b: byte, j: nat) {
    (b as int / Pow2(j)) % 2 == 1
  }

  /** `128 >> k` as a mask, tested against the byte as the C code does. */
  predicate MaskHit(b: byte, k: nat)
    requires k < 8
  {
    (b as bv8) & ((128 as bv8) >> k) != 0
  }

  /** The pixel value of column c unpacked from the PBM byte that holds it:
      a set bit is black, which becomes copper (0); a clear bit becomes 255. */
  function PbmPixel(packed: byte, c: nat): (p: byte)
    ensures p == 0 || p == 255
    ensures p == 0 <==> BitSet(packed, 7 - c % 8)
  {
    MaskBit(packed, c % 8);
    if MaskHit(packed, c % 8) then 0 else 255
  }

  /** The mask `128 >> k` selects bit 7 - k. */
  lemma MaskBit(b: byte, k: nat)
    requires k < 8
    ensures MaskHit(b, k) <==> BitSet(b, 7 - k)
  {
    if k < 4 {
      MaskBitHigh(b, k);
    } else {
      MaskBitLow(b, k);
    }
  }

  lemma MaskBitHigh(b: byte, k: nat)
    requires k < 4
    ensures MaskHit(b, k) <==> BitSet(b, 7 - k)
  {
    var v := b as bv8;
    var n := b as int;
    if k == 0 {
      assert Pow2(7) == 128;
      assert (128 as bv8) >> k == 128;
      assert v & 128 != 0 <==> (n / 128) % 2 == 1;
    } else if k == 1 {
      assert Pow2(6) == 64;
      assert (128 as bv8) >> k == 64;
      assert v & 64 != 0 <==> (n / 64) % 2 == 1;
    } else if k == 2 {
      assert Pow2(5) == 32;
      assert (128 as bv8) >> k == 32;
      assert v & 32 != 0 <==> (n / 32) % 2 == 1;
    } else {
      assert Pow2(4) == 16;
      assert (128 as bv8) >> k == 16;
      assert v & 16 != 0 <==> (n / 16) % 2 == 1;
    }
  }

  lemma MaskBitLow(b: byte, k: nat)
    requires 4 <= k < 8
    ensures MaskHit(b, k) <==> BitSet(b, 7 - k)
  {
    var v := b as bv8;
    var n := b as int;
    if k == 4 {
      assert Pow2(3) == 8;
      assert (128 as bv8) >> k == 8;
      assert v & 8 != 0 <==> (n / 8) % 2 == 1;
    } else if k == 5 {
      assert Pow2(2) == 4;
      assert (128 as bv8) >> k == 4;
      assert v & 4 != 0 <==> (n / 4) % 2 == 1;
    } else if k == 6 {
      assert Pow2(1) == 2;
      assert (128 as bv8) >> k == 2;
      assert v & 2 != 0 <==> (n / 2) % 2 == 1;
    } else {
      assert Pow2(0) == 1;
      assert (128 as bv8) >> k == 1;
      assert v & 1 != 0 <==> (n / 1) % 2 == 1;
    }
  }

  /** The packed form of a row of binary pixels, as a PBM writer produces it:
      eight pixels per byte, the first pixel in the most significant bit,
      black (copper) as 1, and the last byte padded with 0 bits. */
  function PackRow(row: seq<byte>): (bytes: seq<byte>)
    ensures |bytes| == (|row| + 7) / 8
    decreases |row|
  {
    if |row| == 0 then []
    else if |row| <= 8 then [PackByte(row)]
    else [PackByte(row[..8])] + PackRow(row[8..])
  }

  /** The first n pixels of `px` as an n-bit big-endian number (missing pixels are 0 bits). */
  function PackBits(px: seq<byte>, n: nat): (v: nat)
    ensures v < Pow2(n)
  {
    if n == 0 then 0
    else 2 * PackBits(px, n - 1) + (if n - 1 < |px| && px[n - 1] == 0 then 1 else 0)
  }

  lemma PackBitsFits(px: seq<byte>)
    ensures PackBits(px, 8) < 256
  {
    assert Pow2(8) == 256;
  }

  /** The byte holding the first eight pixels of `px`. */
  function PackByte(px: seq<byte>): byte {
    PackBitsFits(px);
    PackBits(px, 8) as byte
  }

  lemma {:induction false} PackBitsAt(px: seq<byte>, n: nat, j: nat)
    requires j < n
    ensures (PackBits(px, n) / Pow2(n - 1 - j)) % 2 == (if j < |px| && px[j] == 0 then 1 else 0)
  {
    var q := PackBits(px, n - 1);
    var b := if n - 1 < |px| && px[n - 1] == 0 then 1 else 0;
    if j == n - 1 {
      assert Pow2(0) == 1;
    } else {
      PackBitsAt(px, n - 1, j);
      var e := n - 2 - j;
      assert Pow2(n - 1 - j) == 2 * Pow2(e);
      DivTwice(2 * q + b, Pow2(e));
      assert (2 * q + b) / 2 == q;
    }
  }

  /** Dividing by 2m is halving and then dividing by m. */
  lemma DivTwice(a: nat, m: nat)
    requires m >= 1
    ensures a / (2 * m) == (a / 2) / m
  {
    var q := (a / 2) / m;
    var r := (a / 2) % m;
    assert a / 2 == q * m + r;
    assert a == q * (2 * m) + (2 * r + a % 2);
    DivModUnique(a, 2 * m, q, 2 * r + a % 2);
  }

  /** Unpacking a packed binary row gives the row back: the decoder is the
      inverse of the PBM packing. */
  lemma {:induction false} UnpackPackRow(row: seq<byte>, c: nat)
    requires forall i :: 0 <= i < |row| ==> row[i] == 0 || row[i] == 255
    requires c < |row|
    ensures c / 8 < |PackRow(row)|
    ensures PbmPixel(PackRow(row)[c / 8], c) == row[c]
  {
    if |row| <= 8 {
      PackByteBit(row, c);
    } else if c < 8 {
      PackByteBit(row[..8], c);
    } else {
      var rest := row[8..];
      assert forall i :: 0 <= i < |rest| ==> rest[i] == row[i + 8];
      UnpackPackRow(rest, c - 8);
      assert (c - 8) / 8 == c / 8 - 1 && (c - 8) % 8 == c % 8;
      assert PackRow(row) == [PackByte(row[..8])] + PackRow(rest);
      assert PackRow(row)[c / 8] == PackRow(rest)[(c - 8) / 8];
      assert rest[c - 8] == row[c];
      assert PbmPixel(PackRow(row)[c / 8], c) == PbmPixel(PackRow(rest)[(c - 8) / 8], c - 8);
    }
  }

  lemma PackByteBit(px: seq<byte>, c: nat)
    requires c < |px| && c < 8
    requires px[c] == 0 || px[c] == 255
    ensures PbmPixel(PackByte(px), c) == px[c]
  {
    var b := PackByte(px);
    PackBitsAt(px, 8, c);
    assert b as int == PackBits(px, 8);
    assert BitSet(b, 7 - c % 8) <==> px[c] == 0 by {
      assert c % 8 == c;
    }
  }

  /** The P4 loop: each row is expanded in place, right to left, from the packed
      bytes that the reader left at the start of the row. */
  method UnpackP4(data: array<byte>, w: int, h: int)
    requires w > 0 && h >= 0 && data.Length == w * h
    modifies data
    ensures forall c, r :: 0 <= c < w && 0 <= r < h ==>
      data[Idx(w, h, c, r)] == PbmPixel(old(data[Idx(w, h, c / 8, r)]), c)
  {
    var i := 0;
    while i < h
      invariant 0 <= i <= h
      invariant forall c, r :: 0 <= c < w && i <= r < h ==> data[Idx(w, h, c, r)] == old(data[Idx(w, h, c, r)])
      invariant forall c, r :: 0 <= c < w && 0 <= r < i && r < h ==>
        data[Idx(w, h, c, r)] == PbmPixel(old(data[Idx(w, h, c / 8, r)]), c)
    {
      UnpackRow(data, w, h, i);
      i := i + 1;
    }
  }

  /** One row of the P4 loop. Every packed byte is read before it is overwritten,
      because column c reads byte c / 8 and the columns right of c are done. */
  method UnpackRow(data: array<byte>, w: int, h: int, r: int)
    requires w > 0 && data.Length == w * h && 0 <= r < h
    modifies data
    ensures forall c :: 0 <= c < w ==> data[Idx(w, h, c, r)] == PbmPixel(old(data[Idx(w, h, c / 8, r)]), c)
    ensures forall c, r' :: 0 <= c < w && 0 <= r' < h && r' != r ==>
      data[Idx(w, h, c, r')] == old(data[Idx(w, h, c, r')])
  {
    var x := w - 1;
    while x >= 0
      invariant -1 <= x < w
      invariant forall c, r' :: 0 <= c < w && 0 <= r' < h && (r' != r || c <= x) ==>
        data[Idx(w, h, c, r')] == old(data[Idx(w, h, c, r')])
      invariant forall c :: x < c < w ==> data[Idx(w, h, c, r)] == PbmPixel(old(data[Idx(w, h, c / 8, r)]), c)
    {
      var packed := data[Idx(w, h, x / 8, r)];
      SetPixel(data, w, h, x, r, PbmPixel(packed, x));
      x := x - 1;
    }
  }

  /** The P5 threshold level `maxval / 2`. */
  function GreyScale(maxval: int): (g: int)
    requires maxval >= 1
    ensures 2 * g <= maxval < 2 * g + 2
  {
    maxval / 2
  }

  /** The binary value of one greyscale sample. */
  function Threshold(v: byte, g: int): (p: byte)
    ensures p == 255 <==> v as int > g
    ensures p == 0 <==> v as int <= g
  {
    if v as int > g then 255 else 0
  }

  /** Thresholding a binary raster again with a level below 255 changes nothing. */
  lemma ThresholdStable(v: byte, g: int, g': int)
    requires 0 <= g' < 255
    ensures Threshold(Threshold(v, g), g') == Threshold(v, g)
  {
  }

  /** The P5 loop: every sample above maxval/2 becomes 255, every other 0,
      unless greyscale output was requested. */
  method ThresholdP5(data: array<byte>, maxval: int, gray: bool)
    requires maxval >= 1
    modifies data
    ensures gray ==> data[..] == old(data[..])
    ensures !gray ==> forall i :: 0 <= i < data.Length ==> data[i] == Threshold(old(data[i]), GreyScale(maxval))
  {
    var gscale := maxval / 2;
    if !gray {
      var i := 0;
      while i < data.Length
        invariant 0 <= i <= data.Length
        invariant forall j :: 0 <= j < i ==> data[j] == Threshold(old(data[j]), gscale)
        invariant forall j :: i <= j < data.Length ==> data[j] == old(data[j])
      {
        data[i] := if data[i] as int > gscale then 255 else 0;
        i := i + 1;
      }
    }
  }
}
