/** The skeleton tracer (trace.c). After expansion the isolation skeleton is
    a one-pixel-wide network of 0 pixels. The tracer marks every junction
    pixel 30 and records it as an m_point, walks each junction's branches
    turning the pixels it passes 130 and recording the walk as a polyline
    at double resolution, deletes diagonal shortcut m-lines, and finally
    traces the loops that have no junction from pixels with two branches. */
module Trace {
  import opened Basics
  import opened Neighbourhood
  import opened Polyline

  /** C_M_POINT: the colour of a junction pixel. */
  const JunctionMark: byte := 30
  /** C_TRACED_POINT: the colour of a pixel a walk has passed. */
  const TracedMark: byte := 130

  // ---------------------------------------------------------------------------
  // Bits of a block mask
  // ---------------------------------------------------------------------------

  /** The number of bits of m set among bits 0..n-1. */
  function CountBits(m: bv8, n: nat): (c: nat)
    requires n <= 8
    ensures c <= n
  {
    if n == 0 then 0 else CountBits(m, n - 1) + (if Has(m, n - 1) then 1 else 0)
  }

  /** The number of directions a block mask allows. */
  function Popcount(m: bv8): (c: nat)
    ensures c <= 8
  {
    CountBits(m, 8)
  }

  /** Halving a mask moves every bit one place down and clears bit 7. */
  lemma HalfHas(m: bv8, b: nat)
    requires b < 8
    ensures Has(m / 2, b) <==> b < 7 && Has(m, b + 1)
  {
    match b
    case 0 => case 1 => case 2 => case 3 => case 4 => case 5 => case 6 => case _ =>
  }

  /** The mask halved i times. */
  function Halved(mask: bv8, i: nat): bv8 {
    if i == 0 then mask else Halved(mask, i - 1) / 2
  }

  /** Halving i times moves every bit i places down. */
  lemma {:induction false} HalvedHas(mask: bv8, i: nat, b: nat)
    requires b < 8
    ensures Has(Halved(mask, i), b) <==> b + i < 8 && Has(mask, b + i)
  {
    if i > 0 {
      HalfHas(Halved(mask, i - 1), b);
      if b < 7 {
        HalvedHas(mask, i - 1, b + 1);
      }
    }
  }

  /** The lowest bit of the mask halved i times is bit i of the mask. */
  lemma HalvedLow(mask: bv8, i: nat)
    ensures (Halved(mask, i) & 1) as int == if i < 8 && Has(mask, i) then 1 else 0
  {
    HalvedHas(mask, i, 0);
    var n := Halved(mask, i);
    assert (n & 1) as int == if Has(n, 0) then 1 else 0;
  }

  /** mask_test: the mask's lowest bit, then the lowest bit of each of eight
      successive halvings, added up. */
  method MaskTest(mask: bv8) returns (count: int)
    ensures count == Popcount(mask) && 0 <= count <= 8
  {
    var m := mask;
    count := (m & 1) as int;
    HalvedLow(mask, 0);
    for i := 0 to 8
      invariant m == Halved(mask, i)
      invariant count == CountBits(mask, Min(i + 1, 8))
    {
      m := m / 2;
      HalvedLow(mask, i + 1);
      count := count + (m & 1) as int;
    }
  }

  /** Without bit k a mask has exactly the other bits. */
  lemma ClearHas(m: bv8, k: nat, b: nat)
    requires k < 8 && b < 8
    ensures Has(m & !Bit(k), b) <==> Has(m, b) && b != k
  {
    SingleBit(k);
    SingleBit(b);
    BitInjective(k, b);
    ClearBit(m, Bit(k), Bit(b));
  }

  /** Each bit of a block mask is a single binary digit. */
  lemma SingleBit(k: nat)
    requires k < 8
    ensures var t := Bit(k); t == 1 || t == 2 || t == 4 || t == 8 || t == 16 || t == 32 || t == 64 || t == 128
  {
  }

  lemma BitInjective(k: nat, b: nat)
    requires k < 8 && b < 8
    ensures Bit(k) == Bit(b) <==> k == b
  {
  }

  lemma ClearBit(m: bv8, bk: bv8, bb: bv8)
    requires bk == 1 || bk == 2 || bk == 4 || bk == 8 || bk == 16 || bk == 32 || bk == 64 || bk == 128
    requires bb == 1 || bb == 2 || bb == 4 || bb == 8 || bb == 16 || bb == 32 || bb == 64 || bb == 128
    ensures (m & !bk) & bb != 0 <==> m & bb != 0 && bk != bb
  {
  }

  lemma {:induction false} CountClear(m: bv8, k: nat, n: nat)
    requires k < 8 && n <= 8
    ensures CountBits(m & !Bit(k), n) + (if k < n && Has(m, k) then 1 else 0) == CountBits(m, n)
  {
    if n > 0 {
      CountClear(m, k, n - 1);
      ClearHas(m, k, n - 1);
    }
  }

  /** Clearing a set bit removes one direction. */
  lemma PopcountClear(m: bv8, k: nat)
    requires k < 8 && Has(m, k)
    ensures Popcount(m & !Bit(k)) == Popcount(m) - 1
  {
    CountClear(m, k, 8);
  }

  lemma {:induction false} CountNone(m: bv8, n: nat)
    requires n <= 8
    ensures CountBits(m, n) == 0 <==> forall b :: 0 <= b < n ==> !Has(m, b)
  {
    if n > 0 {
      CountNone(m, n - 1);
    }
  }

  /** A mask allows no direction exactly when it is zero. */
  lemma PopcountZero(m: bv8)
    ensures Popcount(m) == 0 <==> m == 0
  {
    CountNone(m, 8);
    if Popcount(m) == 0 {
      MaskExt(m, 0);
    }
  }

  /** The lowest set bit of a non-zero mask. */
  function LowestBit(m: bv8): (k: nat)
    requires m != 0
    ensures k < 8 && Has(m, k)
  {
    NonZeroHasLowest(m);
    LowestFrom(m, 0)
  }

  lemma NonZeroHasLowest(m: bv8)
    requires m != 0
    ensures LowestFrom(m, 0) < 8 && Has(m, LowestFrom(m, 0))
  {
    LowestFromSpec(m, 0);
    if LowestFrom(m, 0) == 8 {
      MaskExt(m, 0);
    }
  }

  /** The first set bit of m from bit j on, or 8 when there is none. */
  function LowestFrom(m: bv8, j: nat): nat
    decreases 8 - j
  {
    if j >= 8 || Has(m, j) then j else LowestFrom(m, j + 1)
  }

  lemma {:induction false} LowestFromSpec(m: bv8, j: nat)
    requires j <= 8
    ensures var k := LowestFrom(m, j);
      && j <= k <= 8 && (k < 8 ==> Has(m, k))
      && forall i :: j <= i < k ==> !Has(m, i)
    decreases 8 - j
  {
    if j < 8 && !Has(m, j) {
      LowestFromSpec(m, j + 1);
    }
  }

  /** A set bit with none below it is the lowest. */
  lemma LowestBitIs(m: bv8, k: nat)
    requires k < 8 && Has(m, k) && forall j :: 0 <= j < k ==> !Has(m, j)
    ensures m != 0 && LowestBit(m) == k
  {
    LowestFromSpec(m, 0);
  }

  /** The pixel step of direction bit k: the table of bit_2_data. */
  function DX(k: nat): int
    requires k < 8
  {
    match k
    case 0 => 1
    case 1 => 1
    case 2 => 0
    case 3 => -1
    case 4 => -1
    case 5 => -1
    case 6 => 0
    case _ => 1
  }

  function DY(k: nat): int
    requires k < 8
  {
    match k
    case 0 => 0
    case 1 => -1
    case 2 => -1
    case 3 => -1
    case 4 => 0
    case 5 => 1
    case 6 => 1
    case _ => 1
  }

  /** bit_2_data: the lowest set bit of mask and its step, searched from bit
      0 upwards; for a zero mask 0, with the step left as it was. */
  method BitToData(mask: bv8, dx0: int, dy0: int) returns (dir: bv8, dx: int, dy: int)
    ensures mask == 0 ==> dir == 0 && dx == dx0 && dy == dy0
    ensures mask != 0 ==> var k := LowestBit(mask);
      && dir == Bit(k) && dx == DX(k) && dy == DY(k)
      && forall j :: 0 <= j < k ==> !Has(mask, j)
  {
    for i := 0 to 8
      invariant forall j :: 0 <= j < i ==> !Has(mask, j)
    {
      if Has(mask, i) {
        LowestBitIs(mask, i);
        return Bit(i), DX(i), DY(i);
      }
    }
    if mask != 0 {
      MaskExt(mask, 0);
    }
    return 0, dx0, dy0;
  }

  /** A step to one of the eight neighbours. */
  predicate Unit(dx: int, dy: int) {
    -1 <= dx <= 1 && -1 <= dy <= 1 && (dx, dy) != (0, 0)
  }

  /** The step of bit k leads to the neighbour that bit k of a block mask
      stands for: from the block's top-left pixel (c - 1, r - 1) get_mask
      reads bit k at the offset of pixel (c + DX(k), r + DY(k)). */
  lemma NeighbourOffset(w: nat, h: nat, c: int, r: int, k: nat)
    requires k < 8 && 1 <= c <= w - 2 && 1 <= r <= h - 2
    ensures Unit(DX(k), DY(k))
    ensures Idx(w, h, c - 1, r - 1) + Off(w, k) == Idx(w, h, c + DX(k), r + DY(k))
  {
    assert w * (r - 1) + w == w * r && w * r + w == w * (r + 1);
  }

  /** The allowed-direction mask of next_pixel's switch for the direction of
      the step just taken; any value other than a single bit is fatal. */
  function DirMask(dir: bv8): Option<bv8> {
    if dir == 0x01 then Some(0xc7)
    else if dir == 0x02 then Some(0x8f)
    else if dir == 0x04 then Some(0x1f)
    else if dir == 0x08 then Some(0x3e)
    else if dir == 0x10 then Some(0x7c)
    else if dir == 0x20 then Some(0xf8)
    else if dir == 0x40 then Some(0xf1)
    else if dir == 0x80 then Some(0xe3)
    else None
  }

  /** The table is fatal exactly off the single bits. */
  lemma DirMaskFatal(dir: bv8)
    ensures DirMask(dir).None? <==> forall k :: 0 <= k < 8 ==> dir != Bit(k)
  {
    if DirMask(dir).Some? {
      assert dir == Bit(0) || dir == Bit(1) || dir == Bit(2) || dir == Bit(3)
        || dir == Bit(4) || dir == Bit(5) || dir == Bit(6) || dir == Bit(7);
    }
  }

  /** The table is one mask turned round: after a step in direction k every
      direction is allowed except k + 3, k + 4 and k + 5 (mod 8), the way
      back and its two neighbours on the ring. */
  lemma DirMaskRotation(k: nat, j: nat)
    requires k < 8 && j < 8
    ensures DirMask(Bit(k)).Some?
    ensures Has(DirMask(Bit(k)).value, j) <==> !(3 <= (j + 8 - k) % 8 <= 5)
  {
    match k
    case 0 => case 1 => case 2 => case 3 => case 4 => case 5 => case 6 => case _ =>
  }

  /** In pixels: after stepping from p in direction k, the walk may go on to
      a neighbour unless that neighbour is p itself or one of p's four
      nearest neighbours. */
  lemma DirMaskMeaning(k: nat, j: nat)
    requires k < 8 && j < 8
    ensures DirMask(Bit(k)).Some?
    ensures Has(DirMask(Bit(k)).value, j) <==> Abs(DX(k) + DX(j)) + Abs(DY(k) + DY(j)) >= 2
  {
    DirMaskRotation(k, j);
    match k
    case 0 => case 1 => case 2 => case 3 => case 4 => case 5 => case 6 => case _ =>
  }

  // ---------------------------------------------------------------------------
  // The raster
  // ---------------------------------------------------------------------------

  /** Pixel (c, r) lies inside the two-pixel frame: the pixels the scans of
      trace visit. */
  predicate Interior(w: int, h: int, c: int, r: int) {
    2 <= c <= w - 3 && 2 <= r <= h - 3
  }

  /** Pixel (c, r) has all eight neighbours in the raster. */
  predicate Inside(w: int, h: int, c: int, r: int) {
    1 <= c <= w - 2 && 1 <= r <= h - 2
  }

  /** No pixel of the frame is dark enough to count as a track at either
      border the tracer tests with (120 and 128): what the border set up by
      create_border and the recolouring of expand_copper leave behind. */
  predicate Framed(s: seq<byte>, w: nat, h: nat) {
    && |s| == w * h
    && forall c, r :: 0 <= c < w && 0 <= r < h && !Interior(w, h, c, r) ==> s[Idx(w, h, c, r)] > 128
  }

  /** The top-left pixel of the 3x3 block centred on (c, r), the offset
      trace.c hands to get_mask. */
  function Block(w: nat, h: nat, c: int, r: int): (i: nat)
    requires Inside(w, h, c, r)
    ensures i + 2 + 2 * w < w * h
  {
    MulMonotone(w, r + 1, h - 1);
    assert w * (r - 1) + 2 * w == w * (r + 1);
    Idx(w, h, c - 1, r - 1)
  }

  /** A neighbour whose pixel counts at a border of at most 128 lies inside
      the frame. */
  lemma DarkIsInterior(s: seq<byte>, w: nat, h: nat, c: int, r: int, k: nat)
    requires Framed(s, w, h) && Inside(w, h, c, r) && k < 8
    requires s[Block(w, h, c, r) + Off(w, k)] <= 128
    ensures Interior(w, h, c + DX(k), r + DY(k))
  {
    NeighbourOffset(w, h, c, r, k);
  }

  /** The pixels that are neither junction nor traced: every mark a walk or
      a scan makes takes one of them. */
  function Untraced(s: seq<byte>): set<int> {
    set j | 0 <= j < |s| && s[j] != JunctionMark && s[j] != TracedMark
  }

  lemma MarkShrinks(s: seq<byte>, j: int, v: byte)
    requires 0 <= j < |s| && s[j] != JunctionMark && s[j] != TracedMark
    requires v == JunctionMark || v == TracedMark
    ensures |Untraced(s[j := v])| == |Untraced(s)| - 1
  {
    assert Untraced(s[j := v]) == Untraced(s) - {j};
  }

  /** t is s with some pixels that were neither junction nor traced marked
      as one of the two, and nothing else changed. */
  predicate Marked(s: seq<byte>, t: seq<byte>) {
    && |t| == |s|
    && forall j :: 0 <= j < |s| ==>
         t[j] == s[j] || (s[j] != JunctionMark && s[j] != TracedMark && (t[j] == JunctionMark || t[j] == TracedMark))
  }

  lemma MarkedTrans(s: seq<byte>, t: seq<byte>, u: seq<byte>)
    requires Marked(s, t) && Marked(t, u)
    ensures Marked(s, u) && |Untraced(u)| <= |Untraced(t)| <= |Untraced(s)|
  {
    MarkedFewer(s, t);
    MarkedFewer(t, u);
  }

  /** Marking never frees a pixel. */
  lemma MarkedFewer(s: seq<byte>, t: seq<byte>)
    requires Marked(s, t)
    ensures Untraced(t) <= Untraced(s) && |Untraced(t)| <= |Untraced(s)|
  {
    assert Untraced(t) <= Untraced(s);
    SubsetCard(Untraced(t), Untraced(s));
  }

  lemma SubsetCard(a: set<int>, b: set<int>)
    requires a <= b
    ensures |a| <= |b|
  {
    assert b == a + (b - a);
  }

  lemma MarkedOne(s: seq<byte>, j: int, v: byte)
    requires 0 <= j < |s| && s[j] != JunctionMark && s[j] != TracedMark
    requires v == JunctionMark || v == TracedMark
    ensures Marked(s, s[j := v])
  {
  }

  /** Marking inside the frame, or with a value too light to count as a
      track, keeps the frame. */
  lemma FramedMark(s: seq<byte>, w: nat, h: nat, c: int, r: int, v: byte)
    requires Framed(s, w, h) && 0 <= c < w && 0 <= r < h && (Interior(w, h, c, r) || v > 128)
    ensures Framed(s[Idx(w, h, c, r) := v], w, h)
  {
    var t := s[Idx(w, h, c, r) := v];
    forall c', r' | 0 <= c' < w && 0 <= r' < h && !Interior(w, h, c', r')
      ensures t[Idx(w, h, c', r')] > 128
    {
      IdxInjective(w, h, c, r, c', r');
    }
  }

  // ---------------------------------------------------------------------------
  // next_pixel
  // ---------------------------------------------------------------------------

  /** What next_pixel reports: the target is a junction (-1) or already
      traced (-2), or the mask of the directions to go on in, or the walk
      came with a direction that is not a single bit (the fatal exit). */
  datatype Probe = AtJunction | AtTraced | Onward(mask: bv8) | WrongDir

  /** next_pixel on values, for the target pixel (nx, ny): a junction or a
      traced pixel is reported and left alone; any other pixel is marked
      traced and the result is the block mask of its neighbours at border
      120, cut down by the direction table. */
  function NextPixelOn(s: seq<byte>, w: nat, h: nat, nx: int, ny: int, dir: bv8): (res: (seq<byte>, Probe))
    requires |s| == w * h && Inside(w, h, nx, ny)
    ensures var t := Idx(w, h, nx, ny);
      && (res.1.AtJunction? <==> s[t] == JunctionMark)
      && (res.1.AtTraced? <==> s[t] == TracedMark)
      && (res.1.AtJunction? || res.1.AtTraced? ==> res.0 == s)
      && (!res.1.AtJunction? && !res.1.AtTraced? ==> res.0 == s[t := TracedMark])
      && (res.1.WrongDir? <==> s[t] != JunctionMark && s[t] != TracedMark && DirMask(dir).None?)
  {
    var t := Idx(w, h, nx, ny);
    if s[t] == JunctionMark then (s, AtJunction)
    else if s[t] == TracedMark then (s, AtTraced)
    else
      var s1 := s[t := TracedMark];
      match DirMask(dir)
      case None => (s1, WrongDir)
      case Some(dm) =>
        (s1, Onward(GetMask(s1, w, Block(w, h, nx, ny), 120) & dm))
  }

  /** The directions next_pixel lets the walk go on in: bit k is set exactly
      when the table allows direction k and the neighbour it stands for
      counts as a track at border 120. */
  lemma ProbeMask(s: seq<byte>, w: nat, h: nat, nx: int, ny: int, dir: bv8)
    requires |s| == w * h && Inside(w, h, nx, ny)
    ensures var res := NextPixelOn(s, w, h, nx, ny, dir);
      res.1.Onward? ==> forall k :: 0 <= k < 8 ==>
        (Has(res.1.mask, k) <==> Has(DirMask(dir).value, k) && res.0[Block(w, h, nx, ny) + Off(w, k)] <= 120)
  {
    var res := NextPixelOn(s, w, h, nx, ny, dir);
    if res.1.Onward? {
      var g := GetMask(res.0, w, Block(w, h, nx, ny), 120);
      forall k | 0 <= k < 8 {
        AndHas(g, DirMask(dir).value, k);
      }
    }
  }

  lemma AndHas(a: bv8, b: bv8, k: nat)
    requires k < 8
    ensures Has(a & b, k) <==> Has(a, k) && Has(b, k)
  {
    var t := Bit(k);
    assert t == 1 || t == 2 || t == 4 || t == 8 || t == 16 || t == 32 || t == 64 || t == 128;
  }

  /** The store after next_pixel: polyline_extend to the target, doubled, on
      the default polyline whenever the target was marked. */
  function ProbeLines(lines: map<nat, Line>, order: seq<nat>, nx: int, ny: int, p: Probe): (r: map<nat, Line>)
    requires NonEmpty(lines) && Members(lines, order) && |order| > 0
  {
    if p.AtJunction? || p.AtTraced? then lines
    else lines[order[0] := Extended(lines[order[0]], Point(2 * nx, 2 * ny))]
  }

  /** next_pixel: from (x, y) one step (dx, dy) on. */
  method NextPixel(data: array<byte>, w: nat, h: nat, store: Store, x: int, y: int, dx: int, dy: int, dir: bv8)
    returns (ret: Probe)
    requires data.Length == w * h && Inside(w, h, x + dx, y + dy)
    requires store.Valid() && |store.order| > 0
    modifies data, store
    ensures (data[..], ret) == NextPixelOn(old(data[..]), w, h, x + dx, y + dy, dir)
    ensures store.Valid() && store.order == old(store.order) && store.nextId == old(store.nextId)
    ensures store.lines == ProbeLines(old(store.lines), old(store.order), x + dx, y + dy, ret)
    ensures old(AllEnded(store.lines)) ==> AllEnded(store.lines)
  {
    var nx, ny := x + dx, y + dy;
    var t := Idx(w, h, nx, ny);
    if data[t] == JunctionMark {
      return AtJunction;
    }
    if data[t] == TracedMark {
      return AtTraced;
    }
    data[t] := TracedMark;
    store.Extend(Point(nx * 2, ny * 2));
    var dm := DirMask(dir);
    if dm.None? {
      return WrongDir;
    }
    var mask := GetMask(data[..], w, Block(w, h, nx, ny), 120);
    return Onward(mask & dm.value);
  }

  // ---------------------------------------------------------------------------
  // The walk of trace_m_point
  // ---------------------------------------------------------------------------

  /** bit_2_data on values: the direction bit and step chosen from ret, the
      step kept when ret is zero. */
  function Turn(ret: bv8, dx: int, dy: int): (bv8, int, int) {
    if ret == 0 then (0, dx, dy) else (Bit(LowestBit(ret)), DX(LowestBit(ret)), DY(LowestBit(ret)))
  }

  /** A probe that meets a traced pixel inside the walk returns -2, which
      trace_m_point's loop keeps in its unsigned char dir as 0xfe; bit_2_data
      then turns it to direction 2, the step (1, -1), and the C loop walks on
      from the traced pixel. WalkOn ends the walk there instead (Retraced). */
  lemma RetracedTurn(dx: int, dy: int)
    ensures Turn(0xfe, dx, dy) == (2, 1, -1)
  {
    LowestBitIs(0xfe, 1);
  }

  /** The state of the walk before a probe: it stands on (c, r), inside
      the frame, and is about to probe the neighbour (c + dx, r + dy) with
      direction bit dir; when dir is not zero that neighbour lies inside
      the frame too (it counted as a track at border 120, or as a direction
      of a junction at border 128, which no frame pixel does). */
  predicate Walking(w: nat, h: nat, c: int, r: int, dx: int, dy: int, dir: bv8) {
    && Interior(w, h, c, r) && Unit(dx, dy)
    && (dir != 0 ==> Interior(w, h, c + dx, r + dy))
  }

  /** How a walk ends: at a junction (trace_m_point returns 1), at a pixel
      already traced, or at the fatal exit of next_pixel. */
  datatype WalkEnd = Closed | Retraced | Fatal

  /** The turn keeps a step to a neighbour, and the step of a non-zero
      direction is the step of the lowest bit of ret. */
  lemma TurnUnit(ret: bv8, dx: int, dy: int)
    requires Unit(dx, dy)
    ensures var t := Turn(ret, dx, dy);
      && Unit(t.1, t.2)
      && (t.0 != 0 ==> ret != 0 && t.1 == DX(LowestBit(ret)) && t.2 == DY(LowestBit(ret)))
  {
    if ret != 0 {
      NeighbourOffset(5, 5, 2, 2, LowestBit(ret));
    }
  }

  /** A probe that marks its target frees one pixel fewer. */
  lemma ProbeMarks(s: seq<byte>, w: nat, h: nat, nx: int, ny: int, dir: bv8)
    requires |s| == w * h && Inside(w, h, nx, ny)
    ensures var pr := NextPixelOn(s, w, h, nx, ny, dir);
      pr.1.WrongDir? || pr.1.Onward? ==> |Untraced(pr.0)| < |Untraced(s)| && Marked(s, pr.0)
  {
    var pr := NextPixelOn(s, w, h, nx, ny, dir);
    if pr.1.WrongDir? || pr.1.Onward? {
      MarkShrinks(s, Idx(w, h, nx, ny), TracedMark);
    }
  }

  /** A probe keeps the frame: it marks at most its target, traced. */
  lemma ProbeFramed(s: seq<byte>, w: nat, h: nat, nx: int, ny: int, dir: bv8)
    requires Framed(s, w, h) && Inside(w, h, nx, ny)
    ensures Framed(NextPixelOn(s, w, h, nx, ny, dir).0, w, h)
  {
    FramedMark(s, w, h, nx, ny, TracedMark);
  }

  /** The lowest direction a probe lets the walk go on in leads to a pixel
      inside the frame: it counted as a track at border 120. */
  lemma ProbeAhead(s: seq<byte>, w: nat, h: nat, nx: int, ny: int, dir: bv8)
    requires Framed(s, w, h) && Inside(w, h, nx, ny)
    ensures var pr := NextPixelOn(s, w, h, nx, ny, dir);
      pr.1.Onward? && pr.1.mask != 0 ==>
        Interior(w, h, nx + DX(LowestBit(pr.1.mask)), ny + DY(LowestBit(pr.1.mask)))
  {
    var pr := NextPixelOn(s, w, h, nx, ny, dir);
    if pr.1.Onward? && pr.1.mask != 0 {
      ProbeFramed(s, w, h, nx, ny, dir);
      ProbeMask(s, w, h, nx, ny, dir);
      var k := LowestBit(pr.1.mask);
      assert pr.0[Block(w, h, nx, ny) + Off(w, k)] <= 120;
      DarkIsInterior(pr.0, w, h, nx, ny, k);
    }
  }

  /** A probe that goes on leaves the walk, moved onto the probed pixel and
      turned by bit_2_data, ready for the next probe. */
  lemma ProbeWalking(s: seq<byte>, w: nat, h: nat, c: int, r: int, dx: int, dy: int, dir: bv8)
    requires Framed(s, w, h) && Walking(w, h, c, r, dx, dy, dir)
    ensures var pr := NextPixelOn(s, w, h, c + dx, r + dy, dir);
      pr.1.Onward? ==> var t := Turn(pr.1.mask, dx, dy);
        Walking(w, h, c + dx, r + dy, t.1, t.2, t.0)
  {
    ProbeAhead(s, w, h, c + dx, r + dy, dir);
    var pr := NextPixelOn(s, w, h, c + dx, r + dy, dir);
    if pr.1.Onward? {
      TurnUnit(pr.1.mask, dx, dy);
    }
  }

  /** q, at double resolution, is a junction pixel. */
  predicate JunctionAt(s: seq<byte>, w: nat, h: nat, q: Point) {
    && q.x % 2 == 0 && q.y % 2 == 0 && 0 <= q.x / 2 < w && 0 <= q.y / 2 < h && |s| == w * h
    && s[Idx(w, h, q.x / 2, q.y / 2)] == JunctionMark
  }

  /** Of the polylines l0, only the one with handle hd has changed in l, and
      it kept its end. */
  predicate HeadOnly(l0: map<nat, Line>, l: map<nat, Line>, hd: nat) {
    hd in l0 && hd in l && l == l0[hd := l[hd]] && l[hd].end == l0[hd].end
  }

  lemma HeadOnlyTrans(l0: map<nat, Line>, l1: map<nat, Line>, l2: map<nat, Line>, hd: nat)
    requires HeadOnly(l0, l1, hd) && HeadOnly(l1, l2, hd)
    ensures HeadOnly(l0, l2, hd)
  {
    assert l0[hd := l1[hd]][hd := l2[hd]] == l0[hd := l2[hd]];
  }

  /** A probe changes at most the default polyline, keeping its end. */
  lemma ProbeHeadOnly(lines: map<nat, Line>, order: seq<nat>, nx: int, ny: int, p: Probe)
    requires NonEmpty(lines) && Members(lines, order) && |order| > 0
    ensures HeadOnly(lines, ProbeLines(lines, order, nx, ny, p), order[0])
  {
  }

  /** What one probe from a walk does to the raster: it marks at most its
      target, keeps the frame, reports a junction only where one is, and,
      when the walk goes on, frees one pixel fewer and leaves the walk
      turned onto the probed pixel. */
  lemma ProbeStep(s: seq<byte>, w: nat, h: nat, lx: int, ly: int, dx: int, dy: int, dir: bv8, t: seq<byte>, p: Probe)
    requires Framed(s, w, h) && Walking(w, h, lx, ly, dx, dy, dir)
    requires (t, p) == NextPixelOn(s, w, h, lx + dx, ly + dy, dir)
    ensures Marked(s, t) && Framed(t, w, h)
    ensures p.AtJunction? ==> t[Idx(w, h, lx + dx, ly + dy)] == JunctionMark
    ensures p.Onward? ==> |Untraced(t)| < |Untraced(s)|
    ensures p.Onward? ==> var tr := Turn(p.mask, dx, dy); Walking(w, h, lx + dx, ly + dy, tr.1, tr.2, tr.0)
  {
    ProbeMarks(s, w, h, lx + dx, ly + dy, dir);
    ProbeFramed(s, w, h, lx + dx, ly + dy, dir);
    ProbeWalking(s, w, h, lx, ly, dx, dy, dir);
  }

  /** One pass of trace_m_point's `for (;;)` loop: next_pixel one step on
      from (lx, ly), then, when the walk goes on, the move onto the pixel
      just marked and bit_2_data's turn to the lowest allowed direction. */
  method WalkStep(data: array<byte>, w: nat, h: nat, store: Store, lx: int, ly: int, dx: int, dy: int, dir: bv8)
    returns (p: Probe, nx: int, ny: int, ndx: int, ndy: int, ndir: bv8)
    requires data.Length == w * h && Framed(data[..], w, h) && Walking(w, h, lx, ly, dx, dy, dir)
    requires store.Valid() && |store.order| > 0
    modifies data, store
    ensures Marked(old(data[..]), data[..]) && Framed(data[..], w, h)
    ensures nx == lx + dx && ny == ly + dy && Inside(w, h, nx, ny)
    ensures p.AtJunction? ==> data[Idx(w, h, nx, ny)] == JunctionMark
    ensures store.Valid() && store.order == old(store.order) && store.nextId == old(store.nextId)
    ensures HeadOnly(old(store.lines), store.lines, store.order[0])
    ensures old(AllEnded(store.lines)) ==> AllEnded(store.lines)
    ensures p.Onward? ==> |Untraced(data[..])| < old(|Untraced(data[..])|)
    ensures p.Onward? ==> (ndir, ndx, ndy) == Turn(p.mask, dx, dy) && Walking(w, h, nx, ny, ndx, ndy, ndir)
  {
    ghost var s := data[..];
    nx, ny := lx + dx, ly + dy;
    assert Inside(w, h, nx, ny);
    p := NextPixel(data, w, h, store, lx, ly, dx, dy, dir);
    ProbeStep(s, w, h, lx, ly, dx, dy, dir, data[..], p);
    ProbeHeadOnly(old(store.lines), store.order, nx, ny, p);
    ndx, ndy, ndir := dx, dy, dir;
    if p.Onward? {
      ndir, ndx, ndy := BitToData(p.mask, dx, dy);
    }
  }

  /** trace_m_point's `for (;;)` loop, on the raster and the default
      polyline of the store, from the state before a probe. Every pass marks
      a pixel that was neither junction nor traced, so the loop ends; it
      ends at a junction, where the default polyline is extended to it, at a
      traced pixel, or at next_pixel's fatal exit. Only pixels that were
      neither junction nor traced change, the frame stays too light to count
      as a track, and of the store only the default polyline changes,
      keeping its end. */
  method WalkOn(data: array<byte>, w: nat, h: nat, store: Store, c0: int, r0: int, dx0: int, dy0: int, dir0: bv8)
    returns (e: WalkEnd)
    requires data.Length == w * h && Framed(data[..], w, h) && Walking(w, h, c0, r0, dx0, dy0, dir0)
    requires store.Valid() && |store.order| > 0
    modifies data, store
    ensures Marked(old(data[..]), data[..]) && Framed(data[..], w, h)
    ensures store.Valid() && store.order == old(store.order) && store.nextId == old(store.nextId)
    ensures HeadOnly(old(store.lines), store.lines, store.order[0])
    ensures e == Closed ==> JunctionAt(data[..], w, h, store.lines[store.order[0]].points[0])
    ensures old(AllEnded(store.lines)) ==> AllEnded(store.lines)
  {
    ghost var hd := store.order[0];
    var lx, ly, dx, dy, dir := c0, r0, dx0, dy0, dir0;
    while true
      invariant Framed(data[..], w, h) && Walking(w, h, lx, ly, dx, dy, dir)
      invariant Marked(old(data[..]), data[..])
      invariant store.Valid() && store.order == old(store.order) && store.nextId == old(store.nextId)
      invariant HeadOnly(old(store.lines), store.lines, hd)
      invariant old(AllEnded(store.lines)) ==> AllEnded(store.lines)
      decreases |Untraced(data[..])|
    {
      ghost var s, before := data[..], store.lines;
      var p, nx, ny, ndx, ndy, ndir := WalkStep(data, w, h, store, lx, ly, dx, dy, dir);
      MarkedTrans(old(data[..]), s, data[..]);
      HeadOnlyTrans(old(store.lines), before, store.lines, hd);
      if p.AtJunction? {
        ghost var l1 := store.lines;
        var q := Point(nx * 2, ny * 2);
        store.Extend(q);
        HeadOnlyTrans(old(store.lines), l1, store.lines, hd);
        assert q.x / 2 == nx && q.y / 2 == ny;
        return Closed;
      }
      if p.AtTraced? {
        return Retraced;
      }
      if p.WrongDir? {
        return Fatal;
      }
      lx, ly, dx, dy, dir := nx, ny, ndx, ndy, ndir;
    }
  }

  // ---------------------------------------------------------------------------
  // Junctions: m_point and trace_m_point
  // ---------------------------------------------------------------------------

  /** struct m_point: a junction pixel, the block mask of its branches as
      found, and the branches not yet traced. */
  datatype MPoint = MPoint(x: int, y: int, initmask: bv8, mask: bv8)

  /** The junction stands inside the frame and every branch left in its mask
      leads to a pixel inside the frame. */
  predicate Inward(w: nat, h: nat, m: MPoint) {
    && Interior(w, h, m.x, m.y)
    && forall k :: 0 <= k < 8 && Has(m.mask, k) ==> Interior(w, h, m.x + DX(k), m.y + DY(k))
  }

  predicate AllInward(w: nat, h: nat, ms: seq<MPoint>) {
    forall j :: 0 <= j < |ms| ==> Inward(w, h, ms[j])
  }

  /** The junction once trace_m_point has taken its lowest branch: one
      branch fewer, the rest as it was. */
  function Used(m: MPoint): (r: MPoint)
    requires m.mask != 0
    ensures r.x == m.x && r.y == m.y && r.initmask == m.initmask
    ensures Popcount(r.mask) == Popcount(m.mask) - 1
  {
    PopcountClear(m.mask, LowestBit(m.mask));
    m.(mask := m.mask & !Bit(LowestBit(m.mask)))
  }

  /** Taking a branch leaves exactly the others, so a junction stays
      inward. */
  lemma UsedBranches(w: nat, h: nat, m: MPoint)
    requires m.mask != 0
    ensures forall b :: 0 <= b < 8 ==> (Has(Used(m).mask, b) <==> Has(m.mask, b) && b != LowestBit(m.mask))
    ensures Inward(w, h, m) ==> Inward(w, h, Used(m))
  {
    forall b | 0 <= b < 8 {
      ClearHas(m.mask, LowestBit(m.mask), b);
    }
  }

  /** The lowest branch of an inward junction is a step of the walk. */
  lemma InwardWalking(w: nat, h: nat, m: MPoint)
    requires Inward(w, h, m) && m.mask != 0
    ensures var k := LowestBit(m.mask); Bit(k) != 0 && Walking(w, h, m.x, m.y, DX(k), DY(k), Bit(k))
  {
    NeighbourOffset(5, 5, 2, 2, LowestBit(m.mask));
  }

  /** The list first_m_point, newest first. */
  class MPoints {
    var points: seq<MPoint>

    constructor ()
      ensures points == []
    {
      points := [];
    }

    /** m_point_new: a junction with both masks set to mask at the list
        head. */
    method New(x: int, y: int, mask: bv8)
      modifies this
      ensures points == [MPoint(x, y, mask, mask)] + old(points)
    {
      points := [MPoint(x, y, mask, mask)] + points;
    }

    /** The start of trace_m_point on a junction with a branch left:
        bit_2_data on its mask, and the branch it picks cleared. */
    method Take(i: nat) returns (dir: bv8, dx: int, dy: int)
      requires i < |points| && points[i].mask != 0
      modifies this
      ensures points == old(points)[i := Used(old(points)[i])]
      ensures var k := LowestBit(old(points)[i].mask); dir == Bit(k) && dx == DX(k) && dy == DY(k)
    {
      var m := points[i];
      dir, dx, dy := BitToData(m.mask, 0, 0);
      points := points[i := m.(mask := m.mask & !dir)];
    }

    /** The loop at the end of trace freeing the list from its head. */
    method Free()
      modifies this
      ensures points == []
    {
      while |points| > 0
        decreases |points|
      {
        points := points[1..];
      }
    }
  }

  /** What trace_m_point reports: no branch left (0), a branch traced (1),
      or a walk that ran into a traced pixel or next_pixel's fatal exit. */
  datatype Branch = Exhausted | Traced | Aborted(how: WalkEnd)

  /** The store when the first probe from the junction (x, y) meets a
      neighbouring junction: the line from the other side, when there is
      one, gets the junction in front and the new polyline at the head is
      dropped; otherwise the new polyline runs to the midpoint of the two. */
  method MeetJunction(store: Store, x: int, y: int, dx: int, dy: int)
    requires store.Valid() && |store.order| > 0
    modifies store
    ensures store.Valid() && (old(AllEnded(store.lines)) ==> AllEnded(store.lines))
    ensures store.order == old(store.order) || store.order == old(store.order)[1..]
    ensures store.order == old(store.order) ==> HeadOnly(old(store.lines), store.lines, store.order[0])
  {
    var mid := Point(x * 2 + dx, y * 2 + dy);
    var found := store.FindAppend(mid, Point(x * 2, y * 2));
    if found != 0 {
      store.DeleteDefault();
    } else {
      store.Append(mid);
    }
  }

  /** trace_m_point from the call of next_pixel on: the first probe from
      the junction (x, y) along its branch (dx, dy, dir), with the new
      polyline at the head of the store. A neighbouring junction is met as
      MeetJunction says, a traced neighbour drops the new polyline, and any
      other neighbour starts the walk. A polyline left at the head keeps its
      end. */
  method TraceBranch(data: array<byte>, w: nat, h: nat, store: Store, x: int, y: int, dx: int, dy: int, dir: bv8)
    returns (r: Branch)
    requires data.Length == w * h && Framed(data[..], w, h) && Walking(w, h, x, y, dx, dy, dir) && dir != 0
    requires store.Valid() && |store.order| > 0
    modifies data, store
    ensures Marked(old(data[..]), data[..]) && Framed(data[..], w, h)
    ensures store.Valid() && (old(AllEnded(store.lines)) ==> AllEnded(store.lines))
    ensures store.order == old(store.order) || store.order == old(store.order)[1..]
    ensures store.order == old(store.order) ==> HeadOnly(old(store.lines), store.lines, store.order[0])
    ensures !r.Exhausted? && (r.Aborted? ==> r.how != Closed)
  {
    ghost var l0 := store.lines;
    var p, nx, ny, ndx, ndy, ndir := WalkStep(data, w, h, store, x, y, dx, dy, dir);
    if p.AtJunction? {
      ghost var l1 := store.lines;
      MeetJunction(store, x, y, dx, dy);
      if store.order == old(store.order) {
        HeadOnlyTrans(l0, l1, store.lines, store.order[0]);
      }
      return Traced;
    } else if p.AtTraced? {
      store.DeleteDefault();
      return Traced;
    } else if p.WrongDir? {
      return Aborted(Fatal);
    }
    ghost var s1, l1 := data[..], store.lines;
    var e := WalkOn(data, w, h, store, nx, ny, ndx, ndy, ndir);
    MarkedTrans(old(data[..]), s1, data[..]);
    HeadOnlyTrans(l0, l1, store.lines, store.order[0]);
    r := if e == Closed then Traced else Aborted(e);
  }

  /** The polyline started at the junction (x, y), doubled, and the branch
      (dx, dy, dir) traced from it. A polyline left behind is new, at the
      head of the store, and ends at the junction. */
  method StartBranch(data: array<byte>, w: nat, h: nat, store: Store, x: int, y: int, dx: int, dy: int, dir: bv8)
    returns (r: Branch)
    requires data.Length == w * h && Framed(data[..], w, h) && Walking(w, h, x, y, dx, dy, dir) && dir != 0
    requires store.Valid()
    modifies data, store
    ensures Marked(old(data[..]), data[..]) && Framed(data[..], w, h)
    ensures store.Valid() && (old(AllEnded(store.lines)) ==> AllEnded(store.lines))
    ensures store.order == old(store.order) || (|store.order| > 0 && store.order[1..] == old(store.order))
    ensures store.order != old(store.order) ==> store.lines[store.order[0]].end == Point(2 * x, 2 * y)
    ensures !r.Exhausted? && (r.Aborted? ==> r.how != Closed)
  {
    var id := store.Start(Point(x * 2, y * 2));
    r := TraceBranch(data, w, h, store, x, y, dx, dy, dir);
  }

  /** trace_m_point on the junction at position i of the list: with no
      branch left it returns 0 and changes nothing; otherwise it takes the
      lowest branch, starts a polyline at the junction, doubled, and traces
      the branch. A polyline it leaves behind is new, at the head of the
      store, and ends at the junction. */
  method TraceMPoint(data: array<byte>, w: nat, h: nat, store: Store, ms: MPoints, i: nat)
    returns (r: Branch)
    requires data.Length == w * h && Framed(data[..], w, h)
    requires store.Valid() && i < |ms.points| && Inward(w, h, ms.points[i])
    modifies data, store, ms
    ensures Marked(old(data[..]), data[..]) && Framed(data[..], w, h)
    ensures store.Valid() && (old(AllEnded(store.lines)) ==> AllEnded(store.lines))
    ensures r.Exhausted? <==> old(ms.points[i].mask) == 0
    ensures r.Exhausted? ==> ms.points == old(ms.points) && data[..] == old(data[..])
    ensures r.Exhausted? ==> store.lines == old(store.lines) && store.order == old(store.order)
    ensures !r.Exhausted? ==> ms.points == old(ms.points)[i := Used(old(ms.points[i]))]
    ensures store.order == old(store.order) || (|store.order| > 0 && store.order[1..] == old(store.order))
    ensures store.order != old(store.order) ==>
      store.lines[store.order[0]].end == Point(2 * old(ms.points[i].x), 2 * old(ms.points[i].y))
    ensures r.Aborted? ==> r.how != Closed
  {
    var m := ms.points[i];
    if m.mask == 0 {
      return Exhausted;
    }
    InwardWalking(w, h, m);
    var dir, dx, dy := ms.Take(i);
    r := StartBranch(data, w, h, store, m.x, m.y, dx, dy, dir);
  }

  // ---------------------------------------------------------------------------
  // The junction scan of trace
  // ---------------------------------------------------------------------------

  /** The branches of pixel (c, r): its block mask at border 128. */
  function Branches(s: seq<byte>, w: nat, h: nat, c: int, r: int): bv8
    requires |s| == w * h && Interior(w, h, c, r)
  {
    GetMask(s, w, Block(w, h, c, r), 128)
  }

  /** A junction pixel as trace's first scan finds it: a 0 pixel inside the
      frame with more than two branches. */
  predicate IsJunction(s: seq<byte>, w: nat, h: nat, c: int, r: int)
    requires |s| == w * h
  {
    Interior(w, h, c, r) && s[Idx(w, h, c, r)] == 0 && Popcount(Branches(s, w, h, c, r)) > 2
  }

  /** The m_point the scan records for pixel (c, r). */
  function JunctionPoint(s: seq<byte>, w: nat, h: nat, c: int, r: int): MPoint
    requires |s| == w * h && Interior(w, h, c, r)
  {
    MPoint(c, r, Branches(s, w, h, c, r), Branches(s, w, h, c, r))
  }

  /** The m_points pushed while scanning row r up to column c - 1, newest
      first. */
  function RowJunctions(s: seq<byte>, w: nat, h: nat, r: int, c: int): seq<MPoint>
    requires |s| == w * h
    decreases c
  {
    if c <= 2 then []
    else
      var here := if IsJunction(s, w, h, c - 1, r) then [JunctionPoint(s, w, h, c - 1, r)] else [];
      here + RowJunctions(s, w, h, r, c - 1)
  }

  /** The m_points pushed while scanning the rows above row r, newest
      first. */
  function RowsJunctions(s: seq<byte>, w: nat, h: nat, r: int): seq<MPoint>
    requires |s| == w * h
    decreases r
  {
    if r <= 2 then [] else RowJunctions(s, w, h, r - 1, w - 2) + RowsJunctions(s, w, h, r - 1)
  }

  /** The list first_m_point after the first scan of trace. */
  function Junctions(s: seq<byte>, w: nat, h: nat): seq<MPoint>
    requires |s| == w * h
  {
    RowsJunctions(s, w, h, h - 2)
  }

  lemma {:induction false} RowJunctionsIn(s: seq<byte>, w: nat, h: nat, r: int, c: int, m: MPoint)
    requires |s| == w * h
    ensures m in RowJunctions(s, w, h, r, c) <==>
      m.y == r && m.x < c && IsJunction(s, w, h, m.x, m.y) && m == JunctionPoint(s, w, h, m.x, m.y)
    decreases c
  {
    if c > 2 {
      RowJunctionsIn(s, w, h, r, c - 1, m);
    }
  }

  lemma {:induction false} RowsJunctionsIn(s: seq<byte>, w: nat, h: nat, r: int, m: MPoint)
    requires |s| == w * h
    ensures m in RowsJunctions(s, w, h, r) <==>
      m.y < r && IsJunction(s, w, h, m.x, m.y) && m == JunctionPoint(s, w, h, m.x, m.y)
    decreases r
  {
    if r > 2 {
      RowsJunctionsIn(s, w, h, r - 1, m);
      RowJunctionsIn(s, w, h, r - 1, w - 2, m);
    }
  }

  /** The list holds exactly the junction pixels, each with both masks set
      to its branches. */
  lemma JunctionsIn(s: seq<byte>, w: nat, h: nat, m: MPoint)
    requires |s| == w * h
    ensures m in Junctions(s, w, h) <==> IsJunction(s, w, h, m.x, m.y) && m == JunctionPoint(s, w, h, m.x, m.y)
  {
    RowsJunctionsIn(s, w, h, h - 2, m);
  }

  /** Every branch of a junction leads to a pixel inside the frame, so the
      list meets trace_m_point's needs. */
  lemma JunctionsInward(s: seq<byte>, w: nat, h: nat)
    requires Framed(s, w, h)
    ensures AllInward(w, h, Junctions(s, w, h))
  {
    var js := Junctions(s, w, h);
    forall j | 0 <= j < |js|
      ensures Inward(w, h, js[j])
    {
      JunctionsIn(s, w, h, js[j]);
      BranchesInward(s, w, h, js[j].x, js[j].y);
    }
  }

  /** A junction recorded with its branches meets trace_m_point's needs:
      every branch counts as a track at border 128, which no frame pixel
      does. */
  lemma BranchesInward(s: seq<byte>, w: nat, h: nat, x: int, y: int)
    requires Framed(s, w, h) && Interior(w, h, x, y)
    ensures Inward(w, h, MPoint(x, y, Branches(s, w, h, x, y), Branches(s, w, h, x, y)))
  {
    forall k | 0 <= k < 8 && Has(Branches(s, w, h, x, y), k)
      ensures Interior(w, h, x + DX(k), y + DY(k))
    {
      DarkIsInterior(s, w, h, x, y, k);
    }
  }

  /** The raster in the middle of the scan: the junction pixels before (x, y)
      in row-major order are marked, every other pixel is as it was. */
  predicate MarkedBefore(s0: seq<byte>, t: seq<byte>, w: nat, h: nat, x: int, y: int) {
    && |s0| == w * h && |t| == w * h
    && forall c, r {:trigger t[Idx(w, h, c, r)]} :: 0 <= c < w && 0 <= r < h ==>
         t[Idx(w, h, c, r)] ==
           if (r < y || (r == y && c < x)) && IsJunction(s0, w, h, c, r) then JunctionMark
           else s0[Idx(w, h, c, r)]
  }

  /** In t, only 0 pixels of s0 have changed, to 30. */
  predicate ZerosMarked(s0: seq<byte>, t: seq<byte>) {
    && |t| == |s0|
    && forall j :: 0 <= j < |s0| ==> t[j] == s0[j] || (s0[j] == 0 && t[j] == JunctionMark)
  }

  /** Where the scan stands nothing is marked yet, and elsewhere only 0
      pixels are. */
  lemma ScanPixel(s0: seq<byte>, t: seq<byte>, w: nat, h: nat, x: int, y: int)
    requires MarkedBefore(s0, t, w, h, x, y) && Interior(w, h, x, y)
    ensures t[Idx(w, h, x, y)] == s0[Idx(w, h, x, y)]
    ensures ZerosMarked(s0, t)
  {
    forall j | 0 <= j < |s0|
      ensures t[j] == s0[j] || (s0[j] == 0 && t[j] == JunctionMark)
    {
      IdxOfOffset(w, h, j);
    }
  }

  /** Marking 0 pixels 30 changes no mask at border 128. */
  lemma ZerosMarkedBranches(s0: seq<byte>, t: seq<byte>, w: nat, h: nat, x: int, y: int)
    requires ZerosMarked(s0, t) && |s0| == w * h && Interior(w, h, x, y)
    ensures GetMask(t, w, Block(w, h, x, y), 128) == Branches(s0, w, h, x, y)
  {
    var a, b := GetMask(t, w, Block(w, h, x, y), 128), Branches(s0, w, h, x, y);
    assert forall k :: 0 <= k < 8 ==> (Has(a, k) <==> Has(b, k));
    MaskExt(a, b);
  }

  /** Marking junction pixels is a marking, and keeps the frame. */
  lemma MarkedBeforeFacts(s0: seq<byte>, t: seq<byte>, w: nat, h: nat, x: int, y: int)
    requires MarkedBefore(s0, t, w, h, x, y) && Framed(s0, w, h)
    ensures Marked(s0, t) && Framed(t, w, h)
  {
    forall j | 0 <= j < |s0|
      ensures t[j] == s0[j] || (s0[j] != JunctionMark && s0[j] != TracedMark && t[j] == JunctionMark)
    {
      IdxOfOffset(w, h, j);
    }
  }

  lemma ScanStep(s0: seq<byte>, t: seq<byte>, w: nat, h: nat, x: int, y: int)
    requires MarkedBefore(s0, t, w, h, x, y) && Interior(w, h, x, y)
    ensures MarkedBefore(s0, if IsJunction(s0, w, h, x, y) then t[Idx(w, h, x, y) := JunctionMark] else t, w, h, x + 1, y)
  {
    var t' := if IsJunction(s0, w, h, x, y) then t[Idx(w, h, x, y) := JunctionMark] else t;
    forall c, r | 0 <= c < w && 0 <= r < h
      ensures t'[Idx(w, h, c, r)] ==
        if (r < y || (r == y && c < x + 1)) && IsJunction(s0, w, h, c, r) then JunctionMark else s0[Idx(w, h, c, r)]
    {
      IdxInjective(w, h, c, r, x, y);
    }
  }

  /** One pixel of trace's first scan, on the raster s0 had before the
      scan: a junction pixel is marked and its m_point pushed. */
  method ScanJunctionPixel(data: array<byte>, w: nat, h: nat, ms: MPoints, x: int, y: int, ghost s0: seq<byte>)
    requires data.Length == w * h && Interior(w, h, x, y) && MarkedBefore(s0, data[..], w, h, x, y)
    modifies data, ms
    ensures MarkedBefore(s0, data[..], w, h, x + 1, y)
    ensures ms.points == (if IsJunction(s0, w, h, x, y) then [JunctionPoint(s0, w, h, x, y)] else []) + old(ms.points)
  {
    ghost var t := data[..];
    var i := Idx(w, h, x, y);
    ScanPixel(s0, t, w, h, x, y);
    ZerosMarkedBranches(s0, t, w, h, x, y);
    ScanStep(s0, t, w, h, x, y);
    if data[i] == 0 {
      var mask := GetMask(data[..], w, Block(w, h, x, y), 128);
      var n := MaskTest(mask);
      if n > 2 {
        ms.New(x, y, mask);
        data[i] := JunctionMark;
      }
    }
  }

  /** One row of trace's first scan, on the raster s0 had before the
      scan. */
  method ScanJunctionRow(data: array<byte>, w: nat, h: nat, ms: MPoints, y: int, ghost s0: seq<byte>)
    requires data.Length == w * h && 2 <= y < h - 2 && MarkedBefore(s0, data[..], w, h, 2, y)
    modifies data, ms
    ensures MarkedBefore(s0, data[..], w, h, 2, y + 1)
    ensures ms.points == RowJunctions(s0, w, h, y, w - 2) + old(ms.points)
  {
    var x := 2;
    while x < w - 2
      invariant 2 <= x && (x <= w - 2 || x == 2)
      invariant MarkedBefore(s0, data[..], w, h, x, y)
      invariant ms.points == RowJunctions(s0, w, h, y, x) + old(ms.points)
    {
      ghost var before := ms.points;
      ScanJunctionPixel(data, w, h, ms, x, y, s0);
      PushJunction(s0, w, h, y, x, old(ms.points), before, ms.points);
      x := x + 1;
    }
    RowEnd(s0, data[..], w, h, x, y);
  }

  /** The scan of pixel (x, y) extends the list of the row's junctions to
      the left of x by the junction at x, if there is one. */
  lemma PushJunction(s0: seq<byte>, w: nat, h: nat, y: int, x: int, base: seq<MPoint>, ps: seq<MPoint>, qs: seq<MPoint>)
    requires |s0| == w * h && x >= 2
    requires ps == RowJunctions(s0, w, h, y, x) + base
    requires qs == (if IsJunction(s0, w, h, x, y) then [JunctionPoint(s0, w, h, x, y)] else []) + ps
    ensures qs == RowJunctions(s0, w, h, y, x + 1) + base
  {
  }

  /** The scan of row y puts the row's junctions in front of those of the
      rows above. */
  lemma PushRow(s0: seq<byte>, w: nat, h: nat, y: int, base: seq<MPoint>, ps: seq<MPoint>, qs: seq<MPoint>)
    requires |s0| == w * h && y >= 2
    requires ps == RowsJunctions(s0, w, h, y) + base
    requires qs == RowJunctions(s0, w, h, y, w - 2) + ps
    ensures qs == RowsJunctions(s0, w, h, y + 1) + base
  {
  }

  /** Past the last interior column, a row is done. */
  lemma RowEnd(s0: seq<byte>, t: seq<byte>, w: nat, h: nat, x: int, y: int)
    requires MarkedBefore(s0, t, w, h, x, y) && x >= w - 2
    ensures MarkedBefore(s0, t, w, h, 2, y + 1)
  {
    forall c, r | 0 <= c < w && 0 <= r < h
      ensures t[Idx(w, h, c, r)] ==
        if (r < y + 1 || (r == y + 1 && c < 2)) && IsJunction(s0, w, h, c, r) then JunctionMark
        else s0[Idx(w, h, c, r)]
    {
      if r == y && IsJunction(s0, w, h, c, r) {
        assert c < x;
      }
    }
  }

  /** trace's first scan: every 0 pixel inside the frame with more than two
      branches at border 128 is marked 30 and gets an m_point, pushed at the
      list head, whose two masks are its branches. */
  method ScanJunctions(data: array<byte>, w: nat, h: nat, ms: MPoints)
    requires data.Length == w * h && Framed(data[..], w, h)
    modifies data, ms
    ensures ms.points == Junctions(old(data[..]), w, h) + old(ms.points)
    ensures forall c, r :: 0 <= c < w && 0 <= r < h ==>
      data[Idx(w, h, c, r)] == if IsJunction(old(data[..]), w, h, c, r) then JunctionMark else old(data[Idx(w, h, c, r)])
    ensures Marked(old(data[..]), data[..]) && Framed(data[..], w, h)
  {
    ghost var s0 := data[..];
    var y := 2;
    while y < h - 2
      invariant 2 <= y && (y <= h - 2 || y == 2)
      invariant MarkedBefore(s0, data[..], w, h, 2, y)
      invariant ms.points == RowsJunctions(s0, w, h, y) + old(ms.points)
    {
      ghost var before := ms.points;
      ScanJunctionRow(data, w, h, ms, y, s0);
      PushRow(s0, w, h, y, old(ms.points), before, ms.points);
      y := y + 1;
    }
    MarkedBeforeFacts(s0, data[..], w, h, 2, y);
  }

  // ---------------------------------------------------------------------------
  // Tracing every junction
  // ---------------------------------------------------------------------------

  /** The junctions keep their pixels and their masks as found. */
  predicate SamePlaces(ms: seq<MPoint>, ns: seq<MPoint>) {
    |ms| == |ns| && forall j :: 0 <= j < |ms| ==> ms[j].x == ns[j].x && ms[j].y == ns[j].y && ms[j].initmask == ns[j].initmask
  }

  /** `while (trace_m_point (image, m_point));` on the junction at position
      i: its branches are traced one by one until none is left or a walk
      fails. */
  method TraceAllBranches(data: array<byte>, w: nat, h: nat, store: Store, ms: MPoints, i: nat) returns (r: Branch)
    requires data.Length == w * h && Framed(data[..], w, h)
    requires store.Valid() && AllInward(w, h, ms.points) && i < |ms.points|
    modifies data, store, ms
    ensures Marked(old(data[..]), data[..]) && Framed(data[..], w, h)
    ensures store.Valid() && (old(AllEnded(store.lines)) ==> AllEnded(store.lines))
    ensures SamePlaces(old(ms.points), ms.points) && AllInward(w, h, ms.points)
    ensures forall j :: 0 <= j < |ms.points| && j != i ==> ms.points[j] == old(ms.points[j])
    ensures r.Exhausted? ==> ms.points[i].mask == 0
    ensures !r.Traced? && (r.Aborted? ==> r.how != Closed)
  {
    r := Traced;
    while r.Traced?
      invariant Marked(old(data[..]), data[..]) && Framed(data[..], w, h)
      invariant store.Valid() && (old(AllEnded(store.lines)) ==> AllEnded(store.lines))
      invariant SamePlaces(old(ms.points), ms.points) && AllInward(w, h, ms.points)
      invariant forall j :: 0 <= j < |ms.points| && j != i ==> ms.points[j] == old(ms.points[j])
      invariant r.Exhausted? ==> ms.points[i].mask == 0
      invariant r.Aborted? ==> r.how != Closed
      decreases if r.Traced? then Popcount(ms.points[i].mask) + 1 else 0
    {
      ghost var s, before := data[..], ms.points;
      r := TraceMPoint(data, w, h, store, ms, i);
      MarkedTrans(old(data[..]), s, data[..]);
      if !r.Exhausted? {
        UsedBranches(w, h, before[i]);
      }
    }
  }

  /** trace's loop over first_m_point: every branch of every junction
      traced, from the head of the list. The result is None when every
      branch was traced, so that every mask is 0, and the way the first
      failing walk ended otherwise. */
  method TraceJunctions(data: array<byte>, w: nat, h: nat, store: Store, ms: MPoints) returns (e: Option<WalkEnd>)
    requires data.Length == w * h && Framed(data[..], w, h)
    requires store.Valid() && AllInward(w, h, ms.points)
    modifies data, store, ms
    ensures Marked(old(data[..]), data[..]) && Framed(data[..], w, h)
    ensures store.Valid() && (old(AllEnded(store.lines)) ==> AllEnded(store.lines))
    ensures SamePlaces(old(ms.points), ms.points) && AllInward(w, h, ms.points)
    ensures e.None? ==> forall j :: 0 <= j < |ms.points| ==> ms.points[j].mask == 0
    ensures e.Some? ==> e.value != Closed
  {
    var i := 0;
    while i < |ms.points|
      invariant 0 <= i <= |ms.points|
      invariant Marked(old(data[..]), data[..]) && Framed(data[..], w, h)
      invariant store.Valid() && (old(AllEnded(store.lines)) ==> AllEnded(store.lines))
      invariant SamePlaces(old(ms.points), ms.points) && AllInward(w, h, ms.points)
      invariant forall j :: 0 <= j < i ==> ms.points[j].mask == 0
    {
      ghost var s := data[..];
      var r := TraceAllBranches(data, w, h, store, ms, i);
      MarkedTrans(old(data[..]), s, data[..]);
      if r.Aborted? {
        return Some(r.how);
      }
      i := i + 1;
    }
    e := None;
  }

  // ---------------------------------------------------------------------------
  // artefact
  // ---------------------------------------------------------------------------

  /** The m-line artefact removes around pixel (x, y), from its block mask
      at border 131 (junction, traced and track pixels all count): the ends
      of the short diagonal m-line, doubled, that cuts across an L of five
      track pixels. */
  function ArtefactEnds(mask: bv8, x: int, y: int): Option<(Point, Point)> {
    if mask == 0xf8 || mask == 0xfa then Some((Point(2 * (x - 1), 2 * y), Point(2 * x, 2 * (y + 1))))
    else if mask == 0x3e || mask == 0xbe then Some((Point(2 * (x - 1), 2 * y), Point(2 * x, 2 * (y - 1))))
    else if mask == 0x8f || mask == 0xaf then Some((Point(2 * (x + 1), 2 * y), Point(2 * x, 2 * (y - 1))))
    else if mask == 0xe3 || mask == 0xeb then Some((Point(2 * (x + 1), 2 * y), Point(2 * x, 2 * (y + 1))))
    else None
  }

  /** The L of the block mask: for a corner (cx, cy) of the block, the
      column of the corner and the row of the corner count as track, the
      other pixels do not, and the pixel opposite the corner may be either. */
  predicate LShape(mask: bv8, cx: int, cy: int) {
    forall k :: 0 <= k < 8 && (DX(k) != -cx || DY(k) != -cy) ==> (Has(mask, k) <==> DX(k) == cx || DY(k) == cy)
  }

  /** The corner bit of the L, the mask of the L with the opposite pixel
      clear, and the bit of that opposite pixel. */
  function Corner(cx: int, cy: int): (k: nat)
    requires Abs(cx) == 1 && Abs(cy) == 1
    ensures k < 8 && DX(k) == cx && DY(k) == cy
  {
    if cx == 1 && cy == 1 then 7 else if cx == 1 then 1 else if cy == 1 then 5 else 3
  }

  function LBase(cx: int, cy: int): bv8 {
    if cx == 1 && cy == 1 then 0xe3 else if cx == 1 then 0x8f else if cy == 1 then 0xf8 else 0x3e
  }

  function LExtra(cx: int, cy: int): bv8 {
    if cx == 1 && cy == 1 then 0x08 else if cx == 1 then 0x20 else if cy == 1 then 0x02 else 0x80
  }

  lemma LShapeMasks(mask: bv8, cx: int, cy: int)
    requires Abs(cx) == 1 && Abs(cy) == 1
    ensures LShape(mask, cx, cy) <==> mask == LBase(cx, cy) || mask == LBase(cx, cy) | LExtra(cx, cy)
  {
    if LShape(mask, cx, cy) {
      LShapeIsMask(mask, cx, cy);
    }
  }

  lemma LShapeIsMask(mask: bv8, cx: int, cy: int)
    requires Abs(cx) == 1 && Abs(cy) == 1 && LShape(mask, cx, cy)
    ensures mask == LBase(cx, cy) || mask == LBase(cx, cy) | LExtra(cx, cy)
  {
    var opp := Corner(-cx, -cy);
    var want := if Has(mask, opp) then LBase(cx, cy) | LExtra(cx, cy) else LBase(cx, cy);
    forall k | 0 <= k < 8
      ensures Has(mask, k) <==> Has(want, k)
    {
      LBits(cx, cy, k);
    }
    MaskExt(mask, want);
  }

  /** The bits of the two L masks. */
  lemma LBits(cx: int, cy: int, k: nat)
    requires Abs(cx) == 1 && Abs(cy) == 1 && k < 8
    ensures Has(LBase(cx, cy), k) <==> (DX(k) == cx || DY(k) == cy) && (DX(k) != -cx || DY(k) != -cy)
    ensures Has(LBase(cx, cy) | LExtra(cx, cy), k) <==> DX(k) == cx || DY(k) == cy || (DX(k) == -cx && DY(k) == -cy)
  {
    if cx == 1 && cy == 1 {
      match k
      case 0 => case 1 => case 2 => case 3 => case 4 => case 5 => case 6 => case _ =>
    } else if cx == 1 {
      match k
      case 0 => case 1 => case 2 => case 3 => case 4 => case 5 => case 6 => case _ =>
    } else if cy == 1 {
      match k
      case 0 => case 1 => case 2 => case 3 => case 4 => case 5 => case 6 => case _ =>
    } else {
      match k
      case 0 => case 1 => case 2 => case 3 => case 4 => case 5 => case 6 => case _ =>
    }
  }

  /** artefact acts exactly on the L-shaped masks: the m-line it removes
      runs from the neighbour in the corner's column to the neighbour in the
      corner's row, round the corner pixel (x + cx, y + cy). */
  lemma ArtefactIsL(mask: bv8, x: int, y: int, cx: int, cy: int)
    requires Abs(cx) == 1 && Abs(cy) == 1
    ensures LShape(mask, cx, cy) <==> ArtefactEnds(mask, x, y) == Some((Point(2 * (x + cx), 2 * y), Point(2 * x, 2 * (y + cy))))
  {
    LShapeMasks(mask, cx, cy);
  }

  /** The m-line, if any, artefact deletes at pixel (x, y) of the raster s:
      the ends ArtefactEnds finds in its mask at border 131, for a pixel
      that is not 0. */
  function ArtefactCut(s: seq<byte>, w: nat, h: nat, x: int, y: int): Option<(Point, Point)>
    requires |s| == w * h && Interior(w, h, x, y)
  {
    if s[Idx(w, h, x, y)] == 0 then None
    else ArtefactEnds(GetMask(s, w, Block(w, h, x, y), TracedMark as int + 1), x, y)
  }

  /** The polylines (by handle, in list order) after artefact's visit of
      pixel (x, y). */
  function ArtefactAt(s: seq<byte>, w: nat, h: nat, x: int, y: int, st: (map<nat, Line>, seq<nat>)): (r: (map<nat, Line>, seq<nat>))
    requires |s| == w * h && Interior(w, h, x, y)
    requires NonEmpty(st.0) && Members(st.0, st.1) && Distinct(st.1)
    ensures NonEmpty(r.0) && Members(r.0, r.1) && Distinct(r.1)
    ensures ArtefactCut(s, w, h, x, y).None? ==> r == st
  {
    match ArtefactCut(s, w, h, x, y)
    case None => st
    case Some(ends) => MLineDeleted(st.0, st.1, ends.0, ends.1)
  }

  /** The visits of row y from column x to the last column inside the frame. */
  function ArtefactRow(s: seq<byte>, w: nat, h: nat, y: int, x: int, st: (map<nat, Line>, seq<nat>)): (r: (map<nat, Line>, seq<nat>))
    requires |s| == w * h && 2 <= y <= h - 3 && 2 <= x
    requires NonEmpty(st.0) && Members(st.0, st.1) && Distinct(st.1)
    ensures NonEmpty(r.0) && Members(r.0, r.1) && Distinct(r.1)
    decreases w - x
  {
    if x > w - 3 then st else ArtefactRow(s, w, h, y, x + 1, ArtefactAt(s, w, h, x, y, st))
  }

  /** The visits of the rows from y to the last row inside the frame, each
      from column 2: artefact from row y on. */
  function ArtefactRows(s: seq<byte>, w: nat, h: nat, y: int, st: (map<nat, Line>, seq<nat>)): (r: (map<nat, Line>, seq<nat>))
    requires |s| == w * h && 2 <= y
    requires NonEmpty(st.0) && Members(st.0, st.1) && Distinct(st.1)
    ensures NonEmpty(r.0) && Members(r.0, r.1) && Distinct(r.1)
    decreases h - y
  {
    if y > h - 3 then st else ArtefactRows(s, w, h, y + 1, ArtefactRow(s, w, h, y, 2, st))
  }

  /** Pixel (x, y) calls for no m-line to be deleted. */
  predicate NoCut(s: seq<byte>, w: nat, h: nat, x: int, y: int)
    requires |s| == w * h
  {
    Interior(w, h, x, y) ==> ArtefactCut(s, w, h, x, y).None?
  }

  /** A row none of whose pixels from column x on calls for an m-line
      leaves the polylines as they were. */
  lemma {:induction false} ArtefactRowQuiet(s: seq<byte>, w: nat, h: nat, y: int, x: int, st: (map<nat, Line>, seq<nat>))
    requires |s| == w * h && 2 <= y <= h - 3 && 2 <= x
    requires NonEmpty(st.0) && Members(st.0, st.1) && Distinct(st.1)
    requires forall c :: x <= c <= w - 3 ==> NoCut(s, w, h, c, y)
    ensures ArtefactRow(s, w, h, y, x, st) == st
    decreases w - x
  {
    if x <= w - 3 {
      assert NoCut(s, w, h, x, y);
      ArtefactRowQuiet(s, w, h, y, x + 1, st);
    }
  }

  /** artefact changes nothing on a raster where no pixel inside the frame
      has one of the L-shaped masks of ArtefactIsL: it deletes only the
      m-lines round such corners. */
  lemma {:induction false} ArtefactQuiet(s: seq<byte>, w: nat, h: nat, y: int, st: (map<nat, Line>, seq<nat>))
    requires |s| == w * h && 2 <= y
    requires NonEmpty(st.0) && Members(st.0, st.1) && Distinct(st.1)
    requires forall r, c :: y <= r ==> NoCut(s, w, h, c, r)
    ensures ArtefactRows(s, w, h, y, st) == st
    decreases h - y
  {
    if y <= h - 3 {
      ArtefactRowQuiet(s, w, h, y, 2, st);
      ArtefactQuiet(s, w, h, y + 1, st);
    }
  }

  /** One pixel of artefact: the m-line that its mask at border 131 calls
      for, if any, deleted by polyline_delete_m_line. */
  method ArtefactPixel(data: array<byte>, w: nat, h: nat, store: Store, x: int, y: int)
    requires data.Length == w * h && Interior(w, h, x, y) && store.Valid()
    modifies store
    ensures store.Valid() && store.nextId == old(store.nextId) && (old(AllEnded(store.lines)) ==> AllEnded(store.lines))
    ensures (store.lines, store.order) == ArtefactAt(data[..], w, h, x, y, old((store.lines, store.order)))
  {
    if data[Idx(w, h, x, y)] != 0 {
      var mask := GetMask(data[..], w, Block(w, h, x, y), TracedMark as int + 1);
      if mask == 0xf8 || mask == 0xfa {
        store.DeleteMLine(Point(2 * (x - 1), 2 * y), Point(2 * x, 2 * (y + 1)));
      }
      if mask == 0x3e || mask == 0xbe {
        store.DeleteMLine(Point(2 * (x - 1), 2 * y), Point(2 * x, 2 * (y - 1)));
      }
      if mask == 0x8f || mask == 0xaf {
        store.DeleteMLine(Point(2 * (x + 1), 2 * y), Point(2 * x, 2 * (y - 1)));
      }
      if mask == 0xe3 || mask == 0xeb {
        store.DeleteMLine(Point(2 * (x + 1), 2 * y), Point(2 * x, 2 * (y + 1)));
      }
    }
  }

  /** artefact: ArtefactPixel on every pixel inside the frame, row by row;
      the raster is only read. */
  method Artefact(data: array<byte>, w: nat, h: nat, store: Store)
    requires data.Length == w * h && store.Valid()
    modifies store
    ensures store.Valid() && store.nextId == old(store.nextId) && (old(AllEnded(store.lines)) ==> AllEnded(store.lines))
    ensures (store.lines, store.order) == ArtefactRows(data[..], w, h, 2, old((store.lines, store.order)))
  {
    var y := 2;
    while y < h - 2
      invariant 2 <= y && store.Valid() && store.nextId == old(store.nextId) && (old(AllEnded(store.lines)) ==> AllEnded(store.lines))
      invariant ArtefactRows(data[..], w, h, y, (store.lines, store.order)) == ArtefactRows(data[..], w, h, 2, old((store.lines, store.order)))
    {
      var x := 2;
      ghost var row := (store.lines, store.order);
      while x < w - 2
        invariant 2 <= y < h - 2 && 2 <= x
        invariant store.Valid() && store.nextId == old(store.nextId) && (old(AllEnded(store.lines)) ==> AllEnded(store.lines))
        invariant ArtefactRow(data[..], w, h, y, x, (store.lines, store.order)) == ArtefactRow(data[..], w, h, y, 2, row)
      {
        ArtefactPixel(data, w, h, store, x, y);
        x := x + 1;
      }
      y := y + 1;
    }
  }

  // ---------------------------------------------------------------------------
  // The loops without a junction
  // ---------------------------------------------------------------------------

  /** Pixel (c, r) is a 0 pixel inside the frame with exactly two branches:
      a point of a loop that has no junction. */
  predicate TwoWay(s: seq<byte>, w: nat, h: nat, c: int, r: int)
    requires |s| == w * h
  {
    Interior(w, h, c, r) && s[Idx(w, h, c, r)] == 0 && Popcount(Branches(s, w, h, c, r)) == 2
  }

  /** No pixel of row y before column x is two-way. */
  predicate RowClear(s: seq<byte>, w: nat, h: nat, y: int, x: int)
    requires |s| == w * h
  {
    forall c :: 0 <= c < x ==> !TwoWay(s, w, h, c, y)
  }

  /** No pixel of a row above y is two-way. */
  predicate RowsClear(s: seq<byte>, w: nat, h: nat, y: int)
    requires |s| == w * h
  {
    forall c, r :: 0 <= c < w && 0 <= r < y ==> !TwoWay(s, w, h, c, r)
  }

  /** A two-way pixel of the last scan of trace marked as a junction,
      given an m_point, and one of its branches traced by trace_m_point;
      the branch runs round the loop back to it. */
  method TraceLoop(data: array<byte>, w: nat, h: nat, store: Store, ms: MPoints, x: int, y: int, mask: bv8)
    returns (e: Option<WalkEnd>)
    requires data.Length == w * h && Framed(data[..], w, h) && TwoWay(data[..], w, h, x, y)
    requires mask == Branches(data[..], w, h, x, y)
    requires store.Valid() && AllInward(w, h, ms.points)
    modifies data, store, ms
    ensures Marked(old(data[..]), data[..]) && Framed(data[..], w, h)
    ensures store.Valid() && (old(AllEnded(store.lines)) ==> AllEnded(store.lines)) && AllInward(w, h, ms.points)
    ensures |Untraced(data[..])| < old(|Untraced(data[..])|)
    ensures e.Some? ==> e.value != Closed
  {
    ghost var s := data[..];
    var i := Idx(w, h, x, y);
    BranchesInward(s, w, h, x, y);
    MarkShrinks(s, i, JunctionMark);
    MarkedOne(s, i, JunctionMark);
    FramedMark(s, w, h, x, y, JunctionMark);
    data[i] := JunctionMark;
    ms.New(x, y, mask);
    ghost var s1 := data[..];
    var r := TraceMPoint(data, w, h, store, ms, 0);
    MarkedTrans(s, s1, data[..]);
    UsedBranches(w, h, MPoint(x, y, mask, mask));
    e := if r.Aborted? then Some(r.how) else None;
  }

  /** One pixel of the last scan of trace: a two-way pixel starts the trace
      of its loop. */
  method TwoWayPixel(data: array<byte>, w: nat, h: nat, store: Store, ms: MPoints, x: int, y: int)
    returns (found: bool, e: Option<WalkEnd>)
    requires data.Length == w * h && Framed(data[..], w, h) && Interior(w, h, x, y)
    requires store.Valid() && AllInward(w, h, ms.points)
    modifies data, store, ms
    ensures Marked(old(data[..]), data[..]) && Framed(data[..], w, h)
    ensures store.Valid() && (old(AllEnded(store.lines)) ==> AllEnded(store.lines)) && AllInward(w, h, ms.points)
    ensures found <==> old(TwoWay(data[..], w, h, x, y))
    ensures !found ==> data[..] == old(data[..]) && e.None?
    ensures found ==> |Untraced(data[..])| < old(|Untraced(data[..])|)
    ensures e.Some? ==> e.value != Closed
  {
    found, e := false, None;
    if data[Idx(w, h, x, y)] == 0 {
      var mask := GetMask(data[..], w, Block(w, h, x, y), 128);
      var n := MaskTest(mask);
      if n == 2 {
        e := TraceLoop(data, w, h, store, ms, x, y, mask);
        found := true;
      }
    }
  }

  /** One row of the last scan of trace, stopping at a failed walk. */
  method TwoWayRow(data: array<byte>, w: nat, h: nat, store: Store, ms: MPoints, y: int)
    returns (found: bool, e: Option<WalkEnd>)
    requires data.Length == w * h && Framed(data[..], w, h) && 2 <= y < h - 2
    requires store.Valid() && AllInward(w, h, ms.points)
    modifies data, store, ms
    ensures Marked(old(data[..]), data[..]) && Framed(data[..], w, h)
    ensures store.Valid() && (old(AllEnded(store.lines)) ==> AllEnded(store.lines)) && AllInward(w, h, ms.points)
    ensures !found ==> data[..] == old(data[..]) && e.None? && RowClear(data[..], w, h, y, w)
    ensures found ==> |Untraced(data[..])| < old(|Untraced(data[..])|)
    ensures e.Some? ==> e.value != Closed
  {
    found, e := false, None;
    var x := 2;
    while x < w - 2
      invariant 2 <= x && e.None?
      invariant Marked(old(data[..]), data[..]) && Framed(data[..], w, h)
      invariant store.Valid() && (old(AllEnded(store.lines)) ==> AllEnded(store.lines)) && AllInward(w, h, ms.points)
      invariant !found ==> data[..] == old(data[..]) && RowClear(data[..], w, h, y, x)
      invariant found ==> |Untraced(data[..])| < old(|Untraced(data[..])|)
    {
      ghost var s := data[..];
      var f;
      f, e := TwoWayPixel(data, w, h, store, ms, x, y);
      MarkedTrans(old(data[..]), s, data[..]);
      found := found || f;
      if e.Some? {
        return;
      }
      x := x + 1;
    }
  }

  /** One pass of the last scan of trace over every row. */
  method TwoWayScan(data: array<byte>, w: nat, h: nat, store: Store, ms: MPoints)
    returns (found: bool, e: Option<WalkEnd>)
    requires data.Length == w * h && Framed(data[..], w, h)
    requires store.Valid() && AllInward(w, h, ms.points)
    modifies data, store, ms
    ensures Marked(old(data[..]), data[..]) && Framed(data[..], w, h)
    ensures store.Valid() && (old(AllEnded(store.lines)) ==> AllEnded(store.lines)) && AllInward(w, h, ms.points)
    ensures !found && e.None? ==> RowsClear(data[..], w, h, h)
    ensures found ==> |Untraced(data[..])| < old(|Untraced(data[..])|)
    ensures e.Some? ==> e.value != Closed
  {
    found, e := false, None;
    var y := 2;
    while y < h - 2
      invariant 2 <= y && (y <= h - 2 || y == 2) && e.None?
      invariant Marked(old(data[..]), data[..]) && Framed(data[..], w, h)
      invariant store.Valid() && (old(AllEnded(store.lines)) ==> AllEnded(store.lines)) && AllInward(w, h, ms.points)
      invariant !found ==> data[..] == old(data[..]) && RowsClear(data[..], w, h, y)
      invariant found ==> |Untraced(data[..])| < old(|Untraced(data[..])|)
    {
      ghost var s := data[..];
      var f;
      f, e := TwoWayRow(data, w, h, store, ms, y);
      MarkedTrans(old(data[..]), s, data[..]);
      found := found || f;
      if e.Some? {
        return;
      }
      y := y + 1;
    }
  }

  /** trace's `while (flag)` loop: passes of the last scan until one finds
      no two-way pixel. Each pass that finds one marks it, so the loop
      ends; unless a walk fails, no two-way pixel is left. */
  method TwoWayPasses(data: array<byte>, w: nat, h: nat, store: Store, ms: MPoints) returns (e: Option<WalkEnd>)
    requires data.Length == w * h && Framed(data[..], w, h)
    requires store.Valid() && AllInward(w, h, ms.points)
    modifies data, store, ms
    ensures Marked(old(data[..]), data[..]) && Framed(data[..], w, h)
    ensures store.Valid() && (old(AllEnded(store.lines)) ==> AllEnded(store.lines)) && AllInward(w, h, ms.points)
    ensures e.None? ==> RowsClear(data[..], w, h, h)
    ensures e.Some? ==> e.value != Closed
  {
    var flag := true;
    e := None;
    while flag
      invariant e.None?
      invariant Marked(old(data[..]), data[..]) && Framed(data[..], w, h)
      invariant store.Valid() && (old(AllEnded(store.lines)) ==> AllEnded(store.lines)) && AllInward(w, h, ms.points)
      invariant !flag ==> RowsClear(data[..], w, h, h)
      decreases if flag then |Untraced(data[..])| + 1 else 0
    {
      ghost var s := data[..];
      flag, e := TwoWayScan(data, w, h, store, ms);
      MarkedTrans(old(data[..]), s, data[..]);
      if e.Some? {
        return;
      }
    }
  }

  // ---------------------------------------------------------------------------
  // trace
  // ---------------------------------------------------------------------------

  /** trace: the junction scan, every branch of every junction traced,
      artefact, and the passes for the loops without a junction; then the
      list of junctions is freed. The list is empty when trace starts. Every
      junction pixel ends up marked, and unless a walk failed no two-way
      pixel is left. The result is None where trace returns 0, and how the
      first failing walk ended otherwise. */
  method Trace(data: array<byte>, w: nat, h: nat, store: Store, ms: MPoints) returns (e: Option<WalkEnd>)
    requires data.Length == w * h && Framed(data[..], w, h)
    requires store.Valid() && ms.points == []
    modifies data, store, ms
    ensures Marked(old(data[..]), data[..]) && Framed(data[..], w, h)
    ensures store.Valid() && (old(AllEnded(store.lines)) ==> AllEnded(store.lines))
    ensures forall c, r :: 0 <= c < w && 0 <= r < h && IsJunction(old(data[..]), w, h, c, r) ==>
      data[Idx(w, h, c, r)] == JunctionMark
    ensures e.None? ==> RowsClear(data[..], w, h, h) && ms.points == []
    ensures e.Some? ==> e.value != Closed
  {
    ghost var s0 := data[..];
    ScanJunctions(data, w, h, ms);
    JunctionsInward(s0, w, h);
    assert ms.points == Junctions(s0, w, h);
    ghost var s1 := data[..];
    e := TraceJunctions(data, w, h, store, ms);
    MarkedTrans(s0, s1, data[..]);
    if e.Some? {
      return;
    }
    Artefact(data, w, h, store);
    ghost var s2 := data[..];
    e := TwoWayPasses(data, w, h, store, ms);
    MarkedTrans(s0, s2, data[..]);
    MarkedTrans(s1, s2, data[..]);
    if e.Some? {
      return;
    }
    ms.Free();
  }
}
