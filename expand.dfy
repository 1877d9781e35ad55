/** The copper completion of expand.c. bit_e grows a set of marked pixels
    over two mask arrays (or_mask, written live, and mask_data, a snapshot
    of it taken after every pass); expand_copper turns the marked pixels into
    copper, thins the result with the local_T1 and local_end filters until
    neither changes anything, and recolours the raster. */
module Expand {
  import opened Basics
  import opened Neighbourhood
  import Image

  // ---------------------------------------------------------------------------
  // Counting pixels above a level
  // ---------------------------------------------------------------------------

  /** The number of bytes of s above level. */
  function High(s: seq<byte>, level: int): (n: nat)
    ensures n <= |s|
  {
    if |s| == 0 then 0
    else High(s[..|s| - 1], level) + (if s[|s| - 1] as int > level then 1 else 0)
  }

  /** Lowering one byte from above level to at most level lowers the count
      by one. */
  lemma {:induction false} HighLowered(s: seq<byte>, level: int, c: int, v: byte)
    requires 0 <= c < |s| && s[c] as int > level && v as int <= level
    ensures High(s[c := v], level) + 1 == High(s, level)
    decreases |s|
  {
    var n := |s| - 1;
    var t := s[c := v];
    assert t[..n] == if c < n then s[..n][c := v] else s[..n];
    if c < n {
      HighLowered(s[..n], level, c, v);
    }
  }

  // ---------------------------------------------------------------------------
  // local_end and local_T1: in-place filters over the blocks of the raster
  // ---------------------------------------------------------------------------

  /** The end-of-line patterns whose centre local_end clears. */
  const EndCatalogue: set<bv8> := {
    0xa7, 0xcb, 0xbc, 0x7a, 0xe9, 0x2f, 0x9e, 0xf2,
    0xbe, 0xfa, 0xaf, 0xeb,
    0xe0, 0x0e, 0x83, 0x38,
    0x06, 0x0c, 0x30, 0x18, 0xc0, 0x60, 0x81, 0x03 }

  /** The T-junction patterns whose centre local_T1 clears. */
  const T1Catalogue: set<bv8> := {
    0x2b, 0xa9, 0xa6, 0xac, 0x9a, 0xb2, 0x6a, 0xca,
    0xae, 0xea, 0xab, 0xba }

  /** The state after visiting blocks 0 to n - 1 in order, each block whose
      centre is above border and whose current mask is in the catalogue
      getting fill at its centre, with the number of such writes. */
  function LocalRun(s: seq<byte>, x: nat, n: nat, fill: byte, border: int, cat: set<bv8>): (r: (seq<byte>, nat))
    requires x >= 2 && n + 1 + 2 * x < |s|
    ensures |r.0| == |s| && r.1 <= n
  {
    if n == 0 then (s, 0)
    else
      var (t, k) := LocalRun(s, x, n - 1, fill, border, cat);
      var c := n + x;
      if t[c] as int > border && GetMask(t, x, n - 1, border) in cat then (t[c := fill], k + 1) else (t, k)
  }

  /** A filter pass only writes fill, only over bytes above border, and only
      at block centres. */
  lemma {:induction false} LocalRunWrites(s: seq<byte>, x: nat, n: nat, fill: byte, border: int, cat: set<bv8>)
    requires x >= 2 && n + 1 + 2 * x < |s|
    ensures forall j :: 0 <= j < |s| ==>
              LocalRun(s, x, n, fill, border, cat).0[j] == s[j] ||
              (s[j] as int > border && LocalRun(s, x, n, fill, border, cat).0[j] == fill && 1 + x <= j < n + 1 + x)
  {
    if n > 0 {
      LocalRunWrites(s, x, n - 1, fill, border, cat);
    }
  }

  /** With fill at most border, every write of a pass lowers the number of
      bytes above border by one. */
  lemma {:induction false} LocalRunLowers(s: seq<byte>, x: nat, n: nat, fill: byte, border: int, cat: set<bv8>)
    requires x >= 2 && n + 1 + 2 * x < |s| && fill as int <= border
    ensures High(LocalRun(s, x, n, fill, border, cat).0, border) + LocalRun(s, x, n, fill, border, cat).1 == High(s, border)
  {
    if n > 0 {
      LocalRunLowers(s, x, n - 1, fill, border, cat);
      var r := LocalRun(s, x, n - 1, fill, border, cat);
      var c := n + x;
      if r.0[c] as int > border && GetMask(r.0, x, n - 1, border) in cat {
        assert LocalRun(s, x, n, fill, border, cat) == (r.0[c := fill], r.1 + 1);
        HighLowered(r.0, border, c, fill);
      } else {
        assert LocalRun(s, x, n, fill, border, cat) == r;
      }
    }
  }

  /** A pass that reports no write leaves the raster as it was. */
  lemma {:induction false} LocalRunIdle(s: seq<byte>, x: nat, n: nat, fill: byte, border: int, cat: set<bv8>)
    requires x >= 2 && n + 1 + 2 * x < |s|
    ensures LocalRun(s, x, n, fill, border, cat).1 == 0 ==> LocalRun(s, x, n, fill, border, cat).0 == s
  {
    if n > 0 {
      LocalRunIdle(s, x, n - 1, fill, border, cat);
    }
  }

  /** The loop shared by local_end and local_T1 over the blocks 0 to
      size - 1; get_mask sees the writes of earlier blocks. */
  method LocalFilter(data: array<byte>, ghost s: seq<byte>, x: nat, size: nat, fill: byte, border: int, cat: set<bv8>)
    returns (count: nat)
    requires x >= 2 && data[..] == s && size + 1 + 2 * x < data.Length
    modifies data
    ensures (data[..], count) == LocalRun(s, x, size, fill, border, cat)
  {
    count := 0;
    var i := 0;
    while i < size
      invariant 0 <= i <= size
      invariant (data[..], count) == LocalRun(s, x, i, fill, border, cat)
    {
      ghost var t := data[..];
      var c := i + 1 + x;
      if data[c] as int > border {
        var mask := GetMask(data[..], x, i, border);
        if mask in cat {
          data[c] := fill;
          count := count + 1;
        }
      }
      assert t == LocalRun(s, x, i, fill, border, cat).0;
      i := i + 1;
    }
  }

  /** local_end: the end-of-line filter. */
  method LocalEnd(data: array<byte>, ghost s: seq<byte>, x: nat, size: nat, fill: byte, border: int)
    returns (count: nat)
    requires x >= 2 && data[..] == s && size + 1 + 2 * x < data.Length
    modifies data
    ensures (data[..], count) == LocalRun(s, x, size, fill, border, EndCatalogue)
  {
    count := LocalFilter(data, s, x, size, fill, border, EndCatalogue);
  }

  /** local_T1: the T-junction filter. */
  method LocalT1(data: array<byte>, ghost s: seq<byte>, x: nat, size: nat, fill: byte, border: int)
    returns (count: nat)
    requires x >= 2 && data[..] == s && size + 1 + 2 * x < data.Length
    modifies data
    ensures (data[..], count) == LocalRun(s, x, size, fill, border, T1Catalogue)
  {
    count := LocalFilter(data, s, x, size, fill, border, T1Catalogue);
  }

  // ---------------------------------------------------------------------------
  // recolor
  // ---------------------------------------------------------------------------

  /** Every byte equal to level becomes to; the others stay. */
  function Recolored(s: seq<byte>, to: byte, level: int): (t: seq<byte>)
    ensures |t| == |s|
  {
    seq(|s|, j requires 0 <= j < |s| => if s[j] as int == level then to else s[j])
  }

  /** recolor(image, fill_color, level). */
  method Recolor(data: array<byte>, to: byte, level: int)
    modifies data
    ensures data[..] == Recolored(old(data[..]), to, level)
  {
    var i := 0;
    while i < data.Length
      invariant 0 <= i <= data.Length
      invariant forall j :: 0 <= j < i ==> data[j] == if old(data[j]) as int == level then to else old(data[j])
      invariant forall j :: i <= j < data.Length ==> data[j] == old(data[j])
    {
      if data[i] as int == level {
        data[i] := to;
      }
      i := i + 1;
    }
  }

  /** The final recolouring of expand_copper: 70 -> 160, 5 -> 150, 6 -> 190,
      1 -> 200, 0 -> 255 and then 100 -> 0. */
  function FinalColours(s: seq<byte>): (t: seq<byte>)
    ensures |t| == |s|
  {
    Recolored(Recolored(Recolored(Recolored(Recolored(Recolored(s, 160, 70), 150, 5), 190, 6), 200, 1), 255, 0), 0, 100)
  }

  /** The colour a byte ends with after the recolouring chain. */
  function FinalColour(v: byte): byte {
    match v
    case 70 => 160
    case 5 => 150
    case 6 => 190
    case 1 => 200
    case 0 => 255
    case 100 => 0
    case _ => v
  }

  /** Each byte is recoloured on its own, by the table of FinalColour. */
  lemma FinalColoursPointwise(s: seq<byte>)
    ensures forall j :: 0 <= j < |s| ==> FinalColours(s)[j] == FinalColour(s[j])
  {
  }

  /** The order of the chain matters: a byte 100 ends as 0, while running
      the last two steps the other way round would send it on to 255. */
  lemma FinalOrderMatters()
    ensures FinalColours([100]) == [0]
    ensures Recolored(Recolored([100], 0, 100), 255, 0) == [255]
  {
    assert Recolored([100], 0, 100)[0] == 0;
    FinalColoursPointwise([100]);
  }

  // ---------------------------------------------------------------------------
  // Marked pixels become copper
  // ---------------------------------------------------------------------------

  /** The loop of expand_copper after bit_e: pixel j = i + x turns into 1
      when the snapshot mask of block i has bit 4, its left-hand neighbour
      (pixel i + x) marked, and it is not 0. */
  function MarkedCopper(s: seq<byte>, md: seq<bv8>, x: nat, size: int): (t: seq<byte>)
    requires size <= |md|
    ensures |t| == |s|
  {
    seq(|s|, j requires 0 <= j < |s| => if x <= j < x + size && Has(md[j - x], 4) && s[j] != 0 then 1 else s[j])
  }

  method MarkCopper(data: array<byte>, md: seq<bv8>, x: nat, size: nat)
    requires size <= |md| && size + x <= data.Length
    modifies data
    ensures data[..] == MarkedCopper(old(data[..]), md, x, size)
  {
    ghost var s := data[..];
    var i1, i2 := 0, x;
    while i1 < size
      invariant 0 <= i1 <= size && i2 == i1 + x
      invariant data[..] == MarkedCopper(s, md, x, i1)
    {
      MarkedCopperStep(s, md, x, i1);
      if Has(md[i1], 4) && data[i2] != 0 {
        data[i2] := 1;
      }
      i1, i2 := i1 + 1, i2 + 1;
    }
  }

  lemma MarkedCopperStep(s: seq<byte>, md: seq<bv8>, x: nat, n: nat)
    requires n < |md| && n + x < |s|
    ensures MarkedCopper(s, md, x, n)[n + x] == s[n + x]
    ensures MarkedCopper(s, md, x, n + 1) ==
              if Has(md[n], 4) && s[n + x] != 0 then MarkedCopper(s, md, x, n)[n + x := 1] else MarkedCopper(s, md, x, n)
  {
  }

  // ---------------------------------------------------------------------------
  // The mask arrays of bit_e
  // ---------------------------------------------------------------------------

  /** or_mask[k] |= bit b. */
  function OrAt(m: seq<bv8>, k: int, b: nat): (r: seq<bv8>)
    requires 0 <= k < |m| && b < 8
    ensures |r| == |m|
  {
    m[k := m[k] | Bit(b)]
  }

  lemma OrAtHas(m: seq<bv8>, k: int, b: nat, j: int, c: nat)
    requires 0 <= k < |m| && b < 8 && 0 <= j < |m| && c < 8
    ensures Has(OrAt(m, k, b)[j], c) <==> Has(m[j], c) || (j == k && c == b)
  {
  }

  /** SET_OR_MASK for block i, whose centre is pixel c = i + 1 + x: each of
      the eight blocks around c gets the bit that stands for c, in the
      order of the macro (first the blocks beside c and above it, then
      the blocks below it). */
  function OrMarked(m: seq<bv8>, x: nat, i: int): (r: seq<bv8>)
    requires x + 1 <= i && i + 1 + x < |m|
    ensures |r| == |m|
  {
    OrMarkedBack(OrMarkedFront(m, x, i), x, i)
  }

  /** The eight (block, bit) pairs SET_OR_MASK sets for block i. */
  predicate OrMarkedPair(x: nat, i: int, j: int, b: nat) {
    || (j == i + 1 && b == 4) || (j == i - 1 && b == 0)
    || (j == i - 1 - x && b == 7) || (j == i - x && b == 6)
    || (j == i + 1 - x && b == 5) || (j == i - 1 + x && b == 1)
    || (j == i + x && b == 2) || (j == i + 1 + x && b == 3)
  }

  /** The first four updates of SET_OR_MASK. */
  function OrMarkedFront(m: seq<bv8>, x: nat, i: int): (r: seq<bv8>)
    requires x + 1 <= i && i + 1 + x < |m|
    ensures |r| == |m|
  {
    OrAt(OrAt(OrAt(OrAt(m, i + 1, 4), i - 1, 0), i - 1 - x, 7), i - x, 6)
  }

  /** The last four updates of SET_OR_MASK. */
  function OrMarkedBack(m: seq<bv8>, x: nat, i: int): (r: seq<bv8>)
    requires x + 1 <= i && i + 1 + x < |m|
    ensures |r| == |m|
  {
    OrAt(OrAt(OrAt(OrAt(m, i + 1 - x, 5), i - 1 + x, 1), i + x, 2), i + 1 + x, 3)
  }

  lemma {:induction false} OrMarkedFrontPairs(m: seq<bv8>, x: nat, i: int, j: int, b: nat)
    requires x + 1 <= i && i + 1 + x < |m| && 0 <= j < |m| && b < 8
    ensures Has(OrMarkedFront(m, x, i)[j], b)
        <==> Has(m[j], b) || (j == i + 1 && b == 4) || (j == i - 1 && b == 0)
             || (j == i - 1 - x && b == 7) || (j == i - x && b == 6)
  {
    var m1 := OrAt(m, i + 1, 4);
    var m2 := OrAt(m1, i - 1, 0);
    var m3 := OrAt(m2, i - 1 - x, 7);
    OrAtHas(m, i + 1, 4, j, b);
    OrAtHas(m1, i - 1, 0, j, b);
    OrAtHas(m2, i - 1 - x, 7, j, b);
    OrAtHas(m3, i - x, 6, j, b);
  }

  lemma {:induction false} OrMarkedPairs(m: seq<bv8>, x: nat, i: int, j: int, b: nat)
    requires x + 1 <= i && i + 1 + x < |m| && 0 <= j < |m| && b < 8
    ensures Has(OrMarked(m, x, i)[j], b) <==> Has(m[j], b) || OrMarkedPair(x, i, j, b)
  {
    var m4 := OrMarkedFront(m, x, i);
    var m5 := OrAt(m4, i + 1 - x, 5);
    var m6 := OrAt(m5, i - 1 + x, 1);
    var m7 := OrAt(m6, i + x, 2);
    OrMarkedFrontPairs(m, x, i, j, b);
    OrAtHas(m4, i + 1 - x, 5, j, b);
    OrAtHas(m5, i - 1 + x, 1, j, b);
    OrAtHas(m6, i + x, 2, j, b);
    OrAtHas(m7, i + 1 + x, 3, j, b);
  }

  /** SET_OR_MASK adds to the masks exactly the references to the centre
      c = i + 1 + x: bit b of block j is set afterwards iff it was set
      before or the neighbour it stands for is c. */
  lemma {:induction false} OrMarkedRefs(m: seq<bv8>, x: nat, i: int, j: int, b: nat)
    requires x + 1 <= i && i + 1 + x < |m| && 0 <= j < |m| && b < 8
    ensures Has(OrMarked(m, x, i)[j], b) <==> Has(m[j], b) || j + Off(x, b) == i + 1 + x
  {
    OrMarkedPairs(m, x, i, j, b);
    assert OrMarkedPair(x, i, j, b) <==> j + Off(x, b) == i + 1 + x;
  }

  // ---------------------------------------------------------------------------
  // The masks as the neighbourhoods of an expanded raster
  // ---------------------------------------------------------------------------

  /** The copper masks (border 70) of blocks 0 to n - 1 of raster t. */
  function MaskSeq(t: seq<byte>, x: nat, n: nat): (r: seq<bv8>)
    requires n + 1 + 2 * x < |t|
    ensures |r| == n
  {
    if n == 0 then [] else MaskSeq(t, x, n - 1) + [GetMask(t, x, n - 1, 70)]
  }

  lemma {:induction false} MaskSeqAt(t: seq<byte>, x: nat, n: nat, j: int)
    requires n + 1 + 2 * x < |t| && 0 <= j < n
    ensures MaskSeq(t, x, n)[j] == GetMask(t, x, j, 70)
  {
    if j < n - 1 {
      MaskSeqAt(t, x, n - 1, j);
    }
  }

  lemma {:induction false} MaskSeqOf(m: seq<bv8>, t: seq<byte>, x: nat, n: nat)
    requires n + 1 + 2 * x < |t| && |m| == n
    requires forall j :: 0 <= j < n ==> m[j] == GetMask(t, x, j, 70)
    ensures m == MaskSeq(t, x, n)
  {
    if n > 0 {
      MaskSeqOf(m[..n - 1], t, x, n - 1);
      assert m == m[..n - 1] + [m[n - 1]];
    }
  }

  /** Blocks 0 to size - 1 of m are the copper masks of raster t: bit_e
      keeps or_mask in this relation with a raster in which every marked
      centre has become copper. */
  predicate MasksOf(m: seq<bv8>, t: seq<byte>, x: nat, size: nat) {
    && size + 1 + x < |m| && size + 1 + 2 * x < |t|
    && m[..size] == MaskSeq(t, x, size)
  }

  /** Block j of masks of t is the mask of t at j. */
  lemma MaskAt(m: seq<bv8>, t: seq<byte>, x: nat, size: nat, j: int)
    requires MasksOf(m, t, x, size) && 0 <= j < size
    ensures m[j] == GetMask(t, x, j, 70)
  {
    assert m[j] == m[..size][j];
    MaskSeqAt(t, x, size, j);
  }

  /** SET_OR_MASK for block i is the change of masks that turning its
      centre i + 1 + x into copper makes. */
  lemma {:induction false} MarkMasks(m: seq<bv8>, t: seq<byte>, x: nat, size: nat, i: int)
    requires MasksOf(m, t, x, size) && x + 1 <= i < size
    ensures MasksOf(OrMarked(m, x, i), t[i + 1 + x := 0], x, size)
  {
    var m', t' := OrMarked(m, x, i), t[i + 1 + x := 0];
    forall j | 0 <= j < size
      ensures m'[j] == GetMask(t', x, j, 70)
    {
      var g := GetMask(t', x, j, 70);
      MaskAt(m, t, x, size, j);
      forall b | 0 <= b < 8
        ensures Has(m'[j], b) <==> Has(g, b)
      {
        OrMarkedRefs(m, x, i, j, b);
      }
      MaskExt(m'[j], g);
    }
    MaskSeqOf(m'[..size], t', x, size);
  }

  /** Every pixel of t is the pixel of s or has become copper (0). */
  predicate Expanded(s: seq<byte>, t: seq<byte>) {
    |s| == |t| && forall p :: 0 <= p < |s| ==> t[p] == s[p] || t[p] == 0
  }

  /** The blocks a pass marks all lie in the scanned range. */
  predicate Blocks(hits: seq<int>, x: nat, size: nat) {
    forall k :: 0 <= k < |hits| ==> x + 1 <= hits[k] < size
  }

  /** The masks after SET_OR_MASK for each block of hits in turn. */
  function OrFold(m: seq<bv8>, x: nat, size: nat, hits: seq<int>): (r: seq<bv8>)
    requires Blocks(hits, x, size) && size + 1 + x < |m|
    ensures |r| == |m|
    decreases |hits|
  {
    if |hits| == 0 then m else OrFold(OrMarked(m, x, hits[0]), x, size, hits[1..])
  }

  /** The raster after the centre of each block of hits has become copper. */
  function CopperAt(t: seq<byte>, x: nat, size: nat, hits: seq<int>): (r: seq<byte>)
    requires Blocks(hits, x, size) && size + 1 + x < |t|
    ensures |r| == |t|
    decreases |hits|
  {
    if |hits| == 0 then t else CopperAt(t[hits[0] + 1 + x := 0], x, size, hits[1..])
  }

  lemma OrFoldCons(m: seq<bv8>, x: nat, size: nat, i: int, rest: seq<int>)
    requires x + 1 <= i < size && Blocks(rest, x, size) && size + 1 + x < |m|
    ensures Blocks([i] + rest, x, size)
    ensures OrFold(m, x, size, [i] + rest) == OrFold(OrMarked(m, x, i), x, size, rest)
  {
    assert ([i] + rest)[1..] == rest;
    assert forall k :: 0 <= k < |rest| ==> rest[k] == ([i] + rest)[k + 1];
  }

  lemma CopperAtCons(t: seq<byte>, x: nat, size: nat, i: int, rest: seq<int>)
    requires x + 1 <= i < size && Blocks(rest, x, size) && size + 1 + x < |t|
    ensures Blocks([i] + rest, x, size)
    ensures CopperAt(t, x, size, [i] + rest) == CopperAt(t[i + 1 + x := 0], x, size, rest)
  {
    assert ([i] + rest)[1..] == rest;
    assert forall k :: 0 <= k < |rest| ==> rest[k] == ([i] + rest)[k + 1];
  }

  /** Marking a run of blocks keeps the masks those of the raster with the
      marked centres turned into copper. */
  lemma {:induction false} FoldMasks(m: seq<bv8>, t: seq<byte>, x: nat, size: nat, hits: seq<int>)
    requires MasksOf(m, t, x, size) && Blocks(hits, x, size)
    ensures MasksOf(OrFold(m, x, size, hits), CopperAt(t, x, size, hits), x, size)
    decreases |hits|
  {
    if |hits| > 0 {
      var m', t' := OrMarked(m, x, hits[0]), t[hits[0] + 1 + x := 0];
      MarkMasks(m, t, x, size, hits[0]);
      FoldMasks(m', t', x, size, hits[1..]);
    }
  }

  /** The marked raster only gains copper. */
  lemma {:induction false} FoldExpanded(t: seq<byte>, x: nat, size: nat, hits: seq<int>)
    requires Blocks(hits, x, size) && size + 1 + x < |t|
    ensures Expanded(t, CopperAt(t, x, size, hits))
    decreases |hits|
  {
    if |hits| > 0 {
      var t' := t[hits[0] + 1 + x := 0];
      FoldExpanded(t', x, size, hits[1..]);
      ExpandedTrans(t, t', CopperAt(t', x, size, hits[1..]));
    }
  }

  lemma ExpandedTrans(a: seq<byte>, b: seq<byte>, c: seq<byte>)
    requires Expanded(a, b) && Expanded(b, c)
    ensures Expanded(a, c)
  {
  }

  /** The blocks of hits come in increasing order. */
  predicate Increasing(hits: seq<int>) {
    forall a, b :: 0 <= a < b < |hits| ==> hits[a] < hits[b]
  }

  /** Marking distinct centres that are not copper yet turns exactly one
      pixel per block into copper. */
  lemma {:induction false} FoldLowers(t: seq<byte>, x: nat, size: nat, hits: seq<int>)
    requires Blocks(hits, x, size) && size + 1 + x < |t| && Increasing(hits) && CentresFree(t, x, hits)
    ensures High(CopperAt(t, x, size, hits), 70) + |hits| == High(t, 70)
    decreases |hits|
  {
    if |hits| > 0 {
      var c := hits[0] + 1 + x;
      HighLowered(t, 70, c, 0);
      var rest := hits[1..];
      forall k | 0 <= k < |rest|
        ensures t[c := 0][rest[k] + 1 + x] > 70
      {
        assert rest[k] == hits[k + 1];
      }
      assert CentresFree(t[c := 0], x, rest);
      FoldLowers(t[c := 0], x, size, rest);
    }
  }

  /** or_mask[k] |= bit b, in place. */
  method OrInto(orMask: array<bv8>, k: int, b: nat)
    requires 0 <= k < orMask.Length && b < 8
    modifies orMask
    ensures orMask[..] == OrAt(old(orMask[..]), k, b)
  {
    orMask[k] := orMask[k] | Bit(b);
  }

  /** SET_OR_MASK: 0x10, 0x01, 0x80, 0x40, 0x20, 0x02, 0x04, 0x08 are
      Bit(4), Bit(0), Bit(7), Bit(6), Bit(5), Bit(1), Bit(2), Bit(3). */
  method SetOrMask(orMask: array<bv8>, x: nat, i: int)
    requires x + 1 <= i && i + 1 + x < orMask.Length
    modifies orMask
    ensures orMask[..] == OrMarked(old(orMask[..]), x, i)
  {
    SetOrMaskFront(orMask, x, i);
    SetOrMaskBack(orMask, x, i);
  }

  method SetOrMaskFront(orMask: array<bv8>, x: nat, i: int)
    requires x + 1 <= i && i + 1 + x < orMask.Length
    modifies orMask
    ensures orMask[..] == OrMarkedFront(old(orMask[..]), x, i)
  {
    OrInto(orMask, i + 1, 4);
    OrInto(orMask, i - 1, 0);
    OrInto(orMask, i - 1 - x, 7);
    OrInto(orMask, i - x, 6);
  }

  method SetOrMaskBack(orMask: array<bv8>, x: nat, i: int)
    requires x + 1 <= i && i + 1 + x < orMask.Length
    modifies orMask
    ensures orMask[..] == OrMarkedBack(old(orMask[..]), x, i)
  {
    OrInto(orMask, i + 1 - x, 5);
    OrInto(orMask, i - 1 + x, 1);
    OrInto(orMask, i + x, 2);
    OrInto(orMask, i + 1 + x, 3);
  }

  // ---------------------------------------------------------------------------
  // The pattern passes of bit_e
  // ---------------------------------------------------------------------------

  /** l_4to8, l_diag, l_diag_fill, l_up, l_down, l_left, l_right, l_rozok. */
  datatype Pattern = FourToEight | Diag | DiagFill | Up | Down | Left | Right | Rozok

  /** The masks on which each pass marks the centre. */
  function Catalogue(p: Pattern): set<bv8> {
    match p
    case FourToEight => {0x34, 0x85, 0x58, 0x43, 0x16, 0x0d, 0x61, 0xd0}
    case Diag => {0x14, 0x05, 0x50, 0x41}
    case DiagFill => {0x97, 0xd3, 0x3d, 0x79, 0x5e, 0xe5, 0x4f, 0xf4}
    case Up => {0xe0, 0xe1, 0xf0}
    case Down => {0x0e, 0x1e, 0x0f}
    case Left => {0x83, 0x87, 0xc3}
    case Right => {0x38, 0x3c, 0x78}
    case Rozok => {0x1c, 0x70, 0x07, 0xc1, 0x3e, 0x8f, 0xf8, 0xe3}
  }

  /** A block the pass marks: the snapshot does not have its centre marked
      (bit 0 of the block before it) and its snapshot mask is in the
      catalogue. */
  predicate Matches(md: seq<bv8>, k: int, p: Pattern)
    requires 1 <= k < |md|
  {
    !Has(md[k - 1], 0) && md[k] in Catalogue(p)
  }

  /** The blocks from i up to size - 1 that pass p marks, in order; l_left
      skips the block after each one it marks. */
  function PassHits(md: seq<bv8>, x: nat, size: nat, i: int, p: Pattern): (hits: seq<int>)
    requires x + 1 <= i && size <= |md|
    ensures Blocks(hits, x, size)
    decreases size - i
  {
    if i >= size then []
    else if Matches(md, i, p) then [i] + PassHits(md, x, size, if p == Left then i + 2 else i + 1, p)
    else PassHits(md, x, size, i + 1, p)
  }

  /** One step of a pass from block i. */
  lemma PassHitsUnfold(md: seq<bv8>, x: nat, size: nat, i: int, p: Pattern)
    requires x + 1 <= i < size <= |md|
    ensures Matches(md, i, p) ==> PassHits(md, x, size, i, p) == [i] + PassHits(md, x, size, if p == Left then i + 2 else i + 1, p)
    ensures !Matches(md, i, p) ==> PassHits(md, x, size, i, p) == PassHits(md, x, size, i + 1, p)
  {
  }

  /** The hits of a pass come in increasing order and all match. */
  lemma {:induction false} PassHitsMatch(md: seq<bv8>, x: nat, size: nat, i: int, p: Pattern)
    requires x + 1 <= i && size <= |md|
    ensures Increasing(PassHits(md, x, size, i, p))
    ensures forall k :: 0 <= k < |PassHits(md, x, size, i, p)| ==>
              i <= PassHits(md, x, size, i, p)[k] && Matches(md, PassHits(md, x, size, i, p)[k], p)
    decreases size - i
  {
    if i < size {
      if Matches(md, i, p) {
        PassHitsMatch(md, x, size, if p == Left then i + 2 else i + 1, p);
      } else {
        PassHitsMatch(md, x, size, i + 1, p);
      }
    }
  }

  /** Every pass but l_left marks every matching block. */
  lemma {:induction false} PassHitsComplete(md: seq<bv8>, x: nat, size: nat, i: int, p: Pattern, k: int)
    requires x + 1 <= i <= k < size <= |md| && Matches(md, k, p) && p != Left
    ensures k in PassHits(md, x, size, i, p)
    decreases size - i
  {
    if !Matches(md, i, p) || i < k {
      PassHitsComplete(md, x, size, i + 1, p, k);
    }
  }

  /** l_left marks every matching block, or the block before it. */
  lemma {:induction false} PassHitsLeft(md: seq<bv8>, x: nat, size: nat, i: int, k: int)
    requires x + 1 <= i <= k < size <= |md| && Matches(md, k, Left)
    ensures k in PassHits(md, x, size, i, Left) || k - 1 in PassHits(md, x, size, i, Left)
    decreases size - i
  {
    if i < k {
      if Matches(md, i, Left) {
        if i + 1 < k {
          PassHitsLeft(md, x, size, i + 2, k);
        }
      } else {
        PassHitsLeft(md, x, size, i + 1, k);
      }
    }
  }

  /** One pass: SET_OR_MASK on every block PassHits names, reading the
      snapshot md, counting the marks. */
  method MarkPass(orMask: array<bv8>, md: seq<bv8>, x: nat, size: nat, p: Pattern) returns (count: nat)
    requires size <= |md| && size + 1 + x < orMask.Length
    modifies orMask
    ensures orMask[..] == OrFold(old(orMask[..]), x, size, PassHits(md, x, size, x + 1, p))
    ensures count == |PassHits(md, x, size, x + 1, p)|
  {
    ghost var m0 := orMask[..];
    ghost var all := PassHits(md, x, size, x + 1, p);
    count := 0;
    var i := x + 1;
    while i < size
      invariant x + 1 <= i
      invariant OrFold(orMask[..], x, size, PassHits(md, x, size, i, p)) == OrFold(m0, x, size, all)
      invariant count + |PassHits(md, x, size, i, p)| == |all|
      decreases size - i
    {
      var next, marked := MarkStep(orMask, md, x, size, i, p);
      count := count + marked;
      i := next;
    }
  }

  /** One block of a pass: the skip test on the snapshot of the block
      before, then the switch on the snapshot of block i. */
  method MarkStep(orMask: array<bv8>, md: seq<bv8>, x: nat, size: nat, i: int, p: Pattern)
    returns (next: int, marked: nat)
    requires x + 1 <= i < size <= |md| && size + 1 + x < orMask.Length
    modifies orMask
    ensures i < next
    ensures OrFold(orMask[..], x, size, PassHits(md, x, size, next, p))
         == OrFold(old(orMask[..]), x, size, PassHits(md, x, size, i, p))
    ensures marked + |PassHits(md, x, size, next, p)| == |PassHits(md, x, size, i, p)|
  {
    PassHitsUnfold(md, x, size, i, p);
    if Matches(md, i, p) {
      next := if p == Left then i + 2 else i + 1;
      ghost var before := orMask[..];
      ghost var rest := PassHits(md, x, size, next, p);
      OrFoldCons(before, x, size, i, rest);
      assert |PassHits(md, x, size, i, p)| == |rest| + 1;
      SetOrMask(orMask, x, i);
      assert OrFold(before, x, size, PassHits(md, x, size, i, p)) == OrFold(orMask[..], x, size, rest);
      marked := 1;
    } else {
      next, marked := i + 1, 0;
      assert PassHits(md, x, size, i, p) == PassHits(md, x, size, next, p);
    }
  }

  /** A pass over a snapshot of the masks of t turns the centres of its
      hits into copper and leaves the masks those of the new raster. */
  lemma {:induction false} PassExpands(m: seq<bv8>, t: seq<byte>, md: seq<bv8>, x: nat, size: nat, p: Pattern)
    requires MasksOf(m, t, x, size) && size <= |md|
    ensures MasksOf(OrFold(m, x, size, PassHits(md, x, size, x + 1, p)), CopperAt(t, x, size, PassHits(md, x, size, x + 1, p)), x, size)
    ensures Expanded(t, CopperAt(t, x, size, PassHits(md, x, size, x + 1, p)))
  {
    var hits := PassHits(md, x, size, x + 1, p);
    FoldMasks(m, t, x, size, hits);
    FoldExpanded(t, x, size, hits);
  }

  /** When the snapshot is up to date, each hit of a pass turns a pixel
      that was not copper into copper: the count a pass returns is the
      number of new copper pixels. */
  lemma {:induction false} PassLowers(m: seq<bv8>, t: seq<byte>, md: seq<bv8>, x: nat, size: nat, p: Pattern)
    requires MasksOf(m, t, x, size) && size <= |md| && md[..size] == m[..size]
    ensures High(CopperAt(t, x, size, PassHits(md, x, size, x + 1, p)), 70) + |PassHits(md, x, size, x + 1, p)| == High(t, 70)
  {
    var hits := PassHits(md, x, size, x + 1, p);
    PassHitsMatch(md, x, size, x + 1, p);
    PassHitsFree(m, t, md, x, size, p);
    FoldLowers(t, x, size, hits);
  }

  /** The centres of the blocks of hits are not copper in t. */
  predicate CentresFree(t: seq<byte>, x: nat, hits: seq<int>) {
    forall k :: 0 <= k < |hits| ==> 0 <= hits[k] + 1 + x < |t| && t[hits[k] + 1 + x] > 70
  }

  /** No centre a pass marks is copper before it. */
  lemma PassHitsFree(m: seq<bv8>, t: seq<byte>, md: seq<bv8>, x: nat, size: nat, p: Pattern)
    requires MasksOf(m, t, x, size) && size <= |md| && md[..size] == m[..size]
    ensures CentresFree(t, x, PassHits(md, x, size, x + 1, p))
  {
    var hits := PassHits(md, x, size, x + 1, p);
    PassHitsMatch(md, x, size, x + 1, p);
    forall k | 0 <= k < |hits|
      ensures t[hits[k] + 1 + x] > 70
    {
      var b := hits[k] - 1;
      assert md[b] == md[..size][b] == m[..size][b];
      MaskAt(m, t, x, size, b);
      CentreFree(t, x, hits[k]);
    }
  }

  // ---------------------------------------------------------------------------
  // l_noexpand
  // ---------------------------------------------------------------------------

  /** The masks after which l_noexpand steps two blocks on. */
  const NoExpandSkip2: set<bv8> := {0xf1, 0xf9, 0xf3, 0x1f, 0x3f, 0x9f, 0xc7, 0xcf, 0xe7, 0xfd, 0xf7, 0xdf, 0x7f}

  /** The masks after which l_noexpand steps one block on. */
  const NoExpandStay: set<bv8> := {0x7c, 0xfe, 0x7e, 0xfc}

  /** The masks of a copper pocket that l_noexpand fills. */
  predicate NoExpandCase(v: bv8) {
    v == 0xfb || v == 0xbf || v == 0xef || v in NoExpandSkip2 || v in NoExpandStay
  }

  /** The block l_noexpand goes to after block i with mask v: back a row
      after 0xfb, on a row after 0xbf, back one after 0xef. */
  function NoExpandNext(v: bv8, i: int, x: nat, size: nat): (n: int)
    ensures !NoExpandCase(v) ==> n == i + 1
  {
    if v == 0xfb then (if i - x > 0 then i - x else i + 1)
    else if v == 0xbf then (if i + x < size then i + x else i + 1)
    else if v == 0xef then i - 1
    else if v in NoExpandSkip2 then i + 2
    else i + 1
  }

  /** The pixels x + 2 to 2x + 1 (the second row from its third pixel and
      the first two pixels of the third) are copper. */
  predicate TopFrame(t: seq<byte>, x: nat) {
    forall q :: x + 2 <= q <= 2 * x + 1 && q < |t| ==> t[q] <= 70
  }

  /** The blocks l_noexpand marks, from block i of raster t, in order. It
      reads the live masks, which are those of t with every earlier mark
      made copper. Backward steps cannot leave the scanned range because
      of the copper frame, and the scan ends because every mark makes one
      more pixel copper. */
  function NoExpandHits(t: seq<byte>, x: nat, size: nat, i: int): (hits: seq<int>)
    requires x + 1 <= i && size + 1 + 2 * x < |t| && TopFrame(t, x)
    ensures Blocks(hits, x, size)
    ensures High(CopperAt(t, x, size, hits), 70) + |hits| == High(t, 70)
    decreases High(t, 70), size - i
  {
    if i >= size then []
    else if Has(GetMask(t, x, i - 1, 70), 0) then NoExpandHits(t, x, size, i + 1)
    else
      var v := GetMask(t, x, i, 70);
      if NoExpandCase(v) then
        var c := i + 1 + x;
        CentreFree(t, x, i);
        HighLowered(t, 70, c, 0);
        NoExpandNextInRange(t, x, size, i);
        var rest := NoExpandHits(t[c := 0], x, size, NoExpandNext(v, i, x, size));
        CopperAtCons(t, x, size, i, rest);
        [i] + rest
      else NoExpandHits(t, x, size, i + 1)
  }

  /** One step of l_noexpand from block i. */
  lemma NoExpandUnfold(t: seq<byte>, x: nat, size: nat, i: int)
    requires x + 1 <= i < size && size + 1 + 2 * x < |t| && TopFrame(t, x)
    ensures Has(GetMask(t, x, i - 1, 70), 0) ==> NoExpandHits(t, x, size, i) == NoExpandHits(t, x, size, i + 1)
    ensures !Has(GetMask(t, x, i - 1, 70), 0) && !NoExpandCase(GetMask(t, x, i, 70)) ==>
              NoExpandHits(t, x, size, i) == NoExpandHits(t, x, size, i + 1)
    ensures !Has(GetMask(t, x, i - 1, 70), 0) && NoExpandCase(GetMask(t, x, i, 70)) ==>
              && High(t[i + 1 + x := 0], 70) < High(t, 70) && TopFrame(t[i + 1 + x := 0], x)
              && x + 1 <= NoExpandNext(GetMask(t, x, i, 70), i, x, size)
              && NoExpandHits(t, x, size, i)
                 == [i] + NoExpandHits(t[i + 1 + x := 0], x, size, NoExpandNext(GetMask(t, x, i, 70), i, x, size))
  {
    if !Has(GetMask(t, x, i - 1, 70), 0) && NoExpandCase(GetMask(t, x, i, 70)) {
      CentreFree(t, x, i);
      HighLowered(t, 70, i + 1 + x, 0);
      NoExpandNextInRange(t, x, size, i);
    }
  }

  /** A block whose centre is not marked in its predecessor's mask has a
      centre that is not copper. */
  lemma CentreFree(t: seq<byte>, x: nat, i: int)
    requires 1 <= i && i + 1 + 2 * x < |t| && !Has(GetMask(t, x, i - 1, 70), 0)
    ensures t[i + 1 + x] > 70
  {
    assert Off(x, 0) == 2 + x;
  }

  /** After a pocket at block i, l_noexpand stays at block x + 1 or later. */
  lemma NoExpandNextInRange(t: seq<byte>, x: nat, size: nat, i: int)
    requires x + 1 <= i < size && size + 1 + 2 * x < |t| && TopFrame(t, x)
    ensures x + 1 <= NoExpandNext(GetMask(t, x, i, 70), i, x, size)
  {
    var v := GetMask(t, x, i, 70);
    if v == 0xfb {
      assert !Has(v, 2) && Off(x, 2) == 1;
    } else if v == 0xef {
      assert !Has(v, 4) && Off(x, 4) == x;
    }
  }

  /** l_noexpand: fills one-pixel pockets of the copper, following the
      pocket back or on by a row. */
  method NoExpand(orMask: array<bv8>, x: nat, size: nat, ghost t: seq<byte>) returns (count: nat)
    requires MasksOf(orMask[..], t, x, size) && TopFrame(t, x)
    modifies orMask
    ensures orMask[..] == OrFold(old(orMask[..]), x, size, NoExpandHits(t, x, size, x + 1))
    ensures count == |NoExpandHits(t, x, size, x + 1)|
  {
    ghost var m0 := orMask[..];
    ghost var all := NoExpandHits(t, x, size, x + 1);
    ghost var u := t;
    count := 0;
    var i := x + 1;
    while i < size
      invariant x + 1 <= i && MasksOf(orMask[..], u, x, size) && TopFrame(u, x)
      invariant OrFold(orMask[..], x, size, NoExpandHits(u, x, size, i)) == OrFold(m0, x, size, all)
      invariant count + |NoExpandHits(u, x, size, i)| == |all|
      decreases High(u, 70), size - i
    {
      var next, marked;
      next, marked, u := NoExpandStep(orMask, x, size, i, u);
      count := count + marked;
      i := next;
    }
  }

  /** One block of l_noexpand: the skip test on the live mask of the block
      before, then the switch on the live mask of block i. */
  method NoExpandStep(orMask: array<bv8>, x: nat, size: nat, i: int, ghost u: seq<byte>)
    returns (next: int, marked: nat, ghost u': seq<byte>)
    requires x + 1 <= i < size && MasksOf(orMask[..], u, x, size) && TopFrame(u, x)
    modifies orMask
    ensures x + 1 <= next && MasksOf(orMask[..], u', x, size) && TopFrame(u', x)
    ensures OrFold(orMask[..], x, size, NoExpandHits(u', x, size, next))
         == OrFold(old(orMask[..]), x, size, NoExpandHits(u, x, size, i))
    ensures marked + |NoExpandHits(u', x, size, next)| == |NoExpandHits(u, x, size, i)|
    ensures High(u', 70) < High(u, 70) || (u' == u && next == i + 1)
  {
    MaskAt(orMask[..], u, x, size, i - 1);
    MaskAt(orMask[..], u, x, size, i);
    NoExpandUnfold(u, x, size, i);
    u' := u;
    marked := 0;
    if Has(orMask[i - 1], 0) {
      next := i + 1;
    } else {
      var v := orMask[i];
      next := NoExpandNext(v, i, x, size);
      if NoExpandCase(v) {
        ghost var before := orMask[..];
        u' := u[i + 1 + x := 0];
        OrFoldCons(before, x, size, i, NoExpandHits(u', x, size, next));
        SetOrMask(orMask, x, i);
        MarkMasks(before, u, x, size, i);
        marked := 1;
      }
    }
  }

  /** l_noexpand keeps the masks those of the raster with its marks made
      copper. */
  lemma {:induction false} NoExpandExpands(m: seq<bv8>, t: seq<byte>, x: nat, size: nat)
    requires MasksOf(m, t, x, size) && TopFrame(t, x)
    ensures MasksOf(OrFold(m, x, size, NoExpandHits(t, x, size, x + 1)), CopperAt(t, x, size, NoExpandHits(t, x, size, x + 1)), x, size)
    ensures Expanded(t, CopperAt(t, x, size, NoExpandHits(t, x, size, x + 1)))
  {
    var hits := NoExpandHits(t, x, size, x + 1);
    FoldMasks(m, t, x, size, hits);
    FoldExpanded(t, x, size, hits);
  }

  // ---------------------------------------------------------------------------
  // bit_e
  // ---------------------------------------------------------------------------

  /** The frame of the raster (two rows and two columns on every side) is
      copper, as create_border leaves it. */
  predicate CopperBorder(s: seq<byte>, w: int, h: int) {
    && |s| == w * h
    && forall c, r :: 0 <= c < w && 0 <= r < h && (Image.FrameRow(h, r) || Image.FrameColumn(w, c)) ==>
         s[Idx(w, h, c, r)] as int <= 70
  }

  /** create_border leaves a copper frame. */
  lemma BorderIsCopper(s: seq<byte>, t: seq<byte>, w: int, h: int)
    requires |s| == w * h && |t| == w * h && Image.FramedFrom(s, t, w, h)
    ensures CopperBorder(t, w, h)
  {
  }

  /** The copper frame holds the pixels TopFrame needs. */
  lemma BorderTop(s: seq<byte>, x: nat, y: nat)
    requires x >= 2 && y >= 3 && CopperBorder(s, x, y)
    ensures TopFrame(s, x)
  {
    forall q | x + 2 <= q <= 2 * x + 1 && q < |s|
      ensures s[q] <= 70
    {
      if q < 2 * x {
        assert Idx(x, y, q - x, 1) == q;
      } else {
        assert Idx(x, y, q - 2 * x, 2) == q;
      }
    }
  }

  lemma ExpandedTopFrame(t: seq<byte>, t': seq<byte>, x: nat)
    requires Expanded(t, t') && TopFrame(t, x)
    ensures TopFrame(t', x)
  {
  }

  /** memcpy (mask_data, or_mask, size). */
  method Snapshot(maskData: array<bv8>, orMask: array<bv8>, size: nat)
    requires maskData != orMask && size <= maskData.Length && size <= orMask.Length
    modifies maskData
    ensures maskData[..size] == orMask[..size]
  {
    for k := 0 to size
      invariant forall j :: 0 <= j < k ==> maskData[j] == orMask[j]
    {
      maskData[k] := orMask[k];
    }
  }

  /** The state bit_e keeps between its passes: or_mask holds the masks of
      the expanded raster t and mask_data is its snapshot. */
  predicate Masked(orMask: array<bv8>, maskData: array<bv8>, x: nat, size: nat, t: seq<byte>)
    reads orMask, maskData
  {
    && orMask != maskData && orMask.Length == maskData.Length
    && MasksOf(orMask[..], t, x, size) && maskData[..size] == orMask[..size] && TopFrame(t, x)
  }

  /** A pattern pass and the snapshot after it. */
  method RunPass(orMask: array<bv8>, maskData: array<bv8>, x: nat, size: nat, p: Pattern, ghost t: seq<byte>)
    returns (count: nat, ghost t': seq<byte>)
    requires Masked(orMask, maskData, x, size, t)
    modifies orMask, maskData
    ensures Masked(orMask, maskData, x, size, t')
    ensures Expanded(t, t') && High(t', 70) + count == High(t, 70)
  {
    ghost var m := orMask[..];
    ghost var md := maskData[..];
    assert md[..size] == m[..size];
    count := MarkPass(orMask, maskData[..], x, size, p);
    PassExpands(m, t, md, x, size, p);
    PassLowers(m, t, md, x, size, p);
    t' := CopperAt(t, x, size, PassHits(md, x, size, x + 1, p));
    ExpandedTopFrame(t, t', x);
    Snapshot(maskData, orMask, size);
  }

  /** An l_noexpand pass and the snapshot after it. */
  method RunNoExpand(orMask: array<bv8>, maskData: array<bv8>, x: nat, size: nat, ghost t: seq<byte>)
    returns (count: nat, ghost t': seq<byte>)
    requires Masked(orMask, maskData, x, size, t)
    modifies orMask, maskData
    ensures Masked(orMask, maskData, x, size, t')
    ensures Expanded(t, t') && High(t', 70) + count == High(t, 70)
  {
    ghost var m := orMask[..];
    count := NoExpand(orMask, x, size, t);
    NoExpandExpands(m, t, x, size);
    t' := CopperAt(t, x, size, NoExpandHits(t, x, size, x + 1));
    ExpandedTopFrame(t, t', x);
    Snapshot(maskData, orMask, size);
  }

  /** The passes of one round of bit_e after l_noexpand: l_diag and
      l_diag_fill in the first round only, then l_up (whose count replaces
      the running one), l_down, l_left, l_right and l_rozok. */
  method RunRound(orMask: array<bv8>, maskData: array<bv8>, x: nat, size: nat, first: bool, ghost t: seq<byte>)
    returns (ret: nat, ghost t': seq<byte>)
    requires Masked(orMask, maskData, x, size, t)
    modifies orMask, maskData
    ensures Masked(orMask, maskData, x, size, t')
    ensures Expanded(t, t') && High(t', 70) + ret <= High(t, 70)
  {
    t' := t;
    var r: nat;
    ret := 0;
    if first {
      r, t' := RunPass(orMask, maskData, x, size, Diag, t');
      ret := ret + r;
      ghost var t1 := t';
      r, t' := RunPass(orMask, maskData, x, size, DiagFill, t');
      ret := ret + r;
      ExpandedTrans(t, t1, t');
    }
    ghost var t2 := t';
    ret, t' := RunPass(orMask, maskData, x, size, Up, t');
    ghost var t3 := t';
    r, t' := RunPass(orMask, maskData, x, size, Down, t');
    ret := ret + r;
    ghost var t4 := t';
    r, t' := RunPass(orMask, maskData, x, size, Left, t');
    ret := ret + r;
    ghost var t5 := t';
    r, t' := RunPass(orMask, maskData, x, size, Right, t');
    ret := ret + r;
    ghost var t6 := t';
    r, t' := RunPass(orMask, maskData, x, size, Rozok, t');
    ret := ret + r;
    ExpandedTrans(t2, t3, t4);
    ExpandedTrans(t2, t4, t5);
    ExpandedTrans(t2, t5, t6);
    ExpandedTrans(t2, t6, t');
    ExpandedTrans(t, t2, t');
  }

  /** bit_e: the masks of the raster (border 70), then l_4to8 and rounds of
      l_noexpand until it marks nothing, followed by the other passes,
      until a round marks nothing. On return or_mask holds the masks of
      the raster t, which is the raster with the marked pixels made
      copper, and mask_data is its snapshot. */
  method BitE(data: array<byte>, x: nat, y: nat) returns (orMask: array<bv8>, maskData: array<bv8>, size: nat, ghost t: seq<byte>)
    requires x >= 2 && y >= 3 && CopperBorder(data[..], x, y)
    ensures size == x * (y - 2) - 2 && orMask.Length == maskData.Length == x * (y + 2)
    ensures Masked(orMask, maskData, x, size, t) && Expanded(data[..], t)
  {
    assert x * (y - 2) == x * y - 2 * x && x * (y + 2) == x * y + 2 * x;
    MulMonotone(x, 1, y - 2);
    size := x * (y - 2) - 2;
    orMask := new bv8[x * (y + 2)](_ => 0);
    maskData := new bv8[x * (y + 2)](_ => 0);
    ghost var s := data[..];
    t := s;
    for i := 0 to size
      invariant forall j :: 0 <= j < i ==> orMask[j] == GetMask(s, x, j, 70)
    {
      orMask[i] := GetMask(data[..], x, i, 70);
    }
    MaskSeqOf(orMask[..size], s, x, size);
    Snapshot(maskData, orMask, size);
    BorderTop(s, x, y);
    var ret: nat, allret: nat;
    ghost var t1;
    ret, t1 := RunPass(orMask, maskData, x, size, FourToEight, t);
    t := t1;
    var flag := false;
    while true
      invariant Masked(orMask, maskData, x, size, t) && Expanded(s, t)
      decreases High(t, 70)
    {
      ghost var t0 := t;
      allret := 0;
      ret := 1;
      while ret != 0
        invariant Masked(orMask, maskData, x, size, t) && Expanded(s, t)
        invariant High(t, 70) + allret == High(t0, 70)
        decreases High(t, 70) + (if ret != 0 then 1 else 0)
      {
        ghost var before := t;
        ret, t := RunNoExpand(orMask, maskData, x, size, t);
        ExpandedTrans(s, before, t);
        allret := allret + ret;
      }
      ghost var before := t;
      ret, t := RunRound(orMask, maskData, x, size, !flag, t);
      ExpandedTrans(s, before, t);
      flag := true;
      allret := allret + ret;
      if allret == 0 {
        break;
      }
    }
  }

  // ---------------------------------------------------------------------------
  // expand_copper
  // ---------------------------------------------------------------------------

  /** The raster after the marking loop of expand_copper, stated on the
      expanded raster t: in the band of pixels x to x + size - 1, every
      pixel that is copper in t and is not 0 becomes 1. */
  function CopperMarked(s: seq<byte>, t: seq<byte>, x: nat, size: nat): (r: seq<byte>)
    requires |t| == |s|
    ensures |r| == |s|
  {
    seq(|s|, p requires 0 <= p < |s| => if x <= p < x + size && t[p] as int <= 70 && s[p] != 0 then 1 else s[p])
  }

  /** Reading bit 4 of the snapshot (the left-hand neighbour of a block's
      centre) reads whether that pixel is copper in the expanded raster. */
  lemma MarkedIsCopper(s: seq<byte>, md: seq<bv8>, t: seq<byte>, x: nat, size: nat)
    requires MasksOf(md, t, x, size) && |t| == |s|
    ensures MarkedCopper(s, md, x, size) == CopperMarked(s, t, x, size)
  {
    forall p | 0 <= p < |s|
      ensures MarkedCopper(s, md, x, size)[p] == CopperMarked(s, t, x, size)[p]
    {
      if x <= p < x + size {
        MaskAt(md, t, x, size, p - x);
        assert Off(x, 4) == x;
      }
    }
  }

  /** Every byte of b is the byte of a, or a byte above 90 of a lowered to
      70: what the thinning filters of expand_copper may do. */
  predicate Thinned(a: seq<byte>, b: seq<byte>) {
    |a| == |b| && forall j :: 0 <= j < |a| ==> b[j] == a[j] || (a[j] as int > 90 && b[j] == 70)
  }

  lemma ThinnedTrans(a: seq<byte>, b: seq<byte>, c: seq<byte>)
    requires Thinned(a, b) && Thinned(b, c)
    ensures Thinned(a, c)
  {
  }

  /** One local_T1 or local_end call with fill 70 and border 90. */
  lemma LocalRunThins(s: seq<byte>, x: nat, n: nat, cat: set<bv8>)
    requires x >= 2 && n + 1 + 2 * x < |s|
    ensures Thinned(s, LocalRun(s, x, n, 70, 90, cat).0)
    ensures High(LocalRun(s, x, n, 70, 90, cat).0, 90) + LocalRun(s, x, n, 70, 90, cat).1 == High(s, 90)
    ensures LocalRun(s, x, n, 70, 90, cat).1 == 0 ==> LocalRun(s, x, n, 70, 90, cat).0 == s
  {
    LocalRunWrites(s, x, n, 70, 90, cat);
    LocalRunLowers(s, x, n, 70, 90, cat);
    LocalRunIdle(s, x, n, 70, 90, cat);
  }

  /** local_T1 until it changes nothing. */
  method ThinT1(data: array<byte>, x: nat, size: nat) returns (changed: bool)
    requires x >= 2 && size + 1 + 2 * x < data.Length
    modifies data
    ensures Thinned(old(data[..]), data[..])
    ensures changed ==> High(data[..], 90) < High(old(data[..]), 90)
    ensures !changed ==> data[..] == old(data[..])
    ensures LocalRun(data[..], x, size, 70, 90, T1Catalogue).1 == 0
  {
    changed := false;
    while true
      invariant Thinned(old(data[..]), data[..])
      invariant changed ==> High(data[..], 90) < High(old(data[..]), 90)
      invariant !changed ==> data[..] == old(data[..])
      decreases High(data[..], 90)
    {
      ghost var before := data[..];
      var ret := LocalT1(data, before, x, size, 70, 90);
      LocalRunThins(before, x, size, T1Catalogue);
      ThinnedTrans(old(data[..]), before, data[..]);
      if ret == 0 {
        break;
      }
      changed := true;
    }
  }

  /** local_end until it changes nothing. */
  method ThinEnd(data: array<byte>, x: nat, size: nat) returns (changed: bool)
    requires x >= 2 && size + 1 + 2 * x < data.Length
    modifies data
    ensures Thinned(old(data[..]), data[..])
    ensures changed ==> High(data[..], 90) < High(old(data[..]), 90)
    ensures !changed ==> data[..] == old(data[..])
    ensures LocalRun(data[..], x, size, 70, 90, EndCatalogue).1 == 0
  {
    changed := false;
    while true
      invariant Thinned(old(data[..]), data[..])
      invariant changed ==> High(data[..], 90) < High(old(data[..]), 90)
      invariant !changed ==> data[..] == old(data[..])
      decreases High(data[..], 90)
    {
      ghost var before := data[..];
      var ret := LocalEnd(data, before, x, size, 70, 90);
      LocalRunThins(before, x, size, EndCatalogue);
      ThinnedTrans(old(data[..]), before, data[..]);
      if ret == 0 {
        break;
      }
      changed := true;
    }
  }

  /** expand_copper: bit_e, the marked pixels become copper (1), local_T1
      and local_end alternate until neither finds anything, and the
      recolouring chain runs. The result is stated on the expanded raster
      t of bit_e, the raster after marking, and the thinned raster. */
  method ExpandCopper(data: array<byte>, x: nat, y: nat)
    returns (r: int, ghost t: seq<byte>, ghost marked: seq<byte>, ghost thinned: seq<byte>)
    requires x >= 2 && y >= 3 && CopperBorder(data[..], x, y)
    modifies data
    ensures r == 0
    ensures Expanded(old(data[..]), t)
    ensures marked == CopperMarked(old(data[..]), t, x, x * (y - 2) - 2)
    ensures Thinned(marked, thinned)
    ensures LocalRun(thinned, x, x * (y - 2) - 2, 70, 90, T1Catalogue).1 == 0
    ensures LocalRun(thinned, x, x * (y - 2) - 2, 70, 90, EndCatalogue).1 == 0
    ensures data[..] == FinalColours(thinned)
  {
    ghost var s := data[..];
    var orMask, maskData, size;
    orMask, maskData, size, t := BitE(data, x, y);
    ghost var md := maskData[..];
    assert MasksOf(md, t, x, size) by {
      assert md[..size] == maskData[..size];
    }
    MarkCopper(data, maskData[..], x, size);
    MarkedIsCopper(s, md, t, x, size);
    marked := data[..];
    var flag := true;
    while flag
      invariant data.Length == |marked| && Thinned(marked, data[..])
      invariant !flag ==> LocalRun(data[..], x, size, 70, 90, T1Catalogue).1 == 0
      invariant !flag ==> LocalRun(data[..], x, size, 70, 90, EndCatalogue).1 == 0
      decreases High(data[..], 90) + (if flag then 1 else 0)
    {
      ghost var start := data[..];
      flag := false;
      var c1 := ThinT1(data, x, size);
      ghost var mid := data[..];
      var c2 := ThinEnd(data, x, size);
      ThinnedTrans(marked, start, mid);
      ThinnedTrans(marked, mid, data[..]);
      if c1 || c2 {
        flag := true;
      }
    }
    thinned := data[..];
    Recolor(data, 160, 70);
    Recolor(data, 150, 5);
    Recolor(data, 190, 6);
    Recolor(data, 200, 1);
    Recolor(data, 255, 0);
    Recolor(data, 0, 100);
    r := 0;
  }
}
