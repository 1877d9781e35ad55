/** The 3x3 block masks that expand.c and trace.c compute over a row-major
    raster x pixels wide (get_mask, defined identically in both files). */
module Neighbourhood {
  import opened Basics

  /** Offset, from the top-left pixel of a 3x3 block, of the neighbour that
      bit b of a block mask stands for; the bits run 3 2 1 / 4 . 0 / 5 6 7
      around the centre, which is at offset 1 + x. */
  function Off(x: nat, b: nat): (o: nat)
    requires b < 8
    ensures o <= 2 + 2 * x && (x >= 2 ==> o != 1 + x)
  {
    match b
    case 0 => 2 + x
    case 1 => 2
    case 2 => 1
    case 3 => 0
    case 4 => x
    case 5 => 2 * x
    case 6 => 1 + 2 * x
    case _ => 2 + 2 * x
  }

  /** The mask with only bit b set. */
  function Bit(b: nat): (m: bv8)
    requires b < 8
  {
    match b
    case 0 => 0x01
    case 1 => 0x02
    case 2 => 0x04
    case 3 => 0x08
    case 4 => 0x10
    case 5 => 0x20
    case 6 => 0x40
    case _ => 0x80
  }

  /** Bit b of mask m is set. */
  predicate Has(m: bv8, b: nat)
    requires b < 8
  {
    m & Bit(b) != 0
  }

  function Flag(c: bool, b: nat): bv8
    requires b < 8
  {
    if c then Bit(b) else 0
  }

  /** get_mask: the block mask of the 3x3 block whose top-left pixel is i,
      bit b set when the neighbour it stands for is at most border. */
  function GetMask(s: seq<byte>, x: nat, i: nat, border: int): (m: bv8)
    requires i + 2 + 2 * x < |s|
    ensures forall b :: 0 <= b < 8 ==> (Has(m, b) <==> s[i + Off(x, b)] as int <= border)
  {
    var m :=
      Flag(s[i] as int <= border, 3) | Flag(s[i + 1] as int <= border, 2) | Flag(s[i + 2] as int <= border, 1)
      | Flag(s[i + 2 + x] as int <= border, 0) | Flag(s[i + x] as int <= border, 4)
      | Flag(s[i + 2 * x] as int <= border, 5) | Flag(s[i + 1 + 2 * x] as int <= border, 6)
      | Flag(s[i + 2 + 2 * x] as int <= border, 7);
    m
  }

  /** get_mask never reads the centre pixel of the block. */
  lemma GetMaskIgnoresCentre(s: seq<byte>, x: nat, i: nat, border: int, v: byte)
    requires x >= 2 && i + 2 + 2 * x < |s|
    ensures GetMask(s[i + 1 + x := v], x, i, border) == GetMask(s, x, i, border)
  {
    var t := s[i + 1 + x := v];
    var a, b := GetMask(t, x, i, border), GetMask(s, x, i, border);
    forall k | 0 <= k < 8
      ensures Has(a, k) <==> Has(b, k)
    {
      assert t[i + Off(x, k)] == s[i + Off(x, k)];
    }
    MaskExt(a, b);
  }

  /** Masks with the same bits are equal. */
  lemma MaskExt(a: bv8, b: bv8)
    requires forall k :: 0 <= k < 8 ==> (Has(a, k) <==> Has(b, k))
    ensures a == b
  {
    assert Has(a, 0) <==> Has(b, 0);
    assert Has(a, 1) <==> Has(b, 1);
    assert Has(a, 2) <==> Has(b, 2);
    assert Has(a, 3) <==> Has(b, 3);
    assert Has(a, 4) <==> Has(b, 4);
    assert Has(a, 5) <==> Has(b, 5);
    assert Has(a, 6) <==> Has(b, 6);
    assert Has(a, 7) <==> Has(b, 7);
  }
}
