/** Values shared by every stage of the converter: raster bytes, optional values
    and integer points. */
module Basics {

  /** One raster byte (`unsigned char` in the C program). */
  newtype byte = b: int | 0 <= b < 256

  datatype Option<T> = None | Some(value: T)

  /** An integer coordinate pair. Polylines and graph nodes use double pixel
      resolution, so half-pixel midpoints are representable. */
  datatype Point = Point(x: int, y: int)

  function Abs(a: int): (r: nat)
    ensures r == a || r == -a
  {
    if a < 0 then -a else a
  }

  function Max(a: int, b: int): (r: int)
    ensures r >= a && r >= b && (r == a || r == b)
  {
    if a >= b then a else b
  }

  function Min(a: int, b: int): (r: int)
    ensures r <= a && r <= b && (r == a || r == b)
  {
    if a <= b then a else b
  }

  /** C division of integers truncates toward zero; Dafny's `/` is Euclidean. */
  function CDiv(a: int, b: int): (r: int)
    requires b > 0
    ensures a >= 0 ==> r == a / b
    ensures Abs(r) * b <= Abs(a) < Abs(r) * b + b
    ensures a < 0 ==> r <= 0
  {
    var q := Abs(a) / b;
    assert q * b <= Abs(a) < q * b + b by { DivBounds(Abs(a), b); }
    if a >= 0 then q else -q
  }

  lemma DivBounds(n: nat, b: int)
    requires b > 0
    ensures (n / b) * b <= n < (n / b) * b + b
  {
  }

  /** Offset of pixel (c, r) in a row-major raster `w` pixels wide and `h` high. */
  function Idx(w: int, h: int, c: int, r: int): (i: int)
    requires 0 <= c < w && 0 <= r < h
    ensures 0 <= i < w * h
  {
    MulMonotone(w, r, h - 1);
    c + w * r
  }

  lemma MulMonotone(w: nat, a: int, b: int)
    requires a <= b
    ensures w * a <= w * b
  {
    assert w * b - w * a == w * (b - a);
  }

  /** Distinct pixels have distinct offsets. */
  lemma IdxInjective(w: int, h: int, c: int, r: int, c': int, r': int)
    requires 0 <= c < w && 0 <= r < h && 0 <= c' < w && 0 <= r' < h
    ensures Idx(w, h, c, r) == Idx(w, h, c', r') <==> c == c' && r == r'
  {
    if r < r' { MulMonotone(w, r + 1, r'); }
    if r' < r { MulMonotone(w, r' + 1, r); }
  }

  lemma DivModUnique(i: int, w: int, q: int, m: int)
    requires 0 <= m < w && i == q * w + m
    ensures i / w == q && i % w == m
  {
    var q' := i / w;
    var m' := i % w;
    assert i == q' * w + m';
    assert (q - q') * w == m' - m;
    if q > q' {
      assert (q - q') * w >= w by { MulMonotone(w, 1, q - q'); }
    } else if q < q' {
      assert (q' - q) * w >= w by { MulMonotone(w, 1, q' - q); }
    }
  }

  /** Every offset of a raster is the offset of its own column and row. */
  lemma IdxOfOffset(w: int, h: int, i: int)
    requires w > 0 && 0 <= i < w * h
    ensures 0 <= i % w < w && 0 <= i / w < h && Idx(w, h, i % w, i / w) == i
  {
    if i / w >= h {
      assert w * (i / w) >= w * h by { MulMonotone(w, h, i / w); }
    }
  }

  // ---------------------------------------------------------------------------
  // Lists of handles: a C list of records is modelled as the sequence of the
  // records' handles in list order.
  // ---------------------------------------------------------------------------

  /** No two entries of s are equal. */
  predicate Distinct(s: seq<nat>) {
    forall i, j :: 0 <= i < j < |s| ==> s[i] != s[j]
  }

  /** The list with the first occurrence of x unlinked. */
  function Removed(s: seq<nat>, x: nat): (r: seq<nat>)
    ensures x in s ==> |r| == |s| - 1
    ensures x !in s ==> r == s
  {
    if |s| == 0 then []
    else if s[0] == x then s[1..]
    else [s[0]] + Removed(s[1..], x)
  }

  /** Unlinking from a list without repeats leaves exactly the other entries,
      still without repeats. */
  lemma {:induction false} RemovedMembers(s: seq<nat>, x: nat)
    requires Distinct(s)
    ensures Distinct(Removed(s, x)) && forall y :: y in Removed(s, x) <==> y in s && y != x
  {
    if |s| > 0 && s[0] != x {
      assert Distinct(s[1..]) by {
        forall i, j | 0 <= i < j < |s| - 1
          ensures s[1..][i] != s[1..][j]
        {
          assert s[1..][i] == s[i + 1] && s[1..][j] == s[j + 1];
        }
      }
      RemovedMembers(s[1..], x);
      var r := Removed(s, x);
      assert r == [s[0]] + Removed(s[1..], x);
      assert s[0] !in s[1..] by {
        forall j | 0 <= j < |s| - 1
          ensures s[1..][j] != s[0]
        {
          assert s[1..][j] == s[j + 1];
        }
      }
      forall i, j | 0 <= i < j < |r|
        ensures r[i] != r[j]
      {
        if i > 0 {
          assert r[i] == Removed(s[1..], x)[i - 1] && r[j] == Removed(s[1..], x)[j - 1];
        } else {
          assert r[j] in Removed(s[1..], x);
        }
      }
      forall y
        ensures y in r <==> y in s && y != x
      {
        assert y in s <==> y == s[0] || y in s[1..];
      }
    } else if |s| > 0 {
      forall y
        ensures y in s[1..] <==> y in s && y != x
      {
        assert y in s <==> y == s[0] || y in s[1..];
        if y in s[1..] {
          var j :| 0 <= j < |s| - 1 && s[1..][j] == y;
          assert s[j + 1] == y;
        }
      }
      forall i, j | 0 <= i < j < |s| - 1
        ensures s[1..][i] != s[1..][j]
      {
        assert s[1..][i] == s[i + 1] && s[1..][j] == s[j + 1];
      }
    }
  }

  lemma {:induction false} RemovedAt(s: seq<nat>, k: nat, x: nat)
    requires k < |s| && s[k] == x && forall j :: 0 <= j < k ==> s[j] != x
    ensures Removed(s, x) == s[..k] + s[k + 1..]
  {
    if k > 0 {
      RemovedAt(s[1..], k - 1, x);
      assert s[1..][..k - 1] == s[1..k] && s[1..][k..] == s[k + 1..];
      assert s[..k] == [s[0]] + s[1..k];
    }
  }

  /** The unlinking walk over a pointer to the `next` field: the list is walked
      to the first entry x, which is then cut out; a list without x is left
      as it is. */
  method Unlink(s: seq<nat>, x: nat) returns (r: seq<nat>)
    ensures r == Removed(s, x)
  {
    var k := 0;
    while k < |s| && s[k] != x
      invariant 0 <= k <= |s|
      invariant forall j :: 0 <= j < k ==> s[j] != x
    {
      k := k + 1;
    }
    if k == |s| {
      return s;
    }
    RemovedAt(s, k, x);
    r := s[..k] + s[k + 1..];
  }
}
