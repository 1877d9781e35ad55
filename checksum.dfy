/** The image checksum and the timespec difference of the main program.

    The checksum is CRC-16/MODBUS (section 6.2.2 of the MODBUS over Serial Line
    Specification V1.02): reflected polynomial 0xA001, initial value 0xFFFF, no
    final XOR. It is rendered as four upper-case hexadecimal digits and compared
    against the comment of a cached raster. */
module Checksum {
  import opened Basics

  /** One round of the bitwise CRC: shift right, XOR the polynomial in when the
      bit shifted out was 1. */
  function Round(crc: bv16): bv16 {
    if crc & 1 == 1 then (crc >> 1) ^ 0xA001 else crc >> 1
  }

  /** `n` rounds applied to `crc`. */
  function Rounds(crc: bv16, n: nat): bv16 {
    if n == 0 then crc else Round(Rounds(crc, n - 1))
  }

  /** The value ucrc computes: XOR the byte in, then eight rounds. */
  function CrcStep(crc: bv16, data: byte): bv16 {
    Rounds(crc ^ (data as bv16), 8)
  }

  /** The CRC of a byte string, folded from 0xFFFF in index order. */
  function CrcOf(s: seq<byte>): bv16 {
    if |s| == 0 then 0xFFFF else CrcStep(CrcOf(s[..|s| - 1]), s[|s| - 1])
  }

  /** ucrc: the step depends on `crc` and `data` only through `crc ^ data`. */
  method Ucrc(crc: bv16, data: byte) returns (r: bv16)
    ensures r == CrcStep(crc, data)
    ensures r == CrcStep(crc ^ (data as bv16), 0)
  {
    r := crc ^ (data as bv16);
    var i := 0;
    while i < 8
      invariant 0 <= i <= 8
      invariant r == Rounds(crc ^ (data as bv16), i)
    {
      if r & 1 == 1 {
        r := (r >> 1) ^ 0xA001;
      } else {
        r := r >> 1;
      }
      i := i + 1;
    }
    assert (crc ^ (data as bv16)) ^ (0 as byte as bv16) == crc ^ (data as bv16);
  }

  /** Digit `d` (below 16) as an upper-case hexadecimal character. */
  function HexDigit(d: int): (c: char)
    requires 0 <= d < 16
    ensures '0' <= c <= '9' || 'A' <= c <= 'F'
  {
    if d < 10 then (('0' as int) + d) as char else (('A' as int) + d - 10) as char
  }

  /** The value of an upper-case hexadecimal character. */
  function HexValue(c: char): (d: int)
    requires '0' <= c <= '9' || 'A' <= c <= 'F'
    ensures 0 <= d < 16
  {
    if c <= '9' then c as int - '0' as int else c as int - 'A' as int + 10
  }

  lemma HexDigitValue(d: int)
    requires 0 <= d < 16
    ensures HexValue(HexDigit(d)) == d
  {
  }

  /** `snprintf(buf, 5, "%04X", crc)`: four zero-padded upper-case digits,
      most significant first. */
  function Hex4(n: int): (s: string)
    requires 0 <= n < 65536
    ensures |s| == 4
    ensures forall i :: 0 <= i < 4 ==> '0' <= s[i] <= '9' || 'A' <= s[i] <= 'F'
  {
    [HexDigit(n / 4096), HexDigit(n / 256 % 16), HexDigit(n / 16 % 16), HexDigit(n % 16)]
  }

  /** Reading the four digits back gives the checksum: the rendering loses nothing. */
  lemma Hex4RoundTrip(n: int)
    requires 0 <= n < 65536
    ensures var s := Hex4(n);
      HexValue(s[0]) * 4096 + HexValue(s[1]) * 256 + HexValue(s[2]) * 16 + HexValue(s[3]) == n
  {
    var s := Hex4(n);
    HexDigitValue(n / 4096);
    HexDigitValue(n / 256 % 16);
    HexDigitValue(n / 16 % 16);
    HexDigitValue(n % 16);
    assert HexValue(s[0]) == n / 4096 && HexValue(s[1]) == n / 256 % 16;
    assert HexValue(s[2]) == n / 16 % 16 && HexValue(s[3]) == n % 16;
    DigitsCompose(n);
  }

  lemma DigitsCompose(n: int)
    requires 0 <= n < 65536
    ensures (n / 4096) * 4096 + (n / 256 % 16) * 256 + (n / 16 % 16) * 16 + n % 16 == n
  {
    var q1 := n / 16;
    var q2 := q1 / 16;
    assert n / 256 == q2;
    assert n / 4096 == q2 / 16;
  }

  /** image_crc: the checksum of the first x*y raster bytes, as text. */
  method ImageCrc(data: array<byte>, x: nat, y: nat) returns (text: string)
    requires x * y <= data.Length
    ensures text == Hex4(CrcOf(data[..x * y]) as int)
  {
    var crc: bv16 := 0xFFFF;
    var i := 0;
    while i < x * y
      invariant 0 <= i <= x * y
      invariant crc == CrcOf(data[..i])
    {
      assert data[..i + 1][..i] == data[..i];
      crc := Ucrc(crc, data[i]);
      i := i + 1;
    }
    text := Hex4(crc as int);
  }

  /** Eight rounds written out. */
  lemma RoundsEight(c: bv16)
    ensures Rounds(c, 8) == Round(Round(Round(Round(Round(Round(Round(Round(c))))))))
  {
    assert Rounds(c, 1) == Round(c);
    assert Rounds(c, 2) == Round(Round(c));
    assert Rounds(c, 3) == Round(Round(Round(c)));
    assert Rounds(c, 4) == Round(Round(Round(Round(c))));
    assert Rounds(c, 5) == Round(Round(Round(Round(Round(c)))));
    assert Rounds(c, 6) == Round(Round(Round(Round(Round(Round(c))))));
    assert Rounds(c, 7) == Round(Round(Round(Round(Round(Round(Round(c)))))));
  }

  /** The fold of CrcOf, one byte at a time from the front. */
  lemma CrcSnoc(s: seq<byte>, b: byte)
    ensures CrcOf(s + [b]) == CrcStep(CrcOf(s), b)
  {
    assert (s + [b])[..|s|] == s;
  }

  lemma CheckSteps123()
    ensures CrcStep(0xFFFF, 0x31) == 0x947E && CrcStep(0x947E, 0x32) == 0xF595 && CrcStep(0xF595, 0x33) == 0x7A75
  {
    RoundsEight(0xFFFF ^ 0x31);
    RoundsEight(0x947E ^ 0x32);
    RoundsEight(0xF595 ^ 0x33);
  }

  lemma CheckSteps456()
    ensures CrcStep(0x7A75, 0x34) == 0x30BA && CrcStep(0x30BA, 0x35) == 0xA471 && CrcStep(0xA471, 0x36) == 0x32E4
  {
    RoundsEight(0x7A75 ^ 0x34);
    RoundsEight(0x30BA ^ 0x35);
    RoundsEight(0xA471 ^ 0x36);
  }

  lemma CheckSteps789()
    ensures CrcStep(0x32E4, 0x37) == 0x9D73 && CrcStep(0x9D73, 0x38) == 0x37DD && CrcStep(0x37DD, 0x39) == 0x4B37
  {
    RoundsEight(0x32E4 ^ 0x37);
    RoundsEight(0x9D73 ^ 0x38);
    RoundsEight(0x37DD ^ 0x39);
  }

  /** The check value of CRC-16/MODBUS: the CRC of the ASCII text "123456789". */
  lemma ModbusCheckValue()
    ensures CrcOf([0x31, 0x32, 0x33, 0x34, 0x35, 0x36, 0x37, 0x38, 0x39]) == 0x4B37
  {
    CheckSteps123();
    CheckSteps456();
    CheckSteps789();
    var s0: seq<byte> := [];
    assert CrcOf(s0) == 0xFFFF;
    var s1 := s0 + [0x31];
    CrcSnoc(s0, 0x31);
    var s2 := s1 + [0x32];
    CrcSnoc(s1, 0x32);
    var s3 := s2 + [0x33];
    CrcSnoc(s2, 0x33);
    var s4 := s3 + [0x34];
    CrcSnoc(s3, 0x34);
    var s5 := s4 + [0x35];
    CrcSnoc(s4, 0x35);
    var s6 := s5 + [0x36];
    CrcSnoc(s5, 0x36);
    var s7 := s6 + [0x37];
    CrcSnoc(s6, 0x37);
    var s8 := s7 + [0x38];
    CrcSnoc(s7, 0x38);
    var s9 := s8 + [0x39];
    CrcSnoc(s8, 0x39);
    assert CrcOf(s9) == 0x4B37;
    assert s9 == [0x31, 0x32, 0x33, 0x34, 0x35, 0x36, 0x37, 0x38, 0x39];
  }

  /** `struct timespec`: seconds and nanoseconds. */
  datatype Timespec = Timespec(sec: int, nsec: int)

  const NanosPerSecond := 1000000000

  predicate Normal(t: Timespec) {
    0 <= t.nsec < NanosPerSecond
  }

  function TotalNanos(t: Timespec): int {
    t.sec * NanosPerSecond + t.nsec
  }

  /** tsx_diff: `end - start`, borrowing one second when the nanoseconds go negative. */
  function TsxDiff(start: Timespec, end: Timespec): (r: Timespec)
    ensures TotalNanos(r) == TotalNanos(end) - TotalNanos(start)
    ensures Normal(start) && Normal(end) ==> Normal(r)
    ensures end.nsec >= start.nsec ==> r.sec == end.sec - start.sec
  {
    if end.nsec - start.nsec < 0 then
      Timespec(end.sec - start.sec - 1, NanosPerSecond + end.nsec - start.nsec)
    else
      Timespec(end.sec - start.sec, end.nsec - start.nsec)
  }
}
