/** Bytes and the little-endian fields of the on-disk format. */
module Bytes {
  import opened Arithmetic

  type byte = b: int | 0 <= b < 256

  /** `cpu_to_le16`: the argument is truncated to 16 bits. */
  function Le16(v: nat): (s: seq<byte>)
    ensures |s| == 2
  {
    [v % 256, v / 256 % 256]
  }

  /** `cpu_to_le32`: the argument is truncated to 32 bits. */
  function Le32(v: nat): (s: seq<byte>)
    ensures |s| == 4
  {
    Le16(v) + Le16(v / 65536)
  }

  /** `cpu_to_le64` */
  function Le64(v: nat): (s: seq<byte>)
    ensures |s| == 8
  {
    Le32(v) + Le32(v / 0x1_0000_0000)
  }

  function U16(s: seq<byte>, at: nat): (v: nat)
    requires at + 2 <= |s|
    ensures v < 65536
  {
    s[at] as int + 256 * s[at + 1] as int
  }

  function U32(s: seq<byte>, at: nat): (v: nat)
    requires at + 4 <= |s|
    ensures v < 0x1_0000_0000
  {
    U16(s, at) + 65536 * U16(s, at + 2)
  }

  function U64(s: seq<byte>, at: nat): (v: nat)
    requires at + 8 <= |s|
    ensures v < 0x1_0000_0000_0000_0000
  {
    U32(s, at) + 0x1_0000_0000 * U32(s, at + 4)
  }

  lemma TwoDigits(v: nat)
    ensures v % 256 + 256 * (v / 256 % 256) == v % 65536
  {
    var q := v / 256;
    DivModUnique(v, 65536, q / 256, v % 256 + 256 * (q % 256));
  }

  lemma FourDigits(v: nat)
    ensures v % 65536 + 65536 * (v / 65536 % 65536) == v % 0x1_0000_0000
  {
    var q := v / 65536;
    DivModUnique(v, 0x1_0000_0000, q / 65536, v % 65536 + 65536 * (q % 65536));
  }

  lemma EightDigits(v: nat)
    requires v < 0x1_0000_0000_0000_0000
    ensures v % 0x1_0000_0000 + 0x1_0000_0000 * (v / 0x1_0000_0000 % 0x1_0000_0000) == v
  {
    DivModUnique(v / 0x1_0000_0000, 0x1_0000_0000, 0, v / 0x1_0000_0000);
  }

  lemma ReadLe16(s: seq<byte>, at: nat, v: nat)
    requires at + 2 <= |s| && s[at..at + 2] == Le16(v)
    ensures U16(s, at) == v % 65536
  {
    assert s[at] == s[at..at + 2][0] == v % 256;
    assert s[at + 1] == s[at..at + 2][1] == v / 256 % 256;
    TwoDigits(v);
  }

  /** The halves of a slice of `2 * n` bytes. */
  lemma Halves(s: seq<byte>, at: nat, n: nat, x: seq<byte>, y: seq<byte>)
    requires at + 2 * n <= |s| && |x| == |y| == n && s[at..at + 2 * n] == x + y
    ensures s[at..at + n] == x && s[at + n..at + 2 * n] == y
  {
    assert s[at..at + n] == s[at..at + 2 * n][..n];
    assert s[at + n..at + 2 * n] == s[at..at + 2 * n][n..];
  }

  lemma ReadLe32(s: seq<byte>, at: nat, v: nat)
    requires at + 4 <= |s| && s[at..at + 4] == Le32(v)
    ensures U32(s, at) == v % 0x1_0000_0000
  {
    hide U16, Le16;
    Halves(s, at, 2, Le16(v), Le16(v / 65536));
    ReadLe16(s, at, v);
    ReadLe16(s, at + 2, v / 65536);
    FourDigits(v);
  }

  lemma ReadLe64(s: seq<byte>, at: nat, v: nat)
    requires at + 8 <= |s| && s[at..at + 8] == Le64(v) && v < 0x1_0000_0000_0000_0000
    ensures U64(s, at) == v
  {
    hide U32, Le32;
    Halves(s, at, 4, Le32(v), Le32(v / 0x1_0000_0000));
    ReadLe32(s, at, v);
    ReadLe32(s, at + 4, v / 0x1_0000_0000);
    EightDigits(v);
  }

  /** `erofs_dev_read`: what lies past the end of the device reads as zeroes. */
  function DevRead(dev: seq<byte>, pos: nat, len: nat): (s: seq<byte>)
    ensures |s| == len
    ensures forall i :: 0 <= i < len ==> s[i] == (if pos + i < |dev| then dev[pos + i] else 0)
  {
    seq(len, i requires 0 <= i < len => if pos + i < |dev| then dev[pos + i] else 0)
  }

  lemma DevReadInside(dev: seq<byte>, pos: nat, len: nat)
    requires pos + len <= |dev|
    ensures DevRead(dev, pos, len) == dev[pos..pos + len]
  {
  }

  lemma DevReadPart(dev: seq<byte>, pos: nat, len: nat, i: nat, m: nat)
    requires i + m <= len
    ensures DevRead(dev, pos, len)[i..i + m] == DevRead(dev, pos + i, m)
  {
  }
}
