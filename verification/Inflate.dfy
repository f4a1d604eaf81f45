/** A decoder, following sections 3.2.3 to 3.2.7 of RFC 1951. */
module Inflate {
  import opened Arithmetic
  import opened Bytes
  import opened Bits
  import opened Options
  import opened PrefixCode
  import opened CodeWriter
  import opened RunLengths
  import opened Slots

  const END_OF_BLOCK := 256
  const CODE_LENGTHS := 19

  /** The order in which the code lengths of the code length alphabet are sent. */
  const CODE_LENGTH_ORDER: seq<nat> := [16, 17, 18, 0, 8, 7, 9, 6, 10, 5, 11, 4, 12, 3, 13, 2, 14, 1, 15]

  function OrderAt(j: nat): (k: nat)
    requires j < CODE_LENGTHS
    ensures k < CODE_LENGTHS
  {
    CODE_LENGTH_ORDER[j]
  }

  /** The code lengths of blocks with fixed codes (section 3.2.6). */
  function FixedLitLens(): (s: seq<nat>)
    ensures |s| == 288
  {
    seq(288, i => if i < 144 then 8 else if i < 256 then 9 else if i < 280 then 7 else 8)
  }

  function FixedDistLens(): (s: seq<nat>)
    ensures |s| == 32
  {
    Copies(32, 5)
  }

  datatype Item = Literal(c: byte) | Copy(len: nat, dist: nat) | End

  /** A copy from the data already decoded; it may overlap what it writes. */
  function CopyBack(data: seq<byte>, len: nat, dist: nat): (r: seq<byte>)
    requires 1 <= dist <= |data|
    ensures |r| == |data| + len
    decreases len
  {
    if len == 0 then data else CopyBack(data + [data[|data| - dist]], len - 1, dist)
  }

  /** One literal, one copy or the end of the block, and the number of bits read. */
  function ReadItem(bits: seq<bool>, pos: nat, lit: seq<nat>, dist: seq<nat>): (r: Option<(Item, nat)>)
    ensures r.Some? ==> 0 < r.value.1 <= |bits| - pos
    ensures r.Some? && r.value.0.Copy? ==> r.value.0.dist >= 1
  {
    var k := ReadSymbol(lit, bits, pos);
    if k.None? then None
    else if k.value < 256 then Some((Literal(k.value), lit[k.value]))
    else if k.value == END_OF_BLOCK then Some((End, lit[k.value]))
    else if k.value > END_OF_BLOCK + LEN_SLOTS then None
    else
      var s := k.value - END_OF_BLOCK - 1;
      var at := pos + lit[k.value];
      var extra := ReadBits(bits, at, LengthExtra(s));
      var d := ReadSymbol(dist, bits, at + LengthExtra(s));
      if extra.None? || d.None? || d.value >= DIST_SLOTS then None
      else
        var at' := at + LengthExtra(s) + dist[d.value];
        var far := ReadBits(bits, at', DistanceExtra(d.value));
        if far.None? then None
        else
          BasesPositive(d.value);
          Some((Copy(LengthBase(s) + extra.value, DistanceBase(d.value) + far.value),
                at' + DistanceExtra(d.value) - pos))
  }

  lemma BasesPositive(i: nat)
    ensures DistanceBase(i) >= 1
  {
  }

  /** The items of a block up to its end. */
  function ReadItems(bits: seq<bool>, pos: nat, lit: seq<nat>, dist: seq<nat>, data: seq<byte>): Option<(seq<byte>, nat)>
    decreases |bits| - pos
  {
    var r := ReadItem(bits, pos, lit, dist);
    if r.None? then None
    else
      var (item, n) := r.value;
      if item.End? then Some((data, pos + n))
      else if item.Literal? then ReadItems(bits, pos + n, lit, dist, data + [item.c])
      else if item.dist > |data| then None
      else ReadItems(bits, pos + n, lit, dist, CopyBack(data, item.len, item.dist))
  }

  /** The lengths of the code length alphabet, from `n` three-bit numbers. */
  function ReadCodeLengths(bits: seq<bool>, pos: nat, n: nat): (r: Option<seq<nat>>)
    requires n <= CODE_LENGTHS
    ensures r.Some? ==> |r.value| == CODE_LENGTHS
  {
    if n == 0 then Some(Copies(CODE_LENGTHS, 0))
    else
      var r := ReadCodeLengths(bits, pos, n - 1);
      var v := ReadBits(bits, pos + 3 * (n - 1), 3);
      if r.None? || v.None? then None else Some(r.value[OrderAt(n - 1) := v.value])
  }

  /** The two trees of a dynamic block: their code lengths and where they end (section 3.2.7). */
  function ReadTrees(bits: seq<bool>, pos: nat): Option<(seq<nat>, seq<nat>, nat)> {
    var hlit, hdist, hclen := ReadBits(bits, pos, 5), ReadBits(bits, pos + 5, 5), ReadBits(bits, pos + 10, 4);
    if hlit.None? || hdist.None? || hclen.None? || hclen.value + 4 > CODE_LENGTHS then None
    else
      var cl := ReadCodeLengths(bits, pos + 14, hclen.value + 4);
      if cl.None? then None
      else
        var n, m := hlit.value + 257, hdist.value + 1;
        var r := ReadLengths(bits, pos + 14 + 3 * (hclen.value + 4), cl.value, n + m, []);
        if r.None? || |r.value.0| != n + m then None
        else Some((r.value.0[..n], r.value.0[n..], r.value.1))
  }

  /** `n` whole bytes. */
  function ReadBytes(bits: seq<bool>, pos: nat, n: nat): (r: Option<seq<byte>>)
    ensures r.Some? ==> |r.value| == n
  {
    if n == 0 then Some([])
    else
      var r := ReadBytes(bits, pos, n - 1);
      var c := ReadBits(bits, pos + 8 * (n - 1), 8);
      if r.None? || c.None? || c.value >= 256 then None else Some(r.value + [c.value as byte])
  }

  /** Where the next byte starts. */
  function ByteEdge(pos: nat): (at: nat)
    ensures pos <= at < pos + 8 && at % 8 == 0
  {
    (pos + 7) / 8 * 8
  }

  /** A block without compression (section 3.2.4), from its length on: the data after it and where it ends. */
  function ReadStored(bits: seq<bool>, at: nat, data: seq<byte>): Option<(seq<byte>, nat)> {
    var len, nlen := ReadBits(bits, at, 16), ReadBits(bits, at + 16, 16);
    if len.None? || nlen.None? || len.value + nlen.value != 65535 then None
    else
      var r := ReadBytes(bits, at + 32, len.value);
      if r.None? then None else Some((data + r.value, at + 32 + 8 * len.value))
  }

  /** One block (section 3.2.3): the data after it, where it ends, and whether it is the last. */
  function ReadBlock(bits: seq<bool>, pos: nat, data: seq<byte>): Option<(seq<byte>, nat, bool)> {
    var header := ReadBits(bits, pos, 3);
    if header.None? then None
    else
      var final := header.value % 2 == 1;
      if header.value / 2 == 1 then
        var r := ReadItems(bits, pos + 3, FixedLitLens(), FixedDistLens(), data);
        if r.None? then None else Some((r.value.0, r.value.1, final))
      else if header.value / 2 == 2 then
        var trees := ReadTrees(bits, pos + 3);
        if trees.None? then None
        else
          var (lit, dist, at) := trees.value;
          var r := ReadItems(bits, at, lit, dist, data);
          if r.None? then None else Some((r.value.0, r.value.1, final))
      else if header.value / 2 == 0 then
        var r := ReadStored(bits, ByteEdge(pos + 3), data);
        if r.None? then None else Some((r.value.0, r.value.1, final))
      else None
  }

  /** A whole stream: blocks up to the last. */
  function Decode(bits: seq<bool>, pos: nat, data: seq<byte>): Option<seq<byte>>
    decreases |bits| - pos
  {
    var r := ReadBlock(bits, pos, data);
    if r.None? then None
    else
      var (data', pos', final) := r.value;
      if final then Some(data')
      else if pos' <= pos || pos' > |bits| then None
      else Decode(bits, pos', data')
  }
}
