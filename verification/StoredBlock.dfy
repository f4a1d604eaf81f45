/** Blocks without compression (`kite_deflate_writestore`, `lib/kite_deflate.c`). */
module StoredBlock {
  import opened Arithmetic
  import opened Bytes
  import opened Bits
  import opened Buffers
  import opened Options
  import opened CodeWriter
  import opened Inflate
  import opened DynamicBlock

  /** The header takes one more bit, which is set, at the very start of the output. */
  function HeaderBits(off: nat): nat {
    if off == 0 then 4 else 3
  }

  function Header(off: nat, final: bool): (v: nat)
    ensures v < Pow2(HeaderBits(off)) && v % 8 == Flag(final)
  {
    assert Pow2(3) == 8 && Pow2(4) == 16;
    (if off == 0 then 8 else 0) + Flag(final)
  }

  /** The bits of a block that begins after `off` bits. */
  function StoredBits(off: nat, final: bool, data: seq<byte>): seq<bool> {
    var n := HeaderBits(off);
    ToBits(Header(off, final), n) + ToBits(0, ByteEdge(off + n) - off - n)
    + ToBits(|data|, 16) + ToBits(65535 - Min(|data|, 65535), 16) + BytesBits(data)
  }

  /** Its size: up to the next byte, two counts and the data. */
  function StoredSize(off: nat, len: nat): nat {
    ByteEdge(off + HeaderBits(off)) - off + 32 + 8 * len
  }

  lemma StoredBitsSize(off: nat, final: bool, data: seq<byte>)
    ensures |StoredBits(off, final, data)| == StoredSize(off, |data|)
  {
    hide ToBits, BytesBits, ByteEdge;
  }

  // ----- reading -----------------------------------------------------------------------

  lemma {:induction false} ReadsBytes(bits: seq<bool>, pos: nat, data: seq<byte>)
    requires BitsAt(bits, pos, BytesBits(data))
    ensures ReadBytes(bits, pos, |data|) == Some(data)
  {
    if data != [] {
      var n := |data| - 1;
      BitsAtSplit(bits, pos, BytesBits(data[..n]), ToBits(data[n], 8));
      ReadsBytes(bits, pos, data[..n]);
      Pow2Bytes();
      ReadsNumber(bits, pos + 8 * n, data[n] as nat, 8);
      assert data == data[..n] + [data[n]];
    }
  }

  lemma ReadsCount(bits: seq<bool>, at: nat, n: nat)
    requires n <= 65535 && BitsAt(bits, at, ToBits(n, 16))
    ensures ReadBits(bits, at, 16) == Some(n)
  {
    hide ToBits, BitsAt, ReadBits, Pow2;
    Pow2Bytes();
    ReadsNumber(bits, at, n, 16);
  }

  lemma ReadsCounted(bits: seq<bool>, at: nat, data: seq<byte>, more: seq<byte>)
    requires |more| <= 65535
    requires BitsAt(bits, at, ToBits(|more|, 16) + ToBits(65535 - |more|, 16) + BytesBits(more))
    ensures ReadStored(bits, at, data) == Some((data + more, at + 32 + 8 * |more|))
  {
    hide ToBits, BytesBits, BitsAt, ReadBits, ReadBytes;
    var n: nat := 65535 - |more|;
    FirstParts(bits, at, ToBits(|more|, 16), ToBits(n, 16), BytesBits(more));
    ReadsCount(bits, at, |more|);
    ReadsCount(bits, at + 16, n);
    ReadsBytes(bits, at + 32, more);
  }

  /** The three bits the decoder takes for the header. */
  lemma ReadsHeader(bits: seq<bool>, pos: nat, off: nat, final: bool)
    requires BitsAt(bits, pos, ToBits(Header(off, final), HeaderBits(off)))
    ensures ReadBits(bits, pos, 3) == Some(Flag(final))
  {
    var v, n := Header(off, final), HeaderBits(off);
    ToBitsSplit(v, 3, n - 3);
    BitsAtSplit(bits, pos, ToBits(v, 3), ToBits(Shr(v, 3), n - 3));
    ToBitsLow(v, 3);
    assert Pow2(3) == 8;
    LowHigh(v, 3);
    ShlIsTimes(Shr(v, 3), 3);
    DivModUnique(v, 8, Shr(v, 3), Low(v, 3));
    ReadsNumber(bits, pos, Flag(final), 3);
  }

  lemma EdgeShifts(off: nat, pos: nat)
    requires pos % 8 == off % 8
    ensures ByteEdge(pos + 3) == pos + ByteEdge(off + HeaderBits(off)) - off
  {
  }

  lemma FirstParts(bits: seq<bool>, pos: nat, s: seq<bool>, t: seq<bool>, u: seq<bool>)
    requires BitsAt(bits, pos, s + t + u)
    ensures BitsAt(bits, pos, s) && BitsAt(bits, pos + |s|, t) && BitsAt(bits, pos + |s| + |t|, u)
  {
    hide BitsAt;
    BitsAtSplit(bits, pos, s + t, u);
    BitsAtSplit(bits, pos, s, t);
  }

  /** A stored block reads as its data at any place that is as far into a byte as the one it was made for. */
  lemma ReadsStoredBlock(off: nat, final: bool, more: seq<byte>, bits: seq<bool>, pos: nat, data: seq<byte>)
    requires |more| <= 65535 && pos % 8 == off % 8 && BitsAt(bits, pos, StoredBits(off, final, more))
    ensures ReadBlock(bits, pos, data) == Some((data + more, pos + StoredSize(off, |more|), final))
  {
    hide ToBits, BytesBits, BitsAt, ReadBits, ReadStored, ByteEdge;
    var n := HeaderBits(off);
    var a, b := ToBits(Header(off, final), n), ToBits(0, ByteEdge(off + n) - off - n);
    var c := ToBits(|more|, 16) + ToBits(65535 - |more|, 16) + BytesBits(more);
    assert StoredBits(off, final, more) == a + b + c;
    FirstParts(bits, pos, a, b, c);
    ReadsHeader(bits, pos, off, final);
    EdgeShifts(off, pos);
    ReadsCounted(bits, ByteEdge(pos + 3), data, more);
  }

  // ----- writing -----------------------------------------------------------------------

  /** Header and padding. */
  method WriteHeader(w: BitWriter, first: bool, final: bool)
    requires w.Valid() && first == (w.Written() == [])
    requires |w.Written()| + 11 <= 8 * w.out.Length
    modifies w, w.out
    ensures w.Valid() && w.bitpos == 0
    ensures var off := old(|w.Written()|); var n := HeaderBits(off);
      w.Written() == old(w.Written()) + ToBits(Header(off, final), n) + ToBits(0, ByteEdge(off + n) - off - n)
  {
    hide ToBits, BytesBits, Pow2;
    assert (w.Written() == []) <==> |w.Written()| == 0;
    var v := (if first then 8 else 0) + Flag(final);
    assert v == Header(|w.Written()|, final);
    w.WriteBits(v, if first then 4 else 3);
    ghost var s := w.Written();
    w.Flush();
    NoInflight(w.inflight);
    assert w.Written() == s + ToBits(0, 8 * w.posOut - |s|);
  }

  lemma NoInflight(v: nat)
    ensures ToBits(v, 0) == []
  {
  }

  /** `flushbits` at a byte boundary adds nothing. */
  method FlushAligned(w: BitWriter)
    requires w.Valid() && |w.Written()| % 8 == 0 && |w.Written()| <= 8 * w.out.Length
    modifies w, w.out
    ensures w.Valid() && w.bitpos == 0 && w.Written() == old(w.Written())
  {
    hide ToBits, BytesBits;
    ghost var s := w.Written();
    w.Flush();
    NoInflight(w.inflight);
    NoInflight(0);
    assert 8 * w.posOut - |s| == 0;
  }

  /** The two counts. */
  method WriteCounts(w: BitWriter, n: nat)
    requires w.Valid() && n <= 65535 && |w.Written()| % 8 == 0 && |w.Written()| + 32 <= 8 * w.out.Length
    modifies w, w.out
    ensures w.Valid() && w.bitpos == 0
    ensures w.Written() == old(w.Written()) + ToBits(n, 16) + ToBits(65535 - n, 16)
  {
    hide ToBits, BytesBits, Pow2;
    Pow2Bytes();
    w.WriteBits(n, 16);
    w.WriteBits(65535 - n, 16);
    FlushAligned(w);
  }

  /** `kite_deflate_writestore`; its loop runs once, since no block has more than 65535 bytes. */
  method WriteStored(w: BitWriter, first: bool, final: bool, data: seq<byte>)
    requires w.Valid() && first == (w.Written() == []) && |data| <= 65535
    requires |w.Written()| + StoredSize(|w.Written()|, |data|) <= 8 * w.out.Length
    modifies w, w.out
    ensures w.Valid() && w.Written() == old(w.Written()) + StoredBits(old(|w.Written()|), final, data)
  {
    hide ToBits, BytesBits, ByteEdge;
    hide Header, HeaderBits;
    ghost var off := |w.Written()|;
    WriteHeader(w, first, final);
    WriteCounts(w, |data|);
    w.Append(data);
  }
}
