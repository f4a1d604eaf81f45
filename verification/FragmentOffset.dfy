/**
 * Where the fragment of a compressed file begins in the packed inode: a 64-bit offset of which the map
 * header holds the low half, and the index of the tail extent the high half (`lib/compress.c`, `lib/zmap.c`).
 */
module FragmentOffset {
  import opened Arithmetic
  import opened Buffers
  import opened Bytes
  import opened CompactConvert
  import opened Extents
  import opened FullIndex
  import opened IndexReader

  /** `Z_EROFS_ADVISE_FRAGMENT_PCLUSTER` */
  const FRAGMENT_PCLUSTER := 32

  /** `Z_EROFS_COMPRESSION_MAX` */
  const COMPRESSION_MAX := 4

  const WORD := 0x1_0000_0000

  /** Set in the header of a file that is a fragment as a whole. */
  const WHOLE := 0x8000_0000_0000_0000

  /** What goes into `struct z_erofs_map_header`; `clusterbits` is relative to the block size. */
  datatype Header = Header(advise: nat, alg0: nat, alg1: nat, clusterbits: nat, idataSize: nat)

  predicate HeaderOk(h: Header) {
    h.advise < 65536 && h.alg0 < COMPRESSION_MAX && h.alg1 < COMPRESSION_MAX && h.clusterbits < 8 && h.idataSize < 65536
  }

  /** `z_advise & Z_EROFS_ADVISE_FRAGMENT_PCLUSTER` */
  predicate HasFragment(advise: nat) {
    advise / FRAGMENT_PCLUSTER % 2 == 1
  }

  /** `z_erofs_write_mapheader` */
  method WriteMapHeader(meta: array<byte>, h: Header, fragmentoff: nat)
    requires meta.Length >= LEGACY_HEADER_SIZE && HeaderOk(h)
    modifies meta
    ensures Describes(meta[..8], h, fragmentoff)
    ensures meta[LEGACY_HEADER_SIZE..] == old(meta[LEGACY_HEADER_SIZE..])
  {
    var first := if HasFragment(h.advise) then Le32(fragmentoff) else Le16(0) + Le16(h.idataSize);
    var rest := Le16(h.advise) + [(16 * h.alg1 + h.alg0) as byte, h.clusterbits as byte];
    ghost var was := meta[..];
    CopyIn(meta, 0, seq(LEGACY_HEADER_SIZE, _ => 0));
    CopyIn(meta, 0, first + rest);
    assert meta[..8] == first + rest;
    HeaderReads(meta[..8], h, fragmentoff);
    assert meta[LEGACY_HEADER_SIZE..] == was[LEGACY_HEADER_SIZE..];
  }

  /** The first eight bytes of a header, field by field. */
  predicate Describes(s: seq<byte>, h: Header, fragmentoff: nat)
    requires |s| == 8
  {
    && (if HasFragment(h.advise) then U32(s, 0) == fragmentoff % WORD else U16(s, 2) == h.idataSize)
    && U16(s, 4) == h.advise && s[6] as nat % 16 == h.alg0 && s[6] as nat / 16 == h.alg1 && s[7] as nat == h.clusterbits
  }

  lemma HeaderReads(s: seq<byte>, h: Header, fragmentoff: nat)
    requires HeaderOk(h)
    requires s == (if HasFragment(h.advise) then Le32(fragmentoff) else Le16(0) + Le16(h.idataSize))
                  + (Le16(h.advise) + [(16 * h.alg1 + h.alg0) as byte, h.clusterbits as byte])
    ensures |s| == 8 && Describes(s, h, fragmentoff)
  {
    hide Le16, Le32, U16, U32, HasFragment;
    assert s[4..6] == Le16(h.advise);
    ReadLe16(s, 4, h.advise);
    DivModUnique(16 * h.alg1 + h.alg0, 16, h.alg1, h.alg0);
    if HasFragment(h.advise) {
      assert s[0..4] == Le32(fragmentoff);
      ReadLe32(s, 0, fragmentoff);
    } else {
      assert s[2..4] == Le16(h.idataSize);
      ReadLe16(s, 2, h.idataSize);
    }
  }

  /** The simplified header of a file that is a fragment as a whole: `fragmentoff | 1ULL << 63`. */
  method WriteWholeHeader(meta: array<byte>, fragmentoff: nat)
    requires meta.Length >= LEGACY_HEADER_SIZE && fragmentoff < WHOLE
    modifies meta
    ensures U64(meta[..8], 0) == fragmentoff + WHOLE
  {
    CopyIn(meta, 0, Le64(fragmentoff + WHOLE));
    assert meta[..8][0..8] == Le64(fragmentoff + WHOLE);
    ReadLe64(meta[..8], 0, fragmentoff + WHOLE);
  }

  // ----- reading -----------------------------------------------------------------------

  /**
   * `z_erofs_fill_inode_lazy`, but for inline tails. `tail` is the address in the index of the tail
   * extent's head, which `z_erofs_do_map_blocks` adds to the offset where indexes are full.
   */
  method FillInode(s: seq<byte>, full: bool, tail: nat) returns (r: Result<Header>, fragmentoff: nat)
    requires |s| == 8 && tail < WORD
    ensures s[7] >= 128 ==> r == Ok(Header(FRAGMENT_PCLUSTER, 0, 0, 0, 0)) && fragmentoff + WHOLE == U64(s, 0)
    ensures s[7] < 128 ==>
              r == if s[6] as nat % 16 < COMPRESSION_MAX then
                     Ok(Header(U16(s, 4), s[6] as nat % 16, s[6] as nat / 16, s[7] as nat % 8, 0))
                   else Err(EOPNOTSUPP)
    ensures s[7] < 128 && r.Ok? && HasFragment(U16(s, 4)) ==>
              fragmentoff % WORD == U32(s, 0) && fragmentoff / WORD == if full then tail else 0
  {
    if s[7] >= 128 {
      TopBit(s);
      return Ok(Header(FRAGMENT_PCLUSTER, 0, 0, 0, 0)), U64(s, 0) - WHOLE;
    }
    hide U16, U32, HasFragment;
    fragmentoff := 0;
    var h := Header(U16(s, 4), s[6] as nat % 16, s[6] as nat / 16, s[7] as nat % 8, 0);
    if h.alg0 >= COMPRESSION_MAX {
      return Err(EOPNOTSUPP), 0;
    }
    if HasFragment(h.advise) {
      fragmentoff := U32(s, 0);
      DivModUnique(fragmentoff, WORD, 0, U32(s, 0));
      if full {
        fragmentoff := fragmentoff + WORD * tail;
        DivModUnique(fragmentoff, WORD, tail, U32(s, 0));
      }
    }
    r := Ok(h);
  }

  lemma TopBit(s: seq<byte>)
    requires |s| == 8
    ensures U64(s, 0) >= WHOLE <==> s[7] >= 128
  {
  }

  /**
   * The tail extent of a file is written with its header, and read again: the offset of its fragment comes
   * back, with full indexes whatever it is, and with compact ones if it fits in 32 bits.
   */
  method WriteAndFill(b: nat, big: bool, full: bool, h: Header, fragmentoff: nat, e: Extent)
    returns (r: Result<Header>, found: nat)
    requires b > 0 && HeaderOk(h) && HasFragment(h.advise) && e.compressedblks == 0
    requires e.length < WORD && e.blkaddr < WORD && fragmentoff < WORD * WORD && (!full ==> fragmentoff < WORD)
    ensures r.Ok? && r.value == h.(idataSize := 0) && found == fragmentoff
  {
    hide U16, U32, HasFragment, EncodeIndex, ExtentRecords;
    var meta := new byte[LEGACY_HEADER_SIZE + 8 * Max(1, BlkNr(e.length, b))];
    var w := new IndexWriter(b, big, full, fragmentoff, meta);
    w.WriteExtent(e);
    var tail := U32(meta[..], LEGACY_HEADER_SIZE + 4);
    WriteMapHeader(meta, h, fragmentoff);
    DivModUnique(fragmentoff, WORD, fragmentoff / WORD, fragmentoff % WORD);
    HighHalf(fragmentoff);
    DivModUnique(h.clusterbits, 8, 0, h.clusterbits);
    r, found := FillInode(meta[..8], full, tail);
    assert found == found / WORD * WORD + found % WORD;
  }

  lemma HighHalf(v: nat)
    requires v < WORD * WORD
    ensures v / WORD % WORD == v / WORD && (v < WORD ==> v / WORD == 0)
  {
    assert v == v / WORD * WORD + v % WORD;
    assert v / WORD < WORD;
    DivModUnique(v / WORD, WORD, 0, v / WORD);
  }
}
