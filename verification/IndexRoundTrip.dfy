/**
 * From the extents of a file to its image and back: writing the indexes (`lib/compress.c`), converting
 * them, and mapping an offset (`lib/zmap.c`).
 */
module IndexRoundTrip {
  import opened Arithmetic
  import opened Bytes
  import opened CompactConvert
  import opened CompactIndex
  import opened Extents
  import opened FullIndex
  import opened IndexMeaning
  import opened IndexReader
  import opened MapBlocks

  /** A file that mkfs would give full indexes. */
  predicate FullInode(inode: Inode, es: seq<Extent>) {
    !inode.compact && 5 <= inode.blkbits <= 16 && Storable(inode.B(), inode.big, es) && inode.size == FileSize(es)
  }

  /** The records that are left in the buffer by the writer are those that conversion reads. */
  lemma {:induction false} RecordsAt(b: nat, big: bool, es: seq<Extent>, n: nat, i: nat)
    requires b > 0 && i < n <= IndexCount(b, es)
    ensures Records(b, big, es, n)[8 * i..8 * i + 8] == EncodeIndex(IndexAt(b, big, es, i))
  {
    hide IndexCount, IndexAt, EncodeIndex;
    var s, e := Records(b, big, es, n - 1), EncodeIndex(IndexAt(b, big, es, n - 1));
    assert Records(b, big, es, n) == s + e;
    if i < n - 1 {
      RecordsAt(b, big, es, n - 1, i);
      assert (s + e)[8 * i..8 * i + 8] == s[8 * i..8 * i + 8];
    } else {
      assert (s + e)[8 * i..8 * i + 8] == e;
    }
  }

  lemma RecordsUnread(meta: seq<byte>, b: nat, big: bool, es: seq<Extent>)
    requires b > 0 && |meta| == LEGACY_HEADER_SIZE + 8 * IndexCount(b, es)
    requires meta[LEGACY_HEADER_SIZE..] == Records(b, big, es, IndexCount(b, es))
    ensures Unread(meta, b, big, es, 0)
  {
    hide IndexCount, IndexAt, EncodeIndex, Records;
    var n := IndexCount(b, es);
    forall i | 0 <= i < n
      ensures RecordAt(meta, b, big, es, i)
    {
      RecordsAt(b, big, es, n, i);
      assert meta[LEGACY_HEADER_SIZE + 8 * i..LEGACY_HEADER_SIZE + 8 * i + 8] == meta[LEGACY_HEADER_SIZE..][8 * i..8 * i + 8];
    }
  }

  /** `z_erofs_write_indexes` into a new buffer. */
  method WriteBuffer(b: nat, big: bool, es: seq<Extent>) returns (meta: array<byte>)
    requires b > 0 && Storable(b, big, es)
    ensures fresh(meta) && meta.Length == LEGACY_HEADER_SIZE + 8 * IndexCount(b, es)
    ensures meta[LEGACY_HEADER_SIZE..] == Records(b, big, es, IndexCount(b, es))
  {
    hide Storable, IndexCount, Records;
    meta := new byte[LEGACY_HEADER_SIZE + 8 * BlkRoundUp(FileSize(es), b)];
    assert meta.Length == LEGACY_HEADER_SIZE + 8 * IndexCount(b, es) by { CountIs(b, es); }
    var w := new IndexWriter(b, big, true, 0, meta);
    w.WriteIndexes(es);
    assert meta[..][LEGACY_HEADER_SIZE..] == meta[LEGACY_HEADER_SIZE..];
  }

  lemma CountIs(b: nat, es: seq<Extent>)
    requires b > 0
    ensures IndexCount(b, es) == BlkRoundUp(FileSize(es), b)
  {
  }

  /** An image with full indexes behind `pre`, the part of the image up to the map header. */
  method StoreFull(inode: Inode, es: seq<Extent>, pre: seq<byte>) returns (dev: seq<byte>)
    requires FullInode(inode, es) && |pre| == RoundUp(inode.metaEnd, 8)
    ensures pre <= dev && Setting(inode, dev, es)
  {
    hide Storable, IndexCount, Records, Faithful, RoundUp, FileSize;
    var meta := WriteBuffer(inode.B(), inode.big, es);
    dev := pre + meta[..];
    var n := IndexCount(inode.B(), es);
    assert dev[inode.FullBase()..inode.FullBase() + 8 * n] == meta[LEGACY_HEADER_SIZE..];
    FullIsFaithful(inode, dev, es);
    assert |es| > 0 by { SomeExtent(inode.B(), inode.big, es); }
  }

  lemma SomeExtent(b: nat, big: bool, es: seq<Extent>)
    requires b > 0 && Storable(b, big, es)
    ensures |es| > 0
  {
  }

  /** An image with compact indexes. */
  method StoreCompact(inode: Inode, es: seq<Extent>, start: nat, pre: seq<byte>, mpos: nat) returns (dev: seq<byte>)
    requires |es| > 0 && CompactInode(inode, es, start) && start < U32_LIMIT && |pre| == RoundUp(inode.metaEnd, 8)
    requires mpos % 32 == inode.CompactBase() % 32
    ensures pre <= dev && HoldsPacks(inode, dev, es, start, mpos)
  {
    hide Storable, IndexCount, Records, RoundUp, FileSize, Compactable, Unread, PacksHold, CompactSize, LayoutOf, LoSize, Pow2;
    assert Storable(inode.B(), inode.big, es) by { CompactIsStorable(inode.B(), inode.big, es, start); }
    var meta := WriteBuffer(inode.B(), inode.big, es);
    RecordsUnread(meta[..], inode.B(), inode.big, es);
    AlignedPos(inode, mpos);
    var err, extentIsize := Convert(meta, start, meta.Length, inode.blkbits, inode.blkbits, inode.twoByte, mpos, inode.big, es);
    dev := pre + meta[..];
    var n := IndexCount(inode.B(), es);
    var size := CompactSize(LayoutOf(inode.twoByte, mpos, n), n);
    assert dev[inode.CompactBase()..inode.CompactBase() + size] == meta[MAP_HEADER_SIZE..MAP_HEADER_SIZE + size];
  }

  lemma CompactIsStorable(b: nat, big: bool, es: seq<Extent>, start: nat)
    requires b > 0 && Compactable(b, big, es, start)
    ensures Storable(b, big, es)
  {
  }

  lemma AlignedPos(inode: Inode, mpos: nat)
    requires mpos % 32 == inode.CompactBase() % 32
    ensures mpos % 8 == 0
  {
    hide RoundUp;
    BaseIsAligned(inode);
    SameUnit(mpos, inode.CompactBase());
  }

  lemma SameUnit(x: nat, y: nat)
    requires x % 32 == y % 32 && y % 8 == 0
    ensures x % 8 == 0
  {
    var d := x / 32 - y / 32;
    assert x == y + 32 * d == (y / 8 + 4 * d) * 8 + 0;
    DivModUnique(x, 8, y / 8 + 4 * d, 0);
  }

  /**
   * The extents of a file come back: written, converted if the inode is compact, and mapped. `mpos` is
   * where mkfs thinks the packs are within their 32-byte unit.
   */
  method WriteAndMap(inode: Inode, es: seq<Extent>, start: nat, pre: seq<byte>, mpos: nat, at: nat, fiemap: bool)
    returns (r: Result<Map>)
    requires |es| > 0 && |pre| == RoundUp(inode.metaEnd, 8) && at < inode.size
    requires if inode.compact then
               && CompactInode(inode, es, start) && start < U32_LIMIT && mpos % 32 == inode.CompactBase() % 32
               && forall k :: 0 <= k < |es| ==> Span(inode.B(), es, k) <= CBLKCNT
             else FullInode(inode, es)
    ensures r.Ok? && Maps(inode, es, at, fiemap, r.value)
  {
    hide Storable, IndexCount, Records, RoundUp, FileSize, Compactable, HoldsPacks, Faithful, Maps, Span, Pow2;
    var dev;
    if inode.compact {
      dev := StoreCompact(inode, es, start, pre, mpos);
      CompactIsFaithful(inode, dev, es, start, mpos);
      CompactIsStorable(inode.B(), inode.big, es, start);
    } else {
      dev := StoreFull(inode, es, pre);
    }
    r := DoMapBlocks(inode, dev, at, fiemap, es);
  }

  /** The misread image exists: conversion makes it. */
  method MisreadImage(inode: Inode, pre: seq<byte>, mpos: nat) returns (dev: seq<byte>)
    requires inode.blkbits == 9 && inode.compact && !inode.twoByte && !inode.big && inode.size == FileSize(MisreadFile())
    requires |pre| == RoundUp(inode.metaEnd, 8) && mpos % 32 == inode.CompactBase() % 32
    ensures !FaithfulAt(inode, dev, MisreadFile(), 1, false) && !FaithfulAt(inode, dev, MisreadFile(), 1, true)
  {
    BlockOf512();
    MisreadFileFacts();
    hide RoundUp, FileSize, Compactable, HoldsPacks, FaithfulAt, Pow2;
    dev := StoreCompact(inode, MisreadFile(), 1, pre, mpos);
    MisreadExample(inode, dev, mpos, false);
    MisreadExample(inode, dev, mpos, true);
  }
}
