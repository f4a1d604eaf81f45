/**
 * The full (non-compact) logical cluster indexes: one 8-byte record per logical cluster,
 * as `lib/compress.c` writes them.
 */
module FullIndex {
  import opened Arithmetic
  import opened Bytes
  import opened Extents

  const PLAIN := 0
  const HEAD1 := 1
  const NONHEAD := 2

  /** `Z_EROFS_LI_D0_CBLKCNT`: marks a `delta[0]` that holds a block count. */
  const CBLKCNT := 2048

  /** `Z_EROFS_LI_PARTIAL_REF` */
  const PARTIAL_REF := 32768

  /** `Z_EROFS_LEGACY_MAP_HEADER_SIZE`: the map header and the reserved space before the indexes. */
  const LEGACY_HEADER_SIZE := 16

  /** `struct z_erofs_lcluster_index`, before it is laid out in bytes. */
  datatype Index =
    | Head(plain: bool, partial: bool, clusterofs: nat, blkaddr: nat)
    | NonHead(clusterofs: nat, delta0: nat, delta1: nat)

  function EncodeIndex(i: Index): (s: seq<byte>)
    ensures |s| == 8
  {
    match i
    case Head(plain, partial, clusterofs, blkaddr) =>
      Le16((if plain then PLAIN else HEAD1) + (if partial then PARTIAL_REF else 0))
      + Le16(clusterofs) + Le32(blkaddr)
    case NonHead(clusterofs, delta0, delta1) =>
      Le16(NONHEAD) + Le16(clusterofs) + Le16(delta0) + Le16(delta1)
  }

  /** `delta[0]` of the cluster at distance `d0 >= 1` from its head. */
  function Delta0(big: bool, e: Extent, d0: nat): nat {
    if d0 == 1 && big then e.compressedblks + CBLKCNT
    else if d0 >= CBLKCNT then CBLKCNT - 1
    else d0
  }

  /** The index of the cluster at distance `d0` from the head of `e`, which has `span` clusters in all. */
  function ExtentIndex(big: bool, ofs: nat, e: Extent, span: nat, d0: nat): Index
    requires d0 <= span
  {
    if d0 == 0 then Head(e.raw, e.partial && span > 0, ofs, e.blkaddr)
    else NonHead(ofs, Delta0(big, e, d0), span - d0)
  }

  /** The index that describes logical cluster `lcn` of a file made of `es`. */
  function IndexAt(b: nat, big: bool, es: seq<Extent>, lcn: nat): Index
    requires b > 0 && lcn < IndexCount(b, es)
  {
    if |es| == 0 then Head(true, false, 0, 0) else
    match SlotOf(b, es, lcn)
    case HeadOf(k) => Head(es[k].raw, es[k].partial, BlkOff(Pos(es, k), b), es[k].blkaddr)
    case Inside(k) => ExtentIndex(big, BlkOff(Pos(es, k), b), es[k], Span(b, es, k), lcn - BlkNr(Pos(es, k), b))
    case Tail => Head(true, false, BlkOff(FileSize(es), b), 0)
  }

  /** The records of the first `n` clusters of an extent. */
  function ExtentRecords(big: bool, ofs: nat, e: Extent, span: nat, n: nat): (s: seq<byte>)
    requires n <= span + 1
    ensures |s| == 8 * n
  {
    if n == 0 then [] else ExtentRecords(big, ofs, e, span, n - 1) + EncodeIndex(ExtentIndex(big, ofs, e, span, n - 1))
  }

  /** The records of the first `n` logical clusters of a file. */
  function Records(b: nat, big: bool, es: seq<Extent>, n: nat): (s: seq<byte>)
    requires b > 0 && n <= IndexCount(b, es)
    ensures |s| == 8 * n
  {
    if n == 0 then [] else Records(b, big, es, n - 1) + EncodeIndex(IndexAt(b, big, es, n - 1))
  }

  /** The part of `struct z_erofs_compress_ictx` that writes indexes. */
  class IndexWriter {
    const b: nat
    const big: bool
    const full: bool
    const fragmentoff: nat
    const meta: array<byte>
    var metacur: nat
    var clusterofs: nat

    /** `full` is the layout whose fragment extents have no blocks; `fragmentoff` is that of the inode. */
    constructor (b: nat, big: bool, full: bool, fragmentoff: nat, meta: array<byte>)
      ensures this.b == b && this.big == big && this.full == full && this.fragmentoff == fragmentoff && this.meta == meta
      ensures metacur == LEGACY_HEADER_SIZE && clusterofs == 0
    {
      this.b, this.big, this.full, this.fragmentoff, this.meta := b, big, full, fragmentoff, meta;
      metacur, clusterofs := LEGACY_HEADER_SIZE, 0;
    }

    /** The extent with the address that its head gets: a fragment without blocks stores the high half of its offset. */
    function Addressed(e: Extent): Extent {
      if full && e.compressedblks == 0 then e.(blkaddr := fragmentoff / 0x1_0000_0000) else e
    }

    /** `memcpy(ctx->metacur, &di, sizeof(di)); ctx->metacur += sizeof(di);` */
    method Put(i: Index)
      requires metacur + 8 <= meta.Length
      modifies this`metacur, meta
      ensures metacur == old(metacur) + 8
      ensures meta[..metacur] == old(meta[..metacur]) + EncodeIndex(i)
    {
      var bytes := EncodeIndex(i);
      for n := 0 to 8
        invariant metacur == old(metacur)
        invariant meta[..metacur + n] == old(meta[..metacur]) + bytes[..n]
      {
        meta[metacur + n] := bytes[n];
        assert meta[..metacur + n + 1] == meta[..metacur + n] + [bytes[n]];
        assert bytes[..n + 1] == bytes[..n] + [bytes[n]];
      }
      assert bytes[..8] == bytes;
      metacur := metacur + 8;
    }

    /** The body of the loop of `z_erofs_write_extent`. */
    method PutOne(e: Extent, d0: nat, d1: nat)
      requires metacur + 8 <= meta.Length && d1 > 0
      modifies this`metacur, meta
      ensures metacur == old(metacur) + 8
      ensures meta[..metacur] == old(meta[..metacur]) + EncodeIndex(ExtentIndex(big, clusterofs, Addressed(e), d0 + d1, d0))
    {
      hide EncodeIndex;
      if d0 == 1 && big {
        Put(NonHead(clusterofs, e.compressedblks + CBLKCNT, d1));
      } else if d0 != 0 {
        if d0 >= CBLKCNT {
          Put(NonHead(clusterofs, CBLKCNT - 1, d1));
        } else {
          Put(NonHead(clusterofs, d0, d1));
        }
      } else {
        Put(Head(e.raw, e.partial, clusterofs, if full && e.compressedblks == 0 then fragmentoff / 0x1_0000_0000 else e.blkaddr));
      }
    }

    /** `z_erofs_write_extent` */
    method WriteExtent(e: Extent)
      requires b > 0 && clusterofs < b
      requires clusterofs + e.length < 0x1_0000_0000
      requires metacur + 8 * Max(1, BlkNr(clusterofs + e.length, b)) <= meta.Length
      modifies this, meta
      ensures var span := BlkNr(old(clusterofs) + e.length, b);
        && metacur == old(metacur) + 8 * Max(1, span)
        && clusterofs == (if span == 0 then 0 else BlkOff(old(clusterofs) + e.length, b))
        && meta[..metacur] == old(meta[..metacur]) + ExtentRecords(big, old(clusterofs), Addressed(e), span, Max(1, span))
      ensures U32(meta[..], old(metacur) + 4)
                == (if full && e.compressedblks == 0 then fragmentoff / 0x1_0000_0000 else e.blkaddr) % 0x1_0000_0000
    {
      ghost var before, ofs, span := meta[..metacur], clusterofs, BlkNr(clusterofs + e.length, b);
      if BlkNr(clusterofs + e.length, b) == 0 {
        Put(Head(e.raw, false, clusterofs, if full && e.compressedblks == 0 then fragmentoff / 0x1_0000_0000 else e.blkaddr));
        clusterofs := 0;
        OneRecord(big, ofs, Addressed(e));
      } else {
        WriteClusters(e);
      }
      hide EncodeIndex, ExtentIndex, ExtentRecords;
      HeadWord(meta[..], before, big, ofs, Addressed(e), span, Max(1, span));
    }

    /** The loop of `z_erofs_write_extent`. */
    method WriteClusters(e: Extent)
      requires b > 0 && clusterofs < b && BlkNr(clusterofs + e.length, b) > 0
      requires metacur + 8 * BlkNr(clusterofs + e.length, b) <= meta.Length
      modifies this, meta
      ensures var span := BlkNr(old(clusterofs) + e.length, b);
        && metacur == old(metacur) + 8 * span
        && clusterofs == BlkOff(old(clusterofs) + e.length, b)
        && meta[..metacur] == old(meta[..metacur]) + ExtentRecords(big, old(clusterofs), Addressed(e), span, span)
    {
      hide BlkNr, BlkOff, BlkPos, BlkRoundUp, EncodeIndex, ExtentIndex;
      var count, co := e.length, clusterofs;
      var d0, d1 := 0, BlkNr(clusterofs + count, b);
      ghost var ofs, span, x, out := clusterofs, d1, Addressed(e), meta[..metacur];
      BlkPosNext(0, b);
      while d0 == 0 || co + count >= b
        invariant d0 + d1 == span && 0 <= d0 <= span
        invariant co == (if d0 == 0 then ofs else 0)
        invariant co + count == ofs + e.length - BlkPos(d0, b) && count >= 0
        invariant metacur == old(metacur) + 8 * d0 && clusterofs == ofs
        invariant meta[..metacur] == out + ExtentRecords(big, ofs, x, span, d0)
        decreases span - d0
      {
        BlkFits(ofs + e.length, b, d0 + 1);
        BlkPosNext(d0, b);
        PutOne(e, d0, d1);
        count := count - (b - co);
        co := 0;
        d0, d1 := d0 + 1, d1 - 1;
      }
      BlkUnique(ofs + e.length, b, d0, co + count);
      clusterofs := co + count;
    }

    /** `z_erofs_write_indexes_final` */
    method WriteFinal()
      requires metacur + (if clusterofs == 0 then 0 else 8) <= meta.Length
      modifies this, meta
      ensures clusterofs == old(clusterofs)
      ensures metacur == old(metacur) + (if clusterofs == 0 then 0 else 8)
      ensures meta[..metacur] == old(meta[..metacur])
                + (if clusterofs == 0 then [] else EncodeIndex(Head(true, false, clusterofs, 0)))
    {
      if clusterofs == 0 {
        return;
      }
      Put(Head(true, false, clusterofs, 0));
    }

    /** The first `k` extents are indexed behind `header`. */
    ghost predicate Indexed(es: seq<Extent>, k: nat, header: seq<byte>)
      requires b > 0 && k <= |es|
      reads this, meta
    {
      && Written(b, es, k) <= IndexCount(b, es)
      && metacur == LEGACY_HEADER_SIZE + 8 * Written(b, es, k) <= meta.Length
      && clusterofs == Carried(b, es, k)
      && meta[..metacur] == header + Records(b, big, es, Written(b, es, k))
    }

    method WriteNext(es: seq<Extent>, k: nat, ghost header: seq<byte>)
      requires b > 0 && Storable(b, big, es) && k < |es| && Indexed(es, k, header)
      requires meta.Length == LEGACY_HEADER_SIZE + 8 * IndexCount(b, es)
      modifies this, meta
      ensures Indexed(es, k + 1, header)
    {
      hide BlkNr, BlkOff, BlkPos, BlkRoundUp, Storable, EncodeIndex, IndexAt, ExtentRecords, Max, Records;
      hide Pos, Written, Carried, FileSize, IndexCount, Span;
      WriteStep(b, big, es, k);
      StorableAt(b, big, es, k);
      assert Addressed(es[k]) == es[k];
      WriteExtent(es[k]);
    }

    /**
     * `z_erofs_write_indexes`: the buffer mkfs allocates, one record per logical cluster,
     * is filled exactly, and the record of each cluster is the one `IndexAt` defines from
     * the absolute offsets of the extents.
     */
    method WriteIndexes(es: seq<Extent>)
      requires b > 0 && Storable(b, big, es)
      requires metacur == LEGACY_HEADER_SIZE
      requires meta.Length == LEGACY_HEADER_SIZE + 8 * IndexCount(b, es)
      modifies this, meta
      ensures metacur == meta.Length
      ensures meta[..] == old(meta[..LEGACY_HEADER_SIZE]) + Records(b, big, es, IndexCount(b, es))
    {
      hide BlkNr, BlkOff, BlkPos, BlkRoundUp, Storable, EncodeIndex, IndexAt, ExtentRecords, Max;
      hide Pos, Written, Carried, FileSize, IndexCount, Span;
      ghost var header := meta[..LEGACY_HEADER_SIZE];
      clusterofs := 0;
      NothingWritten(b, es);
      assert Records(b, big, es, 0) == [];
      hide Records;
      var k := 0;
      while k < |es|
        invariant k <= |es| && Indexed(es, k, header)
      {
        WriteNext(es, k, header);
        k := k + 1;
      }
      FinalStep(b, big, es);
      WriteFinal();
      assert meta[..] == meta[..metacur];
    }
  }

  lemma OneRecord(big: bool, ofs: nat, e: Extent)
    ensures ExtentRecords(big, ofs, e, 0, 1) == EncodeIndex(Head(e.raw, false, ofs, e.blkaddr))
  {
    hide EncodeIndex;
    assert ExtentRecords(big, ofs, e, 0, 0) == [];
  }

  lemma {:induction false} FirstRecord(big: bool, ofs: nat, e: Extent, span: nat, n: nat)
    requires 1 <= n <= span + 1
    ensures ExtentRecords(big, ofs, e, span, n)[..8] == EncodeIndex(ExtentIndex(big, ofs, e, span, 0))
  {
    hide EncodeIndex, ExtentIndex;
    if n == 1 {
      assert ExtentRecords(big, ofs, e, span, 0) == [];
    } else {
      FirstRecord(big, ofs, e, span, n - 1);
    }
  }

  /** The address word of the first record. */
  lemma HeadWord(meta: seq<byte>, before: seq<byte>, big: bool, ofs: nat, e: Extent, span: nat, n: nat)
    requires 1 <= n <= span + 1 && |before| + 8 * n <= |meta|
    requires meta[..|before| + 8 * n] == before + ExtentRecords(big, ofs, e, span, n)
    ensures U32(meta, |before| + 4) == e.blkaddr % 0x1_0000_0000
  {
    hide EncodeIndex, ExtentRecords, Le32, U32;
    FirstRecord(big, ofs, e, span, n);
    var p := |before|;
    RecordBehind(meta, before, ExtentRecords(big, ofs, e, span, n));
    HeadBytes(e.raw, e.partial && span > 0, ofs, e.blkaddr);
    assert meta[p + 4..p + 8] == meta[p..p + 8][4..];
    ReadLe32(meta, p + 4, e.blkaddr);
  }

  lemma RecordBehind(meta: seq<byte>, before: seq<byte>, r: seq<byte>)
    requires |r| >= 8 && |before| + |r| <= |meta| && meta[..|before| + |r|] == before + r
    ensures meta[|before|..|before| + 8] == r[..8]
  {
    var p := |before|;
    forall i | 0 <= i < 8
      ensures meta[p..p + 8][i] == r[..8][i]
    {
      assert meta[..p + |r|][p + i] == (before + r)[p + i];
    }
  }

  lemma HeadBytes(plain: bool, partial: bool, ofs: nat, addr: nat)
    ensures EncodeIndex(Head(plain, partial, ofs, addr))[4..] == Le32(addr)
  {
    hide Le32;
  }

  /** What writing extent `k` does to the number of clusters written, the offset carried and the records. */
  lemma WriteStep(b: nat, big: bool, es: seq<Extent>, k: nat)
    requires b > 0 && Storable(b, big, es) && k < |es|
    ensures var ofs, w := Carried(b, es, k), Written(b, es, k);
      var span := BlkNr(ofs + es[k].length, b);
      && ofs < b && ofs + es[k].length < 0x1_0000_0000
      && w + Max(1, span) == Written(b, es, k + 1) <= IndexCount(b, es)
      && Carried(b, es, k + 1) == (if span == 0 then 0 else BlkOff(ofs + es[k].length, b))
      && Records(b, big, es, w + Max(1, span))
           == Records(b, big, es, w) + ExtentRecords(big, ofs, es[k], span, Max(1, span))
  {
    hide BlkNr, BlkOff, BlkPos, BlkRoundUp, Storable, Records, ExtentRecords;
    hide Pos, Written, Carried, FileSize, IndexCount, Span;
    ExtentStep(b, big, es, k);
    StorableAt(b, big, es, k);
    BlkSplit(Pos(es, k), b);
    ExtentRecordsFit(b, big, es, k, Max(1, Span(b, es, k)));
  }

  lemma NothingWritten(b: nat, es: seq<Extent>)
    requires b > 0
    ensures Written(b, es, 0) == Carried(b, es, 0) == 0
  {
    BlkPosNext(0, b);
    BlkUnique(0, b, 0, 0);
  }

  /** Clusters indexed once the first `k` extents are written. */
  ghost function Written(b: nat, es: seq<Extent>, k: nat): nat
    requires b > 0 && k <= |es|
  {
    if k > 0 && BlkNr(Pos(es, k), b) == BlkNr(Pos(es, k - 1), b) then BlkNr(Pos(es, k), b) + 1 else BlkNr(Pos(es, k), b)
  }

  /** The cluster offset carried to the next extent: 0 after a raw tail. */
  ghost function Carried(b: nat, es: seq<Extent>, k: nat): nat
    requires b > 0 && k <= |es|
  {
    if k > 0 && BlkNr(Pos(es, k), b) == BlkNr(Pos(es, k - 1), b) then 0 else BlkOff(Pos(es, k), b)
  }

  lemma ExtentStep(b: nat, big: bool, es: seq<Extent>, k: nat)
    requires b > 0 && Storable(b, big, es) && k < |es|
    ensures Written(b, es, k) == BlkNr(Pos(es, k), b) && Carried(b, es, k) == BlkOff(Pos(es, k), b)
    ensures Span(b, es, k) == BlkNr(BlkOff(Pos(es, k), b) + es[k].length, b)
    ensures Written(b, es, k + 1) == BlkNr(Pos(es, k), b) + Max(1, Span(b, es, k)) <= IndexCount(b, es)
    ensures Carried(b, es, k + 1)
              == (if Span(b, es, k) == 0 then 0 else BlkOff(BlkOff(Pos(es, k), b) + es[k].length, b))
  {
    hide BlkNr, BlkOff, BlkPos, BlkRoundUp;
    Advance(Pos(es, k), es[k].length, b);
    if k > 0 {
      HeadsIncrease(b, big, es, k - 1, k);
    }
    BlkRoundUpIs(FileSize(es), b);
    OrderedPos(b, es, k + 1, |es|);
    if Span(b, es, k) == 0 {
      LastMayStayInside(b, big, es, k);
    }
  }

  /** Only a raw tail can end in the cluster it starts in, and then it leaves part of it unused. */
  lemma LastMayStayInside(b: nat, big: bool, es: seq<Extent>, k: nat)
    requires b > 0 && Storable(b, big, es) && k < |es| && Span(b, es, k) == 0
    ensures k + 1 == |es| && es[k].raw && BlkOff(FileSize(es), b) != 0
  {
    hide BlkNr, BlkOff, BlkPos, BlkRoundUp;
    assert ExtentAt(b, big, es, k);
    Advance(Pos(es, k), es[k].length, b);
    BlkFits(BlkOff(Pos(es, k), b) + es[k].length, b, 1);
    BlkSplit(BlkOff(Pos(es, k), b) + es[k].length, b);
    BlkPosNext(0, b);
  }

  /** Cluster `d0` of extent `k` is described by the index the writer gives it. */
  lemma IndexInExtent(b: nat, big: bool, es: seq<Extent>, k: nat, d0: nat)
    requires b > 0 && Storable(b, big, es) && k < |es|
    requires d0 < Max(1, Span(b, es, k)) && BlkNr(Pos(es, k), b) + d0 < IndexCount(b, es)
    ensures 0 <= Span(b, es, k)
    ensures IndexAt(b, big, es, BlkNr(Pos(es, k), b) + d0)
              == ExtentIndex(big, BlkOff(Pos(es, k), b), es[k], Span(b, es, k), d0)
  {
    hide BlkNr, BlkOff, BlkRoundUp, Storable, SlotOf, Pos;
    OwnSlot(b, big, es, k, d0);
    StorableAt(b, big, es, k);
    if Span(b, es, k) == 0 {
      LastMayStayInside(b, big, es, k);
    }
  }

  /** The records written for extent `k` are the file's records of its clusters. */
  lemma {:induction false} ExtentRecordsFit(b: nat, big: bool, es: seq<Extent>, k: nat, n: nat)
    requires b > 0 && Storable(b, big, es) && k < |es| && 0 <= Span(b, es, k)
    requires n <= Max(1, Span(b, es, k)) && BlkNr(Pos(es, k), b) + n <= IndexCount(b, es)
    ensures Records(b, big, es, BlkNr(Pos(es, k), b) + n)
              == Records(b, big, es, BlkNr(Pos(es, k), b))
                 + ExtentRecords(big, BlkOff(Pos(es, k), b), es[k], Span(b, es, k), n)
  {
    hide BlkNr, BlkOff, BlkPos, BlkRoundUp;
    hide IndexAt, ExtentIndex, EncodeIndex, Storable, Pos;
    if n > 0 {
      ExtentRecordsFit(b, big, es, k, n - 1);
      IndexInExtent(b, big, es, k, n - 1);
    }
  }

  /** What is left after the last extent: nothing, or the record that ends it. */
  lemma FinalStep(b: nat, big: bool, es: seq<Extent>)
    requires b > 0 && Storable(b, big, es)
    ensures Carried(b, es, |es|) == 0 ==> Written(b, es, |es|) == IndexCount(b, es)
    ensures Carried(b, es, |es|) != 0 ==>
      && Written(b, es, |es|) + 1 == IndexCount(b, es)
      && IndexAt(b, big, es, IndexCount(b, es) - 1) == Head(true, false, Carried(b, es, |es|), 0)
  {
    hide BlkNr, BlkOff, BlkPos, BlkRoundUp;
    var n := |es|;
    ExtentStep(b, big, es, n - 1);
    BlkRoundUpIs(FileSize(es), b);
    if Carried(b, es, n) != 0 {
      OrderedPos(b, es, n - 1, n);
      SlotUnique(b, big, es, BlkNr(FileSize(es), b), Tail);
    } else if Span(b, es, n - 1) == 0 {
      LastMayStayInside(b, big, es, n - 1);
    }
  }
}
