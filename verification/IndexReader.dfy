/**
 * Loading the index of one logical cluster from an image (`lib/zmap.c`), in the full and in
 * the compact format.
 */
module IndexReader {
  import opened Arithmetic
  import opened Bytes
  import opened Extents
  import opened FullIndex
  import opened CompactIndex
  import opened CompactConvert

  const EFSCORRUPTED := 117

  datatype Result<+T> = Ok(value: T) | Err(error: nat)

  /**
   * What a reader knows of a compressed inode. `metaEnd` is the image offset of the end of the
   * inode and its xattrs.
   */
  datatype Inode = Inode(size: nat, blkbits: nat, metaEnd: nat, compact: bool, big: bool,
                         twoByte: bool, interlaced: bool, alg: nat)
  {
    function B(): nat { Pow2(blkbits) }

    /** Number of logical clusters. */
    function Total(): nat { BlkRoundUp(size, B()) }

    /** Image offset of the first full index: `Z_EROFS_FULL_INDEX_ALIGN`. */
    function FullBase(): nat { RoundUp(metaEnd, 8) + 16 }

    /** Image offset of the first pack of compact indexes. */
    function CompactBase(): nat { RoundUp(metaEnd, 8) + 8 }
  }

  /** What loading an index tells; an index marked with bit 11 holds the block count `cblks`. */
  datatype Loaded =
    | LoadedHead(headtype: nat, clusterofs: nat, pblk: nat, partial: bool)
    | LoadedNonHead(delta0: nat, delta1: nat, marked: bool, cblks: nat)

  // ----- the full format ---------------------------------------------------------------

  /** The meaning of one full record, or the reason it is refused. */
  function InterpretFull(inode: Inode, rec: seq<byte>): Result<Loaded>
    requires |rec| == 8
  {
    var advise := U16(rec, 0);
    match advise % 4
    case 2 =>
      var d0, d1 := U16(rec, 4), U16(rec, 6);
      if HasCblkcnt(d0) then
        if inode.big then Ok(LoadedNonHead(1, d1, true, WithoutCblkcnt(d0))) else Err(EFSCORRUPTED)
      else Ok(LoadedNonHead(d0, d1, false, 0))
    case 3 => Err(EOPNOTSUPP)
    case t => Ok(LoadedHead(t, U16(rec, 2), U32(rec, 4), advise / PARTIAL_REF % 2 == 1))
  }

  /** `legacy_load_cluster_from_disk` */
  function LoadFull(inode: Inode, dev: seq<byte>, lcn: nat): Result<Loaded>
  {
    InterpretFull(inode, DevRead(dev, inode.FullBase() + 8 * lcn, 8))
  }

  // ----- one compact pack --------------------------------------------------------------

  /** `decode_compactedbits`: the low part and the type of entry `i`. */
  function DecodeLow(ds: nat, lo: nat, p: seq<byte>, i: nat): (v: nat)
    requires (ds == 2 || ds == 4) && lo > 0 && i < Vcnt(ds) && |p| == ds * Vcnt(ds)
    ensures v < lo
  {
    SlotPlace(ds, i);
    U32(p, SlotByte(ds, i)) / Weight(SlotRem(ds, i)) % lo
  }

  function DecodeType(ds: nat, lo: nat, p: seq<byte>, i: nat): (t: nat)
    requires (ds == 2 || ds == 4) && lo > 0 && i < Vcnt(ds) && |p| == ds * Vcnt(ds)
    ensures t < 4
  {
    SlotPlace(ds, i);
    U32(p, SlotByte(ds, i)) / Weight(SlotRem(ds, i)) / lo % 4
  }

  predicate Pack(ds: nat, lo: nat, p: seq<byte>) {
    (ds == 2 || ds == 4) && lo > 0 && |p| == ds * Vcnt(ds)
  }

  /** `get_compacted_la_distance`: clusters from entry `i` to the next head, as far as the pack tells. */
  function LaDistance(ds: nat, lo: nat, p: seq<byte>, i: nat): nat
    requires Pack(ds, lo, p) && i < Vcnt(ds)
    decreases Vcnt(ds) - i
  {
    if DecodeType(ds, lo, p, i) != NONHEAD then 0
    else if i + 1 < Vcnt(ds) then 1 + LaDistance(ds, lo, p, i + 1)
    else if HasCblkcnt(DecodeLow(ds, lo, p, i)) then 1
    else DecodeLow(ds, lo, p, i)
  }

  /** Blocks of the extents whose heads precede entry `i` in the pack, one block each. */
  function CountSmall(ds: nat, lo: nat, p: seq<byte>, i: int): nat
    requires Pack(ds, lo, p) && i < Vcnt(ds)
    decreases i
  {
    if i <= 0 then 0
    else
      var j := i - 1;
      var j' := if DecodeType(ds, lo, p, j) == NONHEAD then j - DecodeLow(ds, lo, p, j) else j;
      (if j' >= 0 then 1 else 0) + CountSmall(ds, lo, p, j')
  }

  /** The same for big pclusters, whose block counts are in the pack; a stray distance is an error. */
  function CountBig(ds: nat, lo: nat, p: seq<byte>, i: int): Result<nat>
    requires Pack(ds, lo, p) && i < Vcnt(ds)
    decreases i
  {
    if i <= 0 then Ok(0)
    else
      var j := i - 1;
      var low := DecodeLow(ds, lo, p, j);
      if DecodeType(ds, lo, p, j) == NONHEAD then
        if HasCblkcnt(low) then Plus(CountBig(ds, lo, p, j - 1), WithoutCblkcnt(low))
        else if low <= 1 then Err(EFSCORRUPTED)
        else CountBig(ds, lo, p, j - (low - 2))
      else Plus(CountBig(ds, lo, p, j), 1)
  }

  function Plus(r: Result<nat>, n: nat): Result<nat> {
    match r
    case Ok(v) => Ok(v + n)
    case Err(e) => Err(e)
  }

  /** `unpack_compacted_index` for entry `i` of the pack `p`. */
  function Unpack(ds: nat, lo: nat, big: bool, p: seq<byte>, i: nat, lookahead: bool): Result<Loaded>
    requires Pack(ds, lo, p) && i < Vcnt(ds)
  {
    var low, t := DecodeLow(ds, lo, p, i), DecodeType(ds, lo, p, i);
    if t == NONHEAD then
      var d1 := if lookahead then LaDistance(ds, lo, p, i) else 0;
      if HasCblkcnt(low) then
        if big then Ok(LoadedNonHead(1, d1, true, WithoutCblkcnt(low))) else Err(EFSCORRUPTED)
      else if i + 1 != Vcnt(ds) then Ok(LoadedNonHead(low, d1, false, 0))
      else
        var plow := if DecodeType(ds, lo, p, i - 1) != NONHEAD then 0
                    else if HasCblkcnt(DecodeLow(ds, lo, p, i - 1)) then 1
                    else DecodeLow(ds, lo, p, i - 1);
        Ok(LoadedNonHead(plow + 1, d1, false, 0))
    else
      var base := U32(p, |p| - 4);
      var n := if big then CountBig(ds, lo, p, i) else Ok(1 + CountSmall(ds, lo, p, i));
      match n
      case Ok(nblk) => Ok(LoadedHead(t, low, (base + nblk) % U32_LIMIT, false))
      case Err(e) => Err(e)
  }

  /** The split of a file's compact indexes, as the reader derives it. */
  function ReaderLayout(inode: Inode): Layout {
    var init := InitialEntries(inode.CompactBase());
    Layout(init, if inode.twoByte && init < inode.Total() then (inode.Total() - init) / 16 * 16 else 0)
  }

  /** `compacted_load_cluster_from_disk` */
  function LoadCompact(inode: Inode, dev: seq<byte>, lcn: nat, lookahead: bool): Result<Loaded> {
    if lcn >= inode.Total() then Err(EINVAL)
    else
      var l := ReaderLayout(inode);
      var ds := EntrySize(l, lcn);
      EntryInPack(l, lcn);
      var at := inode.CompactBase() + EntryPos(l, PackStart(l, lcn));
      if (ds == 4 && inode.blkbits <= 14) || (ds == 2 && inode.blkbits <= 12) then
        Unpack(ds, LoSize(inode.blkbits), inode.big, DevRead(dev, at, ds * Vcnt(ds)), EntryIndex(l, lcn), lookahead)
      else Err(EOPNOTSUPP)
  }

  /** `z_erofs_load_cluster_from_disk` */
  function LoadCluster(inode: Inode, dev: seq<byte>, lcn: nat, lookahead: bool): Result<Loaded> {
    if inode.compact then LoadCompact(inode, dev, lcn, lookahead) else LoadFull(inode, dev, lcn)
  }
}
