/** Mapping a file offset to the extent that holds it (`lib/zmap.c`). */
module MapBlocks {
  import opened Arithmetic
  import opened Bytes
  import opened Extents
  import opened FullIndex
  import opened CompactIndex
  import opened CompactConvert
  import opened IndexReader
  import opened IndexMeaning

  /** The layouts of raw blocks, as values of `m_algorithmformat`. */
  const SHIFTED := 4
  const INTERLACED := 5

  /** The filled-in fields of `struct erofs_map_blocks`. */
  datatype Map = Map(la: nat, llen: int, pa: nat, plen: nat, fullMapped: bool, partialRef: bool, alg: nat)

  /** `(lcn << lclusterbits) | clusterofs`, where the two overlap if the offset is not within a cluster. */
  function JoinPos(lcn: nat, clusterofs: nat, b: nat): nat
    requires b > 0
  {
    BlkPos(Or(lcn, BlkNr(clusterofs, b)), b) + BlkOff(clusterofs, b)
  }

  lemma JoinIsPos(lcn: nat, clusterofs: nat, b: nat)
    requires b > 0 && clusterofs < b
    ensures JoinPos(lcn, clusterofs, b) == BlkPos(lcn, b) + clusterofs
  {
    BlkPosNext(0, b);
    BlkUnique(clusterofs, b, 0, clusterofs);
  }

  /** The setting of a lookup: an image that describes the extents `es` of the file. */
  ghost predicate Setting(inode: Inode, dev: seq<byte>, es: seq<Extent>) {
    && inode.blkbits >= 5 && |es| > 0
    && Storable(inode.B(), inode.big, es) && inode.size == FileSize(es) && Faithful(inode, dev, es)
  }

  /** The extent that holds the byte at `at`, searching backwards from extent `n`. */
  function FindExtent(es: seq<Extent>, n: nat, at: nat): (k: nat)
    requires 0 < n <= |es|
    ensures k < n && Pos(es, k) <= at && (at < Pos(es, n) ==> at < Pos(es, k + 1))
  {
    if Pos(es, n - 1) <= at || n == 1 then n - 1 else FindExtent(es, n - 1, at)
  }

  function ExtentOf(es: seq<Extent>, at: nat): (k: nat)
    requires |es| > 0
    ensures k < |es| && Pos(es, k) <= at && (at < FileSize(es) ==> at < Pos(es, k + 1))
  {
    FindExtent(es, |es|, at)
  }

  /** Extent `k` reaches into the cluster of `at` from an earlier one and ends there. */
  predicate EndsHere(b: nat, es: seq<Extent>, k: nat, at: nat)
    requires b > 0 && k < |es|
  {
    BlkNr(Pos(es, k), b) < BlkNr(at, b) == BlkNr(Pos(es, k + 1), b)
  }

  /**
   * What mapping the offset `at` tells: the start, the address and the size on disk of the extent
   * that holds it, and a length, which is that of the extent if the end is in sight, or up to the
   * end of the cluster of `at`. With FIEMAP it is that of the extent, as far as 16-bit distances go.
   * The partial reference of the next extent is reported too if its head had to be loaded.
   */
  predicate Maps(inode: Inode, es: seq<Extent>, at: nat, fiemap: bool, m: Map)
    requires |es| > 0
  {
    var b, k := inode.B(), ExtentOf(es, at);
    && m.la == Pos(es, k)
    && m.pa == BlkPos(es[k].blkaddr, b) && m.plen == BlkPos(es[k].compressedblks, b)
    && m.alg == (if es[k].raw then (if inode.interlaced then INTERLACED else SHIFTED) else inode.alg)
    && m.partialRef == (es[k].partial || (EndsHere(b, es, k, at) && k + 1 < |es| && es[k + 1].partial))
    && m.fullMapped == (fiemap || EndsHere(b, es, k, at))
    && (if fiemap then m.llen == es[k].length <==> (inode.compact || Span(b, es, k) <= 65536)
        else m.llen == (if EndsHere(b, es, k, at) then es[k].length else BlkPos(BlkNr(at, b) + 1, b) - Pos(es, k)))
  }

  /** `struct z_erofs_maprecorder` with the cached metadata block and the map it fills in. */
  class MapRecorder {
    const inode: Inode
    const dev: seq<byte>
    var page: seq<byte>
    var index: int
    var lcn: nat
    var ty: nat
    var headtype: nat
    var clusterofs: nat
    var delta0: nat
    var delta1: nat
    var pblk: nat
    var compressedblks: nat
    var partialref: bool
    var la: nat
    var llen: int
    var plen: nat

    constructor (inode: Inode, dev: seq<byte>)
      ensures this.inode == inode && this.dev == dev
      ensures CacheOk() && compressedblks == 0 && !partialref
    {
      this.inode, this.dev := inode, dev;
      page, index := [], -1;
      lcn, ty, headtype, clusterofs, delta0, delta1, pblk, compressedblks := 0, 0, 0, 0, 0, 0, 0, 0;
      partialref := false;
      la, llen, plen := 0, 0, 0;
    }

    /** The cached page is the block `index` of the device. */
    ghost predicate CacheOk()
      reads this
    {
      index >= 0 ==> page == DevRead(dev, BlkPos(index, inode.B()), inode.B())
    }

    /** `z_erofs_reload_indexes` */
    method Reload(eblk: nat)
      requires CacheOk()
      modifies this`page, this`index
      ensures CacheOk() && index == eblk
    {
      hide BlkPos, DevRead;
      if index != eblk {
        page, index := DevRead(dev, BlkPos(eblk, inode.B()), inode.B()), eblk;
      }
    }

    /** The fields that a successful load sets. */
    twostate predicate Loaded(l: nat, lookahead: bool, r: Loaded)
      reads this
    {
      && lcn == l
      && (r.LoadedHead? ==>
            && ty == r.headtype && clusterofs == r.clusterofs && pblk == r.pblk
            && partialref == (old(partialref) || r.partial) && compressedblks == old(compressedblks))
      && (r.LoadedNonHead? ==>
            && ty == NONHEAD && clusterofs == inode.B() && delta0 == r.delta0
            && (lookahead || !inode.compact ==> delta1 == r.delta1)
            && compressedblks == (if r.marked then r.cblks else old(compressedblks))
            && partialref == old(partialref) && pblk == old(pblk))
    }

    /** `legacy_load_cluster_from_disk` */
    method LoadFullCluster(l: nat, ghost lookahead: bool) returns (err: nat)
      requires CacheOk() && !inode.compact && inode.blkbits >= 3
      modifies this`page, this`index, this`lcn, this`ty, this`clusterofs, this`delta0, this`delta1,
               this`pblk, this`compressedblks, this`partialref
      ensures CacheOk()
      ensures LoadFull(inode, dev, l).Ok? ==> err == 0 && Loaded(l, lookahead, LoadFull(inode, dev, l).value)
      ensures LoadFull(inode, dev, l).Err? ==> err == LoadFull(inode, dev, l).error != 0
    {
      hide BlkNr, BlkOff, BlkPos, Pow2, HasCblkcnt, WithoutCblkcnt, U16, U32, RoundUp, DevRead;
      err := 0;
      var pos := inode.FullBase() + 8 * l;
      Reload(BlkNr(pos, inode.B()));
      lcn := l;
      FullAlignment(inode, l);
      PageHolds(inode.B(), dev, page, pos, 8);
      var at := BlkOff(pos, inode.B());
      var rec := page[at..at + 8];
      var advise := U16(rec, 0);
      var t := advise % 4;
      if t == NONHEAD {
        clusterofs := inode.B();
        delta0 := U16(rec, 4);
        if HasCblkcnt(delta0) {
          if !inode.big {
            return EFSCORRUPTED;
          }
          compressedblks := WithoutCblkcnt(delta0);
          delta0 := 1;
        }
        delta1 := U16(rec, 6);
      } else if t == PLAIN || t == HEAD1 {
        if advise / PARTIAL_REF % 2 == 1 {
          partialref := true;
        }
        clusterofs := U16(rec, 2);
        pblk := U32(rec, 4);
      } else {
        return EOPNOTSUPP;
      }
      ty := t;
    }

    /** `unpack_compacted_index` for the entry at image offset `pos`, in the cached page. */
    method UnpackCluster(ds: nat, pos: nat, lookahead: bool, ghost at: nat, ghost i0: nat, ghost l: nat)
      returns (err: nat)
      requires (ds == 2 || ds == 4) && inode.compact && lcn == l
      requires (ds == 4 && inode.blkbits <= 14) || (ds == 2 && inode.blkbits <= 12)
      requires PackInPage(inode.B(), ds, pos, at, i0)
      requires BlkOff(at, inode.B()) + ds * Vcnt(ds) <= |page|
      requires page[BlkOff(at, inode.B())..BlkOff(at, inode.B()) + ds * Vcnt(ds)] == DevRead(dev, at, ds * Vcnt(ds))
      modifies this`ty, this`clusterofs, this`delta0, this`delta1, this`pblk, this`compressedblks
      ensures var r := Unpack(ds, LoSize(inode.blkbits), inode.big, DevRead(dev, at, ds * Vcnt(ds)), i0, lookahead);
        && (r.Ok? ==> err == 0 && Loaded(l, lookahead, r.value))
        && (r.Err? ==> err == r.error != 0)
    {
      hide BlkNr, BlkOff, BlkPos, Pow2, HasCblkcnt, WithoutCblkcnt, U32, DecodeLow, DecodeType;
      hide LaDistance, CountBig, CountSmall, LoSize, PackInPage, DevRead;
      var vcnt, lo := Vcnt(ds), LoSize(inode.blkbits);
      LoSizeBound(inode.blkbits);
      RoundDownToPack(inode.B(), ds, pos, at, i0);
      var eofs := BlkOff(pos, inode.B());
      var base := eofs - eofs % (vcnt * ds);
      var i := (eofs - base) / ds;
      var p := page[base..base + vcnt * ds];
      assert i == i0 && p == DevRead(dev, at, ds * Vcnt(ds));
      var low, t := DecodeLow(ds, lo, p, i), DecodeType(ds, lo, p, i);
      ty := t;
      if t == NONHEAD {
        clusterofs := inode.B();
        if lookahead {
          delta1 := GetLaDistance(ds, lo, p, i);
        }
        if HasCblkcnt(low) {
          if !inode.big {
            return EFSCORRUPTED;
          }
          compressedblks := WithoutCblkcnt(low);
          delta0 := 1;
          return 0;
        }
        if i + 1 != vcnt {
          delta0 := low;
          return 0;
        }
        var plow := DecodeLow(ds, lo, p, i - 1);
        if DecodeType(ds, lo, p, i - 1) != NONHEAD {
          plow := 0;
        } else if HasCblkcnt(plow) {
          plow := 1;
        }
        delta0 := plow + 1;
        return 0;
      }
      clusterofs := low;
      delta0 := 0;
      var nblk: nat;
      if inode.big {
        err, nblk := BlocksBeforeBig(ds, lo, p, i);
        if err != 0 {
          return;
        }
      } else {
        nblk := BlocksBeforeSmall(ds, lo, p, i);
      }
      pblk := (U32(p, |p| - 4) + nblk) % U32_LIMIT;
      err := 0;
    }

    /** The size and the image offset of the entry of cluster `l`. */
    method LocateEntry(ebase: nat, totalidx: nat, l: nat) returns (ds: nat, pos: nat)
      requires ebase == inode.CompactBase() && totalidx == inode.Total()
      ensures ds == EntrySize(ReaderLayout(inode), l)
      ensures pos == ebase + EntryPos(ReaderLayout(inode), l)
    {
      hide BlkRoundUp, RoundUp, Pow2;
      var initial := (32 - ebase % 32) / 4;
      if initial == 8 {
        initial := 0;
      }
      assert initial == InitialEntries(ebase);
      hide InitialEntries;
      var twos := 0;
      if inode.twoByte && initial < totalidx {
        twos := (totalidx - initial) / 16 * 16;
      }
      assert ReaderLayout(inode) == Layout(initial, twos);
      hide ReaderLayout;
      var rest := l;
      pos, ds := ebase, 4;
      if rest >= initial {
        pos := pos + initial * 4;
        rest := rest - initial;
        if rest < twos {
          ds := 2;
        } else {
          pos := pos + twos * 2;
          rest := rest - twos;
        }
      }
      pos := pos + rest * ds;
    }

    /** `compacted_load_cluster_from_disk` */
    method LoadCompactCluster(l: nat, lookahead: bool) returns (err: nat)
      requires CacheOk() && inode.compact && inode.blkbits >= 5
      modifies this`page, this`index, this`lcn, this`ty, this`clusterofs, this`delta0, this`delta1,
               this`pblk, this`compressedblks, this`partialref
      ensures CacheOk()
      ensures LoadCompact(inode, dev, l, lookahead).Ok? ==>
        err == 0 && Loaded(l, lookahead, LoadCompact(inode, dev, l, lookahead).value)
      ensures LoadCompact(inode, dev, l, lookahead).Err? ==>
        err == LoadCompact(inode, dev, l, lookahead).error != 0
    {
      hide BlkNr, BlkOff, BlkPos, BlkRoundUp, Pow2, RoundUp, Unpack, LoSize, PackInPage;
      hide ReaderLayout, EntrySize, EntryPos, EntryIndex, DevRead;
      var ebase, totalidx := inode.CompactBase(), inode.Total();
      if l >= totalidx {
        return EINVAL;
      }
      lcn := l;
      var ds, pos := LocateEntry(ebase, totalidx, l);
      ghost var lay := ReaderLayout(inode);
      ghost var at, i := ebase + EntryPos(lay, PackStart(lay, l)), EntryIndex(lay, l);
      EntryInBlock(inode, l);
      Reload(BlkNr(pos, inode.B()));
      PackCached(inode.B(), dev, page, ds, pos, at, i);
      if (ds == 4 && inode.blkbits <= 14) || (ds == 2 && inode.blkbits <= 12) {
        err := UnpackCluster(ds, pos, lookahead, at, i, l);
      } else {
        err := EOPNOTSUPP;
      }
    }

    /** `z_erofs_load_cluster_from_disk` */
    method Load(l: nat, lookahead: bool) returns (err: nat)
      requires CacheOk() && inode.blkbits >= 5
      modifies this`page, this`index, this`lcn, this`ty, this`clusterofs, this`delta0, this`delta1,
               this`pblk, this`compressedblks, this`partialref
      ensures CacheOk()
      ensures LoadCluster(inode, dev, l, lookahead).Ok? ==>
        err == 0 && Loaded(l, lookahead, LoadCluster(inode, dev, l, lookahead).value)
      ensures LoadCluster(inode, dev, l, lookahead).Err? ==>
        err == LoadCluster(inode, dev, l, lookahead).error != 0
    {
      hide LoadFull, LoadCompact;
      if inode.compact {
        err := LoadCompactCluster(l, lookahead);
      } else {
        err := LoadFullCluster(l, lookahead);
      }
    }

    /** The recorder stands at the head of extent `k`, the only extent it has read a block count of. */
    ghost predicate AtHead(es: seq<Extent>, k: nat)
      reads this
    {
      && k < |es| && lcn == BlkNr(Pos(es, k), inode.B()) && la == Pos(es, k) && pblk == es[k].blkaddr
      && headtype == ty == (if es[k].raw then PLAIN else HEAD1)
      && (compressedblks == 0 || compressedblks == es[k].compressedblks)
    }

    /** A look-back from `lcn` by `distance` stays in extent `k`. */
    ghost predicate MayLookBack(es: seq<Extent>, k: nat, distance: nat)
      reads this
    {
      && Setting(inode, dev, es) && k < |es|
      && distance <= lcn && lcn - distance < inode.Total() && Owns(inode.B(), es, k, lcn - distance)
      && (compressedblks == 0 || compressedblks == es[k].compressedblks)
    }

    /** `z_erofs_extent_lookback` */
    method ExtentLookback(distance: nat, ghost es: seq<Extent>, ghost k: nat) returns (err: nat)
      requires CacheOk() && inode.blkbits >= 5
      modifies this
      ensures CacheOk()
      ensures old(MayLookBack(es, k, distance)) ==>
        err == 0 && AtHead(es, k) && partialref == (old(partialref) || es[k].partial)
      decreases lcn - distance
    {
      hide BlkNr, BlkOff, BlkPos, BlkRoundUp, Pow2, LoadCluster, Pos, FileSize, SlotOf, Storable, Faithful;
      if lcn < distance {
        return EFSCORRUPTED;
      }
      var l := lcn - distance;
      ghost var good := MayLookBack(es, k, distance);
      if good {
        FaithfulLoad(inode, dev, es, l, false);
      }
      err := Load(l, false);
      if err != 0 {
        return;
      }
      if ty == NONHEAD {
        if delta0 == 0 {
          return EFSCORRUPTED;
        }
        if good {
          OwnsBehind(inode.B(), inode.big, es, k, l, delta0);
        }
        err := ExtentLookback(delta0, es, k);
      } else if ty == PLAIN || ty == HEAD1 {
        headtype := ty;
        la := JoinPos(l, clusterofs, inode.B());
        if good {
          BlkSplit(Pos(es, k), inode.B());
          JoinIsPos(l, clusterofs, inode.B());
        }
      } else {
        err := EOPNOTSUPP;
      }
    }

    /** `z_erofs_get_extent_compressedlen` */
    method CompressedLen(ghost es: seq<Extent>, ghost k: nat) returns (err: nat)
      requires CacheOk() && inode.blkbits >= 5
      modifies this`page, this`index, this`lcn, this`ty, this`clusterofs, this`delta0, this`delta1,
               this`pblk, this`compressedblks, this`partialref, this`plen
      ensures CacheOk()
      ensures old(Setting(inode, dev, es) && AtHead(es, k)) ==>
        err == 0 && plen == BlkPos(es[k].compressedblks, inode.B())
        && (lcn == old(lcn) || lcn == old(lcn) + 1 < inode.Total())
    {
      hide BlkNr, BlkOff, BlkPos, BlkRoundUp, Pow2, LoadCluster, Pos, FileSize, SlotOf, Storable, Faithful;
      ghost var good := Setting(inode, dev, es) && AtHead(es, k);
      if good {
        StorableAt(inode.B(), inode.big, es, k);
        BlkPosNext(0, inode.B());
      }
      if headtype == PLAIN || !inode.big {
        plen := inode.B();
        return 0;
      }
      if compressedblks == 0 {
        if good {
          AfterHead(inode.B(), inode.big, es, k);
          FaithfulLoad(inode, dev, es, lcn + 1, false);
        }
        err := Load(lcn + 1, false);
        if err != 0 {
          return;
        }
        if ty == PLAIN || ty == HEAD1 {
          compressedblks := 1;
        } else if ty == NONHEAD {
          if delta0 != 1 || compressedblks == 0 {
            return EFSCORRUPTED;
          }
        } else {
          return EFSCORRUPTED;
        }
      }
      plen := BlkPos(compressedblks, inode.B());
      err := 0;
    }

    /** `z_erofs_get_extent_decompressedlen` */
    method DecompressedLen(ghost es: seq<Extent>, ghost k: nat) returns (err: nat)
      requires CacheOk() && inode.blkbits >= 5
      modifies this`page, this`index, this`lcn, this`ty, this`clusterofs, this`delta0, this`delta1,
               this`pblk, this`compressedblks, this`partialref, this`llen
      ensures CacheOk()
      ensures old(Setting(inode, dev, es) && k < |es| && la == Pos(es, k)
                  && 0 <= Behind(inode.B(), es, k, lcn) <= 1 && lcn < inode.Total()) ==>
        err == 0 && (llen == es[k].length <==> (inode.compact || Span(inode.B(), es, k) <= 65536))
    {
      hide BlkNr, BlkOff, BlkPos, BlkRoundUp, Pow2, LoadCluster, Pos, FileSize, SlotOf, Storable, Faithful;
      var headlcn, at := BlkNr(la, inode.B()), lcn;
      ghost var good := Setting(inode, dev, es) && k < |es| && la == Pos(es, k)
                        && 0 <= Behind(inode.B(), es, k, lcn) <= 1 && lcn < inode.Total();
      if good {
        WayBegins(inode, es, k, at);
      }
      while true
        invariant CacheOk()
        invariant good ==> OnTheWay(inode, es, k, at)
        decreases inode.Total() - at
      {
        if BlkPos(at, inode.B()) >= inode.size {
          if good {
            EndOfFile(inode, es, k, at);
          }
          llen := inode.size - la;
          return 0;
        }
        BeforeEnd(inode.B(), inode.size, at);
        if good {
          FaithfulLoad(inode, dev, es, at, true);
        }
        err := Load(at, true);
        if err != 0 {
          return;
        }
        if ty == PLAIN || ty == HEAD1 {
          if at != headlcn {
            if good {
              LookAheadStep(inode, es, k, at, LoadCluster(inode, dev, at, true).value);
            }
            break;
          }
          delta1 := 1;
        } else if ty != NONHEAD {
          return EOPNOTSUPP;
        }
        if good {
          LookAheadStep(inode, es, k, at, LoadCluster(inode, dev, at, true).value);
        }
        at := at + delta1;
        if delta1 == 0 {
          break;
        }
      }
      llen := BlkPos(at, inode.B()) + clusterofs - la;
      err := 0;
    }
  }

  /** The loop of `get_compacted_la_distance`. */
  method GetLaDistance(ds: nat, lo: nat, p: seq<byte>, start: nat) returns (d1: nat)
    requires Pack(ds, lo, p) && start < Vcnt(ds)
    ensures d1 == LaDistance(ds, lo, p, start)
  {
    hide DecodeLow, DecodeType, HasCblkcnt;
    d1 := 0;
    var i, low := start, 0;
    while i < Vcnt(ds)
      invariant start <= i <= Vcnt(ds)
      invariant i < Vcnt(ds) ==> LaDistance(ds, lo, p, start) == d1 + LaDistance(ds, lo, p, i)
      invariant i == Vcnt(ds) ==> low == DecodeLow(ds, lo, p, i - 1) && d1 > 0
      invariant i == Vcnt(ds) ==> LaDistance(ds, lo, p, start) == d1 - 1 + (if HasCblkcnt(low) then 1 else low)
    {
      low := DecodeLow(ds, lo, p, i);
      if DecodeType(ds, lo, p, i) != NONHEAD {
        return;
      }
      d1 := d1 + 1;
      i := i + 1;
    }
    if !HasCblkcnt(low) {
      d1 := d1 + low - 1;
    }
  }

  /** The address count for small pclusters. */
  method BlocksBeforeSmall(ds: nat, lo: nat, p: seq<byte>, start: nat) returns (nblk: nat)
    requires Pack(ds, lo, p) && start < Vcnt(ds)
    ensures nblk == 1 + CountSmall(ds, lo, p, start)
  {
    hide DecodeLow, DecodeType;
    nblk := 1;
    var i: int := start;
    while i > 0
      invariant i <= start
      invariant 1 + CountSmall(ds, lo, p, start) == nblk + CountSmall(ds, lo, p, i)
    {
      i := i - 1;
      if DecodeType(ds, lo, p, i) == NONHEAD {
        i := i - DecodeLow(ds, lo, p, i);
      }
      if i >= 0 {
        nblk := nblk + 1;
      }
    }
  }

  /** The address count for big pclusters. */
  method BlocksBeforeBig(ds: nat, lo: nat, p: seq<byte>, start: nat) returns (err: nat, nblk: nat)
    requires Pack(ds, lo, p) && start < Vcnt(ds)
    ensures CountBig(ds, lo, p, start).Ok? ==> err == 0 && nblk == CountBig(ds, lo, p, start).value
    ensures CountBig(ds, lo, p, start).Err? ==> err == CountBig(ds, lo, p, start).error != 0
  {
    hide DecodeLow, DecodeType, HasCblkcnt, WithoutCblkcnt, CountBig;
    err, nblk := 0, 0;
    var i: int := start;
    BigStep(ds, lo, p, i);
    while i > 0
      invariant i <= start
      invariant CountBig(ds, lo, p, start) == Plus(CountBig(ds, lo, p, i), nblk)
      invariant i <= 0 ==> CountBig(ds, lo, p, i) == Ok(0)
    {
      BigStep(ds, lo, p, i);
      i := i - 1;
      var low := DecodeLow(ds, lo, p, i);
      if DecodeType(ds, lo, p, i) == NONHEAD {
        if HasCblkcnt(low) {
          i := i - 1;
          nblk := nblk + WithoutCblkcnt(low);
        } else {
          if low <= 1 {
            return EFSCORRUPTED, nblk;
          }
          i := i - (low - 2);
        }
      } else {
        nblk := nblk + 1;
      }
      BigStep(ds, lo, p, i);
    }
  }

  lemma BigStep(ds: nat, lo: nat, p: seq<byte>, i: int)
    requires Pack(ds, lo, p) && i < Vcnt(ds)
    ensures i <= 0 ==> CountBig(ds, lo, p, i) == Ok(0)
    ensures i > 0 ==>
              var j := i - 1; var low := DecodeLow(ds, lo, p, j);
              CountBig(ds, lo, p, i) ==
                if DecodeType(ds, lo, p, j) != NONHEAD then Plus(CountBig(ds, lo, p, j), 1)
                else if HasCblkcnt(low) then Plus(CountBig(ds, lo, p, j - 1), WithoutCblkcnt(low))
                else if low <= 1 then Err(EFSCORRUPTED)
                else CountBig(ds, lo, p, j - (low - 2))
  {
    hide DecodeLow, DecodeType, HasCblkcnt, WithoutCblkcnt;
  }

  /** Rounding the offset of an entry down gives its pack. */
  lemma RoundDownToPack(b: nat, ds: nat, pos: nat, at: nat, i: nat)
    requires b > 0 && (ds == 2 || ds == 4) && PackInPage(b, ds, pos, at, i)
    ensures var eofs := BlkOff(pos, b); var base := eofs - eofs % (Vcnt(ds) * ds);
      base == BlkOff(at, b) && (eofs - base) / ds == i && i < Vcnt(ds)
  {
    hide BlkOff, BlkNr;
    var o := BlkOff(at, b);
    if ds == 2 {
      DivModUnique(o + i * 2, 32, o / 32, i * 2);
    } else {
      DivModUnique(o + i * 4, 8, o / 8, i * 4);
    }
  }

  /** The entry at `pos` is entry `i` of the aligned pack at `at`. */
  predicate EntryAt(ds: nat, pos: nat, at: nat, i: nat) {
    || (ds == 2 && i < 16 && pos == at + 2 * i && at % 32 == 0)
    || (ds == 4 && i < 2 && pos == at + 4 * i && at % 8 == 0)
  }

  /** That pack lies within one block. */
  ghost predicate PackInPage(b: nat, ds: nat, pos: nat, at: nat, i: nat)
    requires b > 0 && (ds == 2 || ds == 4)
  {
    && EntryAt(ds, pos, at, i) && BlkNr(pos, b) == BlkNr(at, b)
    && (ds == 2 ==> b % 32 == 0 && BlkOff(pos, b) == BlkOff(at, b) + 2 * i && BlkOff(at, b) % 32 == 0 && BlkOff(at, b) + 32 <= b)
    && (ds == 4 ==> b % 8 == 0 && BlkOff(pos, b) == BlkOff(at, b) + 4 * i && BlkOff(at, b) % 8 == 0 && BlkOff(at, b) + 8 <= b)
  }

  /** Aligned metadata of `n` bytes lies within one block. */
  lemma AlignedInBlock(pos: nat, b: nat, n: nat)
    requires n > 0 && b > 0 && b % n == 0 && pos % n == 0
    ensures BlkOff(pos, b) + n <= b && BlkOff(pos, b) % n == 0
  {
    var m, c, q := pos / n, b / n, pos / b;
    var t := m - q * c;
    assert pos == m * n && b == c * n && pos == q * b + pos % b;
    assert pos % b == t * n by { Distribute(m, q, c, n); }
    MulCancel(t, c, n);
    assert (t + 1) * n == t * n + n;
    MulMonotone(t + 1, c, n);
    DivModUnique(pos % b, n, t, 0);
  }

  lemma Distribute(m: int, q: int, c: int, n: int)
    ensures m * n - q * (c * n) == (m - q * c) * n
  {
    assert (m - q * c) * n == m * n - (q * c) * n;
    assert q * (c * n) == (q * c) * n;
  }

  lemma MulCancel(t: int, c: int, n: int)
    requires n > 0 && t * n < c * n
    ensures t < c
  {
    if t >= c {
      MulMonotone(c, t, n);
    }
  }

  lemma {:induction false} Pow2Multiple(bits: nat, k: nat)
    requires k <= bits
    ensures Pow2(bits) % Pow2(k) == 0
  {
    Pow2Add(bits - k, k);
    DivModUnique(Pow2(bits), Pow2(k), Pow2(bits - k), 0);
  }

  lemma RoundUpAligned(x: nat)
    ensures RoundUp(x, 8) % 8 == 0
  {
  }

  lemma FullAlignment(inode: Inode, l: nat)
    requires inode.blkbits >= 3
    ensures inode.B() % 8 == 0 && (inode.FullBase() + 8 * l) % 8 == 0
  {
    assert Pow2(3) == 8;
    Pow2Multiple(inode.blkbits, 3);
    RoundUpAligned(inode.metaEnd);
    hide RoundUp;
  }

  /** Aligned metadata read from the cached page is the device's. */
  lemma PageHolds(b: nat, dev: seq<byte>, page: seq<byte>, pos: nat, n: nat)
    requires n > 0 && b > 0 && b % n == 0 && pos % n == 0
    requires page == DevRead(dev, BlkPos(BlkNr(pos, b), b), b)
    ensures BlkOff(pos, b) + n <= |page|
    ensures page[BlkOff(pos, b)..BlkOff(pos, b) + n] == DevRead(dev, pos, n)
  {
    AlignedInBlock(pos, b, n);
    BlkSplit(pos, b);
    hide BlkNr, BlkOff, BlkPos;
    DevReadPart(dev, BlkPos(BlkNr(pos, b), b), b, BlkOff(pos, b), n);
  }

  /** Where the reader looks for the entry of `lcn`: aligned, and in one block with its pack. */
  lemma EntryInBlock(inode: Inode, lcn: nat)
    requires inode.blkbits >= 5
    ensures var l := ReaderLayout(inode);
      var ds, at := EntrySize(l, lcn), inode.CompactBase() + EntryPos(l, PackStart(l, lcn));
      PackInPage(inode.B(), ds, inode.CompactBase() + EntryPos(l, lcn), at, EntryIndex(l, lcn))
  {
    hide BlkNr, BlkOff, BlkRoundUp, RoundUp, Pow2;
    var l := ReaderLayout(inode);
    var ds, i, b := EntrySize(l, lcn), EntryIndex(l, lcn), inode.B();
    var at := inode.CompactBase() + EntryPos(l, PackStart(l, lcn));
    BaseIsAligned(inode);
    PackAlignment(inode, lcn);
    assert Pow2(3) == 8 && Pow2(5) == 32 by { PowersOfPacks(); }
    Pow2Multiple(inode.blkbits, 3);
    Pow2Multiple(inode.blkbits, 5);
    hide ReaderLayout, EntrySize, EntryPos, EntryIndex, PackInPage, EntryAt;
    PackInBlock(b, ds, inode.CompactBase() + EntryPos(l, lcn), at, i);
  }

  lemma PackInBlock(b: nat, ds: nat, pos: nat, at: nat, i: nat)
    requires b > 0 && b % 8 == 0 && b % 32 == 0
    requires (ds == 2 || ds == 4) && EntryAt(ds, pos, at, i)
    ensures PackInPage(b, ds, pos, at, i)
  {
    hide BlkNr, BlkOff;
    if ds == 2 {
      AlignedInBlock(at, b, 32);
    } else {
      AlignedInBlock(at, b, 8);
    }
    BlkSplit(at, b);
    BlkUnique(pos, b, BlkNr(at, b), BlkOff(at, b) + (pos - at));
  }

  lemma PowersOfPacks()
    ensures Pow2(3) == 8 && Pow2(5) == 32
  {
    assert Pow2(1) == 2 && Pow2(2) == 4 && Pow2(3) == 8 && Pow2(4) == 16;
  }

  lemma PackAlignment(inode: Inode, lcn: nat)
    ensures var l := ReaderLayout(inode); var base := inode.CompactBase();
      EntryAt(EntrySize(l, lcn), base + EntryPos(l, lcn), base + EntryPos(l, PackStart(l, lcn)), EntryIndex(l, lcn))
  {
    hide BlkRoundUp, RoundUp, Pow2, EntryAt;
    BaseIsAligned(inode);
    var l := ReaderLayout(inode);
    InitialAligns(inode.CompactBase());
    hide InitialEntries;
    assert (inode.CompactBase() + 4 * l.init4b) % 32 == 0 && LayoutOk(l);
    hide ReaderLayout, EntrySize, EntryPos, EntryIndex;
    PackPlace(inode.CompactBase(), l, lcn);
  }

  lemma PackPlace(base: nat, l: Layout, lcn: nat)
    requires LayoutOk(l) && base % 8 == 0 && (base + 4 * l.init4b) % 32 == 0
    ensures EntryAt(EntrySize(l, lcn), base + EntryPos(l, lcn), base + EntryPos(l, PackStart(l, lcn)), EntryIndex(l, lcn))
  {
    hide EntryPos, EntrySize, EntryIndex, EntryAt;
    if lcn < l.init4b {
      PlaceInitial(base, l, lcn);
    } else if lcn < l.init4b + l.mid2b {
      PlaceMiddle(base, l, lcn);
    } else {
      PlaceEnd(base, l, lcn);
    }
  }

  lemma PlaceInitial(base: nat, l: Layout, lcn: nat)
    requires base % 8 == 0 && lcn < l.init4b
    ensures EntryAt(EntrySize(l, lcn), base + EntryPos(l, lcn), base + EntryPos(l, PackStart(l, lcn)), EntryIndex(l, lcn))
  {
    var h := lcn / 2;
    assert PackStart(l, lcn) == 2 * h;
    Aligned8(base, h);
  }

  lemma PlaceMiddle(base: nat, l: Layout, lcn: nat)
    requires (base + 4 * l.init4b) % 32 == 0 && l.init4b <= lcn < l.init4b + l.mid2b
    ensures EntryAt(EntrySize(l, lcn), base + EntryPos(l, lcn), base + EntryPos(l, PackStart(l, lcn)), EntryIndex(l, lcn))
  {
    var h := (lcn - l.init4b) / 16;
    assert PackStart(l, lcn) == l.init4b + 16 * h;
    Aligned32(base + 4 * l.init4b, h);
  }

  lemma PlaceEnd(base: nat, l: Layout, lcn: nat)
    requires LayoutOk(l) && base % 8 == 0 && l.init4b + l.mid2b <= lcn
    ensures EntryAt(EntrySize(l, lcn), base + EntryPos(l, lcn), base + EntryPos(l, PackStart(l, lcn)), EntryIndex(l, lcn))
  {
    var m, n, h := l.mid2b / 16, l.init4b / 2, (lcn - l.init4b - l.mid2b) / 2;
    assert l.mid2b == 16 * m && l.init4b == 2 * n;
    assert PackStart(l, lcn) == l.init4b + l.mid2b + 2 * h;
    Aligned8(base, n + 4 * m + h);
  }

  lemma Aligned8(x: nat, h: nat)
    requires x % 8 == 0
    ensures (x + 8 * h) % 8 == 0
  {
  }

  lemma Aligned32(x: nat, h: nat)
    requires x % 32 == 0
    ensures (x + 32 * h) % 32 == 0
  {
  }

  /** After the block of `pos` is cached, the page holds the whole pack. */
  lemma PackCached(b: nat, dev: seq<byte>, page: seq<byte>, ds: nat, pos: nat, at: nat, i: nat)
    requires b > 0 && (ds == 2 || ds == 4) && PackInPage(b, ds, pos, at, i)
    requires page == DevRead(dev, BlkPos(BlkNr(pos, b), b), b)
    ensures BlkOff(at, b) + ds * Vcnt(ds) <= |page|
    ensures page[BlkOff(at, b)..BlkOff(at, b) + ds * Vcnt(ds)] == DevRead(dev, at, ds * Vcnt(ds))
  {
    hide BlkNr, BlkOff, BlkPos;
    PageHolds(b, dev, page, at, if ds == 2 then 32 else 8);
  }

  /** Cluster `lcn` belongs to extent `k`. */
  predicate Owns(b: nat, es: seq<Extent>, k: nat, lcn: nat)
    requires b > 0 && |es| > 0
  {
    SlotOf(b, es, lcn) == HeadOf(k) || SlotOf(b, es, lcn) == Inside(k)
  }

  lemma FaithfulLoad(inode: Inode, dev: seq<byte>, es: seq<Extent>, lcn: nat, la: bool)
    requires |es| > 0 && Faithful(inode, dev, es) && lcn < inode.Total()
    ensures LoadCluster(inode, dev, lcn, la).Ok?
    ensures Describes(inode.B(), inode.big, !inode.compact, es, lcn, la, LoadCluster(inode, dev, lcn, la).value)
  {
    assert FaithfulAt(inode, dev, es, lcn, la);
  }

  /** Going back at most the distance to the head stays in the extent. */
  lemma OwnsBehind(b: nat, big: bool, es: seq<Extent>, k: nat, lcn: nat, d: nat)
    requires b > 0 && Storable(b, big, es) && lcn < IndexCount(b, es) && SlotOf(b, es, lcn) == Inside(k)
    requires k < |es| && 1 <= d <= Behind(b, es, k, lcn)
    ensures d <= lcn && Owns(b, es, k, lcn - d)
  {
    hide BlkNr, BlkOff, BlkRoundUp, SlotOf, Pos;
    if d == Behind(b, es, k, lcn) {
      RoleHead(b, big, es, k, lcn - d);
    } else {
      RoleInside(b, big, es, k, lcn - d);
    }
  }

  /** Where extent `k` ends: in the cluster of the next head, in the tail, at the end of the file, or in its own cluster. */
  lemma WhereItEnds(b: nat, big: bool, es: seq<Extent>, k: nat)
    requires b > 0 && Storable(b, big, es) && k < |es|
    ensures 0 <= Span(b, es, k) && BlkNr(Pos(es, k), b) < IndexCount(b, es)
    ensures BlkNr(Pos(es, k + 1), b) <= IndexCount(b, es)
    ensures Span(b, es, k) == 0 ==> k + 1 == |es| && es[k].raw && IndexCount(b, es) == BlkNr(Pos(es, k), b) + 1
    ensures BlkNr(Pos(es, k + 1), b) == IndexCount(b, es) ==> k + 1 == |es| && BlkOff(FileSize(es), b) == 0
    ensures Span(b, es, k) > 0 && BlkNr(Pos(es, k + 1), b) < IndexCount(b, es) ==>
      SlotOf(b, es, BlkNr(Pos(es, k + 1), b)) == (if k + 1 < |es| then HeadOf(k + 1) else Tail)
  {
    hide BlkNr, BlkOff, BlkPos, BlkRoundUp, SlotOf;
    OrderedPos(b, es, k, k + 1);
    OrderedPos(b, es, k + 1, |es|);
    BlkRoundUpIs(FileSize(es), b);
    if Span(b, es, k) == 0 {
      LastMayStayInside(b, big, es, k);
    } else if k + 1 < |es| {
      HeadInFile(b, big, es, k + 1);
      RoleHead(b, big, es, k + 1, BlkNr(Pos(es, k + 1), b));
    } else if BlkOff(FileSize(es), b) != 0 {
      SlotUnique(b, big, es, BlkNr(FileSize(es), b), Tail);
    }
  }

  lemma HeadInFile(b: nat, big: bool, es: seq<Extent>, k: nat)
    requires b > 0 && Storable(b, big, es) && k < |es|
    ensures BlkNr(Pos(es, k), b) < IndexCount(b, es)
  {
    hide BlkNr, BlkOff, BlkPos, BlkRoundUp;
    ExtentStep(b, big, es, k);
  }

  /** The cluster after the head of a compressed extent exists; it is inside the extent or ends it. */
  lemma AfterHead(b: nat, big: bool, es: seq<Extent>, k: nat)
    requires b > 0 && Storable(b, big, es) && k < |es| && !es[k].raw
    ensures BlkNr(Pos(es, k), b) + 1 < IndexCount(b, es)
    ensures var slot := SlotOf(b, es, BlkNr(Pos(es, k), b) + 1);
      slot == Inside(k) || (!slot.Inside? && es[k].compressedblks == 1)
  {
    hide BlkNr, BlkOff, BlkPos, BlkRoundUp, SlotOf, Pos;
    StorableAt(b, big, es, k);
    WhereItEnds(b, big, es, k);
    ExtentStep(b, big, es, k);
    var end := BlkOff(Pos(es, k), b) + es[k].length;
    BlkFits(end, b, 1);
    BlkFits(end, b, 2);
    if Span(b, es, k) == 1 {
      EndsInFile(b, big, es, k);
    } else {
      RoleInside(b, big, es, k, BlkNr(Pos(es, k), b) + 1);
    }
  }

  /** A compressed extent of two clusters does not end at the end of the file and of a cluster. */
  lemma EndsInFile(b: nat, big: bool, es: seq<Extent>, k: nat)
    requires b > 0 && Storable(b, big, es) && k < |es| && !es[k].raw && Span(b, es, k) == 1
    ensures BlkNr(Pos(es, k + 1), b) < IndexCount(b, es)
  {
    hide BlkNr, BlkOff, BlkPos, BlkRoundUp;
    StorableAt(b, big, es, k);
    if k + 1 < |es| {
      HeadInFile(b, big, es, k + 1);
    } else {
      Advance(Pos(es, k), es[k].length, b);
      var end := BlkOff(Pos(es, k), b) + es[k].length;
      BlkSplit(end, b);
      BlkFits(end, b, 1);
      BlkRoundUpIs(FileSize(es), b);
    }
  }

  /** Where the look-ahead for the end of extent `k` can be. */
  ghost predicate OnTheWay(inode: Inode, es: seq<Extent>, k: nat, lcn: nat)
    requires |es| > 0 && k < |es|
  {
    var b := inode.B();
    && 0 <= Behind(b, es, k, lcn)
    && (Ahead(b, es, k, lcn) < 0 ==> Span(b, es, k) == 0 && lcn == inode.Total())
    && (!inode.compact && Span(b, es, k) > 65536 ==>
          Ahead(b, es, k, lcn) > 0 && (Behind(b, es, k, lcn) <= 1 || Ahead(b, es, k, lcn) % 65536 == 0))
  }

  /** Reaching the end of the file means that extent `k` is the last and is not too long. */
  lemma EndOfFile(inode: Inode, es: seq<Extent>, k: nat, lcn: nat)
    requires Storable(inode.B(), inode.big, es) && inode.size == FileSize(es) && k < |es|
    requires OnTheWay(inode, es, k, lcn) && BlkPos(lcn, inode.B()) >= inode.size
    ensures inode.size - Pos(es, k) == es[k].length
    ensures inode.compact || Span(inode.B(), es, k) <= 65536
  {
    hide BlkNr, BlkOff, BlkPos, BlkRoundUp, Pow2, Pos, Storable;
    var b := inode.B();
    WhereItEnds(b, inode.big, es, k);
    if Ahead(b, es, k, lcn) >= 0 {
      BlkSplit(Pos(es, k + 1), b);
      BlkPosMonotone(lcn, BlkNr(Pos(es, k + 1), b), b);
      SizeReached(b, inode.big, es, k);
    }
    PosNext(es, k);
    if !inode.compact && Span(b, es, k) > 65536 {
      BlkPosMonotone(lcn + 1, BlkNr(Pos(es, k + 1), b), b);
      BlkPosNext(lcn, b);
      BlkSplit(FileSize(es), b);
    }
    assert k + 1 == |es| && FileSize(es) == Pos(es, k + 1);
  }

  lemma SizeReached(b: nat, big: bool, es: seq<Extent>, k: nat)
    requires b > 0 && Storable(b, big, es) && k < |es| && Pos(es, k + 1) >= FileSize(es)
    ensures k + 1 == |es|
  {
    if k + 1 < |es| {
      StorableAt(b, big, es, k + 1);
      PosMonotone(es, k + 2, |es|);
    }
  }

  lemma BeforeEnd(b: nat, size: nat, lcn: nat)
    requires b > 0 && BlkPos(lcn, b) < size
    ensures lcn < BlkRoundUp(size, b)
  {
    hide BlkNr, BlkOff, BlkPos, BlkRoundUp;
    BlkRoundUpIs(size, b);
    BlkFits(size, b, lcn);
    BlkSplit(size, b);
  }

  lemma WayBegins(inode: Inode, es: seq<Extent>, k: nat, lcn: nat)
    requires Storable(inode.B(), inode.big, es) && inode.size == FileSize(es) && k < |es|
    requires 0 <= Behind(inode.B(), es, k, lcn) <= 1 && lcn < inode.Total()
    ensures OnTheWay(inode, es, k, lcn)
  {
    hide BlkNr, BlkOff, BlkPos, BlkRoundUp, Pow2, SlotOf, FileSize, Pos;
    WhereItEnds(inode.B(), inode.big, es, k);
  }

  /** The look-ahead distance of a cluster inside the extent leads on, or it is 0 and leads to a wrong end. */
  lemma InsideStep(inode: Inode, es: seq<Extent>, k: nat, lcn: nat, r: Loaded)
    requires Storable(inode.B(), inode.big, es) && inode.size == FileSize(es) && k < |es|
    requires OnTheWay(inode, es, k, lcn) && lcn < inode.Total()
    requires BlkNr(Pos(es, k), inode.B()) < lcn < BlkNr(Pos(es, k + 1), inode.B())
    requires Describes(inode.B(), inode.big, !inode.compact, es, lcn, true, r)
    ensures r.LoadedNonHead?
    ensures r.delta1 > 0 ==> OnTheWay(inode, es, k, lcn + r.delta1)
    ensures r.delta1 == 0 ==>
      && BlkPos(lcn, inode.B()) + inode.B() - Pos(es, k) != es[k].length
      && !inode.compact && Span(inode.B(), es, k) > 65536
  {
    hide BlkNr, BlkOff, BlkPos, BlkRoundUp, Pow2, SlotOf, FileSize, Storable;
    var b := inode.B();
    RoleInside(b, inode.big, es, k, lcn);
    var ahead, end: nat := Ahead(b, es, k, lcn), BlkNr(Pos(es, k + 1), b);
    assert ahead > 0 && end == lcn + ahead;
    hide Describes, Pos;
    if r.delta1 == 0 {
      assert ahead % 65536 == 0;
      BlkSplit(Pos(es, k + 1), b);
      BlkPosNext(lcn, b);
      BlkPosNext(lcn + 1, b);
      BlkPosMonotone(lcn + 2, end, b);
      assert Pos(es, k + 1) == Pos(es, k) + es[k].length by { PosNext(es, k); }
    }
  }

  lemma PosNext(es: seq<Extent>, k: nat)
    requires k < |es|
    ensures Pos(es, k + 1) == Pos(es, k) + es[k].length
  {
  }

  /** The cluster where the extent ends gives its end, unless the extent never leaves it. */
  lemma EndStep(inode: Inode, es: seq<Extent>, k: nat, r: Loaded)
    requires Storable(inode.B(), inode.big, es) && inode.size == FileSize(es) && k < |es|
    requires Span(inode.B(), es, k) > 0 && BlkNr(Pos(es, k + 1), inode.B()) < inode.Total()
    requires Describes(inode.B(), inode.big, !inode.compact, es, BlkNr(Pos(es, k + 1), inode.B()), true, r)
    ensures r.LoadedHead?
    ensures BlkPos(BlkNr(Pos(es, k + 1), inode.B()), inode.B()) + r.clusterofs - Pos(es, k) == es[k].length
  {
    hide BlkNr, BlkOff, BlkPos, BlkRoundUp, Pow2, SlotOf, Storable, Pos;
    WhereItEnds(inode.B(), inode.big, es, k);
    BlkSplit(Pos(es, k + 1), inode.B());
    PosNext(es, k);
  }

  /** One load of the look-ahead: it ends at the next head, or goes on, or gives up on a distance of 0. */
  lemma LookAheadStep(inode: Inode, es: seq<Extent>, k: nat, lcn: nat, r: Loaded)
    requires Storable(inode.B(), inode.big, es) && inode.size == FileSize(es) && k < |es|
    requires OnTheWay(inode, es, k, lcn) && lcn < inode.Total()
    requires Describes(inode.B(), inode.big, !inode.compact, es, lcn, true, r)
    ensures r.LoadedHead? && lcn == BlkNr(Pos(es, k), inode.B()) ==> OnTheWay(inode, es, k, lcn + 1)
    ensures r.LoadedHead? && lcn != BlkNr(Pos(es, k), inode.B()) ==>
      && BlkPos(lcn, inode.B()) + r.clusterofs - Pos(es, k) == es[k].length
      && (inode.compact || Span(inode.B(), es, k) <= 65536)
    ensures r.LoadedNonHead? && r.delta1 > 0 ==> OnTheWay(inode, es, k, lcn + r.delta1)
    ensures r.LoadedNonHead? && r.delta1 == 0 ==>
      && BlkPos(lcn, inode.B()) + inode.B() - Pos(es, k) != es[k].length
      && !inode.compact && Span(inode.B(), es, k) > 65536
  {
    hide BlkNr, BlkOff, BlkPos, BlkRoundUp, Pow2, SlotOf, FileSize, Pos, Storable;
    var b := inode.B();
    WhereItEnds(b, inode.big, es, k);
    if lcn == BlkNr(Pos(es, k), b) {
      RoleHead(b, inode.big, es, k, lcn);
    } else if lcn < BlkNr(Pos(es, k + 1), b) {
      InsideStep(inode, es, k, lcn, r);
    } else {
      EndStep(inode, es, k, r);
    }
  }

  lemma OffsetInFile(b: nat, size: nat, at: nat)
    requires b > 0 && at < size
    ensures BlkNr(at, b) < BlkRoundUp(size, b)
  {
    hide BlkNr, BlkOff, BlkPos, BlkRoundUp;
    BlkRoundUpIs(size, b);
    BlkMonotone(at, size, b);
    BlkSplit(size, b);
    BlkSplit(at, b);
  }

  /** The role of the cluster of an offset within extent `k`. */
  lemma SlotOfOffset(b: nat, big: bool, es: seq<Extent>, k: nat, at: nat)
    requires b > 0 && Storable(b, big, es) && k < |es| && Pos(es, k) <= at < Pos(es, k + 1)
    ensures 0 <= Behind(b, es, k, BlkNr(at, b)) && 0 <= Ahead(b, es, k, BlkNr(at, b)) && BlkNr(at, b) < IndexCount(b, es)
    ensures Behind(b, es, k, BlkNr(at, b)) == 0 ==>
      SlotOf(b, es, BlkNr(at, b)) == HeadOf(k) && BlkOff(Pos(es, k), b) <= BlkOff(at, b)
    ensures Behind(b, es, k, BlkNr(at, b)) > 0 && Ahead(b, es, k, BlkNr(at, b)) > 0 ==>
      SlotOf(b, es, BlkNr(at, b)) == Inside(k)
    ensures EndsHere(b, es, k, at) ==>
      && SlotOf(b, es, BlkNr(at, b)) == (if k + 1 < |es| then HeadOf(k + 1) else Tail)
      && BlkOff(at, b) < BlkOff(Pos(es, k + 1), b)
      && BlkNr(at, b) > 0 && Owns(b, es, k, BlkNr(at, b) - 1)
  {
    hide BlkNr, BlkOff, BlkPos, BlkRoundUp, Pow2, SlotOf, Pos, Storable;
    var l := BlkNr(at, b);
    BlkMonotone(Pos(es, k), at, b);
    BlkMonotone(at, Pos(es, k + 1), b);
    BlkSplit(at, b);
    BlkSplit(Pos(es, k + 1), b);
    WhereItEnds(b, big, es, k);
    PosMonotone(es, k + 1, |es|);
    OffsetInFile(b, FileSize(es), at);
    if l == BlkNr(Pos(es, k), b) {
      RoleHead(b, big, es, k, l);
    } else if l < BlkNr(Pos(es, k + 1), b) {
      RoleInside(b, big, es, k, l);
    } else if l - 1 == BlkNr(Pos(es, k), b) {
      RoleHead(b, big, es, k, l - 1);
    } else {
      RoleInside(b, big, es, k, l - 1);
    }
  }

  /** A raw extent's piece is never longer than its block, so no truthful index is refused. */
  lemma RawFits(b: nat, big: bool, es: seq<Extent>, k: nat, at: nat)
    requires b > 0 && Storable(b, big, es) && k < |es| && Pos(es, k) <= at < Pos(es, k + 1) && es[k].raw
    ensures es[k].length <= b && es[k].compressedblks == 1
    ensures BlkPos(BlkNr(at, b) + 1, b) >= Pos(es, k)
    ensures !EndsHere(b, es, k, at) ==> BlkPos(BlkNr(at, b) + 1, b) - Pos(es, k) <= b
  {
    hide BlkNr, BlkOff, BlkPos, BlkRoundUp, SlotOf;
    StorableAt(b, big, es, k);
    var h := BlkNr(Pos(es, k), b);
    BlkSplit(Pos(es, k), b);
    Advance(Pos(es, k), es[k].length, b);
    BlkFits(BlkOff(Pos(es, k), b) + es[k].length, b, 2);
    BlkMonotone(Pos(es, k), at, b);
    BlkMonotone(at, Pos(es, k + 1), b);
    BlkPosNext(h, b);
    BlkPosMonotone(h + 1, BlkNr(at, b) + 1, b);
    assert BlkOff(Pos(es, k), b) + es[k].length < 2 * b;
  }

  /** The part of `z_erofs_do_map_blocks` before the lengths: finds the head of the extent at `at`. */
  method FindHead(m: MapRecorder, at: nat, ghost es: seq<Extent>, ghost k: nat)
    returns (err: nat, end: nat, fullMapped: bool)
    requires m.CacheOk() && m.inode.blkbits >= 5 && m.compressedblks == 0 && !m.partialref
    modifies m
    ensures m.CacheOk()
    ensures Setting(m.inode, m.dev, es) && k < |es| && Pos(es, k) <= at < Pos(es, k + 1) ==>
      var b := m.inode.B();
      && err == 0 && m.AtHead(es, k) && fullMapped == EndsHere(b, es, k, at)
      && m.partialref == (es[k].partial || (EndsHere(b, es, k, at) && k + 1 < |es| && es[k + 1].partial))
      && end == (if fullMapped then Pos(es, k + 1) else BlkPos(BlkNr(at, b) + 1, b))
  {
    hide BlkNr, BlkOff, BlkPos, BlkRoundUp, Pow2, LoadCluster, Pos, SlotOf, Storable, Faithful;
    var b := m.inode.B();
    var l, endoff := BlkNr(at, b), BlkOff(at, b);
    ghost var good := Setting(m.inode, m.dev, es) && k < |es| && Pos(es, k) <= at < Pos(es, k + 1);
    if good {
      SlotOfOffset(b, m.inode.big, es, k, at);
      FaithfulLoad(m.inode, m.dev, es, l, false);
      BlkSplit(Pos(es, k), b);
      BlkSplit(Pos(es, k + 1), b);
    }
    end, fullMapped := 0, false;
    err := m.Load(l, false);
    if err != 0 {
      return;
    }
    end := BlkPos(m.lcn + 1, b);
    if m.ty == PLAIN || m.ty == HEAD1 {
      if endoff >= m.clusterofs {
        m.headtype := m.ty;
        m.la := JoinPos(m.lcn, m.clusterofs, b);
        if good {
          JoinIsPos(l, m.clusterofs, b);
        }
        return;
      }
      if m.lcn == 0 {
        return EFSCORRUPTED, end, fullMapped;
      }
      end := JoinPos(m.lcn, m.clusterofs, b);
      if good {
        JoinIsPos(l, m.clusterofs, b);
      }
      fullMapped := true;
      m.delta0 := 1;
    } else if m.ty == NONHEAD {
      if good {
        OwnsBehind(b, m.inode.big, es, k, l, m.delta0);
      }
    } else {
      return EOPNOTSUPP, end, fullMapped;
    }
    err := m.ExtentLookback(m.delta0, es, k);
  }

  /** `z_erofs_do_map_blocks` */
  method DoMapBlocks(inode: Inode, dev: seq<byte>, at: nat, fiemap: bool, ghost es: seq<Extent>)
    returns (r: Result<Map>)
    requires inode.blkbits >= 5
    ensures Setting(inode, dev, es) && at < inode.size ==> r.Ok? && Maps(inode, es, at, fiemap, r.value)
  {
    hide BlkNr, BlkOff, BlkPos, BlkRoundUp, Pow2, LoadCluster, Pos, SlotOf, Storable, Faithful;
    ghost var good := Setting(inode, dev, es) && at < inode.size;
    ghost var k := if |es| > 0 then ExtentOf(es, at) else 0;
    var m := new MapRecorder(inode, dev);
    var err, end, fullMapped := FindHead(m, at, es, k);
    if err != 0 {
      return Err(err);
    }
    var partialRef, pa, la := m.partialref, BlkPos(m.pblk, inode.B()), m.la;
    m.llen := end - m.la;
    if good {
      HeadInFile(inode.B(), inode.big, es, k);
      PosNext(es, k);
    }
    err := m.CompressedLen(es, k);
    if err != 0 {
      return Err(err);
    }
    var alg := inode.alg;
    if m.headtype == PLAIN {
      if good {
        RawFits(inode.B(), inode.big, es, k, at);
        BlkPosNext(0, inode.B());
      }
      if m.llen < 0 || m.llen > m.plen {
        return Err(EFSCORRUPTED);
      }
      alg := if inode.interlaced then INTERLACED else SHIFTED;
    }
    if fiemap {
      err := m.DecompressedLen(es, k);
      if err != 0 {
        return Err(err);
      }
      fullMapped := true;
    }
    r := Ok(Map(m.la, m.llen, pa, m.plen, fullMapped, partialRef, alg));
  }

  // ----- two surprises, each with a concrete file ---------------------------------------

  /** A file of one extent of 65537 clusters. mkfs compresses less at once, so another tool must have written it. */
  function LongFile(): seq<Extent> {
    [Extent(512 * 65537, false, false, 1, 1)]
  }

  lemma LongFileFacts()
    ensures var es := LongFile();
            Storable(512, false, es) && FileSize(es) == 512 * 65537 && Span(512, es, 0) == 65537
  {
    var es := LongFile();
    StartIsZero(512, es);
    assert Pos(es, 1) == Pos(es, 0) + es[0].length && Pos(es, 0) == 0;
    assert ExtentAt(512, false, es, 0);
  }

  /** FIEMAP reports a wrong length for it from full indexes, on every image that stores it. */
  lemma LongExtentIsMisreported(inode: Inode, dev: seq<byte>, m: Map)
    requires inode.blkbits == 9 && !inode.compact && !inode.big && Setting(inode, dev, LongFile())
    requires Maps(inode, LongFile(), 0, true, m)
    ensures m.llen != LongFile()[0].length
  {
    BlockOf512();
    LongFileFacts();
    hide Pow2, Setting, BlkNr;
    assert ExtentOf(LongFile(), 0) == 0;
  }

  /** Two extents that meet in cluster 1, of which only the second is a partial reference. */
  function LeakyFile(): seq<Extent> {
    [Extent(700, false, false, 1, 1), Extent(900, false, true, 2, 1)]
  }

  lemma LeakyFileFacts()
    ensures var es := LeakyFile();
            && Storable(512, false, es) && FileSize(es) == 1600
            && Pos(es, 0) == 0 && Pos(es, 1) == 700 && Pos(es, 2) == 1600
            && ExtentOf(es, 600) == 0 && EndsHere(512, es, 0, 600)
  {
    var es := LeakyFile();
    StartIsZero(512, es);
    assert Pos(es, 0) == 0 && Pos(es, 1) == 700 && Pos(es, 2) == 1600;
    assert ExtentAt(512, false, es, 0) && ExtentAt(512, false, es, 1);
  }

  /** The first extent is reported as a partial reference, on every image that stores the file. */
  lemma PartialFlagLeaks(inode: Inode, dev: seq<byte>, m: Map)
    requires inode.blkbits == 9 && !inode.compact && !inode.big && Setting(inode, dev, LeakyFile())
    requires Maps(inode, LeakyFile(), 600, false, m)
    ensures m.la == 0 && m.llen == 700 && !LeakyFile()[0].partial && m.partialRef
  {
    BlockOf512();
    LeakyFileFacts();
    hide Pow2, Setting, BlkNr, Pos, EndsHere;
  }
}
