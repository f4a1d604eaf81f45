/**
 * What loading an index must tell about the extents of a file, and that both formats tell it.
 */
module IndexMeaning {
  import opened Arithmetic
  import opened Bytes
  import opened Extents
  import opened FullIndex
  import opened CompactIndex
  import opened CompactConvert
  import opened IndexReader

  // ----- entries of a pack -------------------------------------------------------------

  predicate ValidLow(ds: nat, lo: nat) {
    lo == 4096 || (ds == 4 && (lo == 8192 || lo == 16384))
  }

  /** The 32-bit word the reader shifts holds the entry and bits above it. */
  lemma WordHoldsEntry(ds: nat, p: seq<byte>, i: nat) returns (high: nat)
    requires (ds == 2 || ds == 4) && i < Vcnt(ds) && |p| == ds * Vcnt(ds)
    ensures SlotByte(ds, i) + 4 <= |p|
    ensures U32(p, SlotByte(ds, i)) / Weight(SlotRem(ds, i)) == SlotValue(ds, p, i) + EntryLimit(ds) * high
  {
    SlotPlace(ds, i);
    var at, rem := SlotByte(ds, i), SlotRem(ds, i);
    var b0, b1, b2, b3 := p[at] as int, p[at + 1] as int, p[at + 2] as int, p[at + 3] as int;
    assert U32(p, at) == b0 + 256 * b1 + 65536 * b2 + 16777216 * b3;
    hide SlotByte, SlotRem, U32;
    if ds == 4 {
      high := b2 + 256 * b3;
    } else if rem == 0 {
      high := b1 / 64 + 4 * (b2 + 256 * b3);
      assert b1 == 64 * (b1 / 64) + b1 % 64;
    } else if rem == 6 {
      high := b2 / 16 + 16 * b3;
      assert b2 == 16 * (b2 / 16) + b2 % 16;
      assert (b0 + 256 * b1 + 65536 * b2 + 16777216 * b3) / 64 == b0 / 64 + 4 * b1 + 1024 * b2 + 262144 * b3;
    } else if rem == 4 {
      high := b2 / 4 + 64 * b3;
      assert b2 == 4 * (b2 / 4) + b2 % 4;
      assert (b0 + 256 * b1 + 65536 * b2 + 16777216 * b3) / 16 == b0 / 16 + 16 * b1 + 4096 * b2 + 1048576 * b3;
    } else {
      high := b2 + 256 * b3;
      assert (b0 + 256 * b1 + 65536 * b2 + 16777216 * b3) / 4 == b0 / 4 + 64 * b1 + 16384 * b2 + 4194304 * b3;
    }
  }

  /** Decoding an entry splits exactly the bits the writer joined. */
  lemma DecodeEntry(ds: nat, lo: nat, p: seq<byte>, i: nat, cv: IndexVec, last: bool)
    requires (ds == 2 || ds == 4) && ValidLow(ds, lo) && i < Vcnt(ds) && |p| == ds * Vcnt(ds)
    requires cv.clustertype < 3 && 0 <= EntryLow(cv, last, lo) < lo
    requires SlotValue(ds, p, i) == Entry(cv, last, lo)
    ensures DecodeLow(ds, lo, p, i) == EntryLow(cv, last, lo) && DecodeType(ds, lo, p, i) == cv.clustertype
  {
    var high := WordHoldsEntry(ds, p, i);
    hide SlotByte, SlotRem, SlotValue, U32, Weight;
    var t, e := cv.clustertype, EntryLow(cv, last, lo);
    if lo == 4096 {
      SplitWord(e, t, high, 4096, if ds == 2 then 1 else 4);
    } else if lo == 8192 {
      SplitWord(e, t, high, 8192, 2);
    } else {
      SplitWord(e, t, high, 16384, 1);
    }
  }

  lemma SplitWord(e: nat, t: nat, high: nat, lo: nat, m: nat)
    requires e < lo && t < 3
    requires (lo == 4096 && (m == 1 || m == 4)) || (lo == 8192 && m == 2) || (lo == 16384 && m == 1)
    ensures (t * lo + e + 4 * lo * m * high) % lo == e
    ensures (t * lo + e + 4 * lo * m * high) / lo % 4 == t
  {
    var w := t * lo + e + 4 * lo * m * high;
    assert w == (t + 4 * (m * high)) * lo + e;
    DivModUnique(w, lo, t + 4 * (m * high), e);
    assert (t + 4 * (m * high)) % 4 == t;
  }

  // ----- what a loaded index must tell -------------------------------------------------

  /** Distance of `lcn` from the head of extent `k`, and to the cluster where the next one begins. */
  function Behind(b: nat, es: seq<Extent>, k: nat, lcn: nat): int
    requires b > 0 && k < |es|
  {
    lcn - BlkNr(Pos(es, k), b)
  }

  function Ahead(b: nat, es: seq<Extent>, k: nat, lcn: nat): int
    requires b > 0 && k < |es|
  {
    BlkNr(Pos(es, k + 1), b) - lcn
  }

  /**
   * `r` tells the truth about `lcn`. Inside an extent the look-back distance must stay within the
   * extent, the block count appears only in the first such cluster, and the look-ahead distance,
   * if asked for, must not pass the next head; full indexes store it modulo 2^16.
   */
  predicate Describes(b: nat, big: bool, full: bool, es: seq<Extent>, lcn: nat, lookahead: bool, r: Loaded)
    requires b > 0 && |es| > 0
  {
    match SlotOf(b, es, lcn)
    case HeadOf(k) => k < |es| &&
      r == LoadedHead(if es[k].raw then PLAIN else HEAD1, BlkOff(Pos(es, k), b), es[k].blkaddr, es[k].partial)
    case Inside(k) => k < |es| && r.LoadedNonHead?
      && 1 <= r.delta0 <= Behind(b, es, k, lcn)
      && r.marked == (big && Behind(b, es, k, lcn) == 1)
      && r.cblks == (if r.marked then es[k].compressedblks else 0)
      && (full ==> r.delta1 == Ahead(b, es, k, lcn) % 65536)
      && (!full && lookahead ==> 1 <= r.delta1 <= Ahead(b, es, k, lcn))
    case Tail =>
      r.LoadedHead? && r.headtype == PLAIN && r.clusterofs == BlkOff(FileSize(es), b) && !r.partial
  }

  /** The image lets every cluster of the file be loaded truthfully. */
  ghost predicate Faithful(inode: Inode, dev: seq<byte>, es: seq<Extent>)
    requires |es| > 0
  {
    forall lcn: nat, la: bool :: lcn < inode.Total() ==> FaithfulAt(inode, dev, es, lcn, la)
  }

  predicate FaithfulAt(inode: Inode, dev: seq<byte>, es: seq<Extent>, lcn: nat, la: bool)
    requires |es| > 0
  {
    && LoadCluster(inode, dev, lcn, la).Ok?
    && Describes(inode.B(), inode.big, !inode.compact, es, lcn, la, LoadCluster(inode, dev, lcn, la).value)
  }

  // ----- the full format ---------------------------------------------------------------

  /** Interpreting a full record gives back the index it encodes. */
  lemma InterpretEncoded(inode: Inode, rec: seq<byte>, i: Index)
    requires |rec| == 8 && rec == EncodeIndex(i)
    requires i.Head? ==> i.blkaddr < U32_LIMIT && i.clusterofs < 65536
    ensures i.Head? ==>
      InterpretFull(inode, rec) == Ok(LoadedHead(if i.plain then PLAIN else HEAD1, i.clusterofs, i.blkaddr, i.partial))
    ensures i.NonHead? && i.delta0 < 65536 && HasCblkcnt(i.delta0) && inode.big ==>
      InterpretFull(inode, rec) == Ok(LoadedNonHead(1, i.delta1 % 65536, true, WithoutCblkcnt(i.delta0)))
    ensures i.NonHead? && i.delta0 < 65536 && !HasCblkcnt(i.delta0) ==>
      InterpretFull(inode, rec) == Ok(LoadedNonHead(i.delta0, i.delta1 % 65536, false, 0))
  {
    hide Le16, Le32, U16, U32, HasCblkcnt, WithoutCblkcnt;
    assert rec[0..8] == rec;
    match i
    case Head(plain, partial, clusterofs, blkaddr) =>
      var advise := (if plain then PLAIN else HEAD1) + (if partial then PARTIAL_REF else 0);
      Fields(rec, 0, Le16(advise), Le16(clusterofs), Le32(blkaddr));
      ReadLe16(rec, 0, advise);
      ReadLe16(rec, 2, clusterofs);
      ReadLe32(rec, 4, blkaddr);
    case NonHead(clusterofs, delta0, delta1) =>
      assert Le16(delta0) + Le16(delta1) == (Le16(delta0) + Le16(delta1))[..2] + (Le16(delta0) + Le16(delta1))[2..];
      Fields(rec, 0, Le16(NONHEAD), Le16(clusterofs), Le16(delta0) + Le16(delta1));
      assert rec[4..6] == rec[4..8][..2];
      assert rec[6..8] == rec[4..8][2..];
      ReadLe16(rec, 0, NONHEAD);
      ReadLe16(rec, 4, delta0);
      ReadLe16(rec, 6, delta1);
  }

  /** Record `lcn` of a run of records. */
  lemma {:induction false} RecordOf(b: nat, big: bool, es: seq<Extent>, n: nat, lcn: nat)
    requires b > 0 && lcn < n <= IndexCount(b, es)
    ensures Records(b, big, es, n)[8 * lcn..8 * lcn + 8] == EncodeIndex(IndexAt(b, big, es, lcn))
  {
    hide IndexAt, EncodeIndex, IndexCount;
    if lcn + 1 < n {
      RecordOf(b, big, es, n - 1, lcn);
      var r := Records(b, big, es, n - 1);
      assert Records(b, big, es, n)[8 * lcn..8 * lcn + 8] == r[8 * lcn..8 * lcn + 8];
    }
  }

  /** The records mkfs writes describe every cluster truthfully. */
  lemma FullRecordDescribes(inode: Inode, es: seq<Extent>, lcn: nat, la: bool)
    requires inode.blkbits <= 16 && Storable(inode.B(), inode.big, es) && lcn < IndexCount(inode.B(), es)
    ensures var r := InterpretFull(inode, EncodeIndex(IndexAt(inode.B(), inode.big, es, lcn)));
      r.Ok? && Describes(inode.B(), inode.big, true, es, lcn, la, r.value)
  {
    hide BlkNr, BlkOff, BlkRoundUp, SlotOf, Pos, FileSize, IndexCount, HasCblkcnt, WithoutCblkcnt, EncodeIndex, InterpretFull;
    var b := inode.B();
    BlockAtMost64K(inode.blkbits);
    match SlotOf(b, es, lcn) {
      case HeadOf(k) => StorableAt(b, inode.big, es, k); BlkSplit(Pos(es, k), b);
      case Inside(k) => InsideDelta(b, inode.big, es, lcn, k); StorableAt(b, inode.big, es, k);
      case Tail => BlkSplit(FileSize(es), b);
    }
    hide Storable, ExtentOk, Span;
    InterpretEncoded(inode, EncodeIndex(IndexAt(b, inode.big, es, lcn)), IndexAt(b, inode.big, es, lcn));
  }

  lemma BlockAtMost64K(bits: nat)
    requires bits <= 16
    ensures Pow2(bits) <= 65536
  {
    Pow2Monotone(bits, 16);
    assert Pow2(16) == 65536 by { Pow2Add(8, 8); assert Pow2(8) == 256 by { assert Pow2(4) == 16; Pow2Add(4, 4); } }
  }

  /**
   * Full indexes: an image that holds the records of a file at the place the reader looks for them
   * is read truthfully for every cluster.
   */
  lemma FullIsFaithful(inode: Inode, dev: seq<byte>, es: seq<Extent>)
    requires !inode.compact && 3 <= inode.blkbits <= 16
    requires Storable(inode.B(), inode.big, es) && inode.size == FileSize(es)
    requires inode.FullBase() + 8 * IndexCount(inode.B(), es) <= |dev|
    requires dev[inode.FullBase()..inode.FullBase() + 8 * IndexCount(inode.B(), es)]
               == Records(inode.B(), inode.big, es, IndexCount(inode.B(), es))
    ensures Faithful(inode, dev, es)
  {
    forall lcn: nat, la: bool | lcn < inode.Total()
      ensures FaithfulAt(inode, dev, es, lcn, la)
    {
      FullFaithfulAt(inode, dev, es, lcn, la);
    }
  }

  lemma FullFaithfulAt(inode: Inode, dev: seq<byte>, es: seq<Extent>, lcn: nat, la: bool)
    requires !inode.compact && 3 <= inode.blkbits <= 16
    requires Storable(inode.B(), inode.big, es) && inode.size == FileSize(es)
    requires inode.FullBase() + 8 * IndexCount(inode.B(), es) <= |dev|
    requires dev[inode.FullBase()..inode.FullBase() + 8 * IndexCount(inode.B(), es)]
               == Records(inode.B(), inode.big, es, IndexCount(inode.B(), es))
    requires lcn < inode.Total()
    ensures FaithfulAt(inode, dev, es, lcn, la)
  {
    hide Records, InterpretFull, Describes, BlkRoundUp, BlkNr, BlkPos, RoundUp, Pow2, Storable, EncodeIndex, IndexAt;
    var b, n := inode.B(), IndexCount(inode.B(), es);
    var pos := inode.FullBase() + 8 * lcn;
    RecordOf(b, inode.big, es, n, lcn);
    SubSlice(dev, inode.FullBase(), 8 * n, 8 * lcn, 8);
    DevReadInside(dev, pos, 8);
    FullRecordDescribes(inode, es, lcn, la);
  }

  lemma SubSlice(s: seq<byte>, at: nat, n: nat, i: nat, m: nat)
    requires at + n <= |s| && i + m <= n
    ensures s[at..at + n][i..i + m] == s[at + i..at + i + m]
  {
    var t := s[at..at + n];
    var u, v := t[i..i + m], s[at + i..at + i + m];
    assert forall x :: 0 <= x < m ==> u[x] == v[x];
  }

  // ----- the compact format ------------------------------------------------------------

  lemma RoleHead(b: nat, big: bool, es: seq<Extent>, k: nat, lcn: nat)
    requires b > 0 && Storable(b, big, es) && k < |es| && lcn == BlkNr(Pos(es, k), b) < IndexCount(b, es)
    ensures SlotOf(b, es, lcn) == HeadOf(k)
  {
    hide BlkNr, BlkOff, BlkRoundUp, SlotOf, Pos, Storable, IndexCount;
    SlotUnique(b, big, es, lcn, HeadOf(k));
  }

  lemma RoleInside(b: nat, big: bool, es: seq<Extent>, k: nat, lcn: nat)
    requires b > 0 && Storable(b, big, es) && k < |es|
    requires BlkNr(Pos(es, k), b) < lcn < BlkNr(Pos(es, k + 1), b) && lcn < IndexCount(b, es)
    ensures SlotOf(b, es, lcn) == Inside(k)
  {
    hide BlkNr, BlkOff, BlkRoundUp, SlotOf, Pos, Storable, IndexCount;
    SlotUnique(b, big, es, lcn, Inside(k));
  }

  /** The pack `p` holds the entries of the clusters from `s` on, as a reader decodes them. */
  predicate Decodes(b: nat, big: bool, es: seq<Extent>, ds: nat, lo: nat, p: seq<byte>, s: nat)
    requires b > 0 && |es| > 0
  {
    && Pack(ds, lo, p)
    && forall i :: 0 <= i < Vcnt(ds) ==> DecodesAt(b, big, es, ds, lo, p, s, i)
  }

  predicate DecodesAt(b: nat, big: bool, es: seq<Extent>, ds: nat, lo: nat, p: seq<byte>, s: nat, i: nat)
    requires b > 0 && |es| > 0 && Pack(ds, lo, p) && i < Vcnt(ds)
  {
    && DecodeType(ds, lo, p, i) == VecAt(b, big, es, s + i).clustertype
    && DecodeLow(ds, lo, p, i) == EntryLow(VecAt(b, big, es, s + i), i + 1 == Vcnt(ds), lo)
  }

  /** A pack as mkfs wrote it decodes to the indexes of its clusters, and its base is `PackBase`. */
  lemma WrittenPackDecodes(b: nat, big: bool, es: seq<Extent>, start: nat, ds: nat, lo: nat, p: seq<byte>, s: nat)
    requires 0 < b <= lo && ValidLow(ds, lo) && (ds == 2 || ds == 4) && |es| > 0
    requires Compactable(b, big, es, start) && s < IndexCount(b, es)
    requires var vs := VecsFrom(b, big, es, s, Vcnt(ds));
      PackHolds(p, ds, lo, vs, WalkTo(WalkFrom(b, big, es, start, s), vs, |vs|).base)
    ensures Decodes(b, big, es, ds, lo, p, s)
    ensures SlotOf(b, es, s) != Tail ==> U32(p, |p| - 4) == PackBase(b, big, es, start, s)
  {
    hide BlkNr, BlkOff, BlkRoundUp, SlotOf, IndexCount, VecAt, WalkTo, WalkFrom, PackBase, SlotValue, Entry, EntryLow;
    hide DecodeLow, DecodeType, U32, Storable, AddressBefore;
    var vs := VecsFrom(b, big, es, s, Vcnt(ds));
    forall i | 0 <= i < Vcnt(ds)
      ensures DecodesAt(b, big, es, ds, lo, p, s, i)
    {
      VecEncodable(b, big, es, s + i, i + 1 == Vcnt(ds), lo);
      assert vs[i] == VecAt(b, big, es, s + i);
      DecodeEntry(ds, lo, p, i, VecAt(b, big, es, s + i), i + 1 == Vcnt(ds));
    }
    if SlotOf(b, es, s) != Tail {
      BaseIsSettled(b, big, es, start, s, Vcnt(ds), Vcnt(ds));
    }
  }

  /** What entry `i` of a pack decodes to when its cluster is inside extent `k`. */
  lemma InsideEntry(b: nat, big: bool, es: seq<Extent>, ds: nat, lo: nat, p: seq<byte>, s: nat, i: nat, k: nat)
    requires 0 < b <= lo && 4096 <= lo && |es| > 0 && Storable(b, big, es) && Decodes(b, big, es, ds, lo, p, s)
    requires i < Vcnt(ds) && s + i < IndexCount(b, es) && SlotOf(b, es, s + i) == Inside(k)
    ensures k < |es| && 1 <= Behind(b, es, k, s + i) && 1 <= Ahead(b, es, k, s + i)
    ensures DecodeType(ds, lo, p, i) == NONHEAD
    ensures var d0, low := Behind(b, es, k, s + i), DecodeLow(ds, lo, p, i);
      if big && d0 == 1 then HasCblkcnt(low) && WithoutCblkcnt(low) == es[k].compressedblks
      else if i + 1 == Vcnt(ds) then low == Min(Ahead(b, es, k, s + i), lo - 1)
      else !HasCblkcnt(low) && low == Min(d0, CBLKCNT - 1)
  {
    hide BlkNr, BlkOff, BlkRoundUp, SlotOf, IndexCount, VecAt, DecodeLow, DecodeType, Storable, HasCblkcnt, WithoutCblkcnt, Pos;
    assert DecodesAt(b, big, es, ds, lo, p, s, i);
    InsideDelta(b, big, es, s + i, k);
  }

  /** The pack's base address when its first cluster is inside an extent. */
  lemma BaseInside(b: nat, big: bool, es: seq<Extent>, start: nat, s: nat, k: nat)
    requires b > 0 && |es| > 0 && Compactable(b, big, es, start) && s < IndexCount(b, es)
    requires SlotOf(b, es, s) == Inside(k)
    ensures k < |es| && 1 <= Behind(b, es, k, s)
    ensures PackBase(b, big, es, start, s)
              == (if big && Behind(b, es, k, s) >= 2 then (es[k].blkaddr + es[k].compressedblks) % U32_LIMIT
                  else es[k].blkaddr)
  {
    hide BlkNr, BlkOff, BlkRoundUp, SlotOf, IndexCount, Pos;
    NextSlot(b, big, es, s - 1);
  }

  /** Everything about a pack that the address lemmas use. */
  predicate PackFacts(b: nat, big: bool, es: seq<Extent>, start: nat, ds: nat, lo: nat, p: seq<byte>, s: nat)
    requires b > 0 && |es| > 0
  {
    && b <= lo && 4096 <= lo && Compactable(b, big, es, start) && Decodes(b, big, es, ds, lo, p, s)
    && s < IndexCount(b, es) && Pack(ds, lo, p)
  }

  /**
   * Big pclusters: counting back from the head of extent `m` at entry `i`, the block counts found in
   * the pack lead from the base to the address of the extent. From the closing entry (`m == |es|`)
   * the count is only known to succeed; its address is not used.
   */
  lemma {:induction false} CountBigFromHead(b: nat, es: seq<Extent>, start: nat, ds: nat, lo: nat, p: seq<byte>,
                                            s: nat, i: nat, m: nat)
    requires b > 0 && |es| > 0 && PackFacts(b, true, es, start, ds, lo, p, s)
    requires i < Vcnt(ds) && s + i < IndexCount(b, es) && m <= |es|
    requires SlotOf(b, es, s + i) == (if m < |es| then HeadOf(m) else Tail)
    ensures CountBig(ds, lo, p, i).Ok?
    ensures m < |es| ==> PackBase(b, true, es, start, s) + CountBig(ds, lo, p, i).value == es[m].blkaddr
    decreases i, 2
  {
    hide BlkNr, BlkOff, BlkRoundUp, SlotOf, IndexCount, VecAt, DecodeLow, DecodeType, HasCblkcnt, WithoutCblkcnt, Pos;
    hide AddressBefore, Storable, Decodes, ExtentOk;
    if i > 0 {
      var j := i - 1;
      NextSlot(b, true, es, s + j);
      if m < |es| {
        StorableAt(b, true, es, m);
        assert Follows(es, m);
      }
      if Span(b, es, m - 1) == 1 {
        OneClusterOneBlock(b, true, es, m - 1);
        HeadEntry(b, true, es, ds, lo, p, s, j);
        CountBigFromHead(b, es, start, ds, lo, p, s, j, m - 1);
      } else {
        if Behind(b, es, m - 1, s + j) == 1 {
          CountBigFromCount(b, es, start, ds, lo, p, s, i, m - 1);
        } else {
          CountBigFromFar(b, es, start, ds, lo, p, s, i, m - 1);
        }
      }
    }
  }

  /** A distance of two or more leads back past the clusters it spans. */
  lemma FarStep(ds: nat, lo: nat, p: seq<byte>, i: nat)
    requires Pack(ds, lo, p) && 0 < i < Vcnt(ds) && DecodeType(ds, lo, p, i - 1) == NONHEAD
    requires !HasCblkcnt(DecodeLow(ds, lo, p, i - 1)) && DecodeLow(ds, lo, p, i - 1) >= 2
    ensures var i' := i - 1 - (DecodeLow(ds, lo, p, i - 1) - 2);
      CountBig(ds, lo, p, i) == (if i' <= 0 then Ok(0) else CountBig(ds, lo, p, i'))
  {
    hide DecodeLow, DecodeType, HasCblkcnt, WithoutCblkcnt;
  }

  /** Counting back from a cluster further inside extent `k`: a jump to just after its block count. */
  lemma {:induction false} CountBigFromFar(b: nat, es: seq<Extent>, start: nat, ds: nat, lo: nat, p: seq<byte>,
                                           s: nat, i: nat, k: nat)
    requires b > 0 && |es| > 0 && PackFacts(b, true, es, start, ds, lo, p, s)
    requires 0 < i < Vcnt(ds) && s + i < IndexCount(b, es) && k < |es|
    requires SlotOf(b, es, s + i - 1) == Inside(k) && Behind(b, es, k, s + i - 1) != 1
    ensures CountBig(ds, lo, p, i).Ok?
    ensures k + 1 < |es| ==>
      PackBase(b, true, es, start, s) + CountBig(ds, lo, p, i).value == es[k].blkaddr + es[k].compressedblks
    decreases i, 1
  {
    hide BlkNr, BlkOff, BlkRoundUp, SlotOf, IndexCount, VecAt, DecodeLow, DecodeType, HasCblkcnt, WithoutCblkcnt, Pos;
    hide AddressBefore, Storable, Decodes, PackBase, ExtentOk, Span, Contiguous, FileSize, CountBig;
    var j := i - 1;
    InsideEntry(b, true, es, ds, lo, p, s, j, k);
    FarStep(ds, lo, p, i);
    var i' := j - (DecodeLow(ds, lo, p, j) - 2);
    if i' <= 0 {
      if k + 1 < |es| { CountedBefore(b, es, start, s, j, k); }
    } else {
      RoleInside(b, true, es, k, s + i' - 1);
      CountBigFromCount(b, es, start, ds, lo, p, s, i', k);
    }
  }

  /** Counting back from just after the cluster that holds the block count of extent `k`. */
  lemma {:induction false} CountBigFromCount(b: nat, es: seq<Extent>, start: nat, ds: nat, lo: nat, p: seq<byte>,
                                             s: nat, i: nat, k: nat)
    requires b > 0 && |es| > 0 && PackFacts(b, true, es, start, ds, lo, p, s)
    requires 0 < i < Vcnt(ds) && s + i < IndexCount(b, es) && k < |es|
    requires SlotOf(b, es, s + i - 1) == Inside(k) && Behind(b, es, k, s + i - 1) == 1
    ensures CountBig(ds, lo, p, i).Ok?
    ensures PackBase(b, true, es, start, s) + CountBig(ds, lo, p, i).value == es[k].blkaddr + es[k].compressedblks
    decreases i, 0
  {
    hide BlkNr, BlkOff, BlkRoundUp, SlotOf, IndexCount, VecAt, DecodeLow, DecodeType, HasCblkcnt, WithoutCblkcnt, Pos;
    hide AddressBefore, Storable, Decodes;
    InsideEntry(b, true, es, ds, lo, p, s, i - 1, k);
    if i == 1 {
      BaseInside(b, true, es, start, s, k);
    } else {
      RoleHead(b, true, es, k, s + i - 2);
      CountBigFromHead(b, es, start, ds, lo, p, s, i - 2, k);
    }
  }

  /** An extent whose block count lies before the pack is already part of the base. */
  lemma CountedBefore(b: nat, es: seq<Extent>, start: nat, s: nat, j: nat, k: nat)
    requires b > 0 && |es| > 0 && Compactable(b, true, es, start)
    requires s + j < IndexCount(b, es) && SlotOf(b, es, s + j) == Inside(k) && Behind(b, es, k, s + j) >= j + 2
    requires k + 1 < |es|
    ensures PackBase(b, true, es, start, s) == es[k].blkaddr + es[k].compressedblks
  {
    hide BlkNr, BlkOff, BlkRoundUp, SlotOf, IndexCount, Pos, AddressBefore, PackBase, Storable;
    RoleInside(b, true, es, k, s);
    BaseInside(b, true, es, start, s, k);
    StorableAt(b, true, es, k + 1);
    assert Follows(es, k + 1);
  }

  /** What entry `i` decodes to when its cluster is a head. */
  lemma HeadEntry(b: nat, big: bool, es: seq<Extent>, ds: nat, lo: nat, p: seq<byte>, s: nat, i: nat)
    requires b > 0 && |es| > 0 && Storable(b, big, es) && Decodes(b, big, es, ds, lo, p, s)
    requires i < Vcnt(ds) && s + i < IndexCount(b, es) && !SlotOf(b, es, s + i).Inside?
    ensures DecodeType(ds, lo, p, i) != NONHEAD && DecodeType(ds, lo, p, i) == VecAt(b, big, es, s + i).clustertype
    ensures DecodeLow(ds, lo, p, i) == VecAt(b, big, es, s + i).clusterofs
  {
    hide BlkNr, BlkOff, BlkRoundUp, SlotOf, IndexCount, DecodeLow, DecodeType, Pos, VecAt, Storable;
    assert DecodesAt(b, big, es, ds, lo, p, s, i);
    InsideIsNonHead(b, big, es, s + i);
  }

  /** Small pclusters: the heads found in the pack count the blocks from the base. */
  lemma {:induction false} CountSmallFromHead(b: nat, es: seq<Extent>, start: nat, ds: nat, lo: nat, p: seq<byte>,
                                              s: nat, i: nat, m: nat)
    requires b > 0 && |es| > 0 && PackFacts(b, false, es, start, ds, lo, p, s)
    requires i < Vcnt(ds) && s + i < IndexCount(b, es) && SlotOf(b, es, s + i) == HeadOf(m)
    ensures m < |es|
    ensures (PackBase(b, false, es, start, s) + 1 + CountSmall(ds, lo, p, i)) % U32_LIMIT == es[m].blkaddr
    decreases i
  {
    hide BlkNr, BlkOff, BlkRoundUp, SlotOf, IndexCount, VecAt, DecodeLow, DecodeType, HasCblkcnt, WithoutCblkcnt, Pos;
    hide AddressBefore, Storable, Decodes, PackBase, Contiguous, CountSmall;
    SmallFollows(b, es, start, m);
    SmallStep(ds, lo, p, i);
    if i == 0 {
      SmallBaseAtHead(b, es, start, s, m);
    } else {
      var j := i - 1;
      NextSlot(b, false, es, s + j);
      if Span(b, es, m - 1) == 1 {
        HeadEntry(b, false, es, ds, lo, p, s, j);
        CountSmallFromHead(b, es, start, ds, lo, p, s, j, m - 1);
      } else {
        InsideEntry(b, false, es, ds, lo, p, s, j, m - 1);
        var j' := j - DecodeLow(ds, lo, p, j);
        if j' >= 0 {
          RoleHead(b, false, es, m - 1, s + j');
          CountSmallFromHead(b, es, start, ds, lo, p, s, j', m - 1);
        } else {
          RoleInside(b, false, es, m - 1, s);
          BaseInside(b, false, es, start, s, m - 1);
        }
      }
    }
  }

  lemma SmallStep(ds: nat, lo: nat, p: seq<byte>, i: nat)
    requires Pack(ds, lo, p) && i < Vcnt(ds)
    ensures i == 0 ==> CountSmall(ds, lo, p, i) == 0
    ensures i > 0 && DecodeType(ds, lo, p, i - 1) != NONHEAD ==> CountSmall(ds, lo, p, i) == 1 + CountSmall(ds, lo, p, i - 1)
    ensures i > 0 && DecodeType(ds, lo, p, i - 1) == NONHEAD ==>
              var j := i - 1 - DecodeLow(ds, lo, p, i - 1);
              CountSmall(ds, lo, p, i) == if j >= 0 then 1 + CountSmall(ds, lo, p, j) else 0
  {
    hide DecodeLow, DecodeType;
  }

  lemma SmallFollows(b: nat, es: seq<Extent>, start: nat, m: nat)
    requires b > 0 && |es| > 0 && Compactable(b, false, es, start) && m < |es|
    ensures es[m].blkaddr < U32_LIMIT && (m > 0 ==> es[m].blkaddr == es[m - 1].blkaddr + 1)
  {
    hide BlkNr, BlkOff, Pos, Storable;
    StorableAt(b, false, es, m);
    if m > 0 {
      StorableAt(b, false, es, m - 1);
      assert Follows(es, m);
    }
  }

  lemma SmallBaseAtHead(b: nat, es: seq<Extent>, start: nat, s: nat, m: nat)
    requires b > 0 && |es| > 0 && Compactable(b, false, es, start) && s < IndexCount(b, es)
    requires SlotOf(b, es, s) == HeadOf(m)
    ensures m < |es| && (PackBase(b, false, es, start, s) + 1) % U32_LIMIT == es[m].blkaddr
  {
    hide BlkNr, BlkOff, BlkRoundUp, SlotOf, IndexCount, Pos, AddressBefore, VecAt, Storable;
    var (a, d) := AddressBefore(b, false, es, start, s);
    var w := Walk(a, a, d, false);
    AddressStep(b, false, es, start, s, w);
    SmallDummy(b, es, start, s);
    InsideIsNonHead(b, false, es, s);
  }

  lemma SmallDummy(b: nat, es: seq<Extent>, start: nat, s: nat)
    requires b > 0 && |es| > 0
    ensures AddressBefore(b, false, es, start, s).1
  {
  }

  /** The look-ahead distance found in a pack never passes the next head and always makes progress. */
  lemma {:induction false} LaDistanceInside(b: nat, big: bool, es: seq<Extent>, ds: nat, lo: nat, p: seq<byte>,
                                            s: nat, i: nat, k: nat)
    requires 0 < b <= lo && 4096 <= lo && |es| > 0 && Storable(b, big, es)
    requires Pack(ds, lo, p) && Decodes(b, big, es, ds, lo, p, s)
    requires i < Vcnt(ds) && s + i < IndexCount(b, es) && SlotOf(b, es, s + i) == Inside(k)
    ensures k < |es| && 1 <= LaDistance(ds, lo, p, i) <= Ahead(b, es, k, s + i)
    decreases Vcnt(ds) - i
  {
    hide BlkNr, BlkOff, BlkRoundUp, SlotOf, IndexCount, VecAt, DecodeLow, DecodeType, HasCblkcnt, WithoutCblkcnt, Pos;
    hide Storable, Decodes;
    InsideEntry(b, big, es, ds, lo, p, s, i, k);
    if i + 1 < Vcnt(ds) {
      if s + i + 1 < IndexCount(b, es) {
        if s + i + 1 < BlkNr(Pos(es, k + 1), b) {
          RoleInside(b, big, es, k, s + i + 1);
          LaDistanceInside(b, big, es, ds, lo, p, s, i + 1, k);
        } else {
          NotInside(b, big, es, k, s + i + 1);
          HeadEntry(b, big, es, ds, lo, p, s, i + 1);
        }
      } else {
        PadEntry(b, big, es, ds, lo, p, s, i + 1);
      }
    }
  }

  /** The cluster where the next extent begins is not inside an extent. */
  lemma NotInside(b: nat, big: bool, es: seq<Extent>, k: nat, lcn: nat)
    requires b > 0 && |es| > 0 && Storable(b, big, es) && k < |es| && lcn < IndexCount(b, es)
    requires lcn > 0 && SlotOf(b, es, lcn - 1) == Inside(k) && lcn == BlkNr(Pos(es, k + 1), b)
    ensures !SlotOf(b, es, lcn).Inside?
  {
    hide BlkNr, BlkOff, BlkRoundUp, SlotOf, IndexCount, Pos;
    NextSlot(b, big, es, lcn - 1);
  }

  lemma PadEntry(b: nat, big: bool, es: seq<Extent>, ds: nat, lo: nat, p: seq<byte>, s: nat, i: nat)
    requires b > 0 && |es| > 0 && Pack(ds, lo, p) && Decodes(b, big, es, ds, lo, p, s)
    requires i < Vcnt(ds) && IndexCount(b, es) <= s + i
    ensures DecodeType(ds, lo, p, i) == PLAIN
  {
    hide IndexCount, DecodeType, DecodeLow;
    assert DecodesAt(b, big, es, ds, lo, p, s, i);
  }

  /**
   * The last entry of a pack keeps `delta[1]` where the others keep `delta[0]`. If bit 11 of it is
   * set the reader takes it for a block count.
   */
  predicate Misread(b: nat, big: bool, es: seq<Extent>, ds: nat, lo: nat, i: nat, lcn: nat)
    requires b > 0 && |es| > 0
  {
    var slot := SlotOf(b, es, lcn);
    slot.Inside? && slot.k < |es| && i + 1 == Vcnt(ds) && !(big && Behind(b, es, slot.k, lcn) == 1) &&
    var low := Min(Ahead(b, es, slot.k, lcn), lo - 1);
    low >= 0 && HasCblkcnt(low)
  }

  /** A compact entry is read truthfully exactly when it is not misread. */
  lemma UnpackDescribes(b: nat, big: bool, es: seq<Extent>, start: nat, ds: nat, lo: nat, p: seq<byte>,
                        s: nat, i: nat, la: bool)
    requires 0 < b && |es| > 0 && PackFacts(b, big, es, start, ds, lo, p, s)
    requires SlotOf(b, es, s) != Tail ==> U32(p, |p| - 4) == PackBase(b, big, es, start, s)
    requires i < Vcnt(ds) && s + i < IndexCount(b, es)
    ensures var r := Unpack(ds, lo, big, p, i, la);
      (r.Ok? && Describes(b, big, false, es, s + i, la, r.value)) <==> !Misread(b, big, es, ds, lo, i, s + i)
  {
    hide BlkNr, BlkOff, BlkRoundUp, SlotOf, IndexCount, DecodeLow, DecodeType, HasCblkcnt, Pos, Follows;
    hide Storable, Decodes, LaDistance, CountBig, CountSmall, PackBase, U32, FileSize, Contiguous, Span;
    match SlotOf(b, es, s + i) {
      case Inside(k) => UnpackInside(b, big, es, start, ds, lo, p, s, i, k, la);
      case _ => UnpackHead(b, big, es, start, ds, lo, p, s, i, la);
    }
  }

  lemma UnpackHead(b: nat, big: bool, es: seq<Extent>, start: nat, ds: nat, lo: nat, p: seq<byte>,
                   s: nat, i: nat, la: bool)
    requires 0 < b && |es| > 0 && PackFacts(b, big, es, start, ds, lo, p, s)
    requires SlotOf(b, es, s) != Tail ==> U32(p, |p| - 4) == PackBase(b, big, es, start, s)
    requires i < Vcnt(ds) && s + i < IndexCount(b, es) && !SlotOf(b, es, s + i).Inside?
    ensures var r := Unpack(ds, lo, big, p, i, la); r.Ok? && Describes(b, big, false, es, s + i, la, r.value)
  {
    hide BlkNr, BlkOff, BlkRoundUp, SlotOf, IndexCount, DecodeLow, DecodeType, HasCblkcnt, WithoutCblkcnt, Pos, Follows;
    hide Storable, Decodes, LaDistance, CountBig, CountSmall, PackBase, U32, FileSize, Contiguous, Span;
    HeadEntry(b, big, es, ds, lo, p, s, i);
    if i > 0 || SlotOf(b, es, s + i) != Tail {
      FirstIsNotTail(b, big, es, s, i);
    }
    HeadFields(b, big, es, s + i);
    var m := if SlotOf(b, es, s + i).HeadOf? then SlotOf(b, es, s + i).k else |es|;
    if big {
      CountBigFromHead(b, es, start, ds, lo, p, s, i, m);
    } else if m < |es| {
      CountSmallFromHead(b, es, start, ds, lo, p, s, i, m);
    }
  }

  /** The parsed index of a cluster that is not inside an extent. */
  lemma HeadFields(b: nat, big: bool, es: seq<Extent>, lcn: nat)
    requires b > 0 && |es| > 0 && Storable(b, big, es) && lcn < IndexCount(b, es)
    ensures SlotOf(b, es, lcn) == Tail ==>
      VecAt(b, big, es, lcn) == IndexVec(PLAIN, BlkOff(FileSize(es), b), 0, 0, 0)
    ensures SlotOf(b, es, lcn).HeadOf? ==> SlotOf(b, es, lcn).k < |es|
    ensures SlotOf(b, es, lcn).HeadOf? ==> var m := SlotOf(b, es, lcn).k;
      es[m].blkaddr < U32_LIMIT &&
      VecAt(b, big, es, lcn) == IndexVec(if es[m].raw then PLAIN else HEAD1, BlkOff(Pos(es, m), b), es[m].blkaddr, 0, 0)
  {
    hide BlkNr, BlkOff, BlkRoundUp, SlotOf, IndexCount, Pos, FileSize;
    if SlotOf(b, es, lcn).HeadOf? {
      StorableAt(b, big, es, SlotOf(b, es, lcn).k);
    }
  }

  lemma UnpackInside(b: nat, big: bool, es: seq<Extent>, start: nat, ds: nat, lo: nat, p: seq<byte>,
                     s: nat, i: nat, k: nat, la: bool)
    requires 0 < b && |es| > 0 && PackFacts(b, big, es, start, ds, lo, p, s)
    requires i < Vcnt(ds) && s + i < IndexCount(b, es) && SlotOf(b, es, s + i) == Inside(k)
    ensures var r := Unpack(ds, lo, big, p, i, la);
      (r.Ok? && Describes(b, big, false, es, s + i, la, r.value)) <==> !Misread(b, big, es, ds, lo, i, s + i)
  {
    hide BlkNr, BlkOff, BlkRoundUp, SlotOf, IndexCount, DecodeLow, DecodeType, HasCblkcnt, Pos, Follows;
    hide Storable, Decodes, LaDistance, U32, Contiguous, Span, CountBig, CountSmall, ExtentOk;
    InsideEntry(b, big, es, ds, lo, p, s, i, k);
    StorableAt(b, big, es, k);
    LaDistanceInside(b, big, es, ds, lo, p, s, i, k);
    if i + 1 == Vcnt(ds) {
      PreviousLow(b, big, es, ds, lo, p, s, i, k);
    }
  }

  /** What the entry before a last one tells about the distance of the last one. */
  lemma PreviousLow(b: nat, big: bool, es: seq<Extent>, ds: nat, lo: nat, p: seq<byte>, s: nat, i: nat, k: nat)
    requires 0 < b <= lo && 4096 <= lo && |es| > 0 && Storable(b, big, es)
    requires Pack(ds, lo, p) && Decodes(b, big, es, ds, lo, p, s)
    requires i + 1 == Vcnt(ds) && s + i < IndexCount(b, es) && SlotOf(b, es, s + i) == Inside(k)
    ensures k < |es| && i > 0
    ensures var plow := if DecodeType(ds, lo, p, i - 1) != NONHEAD then 0
                        else if HasCblkcnt(DecodeLow(ds, lo, p, i - 1)) then 1
                        else DecodeLow(ds, lo, p, i - 1);
      plow + 1 <= Behind(b, es, k, s + i)
  {
    hide BlkNr, BlkOff, BlkRoundUp, SlotOf, IndexCount, DecodeLow, DecodeType, HasCblkcnt, WithoutCblkcnt, Pos, Storable, Decodes;
    var j := i - 1;
    NextSlot(b, big, es, s + j);
    if SlotOf(b, es, s + j).Inside? {
      InsideEntry(b, big, es, ds, lo, p, s, j, k);
    } else {
      HeadEntry(b, big, es, ds, lo, p, s, j);
    }
  }

  /** The closing entry is the last cluster's, so it comes first in a pack only as the entry asked for. */
  lemma FirstIsNotTail(b: nat, big: bool, es: seq<Extent>, s: nat, i: nat)
    requires b > 0 && |es| > 0 && Storable(b, big, es) && s + i < IndexCount(b, es)
    requires i > 0 || SlotOf(b, es, s + i) != Tail
    ensures SlotOf(b, es, s) != Tail
  {
    hide BlkNr, BlkOff, BlkRoundUp, SlotOf, Pos, Storable;
    if i > 0 && SlotOf(b, es, s) == Tail {
      TailIsLast(b, big, es, s);
    }
  }

  /** Reader and writer derive the place of an entry differently but agree on it. */
  lemma LayoutsAgree(inode: Inode, mpos: nat, lcn: nat)
    requires lcn < inode.Total() && mpos % 32 == inode.CompactBase() % 32
    ensures var l, r := LayoutOf(inode.twoByte, mpos, inode.Total()), ReaderLayout(inode);
      && EntrySize(l, lcn) == EntrySize(r, lcn) && EntryPos(l, lcn) == EntryPos(r, lcn)
      && EntryIndex(l, lcn) == EntryIndex(r, lcn)
      && EntryPos(l, PackStart(l, lcn)) == EntryPos(r, PackStart(r, lcn))
  {
    hide BlkRoundUp, RoundUp, Pow2;
    BaseIsAligned(inode);
    var n := InitialEntries(mpos);
    assert n == InitialEntries(inode.CompactBase()) && n % 2 == 0;
  }

  lemma BaseIsAligned(inode: Inode)
    ensures inode.CompactBase() % 8 == 0
  {
  }

  /** The image holds the packs of `es` where the reader looks for them. */
  ghost predicate HoldsPacks(inode: Inode, dev: seq<byte>, es: seq<Extent>, start: nat, mpos: nat)
    requires |es| > 0
  {
    var n := IndexCount(inode.B(), es);
    var l := LayoutOf(inode.twoByte, mpos, n);
    var at := inode.CompactBase();
    && at + CompactSize(l, n) <= |dev|
    && PacksHold(dev[at..at + CompactSize(l, n)], l, inode.B(), inode.big, es, start, LoSize(inode.blkbits), n)
  }

  /** An inode that mkfs would give compact indexes. */
  predicate CompactInode(inode: Inode, es: seq<Extent>, start: nat) {
    && inode.compact && 5 <= inode.blkbits <= 14 && (inode.twoByte ==> inode.blkbits <= 12)
    && Compactable(inode.B(), inode.big, es, start) && inode.size == FileSize(es)
  }

  /**
   * Compact indexes: converting the full indexes of a file preserves what every cluster's index
   * says, except for last-of-pack entries whose `delta[1]` has bit 11 set, and for those it does not.
   */
  lemma CompactFaithfulExactly(inode: Inode, dev: seq<byte>, es: seq<Extent>, start: nat, mpos: nat,
                               lcn: nat, la: bool)
    requires |es| > 0 && CompactInode(inode, es, start)
    requires mpos % 32 == inode.CompactBase() % 32
    requires HoldsPacks(inode, dev, es, start, mpos) && lcn < inode.Total()
    ensures FaithfulAt(inode, dev, es, lcn, la) <==>
      !Misread(inode.B(), inode.big, es, EntrySize(ReaderLayout(inode), lcn), LoSize(inode.blkbits),
               EntryIndex(ReaderLayout(inode), lcn), lcn)
  {
    hide BlkNr, BlkOff, BlkPos, BlkRoundUp, SlotOf, Pos, Pow2, RoundUp, Describes, Misread, Unpack, Compactable;
    hide InitialEntries, FileSize, ReaderLayout, EntryPos, EntrySize, EntryIndex, HoldsPacks, LoSize;
    var r := ReaderLayout(inode);
    PackFound(inode, dev, es, start, mpos, lcn);
    var i, ds, s := EntryIndex(r, lcn), EntrySize(r, lcn), PackStart(r, lcn);
    var at := inode.CompactBase() + EntryPos(r, s);
    UnpackDescribes(inode.B(), inode.big, es, start, ds, LoSize(inode.blkbits), DevRead(dev, at, ds * Vcnt(ds)), s, i, la);
  }

  /** Entry `i` of the pack of `lcn`, at image offset `at`, can be read and is the writer's. */
  predicate FoundAt(inode: Inode, dev: seq<byte>, es: seq<Extent>, start: nat, lcn: nat, ds: nat, at: nat, i: nat)
    requires |es| > 0 && (ds == 2 || ds == 4)
  {
    && i < Vcnt(ds) && i <= lcn
    && (if ds == 4 then inode.blkbits <= 14 else inode.blkbits <= 12)
    && var p, s := DevRead(dev, at, ds * Vcnt(ds)), lcn - i;
    && PackFacts(inode.B(), inode.big, es, start, ds, LoSize(inode.blkbits), p, s)
    && (SlotOf(inode.B(), es, s) != Tail ==> U32(p, |p| - 4) == PackBase(inode.B(), inode.big, es, start, s))
  }

  /** The pack of `lcn` is where the reader looks. */
  lemma PackFound(inode: Inode, dev: seq<byte>, es: seq<Extent>, start: nat, mpos: nat, lcn: nat)
    requires |es| > 0 && CompactInode(inode, es, start)
    requires mpos % 32 == inode.CompactBase() % 32
    requires HoldsPacks(inode, dev, es, start, mpos) && lcn < inode.Total()
    ensures var r := ReaderLayout(inode);
      FoundAt(inode, dev, es, start, lcn, EntrySize(r, lcn), inode.CompactBase() + EntryPos(r, PackStart(r, lcn)),
              EntryIndex(r, lcn))
  {
    hide BlkNr, BlkOff, BlkPos, BlkRoundUp, SlotOf, Pos, Pow2, RoundUp, VecsFrom, WalkTo, WalkFrom, PackHolds;
    hide Compactable, FileSize, Decodes, U32, PackBase, LoSize, PacksHold;
    hide LayoutOf, ReaderLayout, EntryPos, EntrySize, EntryIndex, CompactSize, InitialEntries;
    var b, n, l := inode.B(), inode.Total(), LayoutOf(inode.twoByte, mpos, inode.Total());
    LayoutsAgree(inode, mpos, lcn);
    WriterEntry(inode, mpos, lcn);
    var ds, s := EntrySize(l, lcn), PackStart(l, lcn);
    var at := inode.CompactBase() + EntryPos(l, s);
    PackBytes(dev, inode.CompactBase(), CompactSize(l, n), l, b, inode.big, es, start, LoSize(inode.blkbits), n, lcn);
    BlockFitsLow(inode.blkbits);
    LoSizeBound(inode.blkbits);
    WrittenPackDecodes(b, inode.big, es, start, ds, LoSize(inode.blkbits), dev[at..at + ds * Vcnt(ds)], s);
    DevReadInside(dev, at, ds * Vcnt(ds));
  }

  /** The pack of `lcn` inside an image that holds all packs from `base` on. */
  lemma PackBytes(dev: seq<byte>, base: nat, size: nat, l: Layout, b: nat, big: bool, es: seq<Extent>, start: nat,
                  lo: nat, n: nat, lcn: nat)
    requires b > 0 && |es| > 0 && base + size <= |dev| && lcn < n
    requires PacksHold(dev[base..base + size], l, b, big, es, start, lo, n)
    ensures var ds, s := EntrySize(l, lcn), PackStart(l, lcn);
      var vs := VecsFrom(b, big, es, s, Vcnt(ds));
      && base + EntryPos(l, s) + ds * Vcnt(ds) <= |dev|
      && PackHolds(dev[base + EntryPos(l, s)..base + EntryPos(l, s) + ds * Vcnt(ds)], ds, lo, vs,
                   WalkTo(WalkFrom(b, big, es, start, s), vs, |vs|).base)
  {
    hide PackHolds, VecAt, WalkTo, WalkFrom, EntryPos, EntryIndex;
    assert PackOfHolds(dev[base..base + size], l, b, big, es, start, lo, lcn);
    var ds, s := EntrySize(l, lcn), PackStart(l, lcn);
    SubSlice(dev, base, size, EntryPos(l, s), ds * Vcnt(ds));
  }

  /** The place of an entry as the writer lays it out. */
  lemma WriterEntry(inode: Inode, mpos: nat, lcn: nat)
    requires mpos % 32 == inode.CompactBase() % 32 && inode.blkbits <= 14
    requires inode.twoByte ==> inode.blkbits <= 12
    ensures var l := LayoutOf(inode.twoByte, mpos, inode.Total());
      && ValidLow(EntrySize(l, lcn), LoSize(inode.blkbits)) && (EntrySize(l, lcn) == 2 ==> inode.blkbits <= 12)
      && EntryIndex(l, lcn) < Vcnt(EntrySize(l, lcn)) && EntryIndex(l, lcn) <= lcn
      && EntryPos(l, lcn) < EntryPos(l, PackStart(l, lcn)) + EntrySize(l, lcn) * Vcnt(EntrySize(l, lcn))
  {
    hide BlkRoundUp, RoundUp, Pow2;
    BaseIsAligned(inode);
    var l := LayoutOf(inode.twoByte, mpos, inode.Total());
    assert LayoutOk(l);
    EntryInPack(l, lcn);
    LowIsValid(inode, l, lcn, mpos);
  }

  lemma LowIsValid(inode: Inode, l: Layout, lcn: nat, mpos: nat)
    requires l == LayoutOf(inode.twoByte, mpos, inode.Total()) && inode.blkbits <= 14
    requires inode.twoByte ==> inode.blkbits <= 12
    ensures ValidLow(EntrySize(l, lcn), LoSize(inode.blkbits))
  {
  }

  /** In particular nothing is lost when no extent spans more than 2048 clusters. */
  lemma CompactIsFaithful(inode: Inode, dev: seq<byte>, es: seq<Extent>, start: nat, mpos: nat)
    requires |es| > 0 && CompactInode(inode, es, start)
    requires mpos % 32 == inode.CompactBase() % 32
    requires HoldsPacks(inode, dev, es, start, mpos)
    requires forall k :: 0 <= k < |es| ==> Span(inode.B(), es, k) <= CBLKCNT
    ensures Faithful(inode, dev, es)
  {
    hide BlkNr, BlkOff, BlkPos, BlkRoundUp, SlotOf, Pos, Pow2, HoldsPacks, FaithfulAt, Compactable;
    forall lcn: nat, la: bool | lcn < inode.Total()
      ensures FaithfulAt(inode, dev, es, lcn, la)
    {
      CompactFaithfulExactly(inode, dev, es, start, mpos, lcn, la);
      var r := ReaderLayout(inode);
      ShortIsNotMisread(inode.B(), inode.big, es, EntrySize(r, lcn), LoSize(inode.blkbits), EntryIndex(r, lcn), lcn);
    }
  }

  lemma ShortIsNotMisread(b: nat, big: bool, es: seq<Extent>, ds: nat, lo: nat, i: nat, lcn: nat)
    requires b > 0 && |es| > 0 && lcn < IndexCount(b, es)
    requires forall k :: 0 <= k < |es| ==> Span(b, es, k) <= CBLKCNT
    ensures !Misread(b, big, es, ds, lo, i, lcn)
  {
    hide BlkNr, BlkOff, BlkRoundUp, SlotOf, Pos;
    var slot := SlotOf(b, es, lcn);
    if slot.Inside? {
      assert Span(b, es, slot.k) <= CBLKCNT;
    }
  }

  /** A file of one extent of 3000 clusters, which is well within what mkfs compresses at once. */
  function MisreadFile(): seq<Extent> {
    [Extent(512 * 3000, false, false, 1, 1)]
  }

  lemma MisreadFileFacts()
    ensures var es := MisreadFile();
            && Compactable(512, false, es, 1) && FileSize(es) == 512 * 3000 && IndexCount(512, es) == 3000
            && BlkNr(Pos(es, 0), 512) == 0 && BlkNr(Pos(es, 1), 512) == 3000
  {
    var es := MisreadFile();
    StartIsZero(512, es);
    assert Pos(es, 1) == Pos(es, 0) + es[0].length && Pos(es, 0) == 0;
    assert ExtentAt(512, false, es, 0);
  }

  lemma BlockOf512()
    ensures Pow2(9) == 512
  {
    assert Pow2(6) == 64;
  }

  /**
   * With blocks of 512 bytes every compact image of that file is misread: the index of cluster 1, the
   * last of its pack, does not load truthfully, because its distance to the next head has bit 11 set.
   */
  lemma MisreadExample(inode: Inode, dev: seq<byte>, mpos: nat, la: bool)
    requires inode.blkbits == 9 && inode.compact && !inode.twoByte && !inode.big && inode.size == FileSize(MisreadFile())
    requires mpos % 32 == inode.CompactBase() % 32 && HoldsPacks(inode, dev, MisreadFile(), 1, mpos)
    ensures !FaithfulAt(inode, dev, MisreadFile(), 1, la)
  {
    BlockOf512();
    MisreadFileFacts();
    MisreadSlot();
    hide HoldsPacks, FaithfulAt, Compactable, SlotOf, Pow2, BlkNr, BlkRoundUp, Pos, FileSize, Misread;
    CompactFaithfulExactly(inode, dev, MisreadFile(), 1, mpos, 1, la);
    OddEntry(inode);
  }

  lemma OddEntry(inode: Inode)
    requires !inode.twoByte
    ensures EntrySize(ReaderLayout(inode), 1) == 4 && EntryIndex(ReaderLayout(inode), 1) == 1
  {
    hide BlkRoundUp, RoundUp, Pow2;
    BaseIsAligned(inode);
  }

  lemma MisreadSlot()
    ensures Misread(512, false, MisreadFile(), 4, 4096, 1, 1)
  {
    var es := MisreadFile();
    MisreadFileFacts();
    RoleInside(512, false, es, 0, 1);
    hide SlotOf, BlkNr, Pos;
    assert Min(Ahead(512, es, 0, 1), 4095) == 2999;
    assert HasCblkcnt(2999);
  }
}
