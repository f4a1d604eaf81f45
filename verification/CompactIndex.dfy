/**
 * The compact logical cluster indexes: packs of 2 or 16 bit-packed entries followed by one
 * block address, written over the full indexes they replace (`lib/compress.c`).
 */
module CompactIndex {
  import opened Arithmetic
  import opened Bytes
  import opened Extents
  import opened FullIndex

  const U32_LIMIT := 0x1_0000_0000

  /** `struct z_erofs_compressindex_vec` */
  datatype IndexVec = IndexVec(clustertype: nat, clusterofs: nat, blkaddr: nat, delta0: nat, delta1: nat)

  /** The bit `Z_EROFS_LI_D0_CBLKCNT` of a 16-bit field. */
  predicate HasCblkcnt(x: nat) {
    x / CBLKCNT % 2 == 1
  }

  /** `x & ~Z_EROFS_LI_D0_CBLKCNT` */
  function WithoutCblkcnt(x: nat): nat {
    if HasCblkcnt(x) then x - CBLKCNT else x
  }

  /** One iteration of `parse_legacy_indexes`. */
  function ParseIndex(s: seq<byte>, at: nat): IndexVec
    requires at + 8 <= |s|
  {
    var clustertype := U16(s, at) % 4;
    var clusterofs := U16(s, at + 2);
    if clustertype == NONHEAD then
      IndexVec(clustertype, clusterofs, 0, U16(s, at + 4), U16(s, at + 6))
    else
      IndexVec(clustertype, clusterofs, U32(s, at + 4), 0, 0)
  }

  /** The parsed form of an index. */
  function Vec(i: Index): IndexVec {
    match i
    case Head(plain, _, clusterofs, blkaddr) =>
      IndexVec(if plain then PLAIN else HEAD1, clusterofs, blkaddr, 0, 0)
    case NonHead(clusterofs, delta0, delta1) => IndexVec(NONHEAD, clusterofs, 0, delta0, delta1)
  }

  predicate InRange(i: Index) {
    && i.clusterofs < 65536
    && match i
       case Head(_, _, _, blkaddr) => blkaddr < U32_LIMIT
       case NonHead(_, delta0, delta1) => delta0 < 65536 && delta1 < 65536
  }

  lemma ParseEncoded(s: seq<byte>, at: nat, i: Index)
    requires at + 8 <= |s| && s[at..at + 8] == EncodeIndex(i) && InRange(i)
    ensures ParseIndex(s, at) == Vec(i)
  {
    hide Le16, Le32, U16, U32;
    match i
    case Head(plain, partial, clusterofs, blkaddr) =>
      var advise := (if plain then PLAIN else HEAD1) + (if partial then PARTIAL_REF else 0);
      Fields(s, at, Le16(advise), Le16(clusterofs), Le32(blkaddr));
      ReadLe16(s, at, advise);
      ReadLe16(s, at + 2, clusterofs);
      ReadLe32(s, at + 4, blkaddr);
    case NonHead(clusterofs, delta0, delta1) =>
      assert Le16(delta0) + Le16(delta1) == (Le16(delta0) + Le16(delta1))[..2] + (Le16(delta0) + Le16(delta1))[2..];
      Fields(s, at, Le16(NONHEAD), Le16(clusterofs), Le16(delta0) + Le16(delta1));
      assert s[at + 4..at + 6] == s[at + 4..at + 8][..2];
      assert s[at + 6..at + 8] == s[at + 4..at + 8][2..];
      ReadLe16(s, at, NONHEAD);
      ReadLe16(s, at + 2, clusterofs);
      ReadLe16(s, at + 4, delta0);
      ReadLe16(s, at + 6, delta1);
  }

  /** The three fields of an 8-byte record. */
  lemma Fields(s: seq<byte>, at: nat, a: seq<byte>, b: seq<byte>, c: seq<byte>)
    requires |a| == |b| == 2 && |c| == 4
    requires at + 8 <= |s| && (s[at..at + 8] == a + b + c || s[at..at + 8] == a + b + c[..2] + c[2..])
    ensures s[at..at + 2] == a && s[at + 2..at + 4] == b && s[at + 4..at + 8] == c
  {
    var t := s[at..at + 8];
    assert s[at..at + 2] == t[..2] == a;
    assert t[2..4] == b && t[4..] == c;
    assert t[2] == s[at + 2] && t[3] == s[at + 3];
    assert s[at + 2..at + 4] == [t[2], t[3]] == t[2..4];
    assert s[at + 4..at + 8] == t[4..];
  }

  // ----- bit packing -----------------------------------------------------------------

  /** Entries of a pack, for 4 or 2 bytes an entry. */
  function Vcnt(destsize: nat): nat {
    if destsize == 4 then 2 else 16
  }

  /** Bits of an entry once the block address of the pack is paid for. */
  function EncodeBits(destsize: nat): nat
    requires destsize == 2 || destsize == 4
  {
    (Vcnt(destsize) * destsize * 8 - 32) / Vcnt(destsize)
  }

  /** First byte and first bit of entry `i`. */
  function SlotByte(destsize: nat, i: nat): nat
    requires destsize == 2 || destsize == 4
  {
    EncodeBits(destsize) * i / 8
  }

  function SlotRem(destsize: nat, i: nat): nat
    requires destsize == 2 || destsize == 4
  {
    EncodeBits(destsize) * i % 8
  }

  /** The entry stored at index `i` of a pack: `EncodeBits` bits from bit `EncodeBits * i`, low bits first. */
  function SlotValue(destsize: nat, p: seq<byte>, i: nat): nat
    requires destsize == 2 || destsize == 4
    requires i < Vcnt(destsize) && |p| == destsize * Vcnt(destsize)
  {
    var at := SlotByte(destsize, i);
    var b0, b1, b2 := p[at] as int, p[at + 1] as int, p[at + 2] as int;
    if destsize == 4 then b0 + 256 * b1
    else match SlotRem(destsize, i)
      case 0 => b0 + 256 * (b1 % 64)
      case 6 => b0 / 64 + 4 * b1 + 1024 * (b2 % 16)
      case 4 => b0 / 16 + 16 * b1 + 4096 * (b2 % 4)
      case _ => b0 / 4 + 64 * b1
  }

  /** `2^rem` for the bit positions an entry can start at. */
  function Weight(rem: nat): nat {
    match rem
    case 0 => 1
    case 2 => 4
    case 4 => 16
    case _ => 64
  }

  /** The byte stored at `pos / 8`: `(v << rem) | ch`, where `ch` keeps the low `rem` bits. */
  function FirstByte(v: nat, rem: nat, kept: byte): byte {
    match rem
    case 0 => v % 256
    case 2 => (v * 4 + kept as int % 4) % 256
    case 4 => (v * 16 + kept as int % 16) % 256
    case _ => (v * 64 + kept as int % 64) % 256
  }

  /** The byte stored at `pos / 8 + 1`: `v >> (8 - rem)`. */
  function SecondByte(v: nat, rem: nat): byte {
    match rem
    case 0 => v / 256 % 256
    case 2 => v / 64 % 256
    case 4 => v / 16 % 256
    case _ => v / 4 % 256
  }

  /** The byte stored at `pos / 8 + 2`: `v >> (16 - rem)`. */
  function ThirdByte(v: nat, rem: nat): byte {
    match rem
    case 0 => v / 65536 % 256
    case 2 => v / 16384 % 256
    case 4 => v / 4096 % 256
    case _ => v / 1024 % 256
  }

  /** The three byte stores of `write_compacted_indexes` for entry `i`. */
  function StoreSlot(destsize: nat, p: seq<byte>, i: nat, v: nat): (q: seq<byte>)
    requires destsize == 2 || destsize == 4
    requires i < Vcnt(destsize) && |p| == destsize * Vcnt(destsize)
    ensures |q| == |p|
  {
    SlotPlace(destsize, i);
    var at, rem := SlotByte(destsize, i), SlotRem(destsize, i);
    p[at := FirstByte(v, rem, p[at])][at + 1 := SecondByte(v, rem)][at + 2 := ThirdByte(v, rem)]
  }

  /** Bits an entry can take. */
  function EntryLimit(destsize: nat): nat {
    if destsize == 2 then 16384 else 65536
  }

  lemma SlotPlace(destsize: nat, i: nat)
    requires destsize == 2 || destsize == 4
    requires i < Vcnt(destsize)
    ensures SlotByte(destsize, i) + 4 <= destsize * Vcnt(destsize)
    ensures destsize == 4 ==> SlotByte(destsize, i) == 2 * i && SlotRem(destsize, i) == 0
    ensures destsize == 2 ==> SlotRem(destsize, i) == [0, 6, 4, 2][i % 4]
    ensures destsize == 2 ==> SlotByte(destsize, i) == 7 * (i / 4) + [0, 1, 3, 5][i % 4]
  {
    if destsize == 2 {
      assert EncodeBits(2) == 14;
      assert 14 * i == 8 * (7 * (i / 4)) + 14 * (i % 4);
    } else {
      assert EncodeBits(4) == 16;
    }
  }

  /** Quotient and remainder of an entry cut after its low bits, and of what its first byte holds. */
  lemma CutEntry(v: nat, ch: nat, m: nat, n: nat)
    requires v < 16384 && ch < m
    requires (m, n) == (64, 4) || (m, n) == (16, 16) || (m, n) == (4, 64)
    ensures (v * m + ch) % 256 == m * (v % n) + ch < 256
    ensures v == n * (v / n) + v % n
    ensures v / n == v / n % 256 + 256 * (v / n / 256)
    ensures n == 4 ==> v / n / 256 == v / 1024 == v / 1024 % 256 % 16
    ensures n == 16 ==> v / n / 256 == v / 4096 == v / 4096 % 256 % 4
    ensures n == 64 ==> v / n / 256 == 0
  {
    assert v * m + ch == 256 * (v / n) + (m * (v % n) + ch);
  }

  lemma StoredAt6(v: nat, kept: byte)
    requires v < 16384
    ensures FirstByte(v, 6, kept) as int / 64 == v % 4 && FirstByte(v, 6, kept) as int % 64 == kept as int % 64
    ensures v % 4 + 4 * SecondByte(v, 6) as int + 1024 * (ThirdByte(v, 6) as int % 16) == v
  {
    CutEntry(v, kept as int % 64, 64, 4);
  }

  lemma StoredAt4(v: nat, kept: byte)
    requires v < 16384
    ensures FirstByte(v, 4, kept) as int / 16 == v % 16 && FirstByte(v, 4, kept) as int % 16 == kept as int % 16
    ensures v % 16 + 16 * SecondByte(v, 4) as int + 4096 * (ThirdByte(v, 4) as int % 4) == v
  {
    CutEntry(v, kept as int % 16, 16, 16);
  }

  lemma StoredAt2(v: nat, kept: byte)
    requires v < 16384
    ensures FirstByte(v, 2, kept) as int / 4 == v % 64 && FirstByte(v, 2, kept) as int % 4 == kept as int % 4
    ensures v % 64 + 64 * SecondByte(v, 2) as int == v
  {
    CutEntry(v, kept as int % 4, 4, 64);
  }

  lemma StoredAt0(v: nat, kept: byte)
    requires v < 16384
    ensures FirstByte(v, 0, kept) as int + 256 * (SecondByte(v, 0) as int % 64) == v
  {
    assert v / 256 < 64;
  }

  /** The bytes stored for a 14-bit entry hold the entry and the low bits kept. */
  lemma StoredBytes(v: nat, rem: nat, kept: byte)
    requires v < 16384 && (rem == 0 || rem == 2 || rem == 4 || rem == 6)
    ensures FirstByte(v, rem, kept) as int % Weight(rem) == kept as int % Weight(rem)
    ensures var b0, b1, b2 := FirstByte(v, rem, kept) as int, SecondByte(v, rem) as int, ThirdByte(v, rem) as int;
      && (rem == 0 ==> b0 + 256 * (b1 % 64) == v)
      && (rem == 6 ==> b0 / 64 + 4 * b1 + 1024 * (b2 % 16) == v)
      && (rem == 4 ==> b0 / 16 + 16 * b1 + 4096 * (b2 % 4) == v)
      && (rem == 2 ==> b0 / 4 + 64 * b1 == v)
  {
    StoredAt0(v, kept);
    StoredAt2(v, kept);
    StoredAt4(v, kept);
    StoredAt6(v, kept);
    hide FirstByte, SecondByte, ThirdByte;
  }

  /** An entry just stored reads back. */
  lemma StoreSlotReads(destsize: nat, p: seq<byte>, i: nat, v: nat)
    requires destsize == 2 || destsize == 4
    requires i < Vcnt(destsize) && |p| == destsize * Vcnt(destsize)
    requires v < EntryLimit(destsize)
    ensures SlotValue(destsize, StoreSlot(destsize, p, i, v), i) == v
  {
    SlotPlace(destsize, i);
    if destsize == 4 {
      assert v == v % 256 + 256 * (v / 256 % 256);
    } else {
      StoredBytes(v, SlotRem(destsize, i), p[SlotByte(destsize, i)]);
      hide FirstByte, SecondByte, ThirdByte, SlotByte, SlotRem;
      assert SlotValue(destsize, StoreSlot(destsize, p, i, v), i) == v;
    }
  }

  /** Storing an entry leaves the entries before it as they were. */
  lemma StoreSlotKeeps(destsize: nat, p: seq<byte>, i: nat, v: nat, j: nat)
    requires destsize == 2 || destsize == 4
    requires j < i < Vcnt(destsize) && |p| == destsize * Vcnt(destsize)
    requires v < EntryLimit(destsize)
    ensures SlotValue(destsize, StoreSlot(destsize, p, i, v), j) == SlotValue(destsize, p, j)
  {
    SlotPlace(destsize, i);
    SlotPlace(destsize, j);
    if destsize == 2 {
      var at := SlotByte(destsize, i);
      StoredBytes(v, SlotRem(destsize, i), p[at]);
      SlotsApart(j, i);
      hide FirstByte, SecondByte, ThirdByte, SlotByte, SlotRem;
      assert SlotValue(destsize, StoreSlot(destsize, p, i, v), j) == SlotValue(destsize, p, j);
    }
  }

  /** Entry `j` ends before entry `i` starts, or in the byte entry `i` starts in. */
  lemma SlotsApart(j: nat, i: nat)
    requires j < i < 16
    ensures SlotByte(2, j) + 1 <= SlotByte(2, i)
    ensures SlotRem(2, j) == 0 ==> SlotByte(2, j) + 1 < SlotByte(2, i) || SlotRem(2, i) == 6
    ensures SlotRem(2, j) == 2 ==> SlotByte(2, j) + 2 <= SlotByte(2, i)
    ensures SlotRem(2, j) == 4 ==> SlotByte(2, j) + 2 < SlotByte(2, i) || (SlotByte(2, j) + 2 == SlotByte(2, i) && SlotRem(2, i) == 2)
    ensures SlotRem(2, j) == 6 ==> SlotByte(2, j) + 2 < SlotByte(2, i) || (SlotByte(2, j) + 2 == SlotByte(2, i) && SlotRem(2, i) == 4)
  {
    SlotPlace(2, i);
    SlotPlace(2, j);
    hide SlotByte, SlotRem;
    var qi, qj := i / 4, j / 4;
    if qi == qj {
      assert j % 4 < i % 4;
    } else {
      assert 7 * qj + 7 <= 7 * qi;
    }
  }
  // ----- one pack ----------------------------------------------------------------------

  /** `1 << lobits`, where `lobits = max(lclusterbits, ilog2(Z_EROFS_LI_D0_CBLKCNT) + 1)`. */
  function LoSize(lclusterbits: nat): nat {
    if lclusterbits <= 12 then 4096 else if lclusterbits == 13 then 8192 else 16384
  }

  predicate PackShape(destsize: nat, lclusterbits: nat) {
    (destsize == 4 && lclusterbits <= 14) || (destsize == 2 && lclusterbits <= 12)
  }

  /** The low part of an entry: block count, `delta[1]` in the last entry, `delta[0]`, or the cluster offset. */
  function EntryLow(cv: IndexVec, last: bool, lo: nat): int {
    if cv.clustertype == NONHEAD then
      if HasCblkcnt(cv.delta0) then cv.delta0
      else if last then Min(cv.delta1, lo - 1)
      else cv.delta0
    else cv.clusterofs
  }

  /** `(clustertype << lobits) | offset`; the fields do not overlap. */
  function Entry(cv: IndexVec, last: bool, lo: nat): int {
    cv.clustertype * lo + EntryLow(cv, last, lo)
  }

  predicate Encodable(cvs: seq<IndexVec>, lo: nat) {
    forall i :: 0 <= i < |cvs| ==> cvs[i].clustertype < 3 && 0 <= EntryLow(cvs[i], i + 1 == |cvs|, lo) < lo
  }

  /** The block address bookkeeping of `write_compacted_indexes`. */
  datatype Walk = Walk(blkaddr: nat, base: nat, dummyHead: bool, update: bool)

  function WalkStep(w: Walk, cv: IndexVec): Walk {
    if cv.clustertype == NONHEAD then
      if HasCblkcnt(cv.delta0) then
        w.(blkaddr := (w.blkaddr + WithoutCblkcnt(cv.delta0)) % U32_LIMIT, dummyHead := false)
      else w
    else
      var a := if w.dummyHead then (w.blkaddr + 1) % U32_LIMIT else w.blkaddr;
      Walk(a, if w.dummyHead && w.update then a else w.base, true, false)
  }

  function WalkTo(w: Walk, cvs: seq<IndexVec>, n: nat): Walk
    requires n <= |cvs|
  {
    if n == 0 then w else WalkStep(WalkTo(w, cvs, n - 1), cvs[n - 1])
  }

  /** A finished pack: every entry reads back and the last four bytes hold the base address. */
  predicate PackHolds(p: seq<byte>, destsize: nat, lo: nat, cvs: seq<IndexVec>, base: nat)
    requires destsize == 2 || destsize == 4
  {
    && |cvs| == Vcnt(destsize) && |p| == destsize * Vcnt(destsize)
    && (forall i :: 0 <= i < |cvs| ==> SlotValue(destsize, p, i) == Entry(cvs[i], i + 1 == |cvs|, lo))
    && U32(p, |p| - 4) == base
  }

  /** `DBG_BUGON`: a head's address must be the walked one, except for the unused address of the last index. */
  predicate AddressesMatch(w: Walk, cvs: seq<IndexVec>, final: bool) {
    forall i :: 0 <= i < |cvs| && cvs[i].clustertype != NONHEAD ==>
      || cvs[i].blkaddr == WalkTo(w, cvs, i + 1).blkaddr
      || (cvs[i].blkaddr == 0 && (final || i + 1 == |cvs|))
  }

  /** The three byte stores for entry `i` of the pack at `out`. */
  method StoreEntry(meta: array<byte>, out: nat, destsize: nat, i: nat, v: nat)
    requires destsize == 2 || destsize == 4
    requires i < Vcnt(destsize) && out + destsize * Vcnt(destsize) <= meta.Length
    modifies meta
    ensures meta[out..out + destsize * Vcnt(destsize)]
              == StoreSlot(destsize, old(meta[out..out + destsize * Vcnt(destsize)]), i, v)
    ensures meta[..out] == old(meta[..out])
    ensures meta[out + destsize * Vcnt(destsize)..] == old(meta[out + destsize * Vcnt(destsize)..])
  {
    SlotPlace(destsize, i);
    var at, rem := SlotByte(destsize, i), SlotRem(destsize, i);
    hide SlotByte, SlotRem, FirstByte, SecondByte, ThirdByte;
    meta[out + at] := FirstByte(v, rem, meta[out + at]);
    meta[out + at + 1] := SecondByte(v, rem);
    meta[out + at + 2] := ThirdByte(v, rem);
  }

  /** A 32-bit little-endian store. */
  method StoreLe32(meta: array<byte>, at: nat, v: nat)
    requires at + 4 <= meta.Length && v < U32_LIMIT
    modifies meta
    ensures U32(meta[..], at) == v
    ensures meta[..at] == old(meta[..at]) && meta[at + 4..] == old(meta[at + 4..])
  {
    var bytes := Le32(v);
    meta[at], meta[at + 1], meta[at + 2], meta[at + 3] := bytes[0], bytes[1], bytes[2], bytes[3];
    assert meta[at..at + 4] == bytes;
    ReadLe32(meta[..], at, v);
  }

  /** The store of the base address, which completes a pack whose entries are all in place. */
  method StoreBase(meta: array<byte>, out: nat, destsize: nat, lo: nat, cv: seq<IndexVec>, base: nat)
    requires destsize == 2 || destsize == 4
    requires |cv| == Vcnt(destsize) && out + destsize * Vcnt(destsize) <= meta.Length && base < U32_LIMIT
    requires EntriesHold(meta[out..out + destsize * Vcnt(destsize)], destsize, lo, cv, |cv|)
    modifies meta
    ensures PackHolds(meta[out..out + destsize * Vcnt(destsize)], destsize, lo, cv, base)
    ensures meta[..out] == old(meta[..out])
    ensures meta[out + destsize * Vcnt(destsize)..] == old(meta[out + destsize * Vcnt(destsize)..])
  {
    hide SlotValue;
    var end := out + destsize * Vcnt(destsize);
    ghost var before, prefix := meta[out..end], meta[..end - 4];
    StoreLe32(meta, end - 4, base);
    assert meta[out..end][..end - 4 - out] == prefix[out..] == before[..end - 4 - out];
    BaseStored(before, meta[out..end], destsize, lo, cv);
  }

  lemma LoSizeRange(destsize: nat, lclusterbits: nat)
    requires PackShape(destsize, lclusterbits)
    ensures LoSize(lclusterbits) <= 4096 || (destsize == 4 && LoSize(lclusterbits) <= 16384)
    ensures LoSize(lclusterbits) >= 4096
  {
  }

  lemma NoEntries(p: seq<byte>, destsize: nat, lo: nat, cvs: seq<IndexVec>)
    requires destsize == 2 || destsize == 4
    requires |cvs| == Vcnt(destsize) && |p| == destsize * Vcnt(destsize)
    ensures EntriesHold(p, destsize, lo, cvs, 0)
  {
  }

  /** `write_compacted_indexes` */
  method WriteCompacted(meta: array<byte>, out: nat, cv: seq<IndexVec>, blkaddr: nat,
                        destsize: nat, lclusterbits: nat, final: bool, dummyHead: bool, update: bool)
    returns (out': nat, blkaddr': nat, dummyHead': bool)
    requires PackShape(destsize, lclusterbits)
    requires |cv| == Vcnt(destsize) && Encodable(cv, LoSize(lclusterbits))
    requires out + destsize * |cv| <= meta.Length && blkaddr < U32_LIMIT
    requires AddressesMatch(Walk(blkaddr, blkaddr, dummyHead, update), cv, final)
    modifies meta
    ensures out' == out + destsize * |cv|
    ensures var w := WalkTo(Walk(blkaddr, blkaddr, dummyHead, update), cv, |cv|);
      && blkaddr' == w.blkaddr && dummyHead' == w.dummyHead
      && PackHolds(meta[out..out'], destsize, LoSize(lclusterbits), cv, w.base)
    ensures meta[..out] == old(meta[..out]) && meta[out'..] == old(meta[out'..])
    ensures blkaddr' < U32_LIMIT
  {
    hide SlotValue, StoreSlot, EntriesHold, PackHolds, HasCblkcnt, WithoutCblkcnt, LoSize;
    LoSizeRange(destsize, lclusterbits);
    NoEntries(meta[out..out + destsize * Vcnt(destsize)], destsize, LoSize(lclusterbits), cv);
    var vcnt, lo := Vcnt(destsize), LoSize(lclusterbits);
    ghost var w := Walk(blkaddr, blkaddr, dummyHead, update);
    var base: nat, upd := blkaddr, update;
    out', blkaddr', dummyHead' := out + destsize * vcnt, blkaddr, dummyHead;
    for i := 0 to vcnt
      invariant WalkTo(w, cv, i) == Walk(blkaddr', base, dummyHead', upd)
      invariant blkaddr' < U32_LIMIT && base < U32_LIMIT
      invariant EntriesHold(meta[out..out'], destsize, lo, cv, i)
      invariant meta[..out] == old(meta[..out]) && meta[out'..] == old(meta[out'..])
    {
      var offset: int;
      if cv[i].clustertype == NONHEAD {
        if HasCblkcnt(cv[i].delta0) {
          var cblks := WithoutCblkcnt(cv[i].delta0);
          offset := cv[i].delta0;
          blkaddr' := (blkaddr' + cblks) % U32_LIMIT;
          dummyHead' := false;
        } else if i + 1 == vcnt {
          offset := Min(cv[i].delta1, lo - 1);
        } else {
          offset := cv[i].delta0;
        }
      } else {
        offset := cv[i].clusterofs;
        if dummyHead' {
          blkaddr' := (blkaddr' + 1) % U32_LIMIT;
          if upd {
            base := blkaddr';
          }
        }
        dummyHead', upd := true, false;
        assert cv[i].blkaddr != blkaddr' ==> (i + 1 == vcnt || final) && cv[i].blkaddr == 0;
      }
      var v := cv[i].clustertype * lo + offset;
      StoredEntryHolds(meta[out..out'], destsize, lo, cv, i);
      StoreEntry(meta, out, destsize, i, v);
    }
    StoreBase(meta, out, destsize, lo, cv, base);
  }

  predicate EntriesHold(p: seq<byte>, destsize: nat, lo: nat, cvs: seq<IndexVec>, n: nat)
    requires destsize == 2 || destsize == 4
    requires |cvs| == Vcnt(destsize) && |p| == destsize * Vcnt(destsize) && n <= |cvs|
  {
    forall i :: 0 <= i < n ==> SlotValue(destsize, p, i) == Entry(cvs[i], i + 1 == |cvs|, lo)
  }

  lemma StoredEntryHolds(p: seq<byte>, destsize: nat, lo: nat, cvs: seq<IndexVec>, i: nat)
    requires destsize == 2 || destsize == 4
    requires |cvs| == Vcnt(destsize) && |p| == destsize * Vcnt(destsize) && i < |cvs|
    requires lo <= 4096 || (destsize == 4 && lo <= 16384)
    requires Encodable(cvs, lo) && EntriesHold(p, destsize, lo, cvs, i)
    ensures 0 <= Entry(cvs[i], i + 1 == |cvs|, lo) < EntryLimit(destsize)
    ensures EntriesHold(StoreSlot(destsize, p, i, Entry(cvs[i], i + 1 == |cvs|, lo)), destsize, lo, cvs, i + 1)
  {
    hide SlotValue, StoreSlot;
    var v := Entry(cvs[i], i + 1 == |cvs|, lo);
    EntryFits(cvs[i], i + 1 == |cvs|, lo, destsize);
    forall j | 0 <= j < i + 1
      ensures SlotValue(destsize, StoreSlot(destsize, p, i, v), j) == Entry(cvs[j], j + 1 == |cvs|, lo)
    {
      if j == i {
        StoreSlotReads(destsize, p, i, v);
      } else {
        StoreSlotKeeps(destsize, p, i, v, j);
      }
    }
  }

  lemma EntryFits(cv: IndexVec, last: bool, lo: nat, destsize: nat)
    requires destsize == 2 || destsize == 4
    requires lo <= 4096 || (destsize == 4 && lo <= 16384)
    requires cv.clustertype < 3 && 0 <= EntryLow(cv, last, lo) < lo
    ensures 0 <= Entry(cv, last, lo) < EntryLimit(destsize)
  {
    MulMonotone(cv.clustertype, 2, lo);
  }

  /** The base address lies behind the last entry. */
  lemma BaseStored(p: seq<byte>, q: seq<byte>, destsize: nat, lo: nat, cvs: seq<IndexVec>)
    requires destsize == 2 || destsize == 4
    requires |cvs| == Vcnt(destsize) && |p| == |q| == destsize * Vcnt(destsize)
    requires EntriesHold(p, destsize, lo, cvs, |cvs|) && q[..|q| - 4] == p[..|p| - 4]
    ensures EntriesHold(q, destsize, lo, cvs, |cvs|)
  {
    forall i | 0 <= i < |cvs|
      ensures SlotValue(destsize, q, i) == Entry(cvs[i], i + 1 == |cvs|, lo)
    {
      assert SlotValue(destsize, p, i) == Entry(cvs[i], i + 1 == |cvs|, lo);
      SlotPlace(destsize, i);
      var at := SlotByte(destsize, i);
      assert forall x :: 0 <= x < |q| - 4 ==> q[x] == q[..|q| - 4][x] == p[..|p| - 4][x] == p[x];
    }
  }
}
