/**
 * Conversion of the full indexes of a file to compact packs, in the buffer they share
 * (`z_erofs_convert_to_compacted_format`).
 */
module CompactConvert {
  import opened Arithmetic
  import opened Bytes
  import opened Extents
  import opened FullIndex
  import opened CompactIndex

  /** `sizeof(struct z_erofs_map_header)` */
  const MAP_HEADER_SIZE := 8

  /** Where the packs of a file lie: some 4-byte entries, a run of 2-byte ones, and 4-byte ones again. */
  datatype Layout = Layout(init4b: nat, mid2b: nat)

  /** 4-byte entries needed to reach the 32-byte alignment of 2-byte packs. */
  function InitialEntries(mpos: nat): nat {
    var n := (32 - mpos % 32) / 4;
    if n == 8 then 0 else n
  }

  /** The split mkfs chooses for `total` indexes whose first byte will be at offset `mpos`. */
  function LayoutOf(twoByte: bool, mpos: nat, total: nat): Layout {
    if !twoByte || InitialEntries(mpos) > total then Layout(0, 0)
    else Layout(InitialEntries(mpos), (total - InitialEntries(mpos)) / 16 * 16)
  }

  predicate LayoutOk(l: Layout) {
    l.init4b % 2 == 0 && l.mid2b % 16 == 0
  }

  /** Bytes of an entry of logical cluster `lcn`. */
  function EntrySize(l: Layout, lcn: nat): (ds: nat)
    ensures ds == 2 || ds == 4
  {
    if l.init4b <= lcn < l.init4b + l.mid2b then 2 else 4
  }

  /** Offset of the entry of `lcn` from the first pack. */
  function EntryPos(l: Layout, lcn: nat): nat {
    if lcn < l.init4b then 4 * lcn
    else if lcn < l.init4b + l.mid2b then 4 * l.init4b + 2 * (lcn - l.init4b)
    else 4 * l.init4b + 2 * l.mid2b + 4 * (lcn - l.init4b - l.mid2b)
  }

  /** Index of the entry of `lcn` in its pack. */
  function EntryIndex(l: Layout, lcn: nat): nat {
    if lcn < l.init4b then lcn % 2
    else if lcn < l.init4b + l.mid2b then (lcn - l.init4b) % 16
    else (lcn - l.init4b - l.mid2b) % 2
  }

  /** First logical cluster of the pack of `lcn`. */
  function PackStart(l: Layout, lcn: nat): nat {
    lcn - EntryIndex(l, lcn)
  }

  lemma EntryInPack(l: Layout, lcn: nat)
    ensures EntryIndex(l, lcn) < Vcnt(EntrySize(l, lcn)) && EntryIndex(l, lcn) <= lcn
    ensures LayoutOk(l) ==>
      EntryPos(l, lcn) < EntryPos(l, PackStart(l, lcn)) + EntrySize(l, lcn) * Vcnt(EntrySize(l, lcn))
  {
  }

  /** Leading 4-byte entries fill whole packs and end at a multiple of 32 bytes. */
  lemma InitialAligns(base: nat)
    requires base % 8 == 0
    ensures (base + 4 * InitialEntries(base)) % 32 == 0 && InitialEntries(base) % 2 == 0
  {
    var q, r := base / 8 / 4, base / 8 % 4;
    DivModUnique(base, 32, q, 8 * r);
    DivModUnique(32 - 8 * r, 4, 8 - 2 * r, 0);
    if r == 0 {
      DivModUnique(base, 32, q, 0);
    } else {
      DivModUnique(base + 4 * (8 - 2 * r), 32, q + 1, 0);
      DivModUnique(8 - 2 * r, 2, 4 - r, 0);
    }
  }

  // ----- block addresses ---------------------------------------------------------------

  predicate Follows(es: seq<Extent>, k: nat)
    requires 0 < k < |es|
  {
    es[k].blkaddr == es[k - 1].blkaddr + es[k - 1].compressedblks
  }

  /** Compact indexes keep no addresses of their own, so extents must lie one after another. */
  predicate Contiguous(es: seq<Extent>, start: nat) {
    && |es| > 0 && es[0].blkaddr == start
    && forall k :: 0 < k < |es| ==> Follows(es, k)
  }

  /** What can be stored compactly: contiguous blocks and no partial references. */
  predicate Compactable(b: nat, big: bool, es: seq<Extent>, start: nat)
    requires b > 0
  {
    && Storable(b, big, es) && Contiguous(es, start)
    && (forall k :: 0 <= k < |es| ==> !es[k].partial)
    && (forall k :: 0 <= k < |es| ==> Span(b, es, k) <= 65536)
  }

  /** The parsed index of `lcn`; the pad of the last pack is all zeroes. */
  function VecAt(b: nat, big: bool, es: seq<Extent>, lcn: nat): IndexVec
    requires b > 0
  {
    if lcn < IndexCount(b, es) then Vec(IndexAt(b, big, es, lcn)) else IndexVec(PLAIN, 0, 0, 0, 0)
  }

  function VecsFrom(b: nat, big: bool, es: seq<Extent>, lcn: nat, n: nat): seq<IndexVec>
    requires b > 0
  {
    seq(n, i requires 0 <= i < n => VecAt(b, big, es, lcn + i))
  }

  /** The address and the `dummy_head` flag with which the writer reaches `lcn`. */
  function AddressBefore(b: nat, big: bool, es: seq<Extent>, start: nat, lcn: nat): (nat, bool)
    requires b > 0 && |es| > 0
  {
    if lcn == 0 || lcn > IndexCount(b, es) then
      if big then (start, false) else ((start + U32_LIMIT - 1) % U32_LIMIT, true)
    else match SlotOf(b, es, lcn - 1)
      case HeadOf(k) => (es[k].blkaddr, true)
      case Inside(k) =>
        if big then ((es[k].blkaddr + es[k].compressedblks) % U32_LIMIT, false) else (es[k].blkaddr, true)
      case Tail => (0, true)
  }

  /** The address bookkeeping at the start of a pack. */
  function WalkFrom(b: nat, big: bool, es: seq<Extent>, start: nat, lcn: nat): Walk
    requires b > 0 && |es| > 0
  {
    var (a, d) := AddressBefore(b, big, es, start, lcn);
    Walk(a, a, d, big)
  }

  /** The last cluster of extent `k`, when it reaches the next one. */
  function LastOf(b: nat, es: seq<Extent>, k: nat): Slot
    requires b > 0 && k < |es|
  {
    if Span(b, es, k) == 1 then HeadOf(k) else Inside(k)
  }

  /** The role of cluster `lcn`, given the role of the cluster after it. */
  function SlotBefore(b: nat, es: seq<Extent>, lcn: nat, next: Slot): Slot
    requires b > 0
  {
    match next
    case HeadOf(m) => if 0 < m <= |es| then LastOf(b, es, m - 1) else Tail
    case Inside(m) => if m < |es| && lcn == BlkNr(Pos(es, m), b) then HeadOf(m) else Inside(m)
    case Tail => if |es| > 0 then LastOf(b, es, |es| - 1) else Tail
  }

  lemma NextSlot(b: nat, big: bool, es: seq<Extent>, lcn: nat)
    requires b > 0 && Storable(b, big, es) && lcn + 1 < IndexCount(b, es)
    ensures SlotOf(b, es, lcn) == SlotBefore(b, es, lcn, SlotOf(b, es, lcn + 1)) != Tail
  {
    hide BlkNr, BlkOff, BlkRoundUp, SlotOf, Pos;
    var prev := SlotBefore(b, es, lcn, SlotOf(b, es, lcn + 1));
    match SlotOf(b, es, lcn + 1) {
      case HeadOf(m) =>
        StartIsZero(b, es);
        HeadsIncrease(b, big, es, m - 1, m);
      case Inside(m) =>
      case Tail =>
    }
    SlotUnique(b, big, es, lcn, prev);
  }

  lemma StartIsZero(b: nat, es: seq<Extent>)
    requires b > 0
    ensures BlkNr(Pos(es, 0), b) == 0 && BlkOff(Pos(es, 0), b) == 0
  {
    BlkPosNext(0, b);
    BlkUnique(0, b, 0, 0);
  }

  /** An extent confined to one cluster occupies one block. */
  lemma OneClusterOneBlock(b: nat, big: bool, es: seq<Extent>, k: nat)
    requires b > 0 && Storable(b, big, es) && k < |es| && Span(b, es, k) == 1
    ensures es[k].compressedblks == 1
  {
    hide BlkNr, BlkOff, BlkRoundUp;
    StorableAt(b, big, es, k);
    Advance(Pos(es, k), es[k].length, b);
    BlkFits(BlkOff(Pos(es, k), b) + es[k].length, b, 2);
  }

  /** The block count field of a cluster inside extent `k`: present exactly in the first one. */
  lemma InsideDelta(b: nat, big: bool, es: seq<Extent>, lcn: nat, k: nat)
    requires b > 0 && Storable(b, big, es) && lcn < IndexCount(b, es) && SlotOf(b, es, lcn) == Inside(k)
    ensures k < |es| && BlkNr(Pos(es, k), b) < lcn < BlkNr(Pos(es, k + 1), b)
    ensures var d0, v := lcn - BlkNr(Pos(es, k), b), VecAt(b, big, es, lcn);
      && v.clustertype == NONHEAD
      && v.delta1 == Span(b, es, k) - d0
      && (HasCblkcnt(v.delta0) <==> big && d0 == 1)
      && (big && d0 == 1 ==> WithoutCblkcnt(v.delta0) == es[k].compressedblks && v.delta0 < 4096)
      && (!(big && d0 == 1) ==> v.delta0 == Min(d0, CBLKCNT - 1))
  {
    hide BlkNr, BlkOff, BlkRoundUp, SlotOf, Pos, FileSize;
    StorableAt(b, big, es, k);
  }

  /** The writer reaches the next cluster with the address that `AddressBefore` names; at a head it is the head's own. */
  lemma AddressStep(b: nat, big: bool, es: seq<Extent>, start: nat, lcn: nat, w: Walk)
    requires b > 0 && Compactable(b, big, es, start) && lcn < IndexCount(b, es) && SlotOf(b, es, lcn) != Tail
    requires (w.blkaddr, w.dummyHead) == AddressBefore(b, big, es, start, lcn)
    ensures var w' := WalkStep(w, VecAt(b, big, es, lcn));
      && (w'.blkaddr, w'.dummyHead) == AddressBefore(b, big, es, start, lcn + 1)
    ensures SlotOf(b, es, lcn).HeadOf? ==>
      WalkStep(w, VecAt(b, big, es, lcn)).blkaddr == VecAt(b, big, es, lcn).blkaddr == es[SlotOf(b, es, lcn).k].blkaddr
  {
    hide BlkNr, BlkOff, BlkRoundUp, SlotOf, Pos, FileSize, IndexCount, HasCblkcnt, WithoutCblkcnt, Storable;
    if SlotOf(b, es, lcn).HeadOf? {
      HeadAddressStep(b, big, es, start, lcn, SlotOf(b, es, lcn).k, w);
    } else {
      var k := SlotOf(b, es, lcn).k;
      StorableAt(b, big, es, k);
      InsideDelta(b, big, es, lcn, k);
      NextSlot(b, big, es, lcn - 1);
    }
  }

  lemma HeadAddressStep(b: nat, big: bool, es: seq<Extent>, start: nat, lcn: nat, k: nat, w: Walk)
    requires b > 0 && Compactable(b, big, es, start) && lcn < IndexCount(b, es) && SlotOf(b, es, lcn) == HeadOf(k)
    requires (w.blkaddr, w.dummyHead) == AddressBefore(b, big, es, start, lcn)
    ensures WalkStep(w, VecAt(b, big, es, lcn)).blkaddr == VecAt(b, big, es, lcn).blkaddr == es[k].blkaddr
  {
    hide BlkNr, BlkOff, BlkRoundUp, SlotOf, Pos, FileSize, IndexCount, HasCblkcnt, WithoutCblkcnt, Storable, Span;
    StorableAt(b, big, es, k);
    if lcn == 0 {
      StartIsZero(b, es);
      if k > 0 { HeadsIncrease(b, big, es, 0, k); }
    } else {
      NextSlot(b, big, es, lcn - 1);
      StorableAt(b, big, es, k - 1);
      assert Follows(es, k);
      if Span(b, es, k - 1) == 1 { OneClusterOneBlock(b, big, es, k - 1); }
    }
  }

  /** Every entry of a file's indexes fits its slot. */
  lemma VecsEncodable(b: nat, big: bool, es: seq<Extent>, lcn: nat, n: nat, lo: nat)
    requires b > 0 && Storable(b, big, es) && b <= lo && 4096 <= lo
    ensures Encodable(VecsFrom(b, big, es, lcn, n), lo)
  {
    hide Storable;
    var vs := VecsFrom(b, big, es, lcn, n);
    forall i | 0 <= i < |vs|
      ensures vs[i].clustertype < 3 && 0 <= EntryLow(vs[i], i + 1 == |vs|, lo) < lo
    {
      VecEncodable(b, big, es, lcn + i, i + 1 == n, lo);
    }
  }

  lemma VecEncodable(b: nat, big: bool, es: seq<Extent>, lcn: nat, last: bool, lo: nat)
    requires b > 0 && Storable(b, big, es) && b <= lo && 4096 <= lo
    ensures var v := VecAt(b, big, es, lcn);
      v.clustertype < 3 && 0 <= EntryLow(v, last, lo) < lo
  {
    hide BlkNr, BlkOff, BlkRoundUp, SlotOf, Pos, HasCblkcnt, WithoutCblkcnt, FileSize;
    if lcn < IndexCount(b, es) {
      match SlotOf(b, es, lcn)
      case HeadOf(k) => BlkSplit(Pos(es, k), b);
      case Inside(k) => InsideDelta(b, big, es, lcn, k);
      case Tail => BlkSplit(FileSize(es), b);
    }
  }

  /** The writer's bookkeeping inside a pack follows `AddressBefore`. */
  lemma {:induction false} WalkIsAddress(b: nat, big: bool, es: seq<Extent>, start: nat, lcn: nat, n: nat, m: nat)
    requires b > 0 && Compactable(b, big, es, start) && m <= n
    requires lcn + m <= IndexCount(b, es) && (m > 0 ==> SlotOf(b, es, lcn + m - 1) != Tail)
    ensures var w := WalkTo(WalkFrom(b, big, es, start, lcn), VecsFrom(b, big, es, lcn, n), m);
      (w.blkaddr, w.dummyHead) == AddressBefore(b, big, es, start, lcn + m)
  {
    hide BlkNr, BlkOff, BlkRoundUp, SlotOf, Pos, Storable, IndexCount, WalkStep, VecAt, AddressBefore;
    if m > 0 {
      if m > 1 { NextSlot(b, big, es, lcn + m - 2); }
      WalkIsAddress(b, big, es, start, lcn, n, m - 1);
      AddressStep(b, big, es, start, lcn + m - 1,
                  WalkTo(WalkFrom(b, big, es, start, lcn), VecsFrom(b, big, es, lcn, n), m - 1));
    }
  }

  /** The base address of the pack that starts at `lcn`. */
  function PackBase(b: nat, big: bool, es: seq<Extent>, start: nat, lcn: nat): nat
    requires b > 0 && |es| > 0 && lcn < IndexCount(b, es)
  {
    if big && SlotOf(b, es, lcn).HeadOf? then es[SlotOf(b, es, lcn).k].blkaddr
    else AddressBefore(b, big, es, start, lcn).0
  }

  /** The base is settled by the first entry of the pack. */
  lemma {:induction false} BaseIsSettled(b: nat, big: bool, es: seq<Extent>, start: nat, lcn: nat, n: nat, m: nat)
    requires b > 0 && Compactable(b, big, es, start) && 0 < m <= n
    requires lcn < IndexCount(b, es) && SlotOf(b, es, lcn) != Tail
    ensures var w := WalkTo(WalkFrom(b, big, es, start, lcn), VecsFrom(b, big, es, lcn, n), m);
      w.base == PackBase(b, big, es, start, lcn) && (w.update ==> !w.dummyHead)
  {
    hide BlkNr, BlkOff, BlkRoundUp, SlotOf, Pos, Storable, IndexCount, HasCblkcnt, WithoutCblkcnt;
    var w0, vs := WalkFrom(b, big, es, start, lcn), VecsFrom(b, big, es, lcn, n);
    if m == 1 {
      assert WalkTo(w0, vs, 1) == WalkStep(WalkTo(w0, vs, 0), vs[0]);
      AddressStep(b, big, es, start, lcn, w0);
      if SlotOf(b, es, lcn).Inside? {
        InsideDelta(b, big, es, lcn, SlotOf(b, es, lcn).k);
        NextSlot(b, big, es, lcn - 1);
      }
    } else {
      BaseIsSettled(b, big, es, start, lcn, n, m - 1);
    }
  }

  /** The addresses in the records are the ones the writer walks to, so its consistency check never fires. */
  lemma AddressesAgree(b: nat, big: bool, es: seq<Extent>, start: nat, lcn: nat, n: nat, final: bool)
    requires b > 0 && Compactable(b, big, es, start)
    requires lcn < IndexCount(b, es) && (lcn + n <= IndexCount(b, es) || final)
    ensures AddressesMatch(WalkFrom(b, big, es, start, lcn), VecsFrom(b, big, es, lcn, n), final)
  {
    hide BlkNr, BlkOff, BlkRoundUp, SlotOf, Pos, Storable, IndexCount, WalkStep, AddressBefore;
    var w0, vs := WalkFrom(b, big, es, start, lcn), VecsFrom(b, big, es, lcn, n);
    forall i | 0 <= i < n && vs[i].clustertype != NONHEAD
      ensures vs[i].blkaddr == WalkTo(w0, vs, i + 1).blkaddr || (vs[i].blkaddr == 0 && (final || i + 1 == n))
    {
      assert vs[i] == VecAt(b, big, es, lcn + i);
      if lcn + i < IndexCount(b, es) {
        InsideIsNonHead(b, big, es, lcn + i);
        if SlotOf(b, es, lcn + i) == Tail {
          TailIsLast(b, big, es, lcn + i);
        } else {
          if i > 0 { NextSlot(b, big, es, lcn + i - 1); }
          WalkIsAddress(b, big, es, start, lcn, n, i);
          AddressStep(b, big, es, start, lcn + i, WalkTo(w0, vs, i));
          assert WalkTo(w0, vs, i + 1) == WalkStep(WalkTo(w0, vs, i), vs[i]);
        }
      }
    }
  }

  lemma InsideIsNonHead(b: nat, big: bool, es: seq<Extent>, lcn: nat)
    requires b > 0 && Storable(b, big, es) && lcn < IndexCount(b, es)
    ensures VecAt(b, big, es, lcn).clustertype == NONHEAD <==> SlotOf(b, es, lcn).Inside?
  {
    hide BlkNr, BlkOff, BlkRoundUp, SlotOf, Pos, IndexCount;
    if SlotOf(b, es, lcn).Inside? {
      InsideDelta(b, big, es, lcn, SlotOf(b, es, lcn).k);
    }
  }

  lemma TailIsLast(b: nat, big: bool, es: seq<Extent>, lcn: nat)
    requires b > 0 && Storable(b, big, es) && lcn < IndexCount(b, es) && SlotOf(b, es, lcn) == Tail
    ensures lcn + 1 == IndexCount(b, es)
  {
    hide BlkNr, BlkOff, BlkRoundUp, SlotOf, Pos;
    BlkRoundUpIs(FileSize(es), b);
  }

  // ----- the conversion ----------------------------------------------------------------

  /** The pack of cluster `lcn`, in the bytes that follow the map header. */
  predicate PackOfHolds(q: seq<byte>, l: Layout, b: nat, big: bool, es: seq<Extent>, start: nat, lo: nat, lcn: nat)
    requires b > 0 && |es| > 0
  {
    var s, ds := PackStart(l, lcn), EntrySize(l, lcn);
    && EntryPos(l, s) + ds * Vcnt(ds) <= |q|
    && PackHolds(q[EntryPos(l, s)..EntryPos(l, s) + ds * Vcnt(ds)], ds, lo, VecsFrom(b, big, es, s, Vcnt(ds)),
                 WalkTo(WalkFrom(b, big, es, start, s), VecsFrom(b, big, es, s, Vcnt(ds)), Vcnt(ds)).base)
  }

  /** `q` holds the packs of the clusters below `n`. */
  predicate PacksHold(q: seq<byte>, l: Layout, b: nat, big: bool, es: seq<Extent>, start: nat, lo: nat, n: nat)
    requires b > 0 && |es| > 0
  {
    forall lcn :: 0 <= lcn < n ==> PackOfHolds(q, l, b, big, es, start, lo, lcn)
  }

  /** The cluster `lcn` starts a pack of `ds`-byte entries. */
  predicate StartsPack(l: Layout, lcn: nat, ds: nat) {
    EntryIndex(l, lcn) == 0 && EntrySize(l, lcn) == ds
  }

  lemma PackGeometry(l: Layout, lcn: nat, i: nat)
    requires LayoutOk(l) && EntryIndex(l, lcn) == 0 && i < Vcnt(EntrySize(l, lcn))
    requires lcn < l.init4b ==> lcn + 2 <= l.init4b
    requires l.init4b <= lcn < l.init4b + l.mid2b ==> lcn + 16 <= l.init4b + l.mid2b
    ensures EntrySize(l, lcn + i) == EntrySize(l, lcn) && EntryIndex(l, lcn + i) == i
    ensures PackStart(l, lcn + i) == lcn
    ensures EntryPos(l, lcn + Vcnt(EntrySize(l, lcn))) == EntryPos(l, lcn) + EntrySize(l, lcn) * Vcnt(EntrySize(l, lcn))
    ensures EntryIndex(l, lcn + Vcnt(EntrySize(l, lcn))) == 0
  {
    if lcn < l.init4b {
      Residue(lcn, i, 2);
    } else if lcn < l.init4b + l.mid2b {
      Residue(lcn - l.init4b, i, 16);
    } else {
      Residue(lcn - l.init4b - l.mid2b, i, 2);
    }
  }

  lemma Residue(r: nat, i: nat, m: nat)
    requires (m == 2 || m == 16) && r % m == 0 && i < m
    ensures (r + i) % m == i && (r + m) % m == 0
  {
    if m == 2 {
      assert (r + i) % 2 == i;
    } else {
      assert (r + i) % 16 == i;
    }
  }

  /** Appending the next pack. */
  lemma PackAppended(q: seq<byte>, p: seq<byte>, l: Layout, b: nat, big: bool, es: seq<Extent>, start: nat, lo: nat, n: nat)
    requires b > 0 && |es| > 0 && LayoutOk(l) && EntryIndex(l, n) == 0
    requires n < l.init4b ==> n + 2 <= l.init4b
    requires l.init4b <= n < l.init4b + l.mid2b ==> n + 16 <= l.init4b + l.mid2b
    requires |q| == EntryPos(l, n) && PacksHold(q, l, b, big, es, start, lo, n)
    requires var ds := EntrySize(l, n); var vs := VecsFrom(b, big, es, n, Vcnt(ds));
      PackHolds(p, ds, lo, vs, WalkTo(WalkFrom(b, big, es, start, n), vs, |vs|).base)
    ensures PacksHold(q + p, l, b, big, es, start, lo, n + Vcnt(EntrySize(l, n)))
  {
    hide VecAt, WalkTo, WalkFrom, PackHolds, EntryPos, EntrySize, EntryIndex;
    var vcnt := Vcnt(EntrySize(l, n));
    forall lcn | 0 <= lcn < n + vcnt
      ensures PackOfHolds(q + p, l, b, big, es, start, lo, lcn)
    {
      if lcn < n {
        assert PackOfHolds(q, l, b, big, es, start, lo, lcn);
        var s, ds := PackStart(l, lcn), EntrySize(l, lcn);
        SliceOfPrefix(q, p, EntryPos(l, s), EntryPos(l, s) + ds * Vcnt(ds));
      } else {
        PackGeometry(l, n, lcn - n);
        PackLength(p, EntrySize(l, n), lo, VecsFrom(b, big, es, n, vcnt),
                   WalkTo(WalkFrom(b, big, es, start, n), VecsFrom(b, big, es, n, vcnt), vcnt).base);
        assert (q + p)[|q|..|q| + |p|] == p;
      }
    }
  }

  lemma SliceOfPrefix(q: seq<byte>, p: seq<byte>, i: nat, j: nat)
    requires i <= j <= |q|
    ensures (q + p)[i..j] == q[i..j]
  {
  }

  lemma PackLength(p: seq<byte>, ds: nat, lo: nat, vs: seq<IndexVec>, base: nat)
    requires (ds == 2 || ds == 4) && PackHolds(p, ds, lo, vs, base)
    ensures |p| == ds * Vcnt(ds)
  {
  }

  /** `parse_legacy_indexes`: the next `nr` indexes of the buffer. */
  method ParseLegacy(meta: array<byte>, input: nat, nr: nat) returns (cv: seq<IndexVec>, input': nat)
    requires input + 8 * nr <= meta.Length
    ensures |cv| == nr && input' == input + 8 * nr
    ensures forall i :: 0 <= i < nr ==> cv[i] == ParseIndex(meta[..], input + 8 * i)
  {
    cv := [];
    for i := 0 to nr
      invariant |cv| == i
      invariant forall j :: 0 <= j < i ==> cv[j] == ParseIndex(meta[..], input + 8 * j)
    {
      cv := cv + [ParseIndex(meta[..], input + 8 * i)];
    }
    input' := input + 8 * nr;
  }

  /** The indexes still to be converted, as they lie in the buffer. */
  ghost predicate Unread(meta: seq<byte>, b: nat, big: bool, es: seq<Extent>, lcn: nat)
    requires b > 0
  {
    && LEGACY_HEADER_SIZE + 8 * IndexCount(b, es) <= |meta|
    && forall i :: lcn <= i < IndexCount(b, es) ==> RecordAt(meta, b, big, es, i)
  }

  ghost predicate RecordAt(meta: seq<byte>, b: nat, big: bool, es: seq<Extent>, i: nat)
    requires b > 0 && i < IndexCount(b, es) && LEGACY_HEADER_SIZE + 8 * IndexCount(b, es) <= |meta|
  {
    meta[LEGACY_HEADER_SIZE + 8 * i..LEGACY_HEADER_SIZE + 8 * i + 8] == EncodeIndex(IndexAt(b, big, es, i))
  }

  /** Parsing the buffer gives the indexes of the file. */
  lemma ParsedVecs(meta: seq<byte>, b: nat, big: bool, es: seq<Extent>, start: nat, lcn: nat)
    requires b > 0 && b <= 65536 && Compactable(b, big, es, start) && lcn < IndexCount(b, es)
    requires Unread(meta, b, big, es, lcn)
    ensures ParseIndex(meta, LEGACY_HEADER_SIZE + 8 * lcn) == VecAt(b, big, es, lcn)
  {
    hide BlkNr, BlkOff, BlkRoundUp, SlotOf, Pos, FileSize, EncodeIndex, ParseIndex, IndexCount;
    assert RecordAt(meta, b, big, es, lcn);
    IndexInRange(b, big, es, start, lcn);
    ParseEncoded(meta, LEGACY_HEADER_SIZE + 8 * lcn, IndexAt(b, big, es, lcn));
  }

  lemma IndexInRange(b: nat, big: bool, es: seq<Extent>, start: nat, lcn: nat)
    requires b > 0 && b <= 65536 && Compactable(b, big, es, start) && lcn < IndexCount(b, es)
    ensures InRange(IndexAt(b, big, es, lcn))
  {
    hide BlkNr, BlkOff, BlkRoundUp, SlotOf, Pos, FileSize, IndexCount;
    match SlotOf(b, es, lcn)
    case HeadOf(k) => BlkSplit(Pos(es, k), b); StorableAt(b, big, es, k);
    case Inside(k) => BlkSplit(Pos(es, k), b); InsideDelta(b, big, es, lcn, k);
    case Tail => BlkSplit(FileSize(es), b);
  }

  /** The state between two packs of a conversion. */
  ghost predicate Between(meta: seq<byte>, b: nat, big: bool, es: seq<Extent>, start: nat, l: Layout, lo: nat,
                          lcn: nat, input: nat, out: nat, addr: nat, dummyHead: bool)
    requires b > 0 && |es| > 0
  {
    && lcn <= IndexCount(b, es) && EntryIndex(l, lcn) == 0 && addr < U32_LIMIT
    && input == LEGACY_HEADER_SIZE + 8 * lcn && out == MAP_HEADER_SIZE + EntryPos(l, lcn) <= input <= |meta|
    && (lcn < IndexCount(b, es) ==> (addr, dummyHead) == AddressBefore(b, big, es, start, lcn))
    && Unread(meta, b, big, es, lcn)
    && PacksHold(meta[MAP_HEADER_SIZE..out], l, b, big, es, start, lo, lcn)
  }

  /** One pass of a conversion loop: parse `nr` indexes and write their pack behind the ones already written. */
  method ConvertPack(meta: array<byte>, input: nat, out: nat, nr: nat, blkaddr: nat, destsize: nat,
                     lclusterbits: nat, final: bool, dummyHead: bool, big: bool,
                     ghost b: nat, ghost es: seq<Extent>, ghost start: nat, ghost l: Layout, ghost lcn: nat)
    returns (input': nat, out': nat, blkaddr': nat, dummyHead': bool)
    requires PackShape(destsize, lclusterbits) && |es| > 0
    requires 0 < b <= LoSize(lclusterbits) && Compactable(b, big, es, start) && LayoutOk(l)
    requires lcn + nr <= IndexCount(b, es)
    requires destsize == (if l.init4b <= lcn < l.init4b + l.mid2b then 2 else 4)
    requires nr == Vcnt(destsize) || (nr == 1 && Vcnt(destsize) == 2 && final && lcn + 1 == IndexCount(b, es))
    requires lcn < l.init4b ==> lcn + 2 <= l.init4b
    requires l.init4b <= lcn < l.init4b + l.mid2b ==> lcn + 16 <= l.init4b + l.mid2b
    requires LEGACY_HEADER_SIZE + 8 * IndexCount(b, es) == meta.Length
    requires Between(meta[..], b, big, es, start, l, LoSize(lclusterbits), lcn, input, out, blkaddr, dummyHead)
    modifies meta
    ensures meta[..MAP_HEADER_SIZE] == old(meta[..MAP_HEADER_SIZE])
    ensures nr == Vcnt(destsize) ==>
      Between(meta[..], b, big, es, start, l, LoSize(lclusterbits), lcn + nr, input', out', blkaddr', dummyHead')
    ensures out' == MAP_HEADER_SIZE + EntryPos(l, lcn + Vcnt(destsize)) <= meta.Length
    ensures PacksHold(meta[MAP_HEADER_SIZE..out'], l, b, big, es, start, LoSize(lclusterbits), lcn + Vcnt(destsize))
  {
    hide VecAt, AddressBefore, Compactable, ParseIndex, IndexCount, EntryPos, EntryIndex, Unread;
    hide PackHolds, PacksHold, WalkTo, Encodable, AddressesMatch, LoSize;
    var cv, next := ParseLegacy(meta, input, nr);
    if nr < Vcnt(destsize) {
      cv := cv + [IndexVec(PLAIN, 0, 0, 0, 0)];
    }
    input' := next;
    ghost var before := meta[..];
    PackGeometry(l, lcn, 0);
    PackReady(before, b, big, es, start, lcn, nr, cv, final, lclusterbits);
    OutBehindInput(l, lcn, nr, destsize);
    out', blkaddr', dummyHead' :=
      WriteCompacted(meta, out, cv, blkaddr, destsize, lclusterbits, final, dummyHead, big);
    PackWritten(before, meta[..], out, out', b, big, es, start, l, LoSize(lclusterbits), lcn, destsize, nr);
    if lcn + nr < IndexCount(b, es) {
      NextAddress(b, big, es, start, lcn, nr);
    }
  }

  /** The parsed indexes are those of the file and satisfy all that the pack writer relies on. */
  lemma PackReady(meta: seq<byte>, b: nat, big: bool, es: seq<Extent>, start: nat, lcn: nat, nr: nat,
                  cv: seq<IndexVec>, final: bool, lclusterbits: nat)
    requires 0 < b <= LoSize(lclusterbits) && Compactable(b, big, es, start)
    requires 0 < nr <= |cv| && lcn + nr <= IndexCount(b, es) && Unread(meta, b, big, es, lcn)
    requires forall i :: 0 <= i < nr ==> cv[i] == ParseIndex(meta, LEGACY_HEADER_SIZE + 8 * lcn + 8 * i)
    requires nr < |cv| ==>
      final && lcn + nr == IndexCount(b, es) && |cv| == nr + 1 && cv[nr] == IndexVec(PLAIN, 0, 0, 0, 0)
    ensures cv == VecsFrom(b, big, es, lcn, |cv|)
    ensures Encodable(cv, LoSize(lclusterbits))
    ensures AddressesMatch(WalkFrom(b, big, es, start, lcn), cv, final)
  {
    hide BlkNr, BlkOff, BlkRoundUp, ParseIndex, IndexCount, Encodable, AddressesMatch, WalkFrom, LoSize, EncodeIndex;
    forall i | 0 <= i < |cv|
      ensures cv[i] == VecAt(b, big, es, lcn + i)
    {
      if i < nr {
        assert cv[i] == ParseIndex(meta, LEGACY_HEADER_SIZE + 8 * (lcn + i));
        LoSizeBound(lclusterbits);
        forall j | lcn + i <= j < IndexCount(b, es)
          ensures RecordAt(meta, b, big, es, j)
        {
        }
        ParsedVecs(meta, b, big, es, start, lcn + i);
      }
    }
    LoSizeBound(lclusterbits);
    VecsEncodable(b, big, es, lcn, |cv|, LoSize(lclusterbits));
    AddressesAgree(b, big, es, start, lcn, |cv|, final);
  }

  lemma LoSizeBound(lclusterbits: nat)
    ensures 4096 <= LoSize(lclusterbits) <= 16384
  {
  }

  /** The packs never catch up with the indexes still to be read. */
  lemma OutBehindInput(l: Layout, lcn: nat, nr: nat, ds: nat)
    requires LayoutOk(l) && StartsPack(l, lcn, ds) && (ds == 2 || ds == 4)
    requires nr == Vcnt(ds) || (nr == 1 && ds == 4)
    requires lcn < l.init4b ==> lcn + 2 <= l.init4b
    requires l.init4b <= lcn < l.init4b + l.mid2b ==> lcn + 16 <= l.init4b + l.mid2b
    ensures EntryPos(l, lcn + Vcnt(ds)) == EntryPos(l, lcn) + ds * Vcnt(ds)
    ensures MAP_HEADER_SIZE + EntryPos(l, lcn + Vcnt(ds)) <= LEGACY_HEADER_SIZE + 8 * (lcn + nr)
  {
    PackGeometry(l, lcn, 0);
    assert EntryPos(l, lcn + Vcnt(ds)) <= 4 * (lcn + Vcnt(ds));
  }

  /** A pack written behind the others completes them and leaves the unread indexes alone. */
  lemma PackWritten(old_: seq<byte>, new_: seq<byte>, out: nat, out': nat, b: nat, big: bool, es: seq<Extent>,
                    start: nat, l: Layout, lo: nat, lcn: nat, ds: nat, nr: nat)
    requires b > 0 && |es| > 0 && LayoutOk(l) && StartsPack(l, lcn, ds) && (ds == 2 || ds == 4)
    requires nr == Vcnt(ds) || (nr == 1 && ds == 4)
    requires lcn < l.init4b ==> lcn + 2 <= l.init4b
    requires l.init4b <= lcn < l.init4b + l.mid2b ==> lcn + 16 <= l.init4b + l.mid2b
    requires out == MAP_HEADER_SIZE + EntryPos(l, lcn) && out' == out + ds * Vcnt(ds) <= |new_| == |old_|
    requires new_[..out] == old_[..out] && new_[out'..] == old_[out'..]
    requires lcn + nr <= IndexCount(b, es) && Unread(old_, b, big, es, lcn)
    requires PacksHold(old_[MAP_HEADER_SIZE..out], l, b, big, es, start, lo, lcn)
    requires var vs := VecsFrom(b, big, es, lcn, Vcnt(ds));
      PackHolds(new_[out..out'], ds, lo, vs, WalkTo(WalkFrom(b, big, es, start, lcn), vs, |vs|).base)
    ensures new_[..MAP_HEADER_SIZE] == old_[..MAP_HEADER_SIZE]
    ensures PacksHold(new_[MAP_HEADER_SIZE..out'], l, b, big, es, start, lo, lcn + Vcnt(ds))
    ensures Unread(new_, b, big, es, lcn + nr)
  {
    hide PackHolds, PacksHold, WalkTo, WalkFrom, VecsFrom, EntryPos, IndexCount, IndexAt, EncodeIndex;
    OutBehindInput(l, lcn, nr, ds);
    PackAppended(old_[MAP_HEADER_SIZE..out], new_[out..out'], l, b, big, es, start, lo, lcn);
    assert new_[..MAP_HEADER_SIZE] == new_[..out][..MAP_HEADER_SIZE];
    assert new_[MAP_HEADER_SIZE..out'] == new_[..out][MAP_HEADER_SIZE..] + new_[out..out'];
    forall i | lcn + nr <= i < IndexCount(b, es)
      ensures RecordAt(new_, b, big, es, i)
    {
      assert RecordAt(old_, b, big, es, i);
      SameSuffix(old_, new_, out', LEGACY_HEADER_SIZE + 8 * i, LEGACY_HEADER_SIZE + 8 * i + 8);
    }
  }

  lemma SameSuffix(s: seq<byte>, t: seq<byte>, at: nat, i: nat, j: nat)
    requires |s| == |t| && at <= i <= j <= |s| && s[at..] == t[at..]
    ensures s[i..j] == t[i..j]
  {
    assert forall x :: i <= x < j ==> s[x] == s[at..][x - at] == t[at..][x - at] == t[x];
  }

  lemma NextAddress(b: nat, big: bool, es: seq<Extent>, start: nat, lcn: nat, n: nat)
    requires b > 0 && Compactable(b, big, es, start) && 0 < n && lcn + n < IndexCount(b, es)
    ensures var w := WalkTo(WalkFrom(b, big, es, start, lcn), VecsFrom(b, big, es, lcn, n), n);
      (w.blkaddr, w.dummyHead) == AddressBefore(b, big, es, start, lcn + n)
  {
    hide BlkNr, BlkOff, BlkRoundUp, SlotOf, Pos, IndexCount;
    NextSlot(b, big, es, lcn + n - 1);
    WalkIsAddress(b, big, es, start, lcn, n, n);
  }

  /** `EINVAL` and `EOPNOTSUPP` */
  const EINVAL := 22
  const EOPNOTSUPP := 95

  /** Bytes of the compact indexes of `total` clusters. */
  function CompactSize(l: Layout, total: nat): nat {
    EntryPos(l, if (total - l.init4b - l.mid2b) % 2 == 0 then total else total + 1)
  }

  /** A conversion loop: all packs of `count` entries of one size; a last odd entry stays unread. */
  method ConvertRun(meta: array<byte>, input: nat, out: nat, count: nat, blkaddr: nat, destsize: nat,
                    lclusterbits: nat, dummyHead: bool, big: bool,
                    ghost b: nat, ghost es: seq<Extent>, ghost start: nat, ghost l: Layout, ghost lcn: nat)
    returns (input': nat, out': nat, blkaddr': nat, dummyHead': bool)
    requires PackShape(destsize, lclusterbits) && |es| > 0
    requires 0 < b <= LoSize(lclusterbits) && Compactable(b, big, es, start) && LayoutOk(l)
    requires lcn + count <= IndexCount(b, es)
    requires || (destsize == 4 && lcn + count == l.init4b)
             || (destsize == 2 && lcn == l.init4b && lcn + count == l.init4b + l.mid2b)
             || (destsize == 4 && lcn == l.init4b + l.mid2b)
    requires LEGACY_HEADER_SIZE + 8 * IndexCount(b, es) == meta.Length
    requires Between(meta[..], b, big, es, start, l, LoSize(lclusterbits), lcn, input, out, blkaddr, dummyHead)
    modifies meta
    ensures meta[..MAP_HEADER_SIZE] == old(meta[..MAP_HEADER_SIZE])
    ensures Between(meta[..], b, big, es, start, l, LoSize(lclusterbits), lcn + count - count % 2,
                    input', out', blkaddr', dummyHead')
  {
    hide Compactable, IndexCount, LoSize, Between;
    input', out', blkaddr', dummyHead' := input, out, blkaddr, dummyHead;
    var left := count;
    while left >= Vcnt(destsize)
      invariant 0 <= left <= count && left % 2 == count % 2 && (destsize == 2 ==> left % 16 == 0)
      invariant meta[..MAP_HEADER_SIZE] == old(meta[..MAP_HEADER_SIZE])
      invariant Between(meta[..], b, big, es, start, l, LoSize(lclusterbits), lcn + count - left,
                        input', out', blkaddr', dummyHead')
    {
      input', out', blkaddr', dummyHead' :=
        ConvertPack(meta, input', out', Vcnt(destsize), blkaddr', destsize, lclusterbits, false, dummyHead', big,
                    b, es, start, l, lcn + count - left);
      left := left - Vcnt(destsize);
    }
  }

  /** The trailing 4-byte packs, the last of which may be half empty. */
  method ConvertEnd(meta: array<byte>, input: nat, out: nat, count: nat, blkaddr: nat, lclusterbits: nat,
                    dummyHead: bool, big: bool,
                    ghost b: nat, ghost es: seq<Extent>, ghost start: nat, ghost l: Layout, ghost lcn: nat)
    returns (out': nat)
    requires lclusterbits <= 14 && |es| > 0
    requires 0 < b <= LoSize(lclusterbits) && Compactable(b, big, es, start) && LayoutOk(l)
    requires lcn == l.init4b + l.mid2b && lcn + count == IndexCount(b, es)
    requires LEGACY_HEADER_SIZE + 8 * IndexCount(b, es) == meta.Length
    requires Between(meta[..], b, big, es, start, l, LoSize(lclusterbits), lcn, input, out, blkaddr, dummyHead)
    modifies meta
    ensures meta[..MAP_HEADER_SIZE] == old(meta[..MAP_HEADER_SIZE])
    ensures out' == MAP_HEADER_SIZE + CompactSize(l, lcn + count) <= meta.Length
    ensures PacksHold(meta[MAP_HEADER_SIZE..out'], l, b, big, es, start, LoSize(lclusterbits), lcn + count)
  {
    hide Compactable, IndexCount, LoSize, Between, PacksHold, EntryPos;
    var input', addr', dummyHead';
    input', out', addr', dummyHead' := ConvertRun(meta, input, out, count, blkaddr, 4, lclusterbits, dummyHead, big,
                                                  b, es, start, l, lcn);
    if count % 2 != 0 {
      ghost var last := lcn + count - 1;
      input', out', addr', dummyHead' := ConvertPack(meta, input', out', 1, addr', 4, lclusterbits, true, dummyHead',
                                                     big, b, es, start, l, last);
      FewerPacks(meta[MAP_HEADER_SIZE..out'], l, b, big, es, start, LoSize(lclusterbits), last + 2, lcn + count);
    } else {
      AfterLast(meta[..], b, big, es, start, l, LoSize(lclusterbits), lcn + count, input', out', addr', dummyHead');
    }
  }

  /** How many entries go to the leading 4-byte packs, to the 2-byte packs and to the trailing 4-byte packs. */
  method SplitEntries(totalidx: nat, twoByte: bool, mpos: nat) returns (initial: nat, twos: nat, ends: nat)
    requires mpos % 8 == 0
    ensures Layout(initial, twos) == LayoutOf(twoByte, mpos, totalidx)
    ensures initial + twos + ends == totalidx && initial % 2 == 0 && twos % 16 == 0
    ensures !twoByte ==> twos == 0
  {
    initial, twos, ends := 0, 0, totalidx;
    if twoByte {
      initial := (32 - mpos % 32) / 4;
      if initial == 8 {
        initial := 0;
      }
      if initial > totalidx {
        initial := 0;
      } else {
        twos := (totalidx - initial) / 16 * 16;
        ends := totalidx - initial - twos;
      }
    }
  }

  /**
   * `z_erofs_convert_to_compacted_format`: the full indexes in `meta` are replaced, in place,
   * by packs from which every index can be read back.
   */
  method Convert(meta: array<byte>, blkaddr: nat, legacymetasize: nat, lclusterbits: nat, blkszbits: nat,
                 twoByte: bool, mpos: nat, big: bool, ghost es: seq<Extent>)
    returns (err: nat, extentIsize: nat)
    requires mpos % 8 == 0 && blkaddr < U32_LIMIT
    requires legacymetasize == meta.Length == LEGACY_HEADER_SIZE + 8 * IndexCount(Pow2(lclusterbits), es)
    requires |es| > 0 && Compactable(Pow2(lclusterbits), big, es, blkaddr)
    requires Unread(meta[..], Pow2(lclusterbits), big, es, 0)
    modifies meta
    ensures err == (if lclusterbits < blkszbits then EINVAL
                    else if lclusterbits > 14 then EOPNOTSUPP
                    else if twoByte && lclusterbits > 12 then EINVAL
                    else 0)
    ensures err != 0 ==> meta[..] == old(meta[..])
    ensures meta[..MAP_HEADER_SIZE] == old(meta[..MAP_HEADER_SIZE])
    ensures err == 0 ==> var n := IndexCount(Pow2(lclusterbits), es);
      var l := LayoutOf(twoByte, mpos, n);
      && extentIsize == MAP_HEADER_SIZE + CompactSize(l, n) <= meta.Length
      && PacksHold(meta[MAP_HEADER_SIZE..extentIsize], l, Pow2(lclusterbits), big, es, blkaddr,
                   LoSize(lclusterbits), n)
  {
    hide Pow2, Unread, Compactable, IndexCount, PacksHold, LoSize, LayoutOf, CompactSize;
    err, extentIsize := 0, 0;
    if lclusterbits < blkszbits {
      return EINVAL, 0;
    }
    if lclusterbits > 14 {
      return EOPNOTSUPP, 0;
    }
    BlockFitsLow(lclusterbits);
    var totalidx := (legacymetasize - LEGACY_HEADER_SIZE) / 8;
    if twoByte && lclusterbits > 12 {
      return EINVAL, 0;
    }
    extentIsize := Repack(meta, blkaddr, totalidx, lclusterbits, twoByte, mpos, big, Pow2(lclusterbits), es);
  }

  /** The three conversion loops. */
  method Repack(meta: array<byte>, blkaddr: nat, totalidx: nat, lclusterbits: nat, twoByte: bool, mpos: nat, big: bool,
                ghost b: nat, ghost es: seq<Extent>)
    returns (extentIsize: nat)
    requires mpos % 8 == 0 && blkaddr < U32_LIMIT && lclusterbits <= 14 && (twoByte ==> lclusterbits <= 12)
    requires 0 < b <= LoSize(lclusterbits) && |es| > 0 && Compactable(b, big, es, blkaddr)
    requires totalidx == IndexCount(b, es) && meta.Length == LEGACY_HEADER_SIZE + 8 * totalidx
    requires Unread(meta[..], b, big, es, 0)
    modifies meta
    ensures meta[..MAP_HEADER_SIZE] == old(meta[..MAP_HEADER_SIZE])
    ensures var l := LayoutOf(twoByte, mpos, totalidx);
      && extentIsize == MAP_HEADER_SIZE + CompactSize(l, totalidx) <= meta.Length
      && PacksHold(meta[MAP_HEADER_SIZE..extentIsize], l, b, big, es, blkaddr, LoSize(lclusterbits), totalidx)
  {
    hide Unread, Compactable, IndexCount, PacksHold, LoSize, Between, EntryPos, LayoutOf, EntrySize, CompactSize;
    ghost var l := LayoutOf(twoByte, mpos, totalidx);
    var initial, twos, ends := SplitEntries(totalidx, twoByte, mpos);
    var input, out, addr, dummyHead := RepackFirst(meta, blkaddr, initial, twos, lclusterbits, big, b, es, l);
    extentIsize := ConvertEnd(meta, input, out, ends, addr, lclusterbits, dummyHead, big,
                              b, es, blkaddr, l, initial + twos);
  }

  lemma EvenRuns(l: Layout)
    requires LayoutOk(l)
    ensures l.init4b % 2 == 0 && l.mid2b % 2 == 0
  {
    DivModUnique(l.mid2b, 2, 8 * (l.mid2b / 16), 0);
  }

  /** The leading 4-byte packs and the 2-byte packs. */
  method RepackFirst(meta: array<byte>, blkaddr: nat, initial: nat, twos: nat, lclusterbits: nat, big: bool,
                     ghost b: nat, ghost es: seq<Extent>, ghost l: Layout)
    returns (input: nat, out: nat, addr: nat, dummyHead: bool)
    requires blkaddr < U32_LIMIT && lclusterbits <= 14 && (twos > 0 ==> lclusterbits <= 12)
    requires l == Layout(initial, twos) && LayoutOk(l)
    requires 0 < b <= LoSize(lclusterbits) && |es| > 0 && Compactable(b, big, es, blkaddr)
    requires initial + twos <= IndexCount(b, es) && meta.Length == LEGACY_HEADER_SIZE + 8 * IndexCount(b, es)
    requires Unread(meta[..], b, big, es, 0)
    modifies meta
    ensures meta[..MAP_HEADER_SIZE] == old(meta[..MAP_HEADER_SIZE])
    ensures Between(meta[..], b, big, es, blkaddr, l, LoSize(lclusterbits), initial + twos, input, out, addr, dummyHead)
  {
    hide Unread, Compactable, IndexCount, LoSize, Between;
    EvenRuns(l);
    hide LayoutOk;
    input, out := LEGACY_HEADER_SIZE, MAP_HEADER_SIZE;
    addr, dummyHead := blkaddr, false;
    if !big {
      addr, dummyHead := (addr + U32_LIMIT - 1) % U32_LIMIT, true;
    }
    BeforeFirst(meta[..], b, big, es, blkaddr, l, LoSize(lclusterbits), addr, dummyHead);
    input, out, addr, dummyHead := ConvertRun(meta, input, out, initial, addr, 4, lclusterbits, dummyHead, big,
                                              b, es, blkaddr, l, 0);
    if twos > 0 {
      input, out, addr, dummyHead := ConvertRun(meta, input, out, twos, addr, 2, lclusterbits, dummyHead, big,
                                                b, es, blkaddr, l, initial);
    }
  }

  lemma BlockFitsLow(lclusterbits: nat)
    ensures lclusterbits <= 14 ==> Pow2(lclusterbits) <= LoSize(lclusterbits)
  {
    if lclusterbits <= 12 {
      Pow2Monotone(lclusterbits, 12);
      assert Pow2(12) == 4096 by { assert Pow2(6) == 64; Pow2Add(6, 6); }
    } else if lclusterbits <= 14 {
      assert Pow2(12) == 4096 by { assert Pow2(6) == 64; Pow2Add(6, 6); }
      assert Pow2(13) == 2 * Pow2(12) && Pow2(14) == 2 * Pow2(13);
    }
  }

  lemma BeforeFirst(meta: seq<byte>, b: nat, big: bool, es: seq<Extent>, start: nat, l: Layout, lo: nat,
                    addr: nat, dummyHead: bool)
    requires b > 0 && |es| > 0 && start < U32_LIMIT && Unread(meta, b, big, es, 0)
    requires (addr, dummyHead) == (if big then (start, false) else ((start + U32_LIMIT - 1) % U32_LIMIT, true))
    requires LayoutOk(l)
    ensures Between(meta, b, big, es, start, l, lo, 0, LEGACY_HEADER_SIZE, MAP_HEADER_SIZE, addr, dummyHead)
  {
  }

  lemma AfterLast(meta: seq<byte>, b: nat, big: bool, es: seq<Extent>, start: nat, l: Layout, lo: nat,
                  lcn: nat, input: nat, out: nat, addr: nat, dummyHead: bool)
    requires b > 0 && |es| > 0 && Between(meta, b, big, es, start, l, lo, lcn, input, out, addr, dummyHead)
    ensures out == MAP_HEADER_SIZE + EntryPos(l, lcn) <= |meta|
    ensures PacksHold(meta[MAP_HEADER_SIZE..out], l, b, big, es, start, lo, lcn)
  {
  }

  lemma FewerPacks(q: seq<byte>, l: Layout, b: nat, big: bool, es: seq<Extent>, start: nat, lo: nat, m: nat, n: nat)
    requires b > 0 && |es| > 0 && n <= m && PacksHold(q, l, b, big, es, start, lo, m)
    ensures PacksHold(q, l, b, big, es, start, lo, n)
  {
  }
}
