/**
 * The logical extents of a compressed file and the logical clusters they fall into.
 *
 * Logical clusters have the size of a filesystem block. `Pos(es, k)` is the file offset
 * at which extent `k` starts; everything else is derived from these absolute offsets.
 */
module Extents {
  import opened Arithmetic

  /** `struct z_erofs_inmem_extent`, without the inline and fragment kinds. */
  datatype Extent = Extent(length: nat, raw: bool, partial: bool, blkaddr: nat, compressedblks: nat)

  function Pos(es: seq<Extent>, k: nat): nat
    requires k <= |es|
  {
    if k == 0 then 0 else Pos(es, k - 1) + es[k - 1].length
  }

  function FileSize(es: seq<Extent>): nat {
    Pos(es, |es|)
  }

  /** Number of logical clusters of the file: `BLK_ROUND_UP(i_size)`. */
  function IndexCount(b: nat, es: seq<Extent>): nat
    requires b > 0
  {
    BlkRoundUp(FileSize(es), b)
  }

  /** Number of logical cluster boundaries that extent `k` reaches. */
  function Span(b: nat, es: seq<Extent>, k: nat): int
    requires b > 0 && k < |es|
  {
    BlkNr(Pos(es, k + 1), b) - BlkNr(Pos(es, k), b)
  }

  /**
   * What the writer needs of an extent that starts at offset `ofs` of its logical cluster.
   * An extent must reach the next cluster unless it is a raw tail, and a compressed extent
   * of several blocks must own the cluster after its head, where its block count is kept.
   */
  predicate ExtentOk(b: nat, big: bool, ofs: nat, e: Extent, last: bool) {
    && 0 < e.length
    && ofs + e.length < 0x1_0000_0000
    && e.blkaddr < 0x1_0000_0000
    && 1 <= e.compressedblks < 2048
    && (!big ==> e.compressedblks == 1)
    && (!last ==> ofs + e.length >= b)
    && (if e.raw then
          e.length <= b && e.compressedblks == 1 && !e.partial
        else
          || ofs + e.length >= 2 * b
          || (e.compressedblks == 1 && (if last then ofs + e.length > b else ofs + e.length >= b)))
  }

  predicate ExtentAt(b: nat, big: bool, es: seq<Extent>, k: nat)
    requires b > 0 && k < |es|
  {
    ExtentOk(b, big, BlkOff(Pos(es, k), b), es[k], k + 1 == |es|)
  }

  predicate Storable(b: nat, big: bool, es: seq<Extent>)
    requires b > 0
  {
    && |es| > 0
    && forall k :: 0 <= k < |es| ==> ExtentAt(b, big, es, k)
  }

  lemma StorableAt(b: nat, big: bool, es: seq<Extent>, k: nat)
    requires b > 0 && Storable(b, big, es) && k < |es|
    ensures ExtentOk(b, big, BlkOff(Pos(es, k), b), es[k], k + 1 == |es|)
  {
    assert ExtentAt(b, big, es, k);
  }

  /** An extent that saves at least one block, as mkfs demands before it keeps one, is storable. */
  lemma SavingExtentOk(b: nat, big: bool, ofs: nat, e: Extent, last: bool)
    requires b > 0 && !e.raw && 1 <= e.compressedblks < 2048
    requires e.length > e.compressedblks * b
    requires ofs + e.length < 0x1_0000_0000 && e.blkaddr < 0x1_0000_0000
    requires !big ==> e.compressedblks == 1
    ensures ExtentOk(b, big, ofs, e, last)
  {
    if e.compressedblks >= 2 {
      MulMonotone(2, e.compressedblks, b);
    }
  }

  lemma {:induction false} PosMonotone(es: seq<Extent>, j: nat, k: nat)
    requires j <= k <= |es|
    ensures Pos(es, j) <= Pos(es, k)
  {
    if j < k {
      PosMonotone(es, j, k - 1);
    }
  }

  /** The role of a logical cluster. */
  datatype Slot = HeadOf(k: nat) | Inside(k: nat) | Tail

  predicate SlotIs(b: nat, es: seq<Extent>, lcn: nat, slot: Slot)
    requires b > 0
  {
    match slot
    case HeadOf(k) => k < |es| && BlkNr(Pos(es, k), b) == lcn
    case Inside(k) => k < |es| && BlkNr(Pos(es, k), b) < lcn < BlkNr(Pos(es, k + 1), b)
    case Tail =>
      && |es| > 0 && BlkNr(FileSize(es), b) == lcn && BlkOff(FileSize(es), b) != 0
      && BlkNr(Pos(es, |es| - 1), b) < lcn
  }

  /** The role of `lcn`, searching backwards from extent `n`. */
  function FindSlot(b: nat, es: seq<Extent>, n: nat, lcn: nat): (slot: Slot)
    requires b > 0 && 0 < n <= |es|
    ensures lcn < BlkNr(Pos(es, n), b) ==> SlotIs(b, es, lcn, slot)
    ensures BlkNr(Pos(es, n - 1), b) == lcn ==> slot == HeadOf(n - 1)
    ensures BlkNr(Pos(es, n), b) <= lcn && BlkNr(Pos(es, n - 1), b) < lcn ==> slot == Tail
  {
    if BlkNr(Pos(es, n - 1), b) == lcn then HeadOf(n - 1)
    else if BlkNr(Pos(es, n - 1), b) < lcn then
      if lcn < BlkNr(Pos(es, n), b) then Inside(n - 1) else Tail
    else if n == 1 then Tail
    else FindSlot(b, es, n - 1, lcn)
  }

  /** The role of `lcn` in the whole file. */
  function SlotOf(b: nat, es: seq<Extent>, lcn: nat): (slot: Slot)
    requires b > 0 && |es| > 0
    ensures lcn < IndexCount(b, es) ==> SlotIs(b, es, lcn, slot)
  {
    BlkRoundUpIs(FileSize(es), b);
    BlkMonotone(Pos(es, |es| - 1), FileSize(es), b);
    FindSlot(b, es, |es|, lcn)
  }

  /** An extent that is not the last reaches the next cluster, so heads are strictly ordered. */
  lemma HeadsIncrease(b: nat, big: bool, es: seq<Extent>, j: nat, k: nat)
    requires b > 0 && Storable(b, big, es) && j < k < |es|
    ensures BlkNr(Pos(es, j), b) < BlkNr(Pos(es, k), b)
  {
    hide BlkNr, BlkOff, BlkPos, BlkRoundUp;
    assert ExtentAt(b, big, es, j);
    Advance(Pos(es, j), es[j].length, b);
    BlkFits(BlkOff(Pos(es, j), b) + es[j].length, b, 1);
    OrderedPos(b, es, j + 1, k);
  }

  lemma OrderedPos(b: nat, es: seq<Extent>, j: nat, k: nat)
    requires b > 0 && j <= k <= |es|
    ensures BlkNr(Pos(es, j), b) <= BlkNr(Pos(es, k), b)
  {
    hide BlkNr, BlkOff, BlkPos, BlkRoundUp;
    PosMonotone(es, j, k);
    BlkMonotone(Pos(es, j), Pos(es, k), b);
  }

  /** Each logical cluster has one role. */
  lemma RoleUnique(b: nat, big: bool, es: seq<Extent>, lcn: nat, s: Slot, t: Slot)
    requires b > 0 && Storable(b, big, es)
    requires SlotIs(b, es, lcn, s) && SlotIs(b, es, lcn, t)
    ensures s == t
  {
    hide BlkNr, BlkOff, BlkPos, BlkRoundUp;
    match (s, t)
    case (HeadOf(j), HeadOf(k)) =>
      if j < k { HeadsIncrease(b, big, es, j, k); } else if k < j { HeadsIncrease(b, big, es, k, j); }
    case (HeadOf(j), Inside(k)) => HeadNotInside(b, es, lcn, j, k);
    case (Inside(k), HeadOf(j)) => HeadNotInside(b, es, lcn, j, k);
    case (Inside(j), Inside(k)) =>
      if j < k { OrderedPos(b, es, j + 1, k); } else if k < j { OrderedPos(b, es, k + 1, j); }
    case (Tail, Tail) =>
    case (Tail, HeadOf(k)) => OrderedPos(b, es, k, |es| - 1);
    case (HeadOf(k), Tail) => OrderedPos(b, es, k, |es| - 1);
    case (Tail, Inside(k)) => OrderedPos(b, es, k + 1, |es|);
    case (Inside(k), Tail) => OrderedPos(b, es, k + 1, |es|);
  }

  lemma HeadNotInside(b: nat, es: seq<Extent>, lcn: nat, j: nat, k: nat)
    requires b > 0 && SlotIs(b, es, lcn, HeadOf(j))
    ensures !SlotIs(b, es, lcn, Inside(k))
  {
    hide BlkNr, BlkOff, BlkPos, BlkRoundUp;
    if k < |es| {
      if j <= k { OrderedPos(b, es, j, k); } else { OrderedPos(b, es, k + 1, j); }
    }
  }

  /** The role found by `SlotOf` is the one any reasoning about positions finds. */
  lemma SlotUnique(b: nat, big: bool, es: seq<Extent>, lcn: nat, slot: Slot)
    requires b > 0 && Storable(b, big, es)
    requires lcn < IndexCount(b, es) && SlotIs(b, es, lcn, slot)
    ensures SlotOf(b, es, lcn) == slot
  {
    hide BlkNr, BlkOff, BlkPos, BlkRoundUp;
    RoleUnique(b, big, es, lcn, SlotOf(b, es, lcn), slot);
  }

  /** The clusters of extent `k`, counted from its head, have the roles one expects. */
  lemma OwnSlot(b: nat, big: bool, es: seq<Extent>, k: nat, d0: nat)
    requires b > 0 && Storable(b, big, es) && k < |es|
    requires d0 < Max(1, Span(b, es, k)) && BlkNr(Pos(es, k), b) + d0 < IndexCount(b, es)
    ensures 0 <= Span(b, es, k)
    ensures SlotOf(b, es, BlkNr(Pos(es, k), b) + d0) == (if d0 == 0 then HeadOf(k) else Inside(k))
  {
    hide BlkNr, BlkOff, BlkRoundUp, Storable, SlotOf, Pos;
    OrderedPos(b, es, k, k + 1);
    SlotUnique(b, big, es, BlkNr(Pos(es, k), b) + d0, if d0 == 0 then HeadOf(k) else Inside(k));
  }
}
