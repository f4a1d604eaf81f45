/** Length and distance slots: the tables of `lib/kite_deflate.c` and section 3.2.5 of RFC 1951. */
module Slots {
  import opened Arithmetic

  const LEN_SLOTS := 29
  const DIST_SLOTS := 30
  const MATCH_MIN_LEN := 3
  const MATCH_MAX_LEN := 258

  /** `kLenStart32`, `kLenExtraBits32`, `kDistStart` and `kDistExtraBits` */
  const LEN_START: seq<nat> :=
    [0, 1, 2, 3, 4, 5, 6, 7, 8, 10, 12, 14, 16, 20, 24, 28, 32, 40, 48, 56, 64, 80, 96, 112, 128, 160, 192, 224, 255]
  const LEN_EXTRA: seq<nat> :=
    [0, 0, 0, 0, 0, 0, 0, 0, 1, 1, 1, 1, 2, 2, 2, 2, 3, 3, 3, 3, 4, 4, 4, 4, 5, 5, 5, 5, 0]
  const DIST_START: seq<nat> :=
    [0, 1, 2, 3, 4, 6, 8, 12, 16, 24, 32, 48, 64, 96, 128, 192, 256, 384, 512, 768,
     1024, 1536, 2048, 3072, 4096, 6144, 8192, 12288, 16384, 24576]
  const DIST_EXTRA: seq<nat> :=
    [0, 0, 0, 0, 1, 1, 2, 2, 3, 3, 4, 4, 5, 5, 6, 6, 7, 7, 8, 8, 9, 9, 10, 10, 11, 11, 12, 12, 13, 13]

  function LenStart(s: nat): nat
    requires s < LEN_SLOTS
  {
    LEN_START[s]
  }

  function LenExtra(s: nat): nat
    requires s < LEN_SLOTS
  {
    LEN_EXTRA[s]
  }

  function DistStart(s: nat): nat
    requires s < DIST_SLOTS
  {
    DIST_START[s]
  }

  function DistExtra(s: nat): nat
    requires s < DIST_SLOTS
  {
    DIST_EXTRA[s]
  }

  /** The extra bits and the first length of length code `257 + i`, as the standard's table has them. */
  function LengthExtra(i: nat): nat {
    if i < 8 || i >= 28 then 0 else (i - 4) / 4
  }

  function LengthBase(i: nat): nat {
    if i < 8 then 3 + i else if i >= 28 then 258 else 3 + (4 + i % 4) * Pow2((i - 4) / 4)
  }

  /** The same for distance code `i`. */
  function DistanceExtra(i: nat): nat {
    if i < 4 then 0 else (i - 2) / 2
  }

  function DistanceBase(i: nat): nat {
    if i < 4 then 1 + i else 1 + (2 + i % 2) * Pow2((i - 2) / 2)
  }

  lemma SmallPowers()
    ensures Pow2(0) == 1 && Pow2(1) == 2 && Pow2(2) == 4 && Pow2(3) == 8 && Pow2(4) == 16 && Pow2(5) == 32
    ensures Pow2(6) == 64 && Pow2(7) == 128 && Pow2(8) == 256 && Pow2(9) == 512 && Pow2(10) == 1024
    ensures Pow2(11) == 2048 && Pow2(12) == 4096 && Pow2(13) == 8192
  {
    assert Pow2(3) == 8;
    assert Pow2(6) == 64;
    assert Pow2(9) == 512;
    assert Pow2(12) == 4096;
  }

  /** The encoder's length table is the standard's. */
  lemma LengthTable(i: nat)
    requires i < LEN_SLOTS
    ensures LenStart(i) + MATCH_MIN_LEN == LengthBase(i) && LenExtra(i) == LengthExtra(i)
  {
    SmallPowers();
    hide Pow2;
    if i < 8 { } else if i < 12 { } else if i < 16 { } else if i < 20 { } else if i < 24 { } else { }
  }

  /** The encoder's distance table is the standard's. */
  lemma DistanceTable(i: nat)
    requires i < DIST_SLOTS
    ensures DistStart(i) + 1 == DistanceBase(i) && DistExtra(i) == DistanceExtra(i)
  {
    SmallPowers();
    hide Pow2;
    if i < 8 { } else if i < 14 { } else if i < 20 { } else if i < 26 { } else { }
  }

  /** `s` is the slot of `lc`, a match length less 3; the longest length has a slot of its own. */
  predicate IsLenSlot(lc: nat, s: nat) {
    && s < LEN_SLOTS && LenStart(s) <= lc < LenStart(s) + Pow2(LenExtra(s)) && (s == 28 <==> lc == 255)
  }

  /** `s` is the slot of `pos`, a distance less 1. */
  predicate IsDistSlot(pos: nat, s: nat) {
    s < DIST_SLOTS && DistStart(s) <= pos < DistStart(s) + Pow2(DistExtra(s))
  }

  lemma LenSlotsAdjoin(i: nat)
    requires i < LEN_SLOTS
    ensures LenStart(i) + Pow2(LenExtra(i)) == (if i < 27 then LenStart(i + 1) else 256)
    ensures i < 27 ==> LenStart(i) < 224
  {
    SmallPowers();
    hide Pow2;
  }

  lemma DistSlotsAdjoin(i: nat)
    requires i < DIST_SLOTS
    ensures DistStart(i) + Pow2(DistExtra(i)) == (if i < 29 then DistStart(i + 1) else 32768)
    ensures i < 18 ==> DistStart(i) + Pow2(DistExtra(i)) <= 512
  {
    SmallPowers();
    hide Pow2;
  }

  /** The slot of a length, counted up from slot `s`. */
  function LenSlotFrom(lc: nat, s: nat): (r: nat)
    requires s < 28 && LenStart(s) <= lc < 255
    ensures IsLenSlot(lc, r)
    decreases 28 - s
  {
    LenSlotsAdjoin(s);
    if lc < LenStart(s) + Pow2(LenExtra(s)) then s else LenSlotFrom(lc, s + 1)
  }

  function LenSlot(lc: nat): (s: nat)
    requires lc < 256
    ensures IsLenSlot(lc, s)
  {
    LongestSlot();
    if lc == 255 then 28 else LenSlotFrom(lc, 0)
  }

  lemma LongestSlot()
    ensures IsLenSlot(255, 28) && LenStart(0) == 0
  {
  }

  /** The slot of a distance, counted up from slot `s`. */
  function DistSlotFrom(pos: nat, s: nat): (r: nat)
    requires s < DIST_SLOTS && DistStart(s) <= pos < 32768
    ensures IsDistSlot(pos, r)
    decreases DIST_SLOTS - s
  {
    DistSlotsAdjoin(s);
    if pos < DistStart(s) + Pow2(DistExtra(s)) then s else DistSlotFrom(pos, s + 1)
  }

  function DistSlot(pos: nat): (s: nat)
    requires pos < 32768
    ensures IsDistSlot(pos, s)
  {
    DistSlotFrom(pos, 0)
  }

  lemma {:induction false} LenStartsGrow(i: nat, j: nat)
    requires i < j < LEN_SLOTS
    ensures LenStart(i) < LenStart(j) && (j < 28 ==> LenStart(i) + Pow2(LenExtra(i)) <= LenStart(j))
  {
    hide LenStart, LenExtra, Pow2;
    LenSlotsAdjoin(j - 1);
    if j == 28 {
      LastStart();
      if i < 27 { LenStartsGrow(i, 27); }
    } else if i + 1 < j {
      LenStartsGrow(i, j - 1);
    }
  }

  lemma LastStart()
    ensures LenStart(28) == 255 && LenStart(27) == 224
  {
  }

  lemma {:induction false} DistStartsGrow(i: nat, j: nat)
    requires i < j < DIST_SLOTS
    ensures DistStart(i) + Pow2(DistExtra(i)) <= DistStart(j)
  {
    hide DistStart, DistExtra, Pow2;
    DistSlotsAdjoin(j - 1);
    if i + 1 < j {
      DistStartsGrow(i, j - 1);
    }
  }

  /** A length or a distance has only one slot. */
  lemma SlotsUnique(lc: nat, s: nat, pos: nat, d: nat)
    ensures IsLenSlot(lc, s) && lc < 256 ==> s == LenSlot(lc)
    ensures IsDistSlot(pos, d) && pos < 32768 ==> d == DistSlot(pos)
  {
    hide LenStart, LenExtra, DistStart, DistExtra, LenSlot, DistSlot, Pow2;
    if IsLenSlot(lc, s) && lc < 256 {
      var t := LenSlot(lc);
      if s < t { LenStartsGrow(s, t); } else if t < s { LenStartsGrow(t, s); }
    }
    if IsDistSlot(pos, d) && pos < 32768 {
      var e := DistSlot(pos);
      if d < e { DistStartsGrow(d, e); } else if e < d { DistStartsGrow(e, d); }
    }
  }

  /** `g_LenSlots`: every length finds its slot. */
  predicate LenSlotsOk(slots: seq<nat>) {
    |slots| == 256 && forall lc :: 0 <= lc < 256 ==> IsLenSlot(lc, slots[lc])
  }

  /** `g_FastPos`: every short distance finds its slot. */
  predicate FastPosOk(fast: seq<nat>) {
    |fast| == 512 && forall pos :: 0 <= pos < 512 ==> IsDistSlot(pos, fast[pos])
  }

  /** The loop of `kite_deflate_init_once` that fills `g_LenSlots`; the last slot overwrites one entry. */
  method InitLenSlots() returns (slots: seq<nat>)
    ensures LenSlotsOk(slots)
  {
    hide Pow2;
    var table := new nat[256];
    for i := 0 to LEN_SLOTS
      invariant forall c :: 0 <= c < (if i < 28 then LenStart(i) else 255) ==> IsLenSlot(c, table[c])
      invariant i == 28 ==> forall c :: 0 <= c < 255 ==> IsLenSlot(c, table[c])
      invariant i == 29 ==> forall c :: 0 <= c < 256 ==> IsLenSlot(c, table[c])
    {
      LenSlotsAdjoin(i);
      if i < 28 {
        LenSlotsAdjoin(i + 1);
      }
      var c, j := LenStart(i), Pow2(LenExtra(i));
      for k := 0 to j
        invariant c == LenStart(i) + k
        invariant forall d :: 0 <= d < (if i < 28 then LenStart(i) else 255) ==> IsLenSlot(d, table[d])
        invariant forall d :: LenStart(i) <= d < c && (d == 255 ==> i == 28) ==> IsLenSlot(d, table[d])
      {
        table[c] := i;
        c := c + 1;
      }
    }
    slots := table[..];
  }

  /** The loop that fills `g_FastPos`. */
  method InitFastPos() returns (fast: seq<nat>)
    ensures FastPosOk(fast)
  {
    hide Pow2;
    var table := new nat[512];
    var c := 0;
    for i := 0 to 18
      invariant c == DistStart(i) <= 512
      invariant forall d :: 0 <= d < c ==> IsDistSlot(d, table[d])
    {
      DistSlotsAdjoin(i);
      var k := Pow2(DistExtra(i));
      for j := 0 to k
        invariant c == DistStart(i) + j
        invariant forall d :: 0 <= d < c ==> IsDistSlot(d, table[d])
      {
        table[c] := i;
        c := c + 1;
      }
    }
    fast := table[..];
  }

  /** `(kNumLogBits - 1) & ((((1U << kNumLogBits) - 1) - pos) >> (31 - 3))`, which wraps round for far distances. */
  function FarShift(pos: nat): nat {
    8 * ((511 - pos) % 0x1_0000_0000 / 0x1000_0000 / 8 % 2)
  }

  /** `deflateDistSlot`, with its 32-bit wrap-around */
  function FastDistSlot(fast: seq<nat>, pos: nat): nat
    requires |fast| == 512 && pos < 32768
  {
    var zz := FarShift(pos);
    if zz == 0 then (if pos < 512 then fast[pos] else 0) else fast[pos / 256] + zz * 2
  }

  /** Every distance in the window finds its slot. */
  lemma DistSlotFound(fast: seq<nat>, pos: nat)
    requires FastPosOk(fast) && pos < 32768
    ensures IsDistSlot(pos, FastDistSlot(fast, pos))
  {
    hide FarShift, IsDistSlot;
    WrapShift(pos);
    if pos >= 512 {
      var q := pos / 256;
      assert 2 <= q < 128;
      FarSlot(q, fast[q], pos);
    }
  }

  lemma WrapShift(pos: nat)
    requires pos < 32768
    ensures FarShift(pos) == (if pos < 512 then 0 else 8)
  {
    if pos < 512 {
      DivModUnique(511 - pos, 0x1_0000_0000, 0, 511 - pos);
      DivModUnique(511 - pos, 0x1000_0000, 0, 511 - pos);
    } else {
      var x := 511 - pos + 0x1_0000_0000;
      DivModUnique(511 - pos, 0x1_0000_0000, -1, x);
      DivModUnique(x, 0x1000_0000, 15, x - 15 * 0x1000_0000);
    }
  }

  /** Slots of far distances are those of their high parts, 16 slots up. */
  lemma FarSlot(q: nat, s: nat, pos: nat)
    requires IsDistSlot(q, s) && 2 <= q < 128 && q == pos / 256
    ensures IsDistSlot(pos, s + 16)
  {
    SmallPowers();
    hide Pow2;
    assert s < 14;
    assert pos == 256 * q + pos % 256;
    assert 2 <= s;
    assert DistStart(s + 16) == 256 * DistStart(s);
    assert Pow2(DistExtra(s + 16)) == 256 * Pow2(DistExtra(s)) by { Pow2Add(8, DistExtra(s)); assert DistExtra(s + 16) == 8 + DistExtra(s); }
  }
}
