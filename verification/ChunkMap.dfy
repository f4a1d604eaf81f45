/**
 * Chunk indexes and the merging of chunks (`lib/blobchunk.c`), against the chunk lookup of
 * `lib/data.c`. Block sizes are `Pow2(s)`, chunks of `Pow2(k)` blocks.
 */
module ChunkMap {
  import opened Arithmetic
  import opened Options

  /** `EROFS_NULL_ADDR` */
  const NULL_ADDR := 0xffff_ffff

  /** `struct erofs_blobchunk` */
  datatype Chunk = Chunk(dev: nat, addr: nat, size: nat)

  /** `erofs_holechunk` */
  const HOLE := Chunk(0, NULL_ADDR, 0)

  /** A hole, or `size` bytes of data whose blocks all have an address. */
  predicate ChunkOk(c: Chunk, size: nat, k: nat, s: nat) {
    c == HOLE || (c.size == size && size <= Pow2(s + k) && c.addr + Pow2(k) < NULL_ADDR)
  }

  /** All chunks but the last are full. */
  ghost predicate ChunksOk(chunks: seq<Chunk>, k: nat, s: nat) {
    forall i :: 0 <= i < |chunks| ==>
                  ChunkOk(chunks[i], if i < |chunks| - 1 then Pow2(s + k) else chunks[i].size, k, s)
  }

  /** The device and the address of a block of the file, if it is no hole. */
  function Resolve(c: Chunk, off: nat): Option<(nat, nat)> {
    if c.addr == NULL_ADDR then None else Some((c.dev, c.addr + off))
  }

  /** What a file whose chunks have `Pow2(k)` blocks holds in block `n`. */
  function Lookup(chunks: seq<Chunk>, k: nat, n: nat): Option<(nat, nat)>
    requires BlkNr(n, Pow2(k)) < |chunks|
  {
    Resolve(chunks[BlkNr(n, Pow2(k))], BlkOff(n, Pow2(k)))
  }

  // ----- merging -----------------------------------------------------------------------

  /** `erofs_blob_can_merge`, for two chunks. */
  predicate CanMerge(last: Chunk, c: Chunk, s: nat) {
    || (last == HOLE && c == HOLE)
    || (last.dev == c.dev && BlkPos(last.addr, Pow2(s)) + last.size == BlkPos(c.addr, Pow2(s)))
  }

  /** An interval of mergeable chunks ends before chunk `t`. */
  predicate Break(chunks: seq<Chunk>, t: nat, s: nat) {
    0 < t < |chunks| && !CanMerge(chunks[t - 1], chunks[t], s)
  }

  /** The first of every `w` chunks. */
  function Merged(chunks: seq<Chunk>, w: nat): (r: seq<Chunk>)
    requires w > 0
    ensures |r| == BlkRoundUp(|chunks|, w)
    ensures forall i :: 0 <= i < |r| ==> BlkPos(i, w) < |chunks| && r[i] == chunks[BlkPos(i, w)]
  {
    hide BlkRoundUp, BlkPos;
    BelowRoundUp(|chunks|, w);
    seq(BlkRoundUp(|chunks|, w), i requires 0 <= i < BlkRoundUp(|chunks|, w) && BlkPos(i, w) < |chunks| => chunks[BlkPos(i, w)])
  }

  lemma BelowRoundUp(n: nat, b: nat)
    requires b > 0
    ensures forall i: nat :: i < BlkRoundUp(n, b) <==> BlkPos(i, b) < n
  {
    forall i: nat
      ensures i < BlkRoundUp(n, b) <==> BlkPos(i, b) < n
    {
      BlkRoundUpIs(n, b);
      BlkSplit(n, b);
      if i <= BlkNr(n, b) {
        BlkPosMonotone(i, BlkNr(n, b), b);
        if i < BlkNr(n, b) { BlkPosNext(i, b); BlkPosMonotone(i + 1, BlkNr(n, b), b); }
      } else {
        BlkPosNext(BlkNr(n, b), b);
        BlkPosMonotone(BlkNr(n, b) + 1, i, b);
      }
    }
  }

  lemma PosInjective(x: nat, y: nat, b: nat)
    requires b > 0 && BlkPos(x, b) == BlkPos(y, b)
    ensures x == y
  {
    if x < y {
      MulMonotone(x + 1, y, b);
    } else if y < x {
      MulMonotone(y + 1, x, b);
    }
  }

  lemma NextInRun(x: Chunk, y: Chunk, k: nat, s: nat)
    requires ChunkOk(x, Pow2(s + k), k, s) && ChunkOk(y, y.size, k, s) && CanMerge(x, y, s)
    ensures if x == HOLE then y == HOLE else y != HOLE && y.dev == x.dev && y.addr == x.addr + Pow2(k)
  {
    var b, p := Pow2(s), Pow2(k);
    Pow2Add(s, k);
    hide Pow2, BlkPos;
    if x == HOLE {
      if y != HOLE { PosInjective(y.addr, NULL_ADDR, b); }
    } else {
      BlkPosAdd(x.addr, p, b);
      assert b * p == BlkPos(p, b) by { TimesPos(p, b); }
      PosInjective(y.addr, x.addr + p, b);
    }
  }

  lemma TimesPos(p: nat, b: nat)
    ensures b * p == BlkPos(p, b)
  {
  }

  /** Within an interval all chunks are holes or one follows the other. */
  lemma {:induction false} SameRun(chunks: seq<Chunk>, i: nat, j: nat, k: nat, s: nat)
    requires ChunksOk(chunks, k, s) && i <= j < |chunks|
    requires forall t: nat :: i < t <= j ==> !Break(chunks, t, s)
    ensures chunks[i] == HOLE ==> chunks[j] == HOLE
    ensures chunks[i] != HOLE ==>
              chunks[j] != HOLE && chunks[j].dev == chunks[i].dev && chunks[j].addr == chunks[i].addr + BlkPos(j - i, Pow2(k))
    decreases j
  {
    hide Pow2, BlkPos, CanMerge;
    BlkPosNext(0, Pow2(k));
    if i < j {
      SameRun(chunks, i, j - 1, k, s);
      assert !Break(chunks, j, s);
      assert ChunkOk(chunks[j - 1], Pow2(s + k), k, s) && ChunkOk(chunks[j], chunks[j].size, k, s);
      NextInRun(chunks[j - 1], chunks[j], k, s);
      BlkPosNext(j - 1 - i, Pow2(k));
    }
  }

  /** Chunks of `w` chunks of `p` blocks. */
  lemma TwoLevels(n: nat, p: nat, w: nat)
    requires p > 0 && w > 0
    ensures p * w > 0 && BlkNr(n, p * w) == BlkNr(BlkNr(n, p), w)
    ensures BlkOff(n, p * w) == BlkPos(BlkOff(BlkNr(n, p), w), p) + BlkOff(n, p)
  {
    var j, o := n / p, n % p;
    var d, r := j / w, j % w;
    assert n == j * p + o && j == d * w + r;
    assert j * p == d * (p * w) + r * p;
    MulMonotone(r + 1, w, p);
    assert (r + 1) * p == r * p + p;
    DivModUnique(n, p * w, d, r * p + o);
  }

  /** If intervals begin at multiples of the new chunk size only, merging keeps what every block holds. */
  lemma MergeKeepsMap(chunks: seq<Chunk>, k: nat, g: nat, s: nat, n: nat)
    requires ChunksOk(chunks, k, s) && BlkNr(n, Pow2(k)) < |chunks|
    requires forall t: nat :: Break(chunks, t, s) ==> BlkOff(t, Pow2(g)) == 0
    ensures BlkNr(n, Pow2(k + g)) < |Merged(chunks, Pow2(g))|
    ensures Lookup(Merged(chunks, Pow2(g)), k + g, n) == Lookup(chunks, k, n)
  {
    hide Pow2, BlkPos, BlkNr, BlkOff, BlkRoundUp, Break, ChunksOk;
    var p, w := Pow2(k), Pow2(g);
    Pow2Add(k, g);
    TwoLevels(n, p, w);
    var j := BlkNr(n, p);
    var d, r := BlkNr(j, w), BlkOff(j, w);
    BlkSplit(j, w);
    BelowRoundUp(|chunks|, w);
    var i := BlkPos(d, w);
    forall t: nat | i < t <= j
      ensures !Break(chunks, t, s)
    {
      BlkUnique(t, w, d, t - i);
    }
    SameRun(chunks, i, j, k, s);
    DataIsMapped(chunks, i, k, s);
    DataIsMapped(chunks, j, k, s);
  }

  lemma DataIsMapped(chunks: seq<Chunk>, i: nat, k: nat, s: nat)
    requires ChunksOk(chunks, k, s) && i < |chunks|
    ensures chunks[i].addr == NULL_ADDR <==> chunks[i] == HOLE
  {
    assert ChunkOk(chunks[i], if i < |chunks| - 1 then Pow2(s + k) else chunks[i].size, k, s);
  }

  // ----- the largest chunk size --------------------------------------------------------

  /** `lowbit` */
  function LowBit(x: nat): nat {
    if x == 0 then 0 else if x % 2 == 1 then 1 else 2 * LowBit(x / 2)
  }

  /** `ilog2` */
  function ILog2(x: nat): nat {
    if x < 2 then 0 else 1 + ILog2(x / 2)
  }

  lemma {:induction false} LowBitIs(x: nat) returns (j: nat)
    requires x > 0
    ensures LowBit(x) == Pow2(j) <= x && x % Pow2(j) == 0
  {
    if x % 2 == 1 {
      j := 0;
      assert Pow2(0) == 1;
    } else {
      var i := LowBitIs(x / 2);
      j := i + 1;
      var p := Pow2(i);
      assert x / 2 == x / 2 / p * p;
      DivModUnique(x, 2 * p, x / 2 / p, 0);
    }
  }

  lemma {:induction false} ILog2Is(x: nat)
    requires x > 0
    ensures Pow2(ILog2(x)) <= x < 2 * Pow2(ILog2(x))
  {
    if x >= 2 {
      ILog2Is(x / 2);
    }
  }

  lemma Pow2Divides(p: nat, j: nat, x: nat)
    requires Pow2(p) <= Pow2(j) && x % Pow2(j) == 0
    ensures x % Pow2(p) == 0
  {
    if p > j {
      Pow2Monotone(j + 1, p);
    } else {
      Pow2Add(p, j - p);
      FactorDivides(x, Pow2(p), Pow2(j - p));
    }
  }

  lemma FactorDivides(x: nat, u: nat, v: nat)
    requires u > 0 && v > 0 && u * v > 0 && x % (u * v) == 0
    ensures x % u == 0
  {
    var q := x / (u * v);
    assert x == q * (u * v) == q * v * u;
    DivModUnique(x, u, q * v, 0);
  }

  lemma SumDivides(x: nat, y: nat, d: nat)
    requires d > 0 && BlkOff(x, d) == 0 && BlkOff(y, d) == 0
    ensures BlkOff(x + y, d) == 0
  {
    assert x + y == (x / d + y / d) * d;
    DivModUnique(x + y, d, x / d + y / d, 0);
  }

  /** Every interval that has begun before chunk `n` began at a multiple of every power of two up to `min`. */
  ghost predicate StartsOk(chunks: seq<Chunk>, n: nat, k: nat, s: nat, min: nat) {
    forall p: nat, t: nat :: Pow2(p) <= min && t < n && Break(chunks, t, s) ==> BlkOff(BlkPos(t, Pow2(k)), Pow2(p)) == 0
  }

  ghost predicate StartOk(start: nat, k: nat, min: nat) {
    forall p: nat :: Pow2(p) <= min ==> BlkOff(BlkPos(start, Pow2(k)), Pow2(p)) == 0
  }

  /** `erofs_update_minextblks`, with the length in blocks. */
  function NewMin(len: nat, min: nat): nat {
    var lb := LowBit(len) % 0x1_0000_0000;
    if lb > 0 && lb < min then lb else min
  }

  lemma NewMinIs(len: nat, min: nat)
    requires 0 < len < 0x1_0000_0000 && min > 0
    ensures 0 < NewMin(len, min) <= min
    ensures forall p: nat :: Pow2(p) <= NewMin(len, min) ==> BlkOff(len, Pow2(p)) == 0
  {
    var j := LowBitIs(len);
    DivModUnique(LowBit(len), 0x1_0000_0000, 0, LowBit(len));
    forall p: nat | Pow2(p) <= NewMin(len, min)
      ensures BlkOff(len, Pow2(p)) == 0
    {
      Pow2Divides(p, j, len);
    }
  }

  /** An interval ends: the next one begins at chunk `n`. */
  lemma IntervalEnds(chunks: seq<Chunk>, start: nat, n: nat, k: nat, s: nat, min: nat)
    requires start < n && min > 0 && StartsOk(chunks, n, k, s, min) && StartOk(start, k, min)
    requires BlkPos(n - start, Pow2(k)) < 0x1_0000_0000
    ensures var m := NewMin(BlkPos(n - start, Pow2(k)), min);
            0 < m <= min && StartsOk(chunks, n + 1, k, s, m) && StartOk(n, k, m)
  {
    hide Pow2, NewMin, BlkPos, BlkOff, StartsOk, StartOk, Break;
    var len := BlkPos(n - start, Pow2(k));
    BlkPosMonotone(1, n - start, Pow2(k));
    BlkPosNext(0, Pow2(k));
    BlkPosAdd(start, n - start, Pow2(k));
    NewMinIs(len, min);
    StartMoves(start, n, k, min, len, NewMin(len, min));
    StartsMove(chunks, n, k, s, min, NewMin(len, min));
  }

  lemma StartMoves(start: nat, n: nat, k: nat, min: nat, len: nat, m: nat)
    requires StartOk(start, k, min) && m <= min && BlkPos(n, Pow2(k)) == BlkPos(start, Pow2(k)) + len
    requires forall p: nat :: Pow2(p) <= m ==> BlkOff(len, Pow2(p)) == 0
    ensures StartOk(n, k, m)
  {
    hide Pow2, BlkPos, BlkOff;
    forall p: nat | Pow2(p) <= m
      ensures BlkOff(BlkPos(n, Pow2(k)), Pow2(p)) == 0
    {
      assert BlkOff(BlkPos(start, Pow2(k)), Pow2(p)) == 0;
      assert BlkOff(len, Pow2(p)) == 0;
      SumDivides(BlkPos(start, Pow2(k)), len, Pow2(p));
    }
  }

  lemma StartsMove(chunks: seq<Chunk>, n: nat, k: nat, s: nat, min: nat, m: nat)
    requires StartsOk(chunks, n, k, s, min) && StartOk(n, k, m) && m <= min
    ensures StartsOk(chunks, n + 1, k, s, m)
  {
    hide Pow2, BlkPos, BlkOff, Break;
  }

  lemma CancelDivides(t: nat, p: nat, w: nat)
    requires p > 0 && w > 0 && p * w > 0 && BlkOff(BlkPos(t, p), p * w) == 0
    ensures BlkOff(t, w) == 0
  {
    var q := t * p / (p * w);
    assert t * p == q * (p * w) == q * w * p;
    PosInjective(t, q * w, p);
    DivModUnique(t, w, q, 0);
  }

  /** Intervals begin at multiples of every chunk size up to the bound. */
  lemma MinGivesBits(chunks: seq<Chunk>, k: nat, s: nat, min: nat, bits: nat)
    requires min > 0 && StartsOk(chunks, |chunks|, k, s, min) && k <= bits <= ILog2(min)
    ensures forall t: nat :: Break(chunks, t, s) ==> BlkOff(t, Pow2(bits - k)) == 0
  {
    ILog2Is(min);
    Pow2Monotone(bits, ILog2(min));
    Pow2Add(k, bits - k);
    hide Pow2, BlkPos, BlkOff, ILog2;
    forall t: nat | Break(chunks, t, s)
      ensures BlkOff(t, Pow2(bits - k)) == 0
    {
      CancelDivides(t, Pow2(k), Pow2(bits - k));
    }
  }
}
