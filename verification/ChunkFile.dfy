/** Writing the chunk indexes of a file (`lib/blobchunk.c`) and reading them back (`lib/data.c`). */
module ChunkFile {
  import opened Arithmetic
  import opened Bytes
  import opened ChunkMap
  import opened Options

  /** What `lseek` and `erofs_blob_getchunk` say of a chunk: it is skipped, or its data is in that chunk. */
  datatype Cell = Sparse | Data(chunk: Chunk)

  function ChunkOf(c: Cell): Chunk {
    if c.Sparse? then HOLE else c.chunk
  }

  function ChunksOf(cells: seq<Cell>): (r: seq<Chunk>)
    ensures |r| == |cells| && forall i :: 0 <= i < |r| ==> r[i] == ChunkOf(cells[i])
  {
    seq(|cells|, i requires 0 <= i < |cells| => ChunkOf(cells[i]))
  }

  /** The bytes of the file that chunk `i` holds. */
  function SizeAt(isize: nat, i: nat, cs: nat): nat {
    if BlkPos(i, cs) > isize then 0 else Min(isize - BlkPos(i, cs), cs)
  }

  /** The chunks that a file of `isize` bytes is made of. */
  ghost predicate CellsOk(cells: seq<Cell>, isize: nat, k: nat, s: nat) {
    && isize > 0 && |cells| == BlkRoundUp(isize, Pow2(s + k))
    && forall i :: 0 <= i < |cells| ==> cells[i].Sparse? || ChunkOk(cells[i].chunk, SizeAt(isize, i, Pow2(s + k)), k, s)
  }

  lemma CellsAreChunks(cells: seq<Cell>, isize: nat, k: nat, s: nat)
    requires CellsOk(cells, isize, k, s)
    ensures ChunksOk(ChunksOf(cells), k, s)
  {
    hide Pow2, BlkPos, BlkRoundUp;
    var cs := Pow2(s + k);
    BelowRoundUp(isize, cs);
    forall i | 0 <= i < |cells|
      ensures ChunkOk(ChunksOf(cells)[i], if i < |cells| - 1 then cs else ChunksOf(cells)[i].size, k, s)
    {
      assert BlkPos(i, cs) < isize;
      if i < |cells| - 1 {
        BlkPosNext(i, cs);
        assert BlkPos(i + 1, cs) < isize;
      }
    }
  }

  // ----- merging in place --------------------------------------------------------------

  lemma CountTwice(isize: nat, c: nat, w: nat)
    requires c > 0 && w > 0 && c * w > 0
    ensures BlkRoundUp(isize, c * w) == BlkRoundUp(BlkRoundUp(isize, c), w)
  {
    hide BlkRoundUp, BlkPos;
    BelowRoundUp(isize, c * w);
    BelowRoundUp(isize, c);
    BelowRoundUp(BlkRoundUp(isize, c), w);
    var x, y := BlkRoundUp(isize, c * w), BlkRoundUp(BlkRoundUp(isize, c), w);
    PosTwice(x, c, w);
    PosTwice(y, c, w);
    assert x < x <==> BlkPos(x, c * w) < isize;
    assert BlkPos(x, w) < BlkRoundUp(isize, c) <==> BlkPos(BlkPos(x, w), c) < isize;
    assert y < x <==> BlkPos(y, c * w) < isize;
    assert BlkPos(y, w) < BlkRoundUp(isize, c) <==> BlkPos(BlkPos(y, w), c) < isize;
  }

  lemma PosTwice(i: nat, c: nat, w: nat)
    ensures BlkPos(i, c * w) == BlkPos(BlkPos(i, w), c)
  {
  }

  lemma RoundUpCount(x: nat, b: nat)
    requires b > 0
    ensures RoundUp(x, b) / b == BlkRoundUp(x, b)
  {
    DivModUnique((x + (b - 1)) / b * b, b, (x + (b - 1)) / b, 0);
  }

  /** `erofs_blob_mergechunks`; block counts are powers `k` and `newk` of two. */
  method MergeChunks(idx: array<Chunk>, isize: nat, s: nat, k: nat, newk: nat) returns (count: nat, bits: nat)
    requires isize > 0 && idx.Length == BlkRoundUp(isize, Pow2(s + k))
    modifies idx
    ensures bits == Max(k, Min(newk, 31)) && count <= idx.Length
    ensures count == BlkRoundUp(isize, Pow2(s + bits))
    ensures idx[..count] == if bits == k then old(idx[..]) else Merged(old(idx[..]), Pow2(bits - k))
  {
    hide Pow2, BlkPos, BlkRoundUp, Merged, RoundUp;
    var merged := if newk > 31 then 31 else newk;
    if k >= merged {
      assert idx[..idx.Length] == idx[..];
      return idx.Length, k;
    }
    var w := Pow2(merged - k);
    Pow2Add(s + k, merged - k);
    CountTwice(isize, Pow2(s + k), w);
    RoundUpCount(isize, Pow2(s + merged));
    ghost var m := Merged(idx[..], w);
    count := RoundUp(isize, Pow2(s + merged)) / Pow2(s + merged);
    bits := merged;
    var dst, src := 0, 0;
    assert |m| == count && BlkPos(0, w) == 0 by { BlkPosNext(0, w); }
    while dst < count
      invariant dst <= count && src == BlkPos(dst, w) && (dst < count ==> src < idx.Length)
      invariant dst <= idx.Length && idx[..dst] == m[..dst] && idx[dst..] == old(idx[dst..])
    {
      AboveIndex(dst, w);
      assert idx[src] == old(idx[src]) by { assert idx[src] == idx[dst..][src - dst]; }
      idx[dst] := idx[src];
      BlkPosNext(dst, w);
      dst := dst + 1;
      src := src + w;
    }
  }

  lemma AboveIndex(i: nat, w: nat)
    requires w > 0
    ensures i <= BlkPos(i, w)
  {
    MulMonotone(1, w, i);
  }

  // ----- writing -----------------------------------------------------------------------

  /** Before chunk `i`: the open interval began at chunk `start`, and all others at good places. */
  ghost predicate Scanned(chunks: seq<Chunk>, i: nat, start: nat, k: nat, s: nat, min: nat) {
    && start <= i && min > 0
    && StartsOk(chunks, i, k, s, min) && StartOk(start, k, min)
  }

  lemma ScanStart(chunks: seq<Chunk>, k: nat, s: nat, min: nat)
    requires min > 0
    ensures Scanned(chunks, 0, 0, k, s, min)
  {
    forall p: nat
      ensures BlkOff(BlkPos(0, Pow2(k)), Pow2(p)) == 0
    {
      BlkPosNext(0, Pow2(k));
      DivModUnique(0, Pow2(p), 0, 0);
    }
  }

  /** Chunk `i` goes on with the interval, or begins one. */
  lemma ScanStep(chunks: seq<Chunk>, i: nat, start: nat, k: nat, s: nat, min: nat)
    requires Scanned(chunks, i, start, k, s, min) && i < |chunks|
    ensures !Break(chunks, i, s) ==> Scanned(chunks, i + 1, start, k, s, min)
    ensures Break(chunks, i, s) && start < i && BlkPos(i - start, Pow2(k)) < 0x1_0000_0000 ==>
              Scanned(chunks, i + 1, i, k, s, NewMin(BlkPos(i - start, Pow2(k)), min))
  {
    hide Pow2, BlkPos, BlkOff, NewMin, CanMerge;
    if Break(chunks, i, s) && start < i && BlkPos(i - start, Pow2(k)) < 0x1_0000_0000 {
      IntervalEnds(chunks, start, i, k, s, min);
    }
  }

  lemma ScanEnd(chunks: seq<Chunk>, start: nat, k: nat, s: nat, min: nat, len: nat)
    requires Scanned(chunks, |chunks|, start, k, s, min)
    ensures Scanned(chunks, |chunks|, start, k, s, NewMin(len, min))
  {
    hide Pow2, BlkPos, BlkOff, Break, LowBit;
  }

  /** Every interval begins at a multiple of `Pow2(p)` blocks. */
  ghost predicate AllAt(chunks: seq<Chunk>, k: nat, s: nat, p: nat) {
    forall t: nat :: Break(chunks, t, s) ==> BlkOff(BlkPos(t, Pow2(k)), Pow2(p)) == 0
  }

  /** `min` is no less than any such power of two up to `blocks`. */
  ghost predicate Reaches(chunks: seq<Chunk>, start: nat, k: nat, s: nat, blocks: nat, min: nat) {
    && (start == 0 || Break(chunks, start, s))
    && forall p: nat :: Pow2(p) <= blocks && AllAt(chunks, k, s, p) ==> Pow2(p) <= min
  }

  lemma StartAligned(chunks: seq<Chunk>, start: nat, k: nat, s: nat, p: nat)
    requires (start == 0 || Break(chunks, start, s)) && AllAt(chunks, k, s, p)
    ensures BlkOff(BlkPos(start, Pow2(k)), Pow2(p)) == 0
  {
    BlkPosNext(0, Pow2(k));
    DivModUnique(0, Pow2(p), 0, 0);
  }

  lemma DifferenceDivides(x: nat, y: nat, d: nat)
    requires d > 0 && x <= y && BlkOff(x, d) == 0 && BlkOff(y, d) == 0
    ensures BlkOff(y - x, d) == 0
  {
    assert y - x == (y / d - x / d) * d;
    var m, n := x / d, y / d;
    assert x == m * d && y == n * d;
    MulCancels(m, n, d);
    DivModUnique(y - x, d, y / d - x / d, 0);
  }

  lemma {:induction false} LowBitReaches(x: nat, p: nat)
    requires x > 0 && BlkOff(x, Pow2(p)) == 0
    ensures LowBit(x) >= Pow2(p)
  {
    var q := Pow2(p);
    assert x == x / q * q;
    if p == 0 {
      var j := LowBitIs(x);
    } else {
      assert q == 2 * Pow2(p - 1);
      var h := Pow2(p - 1);
      assert x == 2 * (x / q * h);
      DivModUnique(x, 2, x / q * h, 0);
      DivModUnique(x / 2, h, x / q, 0);
      LowBitReaches(x / 2, p - 1);
    }
  }

  /** A length that is a multiple of `Pow2(p)` does not take the minimum below it. */
  lemma NewMinReaches(len: nat, min: nat, p: nat)
    requires len < 0x1_0000_0000 && Pow2(p) <= min && BlkOff(len, Pow2(p)) == 0
    ensures Pow2(p) <= NewMin(len, min)
  {
    if len > 0 {
      var j := LowBitIs(len);
      LowBitReaches(len, p);
      DivModUnique(LowBit(len), 0x1_0000_0000, 0, LowBit(len));
    } else {
      assert LowBit(len) == 0;
    }
  }

  /** An interval ends before chunk `i`. */
  lemma StepReaches(chunks: seq<Chunk>, i: nat, start: nat, k: nat, s: nat, blocks: nat, min: nat)
    requires Reaches(chunks, start, k, s, blocks, min) && start <= i && Break(chunks, i, s)
    requires BlkPos(i - start, Pow2(k)) < 0x1_0000_0000
    ensures Reaches(chunks, i, k, s, blocks, NewMin(BlkPos(i - start, Pow2(k)), min))
  {
    hide Pow2, BlkPos, BlkOff, NewMin, Break;
    forall p: nat | Pow2(p) <= blocks && AllAt(chunks, k, s, p)
      ensures Pow2(p) <= NewMin(BlkPos(i - start, Pow2(k)), min)
    {
      StartAligned(chunks, start, k, s, p);
      StartAligned(chunks, i, k, s, p);
      BlkPosAdd(start, i - start, Pow2(k));
      DifferenceDivides(BlkPos(start, Pow2(k)), BlkPos(i, Pow2(k)), Pow2(p));
      NewMinReaches(BlkPos(i - start, Pow2(k)), min, p);
    }
  }

  /** Chunks of `Pow2(p)` blocks would do: no interval begins or ends within one, and there is a whole one. */
  ghost predicate Mergeable(cells: seq<Cell>, isize: nat, k: nat, s: nat, p: nat) {
    && cells != [] && Pow2(p) <= BlkRoundUp(isize, Pow2(s)) && AllAt(ChunksOf(cells), k, s, p)
    && var end := BlkNr(EndPos(cells, isize, Pow2(s + k)), Pow2(s));
       end < 0x1_0000_0000 && BlkOff(end, Pow2(p)) == 0
  }

  lemma StartReaches(chunks: seq<Chunk>, k: nat, s: nat, blocks: nat)
    ensures Reaches(chunks, 0, k, s, blocks, blocks)
  {
  }

  /** Where the scan ends: behind the last chunk if that is skipped, or at the end of the file. */
  function EndPos(cells: seq<Cell>, isize: nat, cs: nat): nat
    requires cells != []
  {
    if cells[|cells| - 1].Sparse? then BlkPos(|cells|, cs) else isize
  }

  /** The last interval ends, in whole blocks. */
  lemma EndReaches(chunks: seq<Chunk>, start: nat, k: nat, s: nat, blocks: nat, min: nat, pos: nat, p: nat)
    requires Reaches(chunks, start, k, s, blocks, min) && BlkPos(start, Pow2(s + k)) <= pos
    requires Pow2(p) <= blocks && AllAt(chunks, k, s, p) && BlkOff(BlkNr(pos, Pow2(s)), Pow2(p)) == 0
    requires BlkNr(pos, Pow2(s)) < 0x1_0000_0000
    ensures Pow2(p) <= NewMin(BlkNr(pos - BlkPos(start, Pow2(s + k)), Pow2(s)), min)
  {
    hide Pow2, BlkPos, BlkOff, NewMin, Break, BlkNr;
    var b, x := Pow2(s), BlkPos(start, Pow2(k));
    Pow2Add(s, k);
    PosTwice(start, b, Pow2(k));
    var rest := pos - BlkPos(x, b);
    StartAligned(chunks, start, k, s, p);
    BlkSplit(rest, b);
    BlkPosAdd(x, BlkNr(rest, b), b);
    BlkUnique(pos, b, x + BlkNr(rest, b), BlkOff(rest, b));
    DifferenceDivides(x, BlkNr(pos, b), Pow2(p));
    NewMinReaches(BlkNr(rest, b), min, p);
  }

  /** The length of an interval of full chunks, in blocks. */
  lemma IntervalBlocks(start: nat, i: nat, k: nat, s: nat, isize: nat)
    requires start <= i && BlkPos(i, Pow2(s + k)) < isize && BlkRoundUp(isize, Pow2(s)) < 0x1_0000_0000
    ensures BlkPos(start, Pow2(s + k)) <= BlkPos(i, Pow2(s + k))
    ensures BlkNr(BlkPos(i, Pow2(s + k)) - BlkPos(start, Pow2(s + k)), Pow2(s)) == BlkPos(i - start, Pow2(k)) < 0x1_0000_0000
  {
    hide Pow2, BlkPos, BlkNr, BlkRoundUp;
    var b, p := Pow2(s), Pow2(k);
    Pow2Add(s, k);
    BlkPosAdd(start, i - start, Pow2(s + k));
    BlkPosMonotone(i - start, i, Pow2(s + k));
    PosTwice(i - start, b, p);
    BlkUnique(BlkPos(i - start, b * p), b, BlkPos(i - start, p), 0);
    BelowRoundUp(isize, b);
    assert BlkPos(BlkPos(i - start, p), b) < isize;
  }

  /** Chunk `i` begins within the file exactly if it is one of its chunks. */
  lemma ChunkPlace(isize: nat, i: nat, cs: nat)
    requires cs > 0
    ensures BlkPos(i, cs) < isize <==> i < BlkRoundUp(isize, cs)
    ensures BlkPos(i + 1, cs) == BlkPos(i, cs) + cs
    ensures BlkPos(0, cs) == 0
  {
    BelowRoundUp(isize, cs);
    BlkPosNext(i, cs);
  }

  lemma HolesMerge(chunks: seq<Chunk>, t: nat, s: nat)
    requires 0 < t < |chunks| && chunks[t - 1] == chunks[t] == HOLE
    ensures !Break(chunks, t, s)
  {
  }

  /** The inner loop: a run of skipped chunks. */
  method SkipHoles(cells: seq<Cell>, isize: nat, s: nat, k: nat, idx: array<Chunk>, from: nat, ghost start: nat, ghost min: nat)
    returns (i: nat, pos: nat)
    requires idx.Length == |cells| && from < |cells| && cells[from].Sparse?
    requires Scanned(ChunksOf(cells), from + 1, start, k, s, min)
    modifies idx
    ensures from < i <= |cells| && pos == BlkPos(i, Pow2(s + k))
    ensures forall j :: from <= j < i ==> cells[j].Sparse?
    ensures idx[..from] == old(idx[..from]) && forall j :: from <= j < i ==> idx[j] == HOLE
    ensures Scanned(ChunksOf(cells), i, start, k, s, min)
  {
    hide Pow2, BlkPos, Scanned;
    ghost var chunks := ChunksOf(cells);
    i, pos := from, BlkPos(from, Pow2(s + k));
    BlkPosNext(from, Pow2(s + k));
    idx[i] := HOLE;
    pos := pos + Pow2(s + k);
    i := i + 1;
    while i < |cells| && cells[i].Sparse?
      invariant from < i <= |cells| && pos == BlkPos(i, Pow2(s + k))
      invariant forall j :: from <= j < i ==> cells[j].Sparse?
      invariant idx[..from] == old(idx[..from]) && forall j :: from <= j < i ==> idx[j] == HOLE
      invariant Scanned(chunks, i, start, k, s, min)
    {
      HolesMerge(chunks, i, s);
      ScanStep(chunks, i, start, k, s, min);
      BlkPosNext(i, Pow2(s + k));
      idx[i] := HOLE;
      pos := pos + Pow2(s + k);
      i := i + 1;
    }
  }

  /** The loop of `erofs_blob_write_chunked_file`. */
  method Scan(cells: seq<Cell>, isize: nat, s: nat, k: nat, idx: array<Chunk>) returns (min: nat, ghost start: nat)
    requires CellsOk(cells, isize, k, s) && BlkRoundUp(isize, Pow2(s)) < 0x1_0000_0000 && idx.Length == |cells|
    modifies idx
    ensures idx[..] == ChunksOf(cells)
    ensures Scanned(ChunksOf(cells), |cells|, start, k, s, min) && min <= BlkRoundUp(isize, Pow2(s))
    ensures forall p: nat :: Mergeable(cells, isize, k, s, p) ==> Pow2(p) <= min
  {
    hide Pow2, BlkPos, BlkOff, BlkNr, BlkRoundUp, LowBit, CanMerge, Scanned, CellsOk, Reaches, AllAt;
    ghost var chunks := ChunksOf(cells);
    var chunksize := Pow2(s + k);
    assert isize > 0 && |cells| == BlkRoundUp(isize, chunksize) by { CellsCount(cells, isize, k, s); }
    ChunkPlace(isize, 0, chunksize);
    ChunkPlace(isize, 0, Pow2(s));
    min := BlkRoundUp(isize, Pow2(s));
    ghost var blocks := min;
    ScanStart(chunks, k, s, min);
    StartReaches(chunks, k, s, blocks);
    start := 0;
    var interval, pos, i := 0, 0, 0;
    var last: Option<Chunk> := None;
    while pos < isize
      invariant i <= |cells| && idx[..i] == chunks[..i]
      invariant (pos < isize <==> i < |cells|) && (i < |cells| ==> pos == BlkPos(i, chunksize))
      invariant last == if i == 0 then None else Some(chunks[i - 1])
      invariant start <= i && (i > 0 ==> start < i) && interval == BlkPos(start, chunksize)
      invariant Scanned(chunks, i, start, k, s, min) && min <= BlkRoundUp(isize, Pow2(s))
      invariant Reaches(chunks, start, k, s, blocks, min)
      invariant i == |cells| && i > 0 ==> pos == EndPos(cells, isize, chunksize)
      decreases |cells| - i
    {
      var c := ChunkOf(cells[i]);
      ScanStep(chunks, i, start, k, s, min);
      if last.Some? && !CanMerge(last.value, c, s) {
        IntervalBlocks(start, i, k, s, isize);
        StepReaches(chunks, i, start, k, s, blocks, min);
        min := NewMin(BlkNr(pos - interval, Pow2(s)), min);
        interval := pos;
        start := i;
      }
      assert Scanned(chunks, i + 1, start, k, s, min);
      ChunkPlace(isize, i, chunksize);
      ChunkPlace(isize, i + 1, chunksize);
      if cells[i].Sparse? {
        i, pos := SkipHoles(cells, isize, s, k, idx, i, start, min);
        ChunkPlace(isize, i, chunksize);
      } else {
        idx[i] := c;
        pos := pos + Min(isize - pos, chunksize);
        i := i + 1;
      }
      last := Some(c);
    }
    ChunkPlace(isize, start, chunksize);
    ScanEnd(chunks, start, k, s, min, BlkNr(pos - interval, Pow2(s)));
    assert interval <= pos by { BlkPosMonotone(start, |cells|, chunksize); }
    forall p: nat | Mergeable(cells, isize, k, s, p)
      ensures Pow2(p) <= NewMin(BlkNr(pos - interval, Pow2(s)), min)
    {
      EndReaches(chunks, start, k, s, blocks, min, pos, p);
    }
    min := NewMin(BlkNr(pos - interval, Pow2(s)), min);
  }

  lemma CellsCount(cells: seq<Cell>, isize: nat, k: nat, s: nat)
    requires CellsOk(cells, isize, k, s)
    ensures isize > 0 && |cells| == BlkRoundUp(isize, Pow2(s + k))
  {
  }

  /** `erofs_blob_write_chunked_file`: every block of the file is found as if nothing had been merged. */
  method WriteChunkedFile(cells: seq<Cell>, isize: nat, s: nat, k: nat) returns (idx: array<Chunk>, count: nat, bits: nat)
    requires CellsOk(cells, isize, k, s) && BlkRoundUp(isize, Pow2(s)) < 0x1_0000_0000
    ensures fresh(idx) && count <= idx.Length && count == BlkRoundUp(isize, Pow2(s + bits)) && bits >= k
    ensures bits > k ==> count < |cells|
    ensures forall i :: 0 <= i < count ==> idx[i] in ChunksOf(cells)
    ensures forall p: nat :: p <= 31 && Mergeable(cells, isize, k, s, p) ==> p <= bits
    ensures forall n: nat :: n < BlkRoundUp(isize, Pow2(s)) ==>
                               && BlkNr(n, Pow2(bits)) < count && BlkNr(n, Pow2(k)) < |cells|
                               && Lookup(idx[..count], bits, n) == Lookup(ChunksOf(cells), k, n)
  {
    hide Pow2, BlkPos, BlkOff, BlkNr, BlkRoundUp, ILog2, NewMin, Break, StartsOk, ChunksOk, Merged, Lookup, Scanned, CellsOk;
    ghost var chunks := ChunksOf(cells);
    var chunksize := Pow2(s + k);
    idx := new Chunk[|cells|](_ => HOLE);
    var min;
    ghost var start;
    min, start := Scan(cells, isize, s, k, idx);
    CellsAreChunks(cells, isize, k, s);
    assert idx[..] == chunks;
    CellsCount(cells, isize, k, s);
    ScannedGives(chunks, k, s, start, min);
    forall p: nat | Mergeable(cells, isize, k, s, p)
      ensures p <= ILog2(min)
    {
      LogReaches(min, p);
    }
    hide Mergeable;
    count, bits := MergeChunks(idx, isize, s, k, ILog2(min));
    if bits > k {
      MinGivesBits(chunks, k, s, min, bits);
      ILog2Is(min);
      Pow2Monotone(bits, ILog2(min));
      MergeShrinks(isize, s, k, bits, min);
    }
    forall n: nat | n < BlkRoundUp(isize, Pow2(s))
      ensures && BlkNr(n, Pow2(bits)) < count && BlkNr(n, Pow2(k)) < |cells|
              && Lookup(idx[..count], bits, n) == Lookup(chunks, k, n)
    {
      BlockInChunk(isize, s, k, n);
      if bits > k {
        MergeKeepsMap(chunks, k, bits - k, s, n);
      }
    }
  }

  lemma {:induction false} LogReaches(x: nat, p: nat)
    requires Pow2(p) <= x
    ensures p <= ILog2(x)
  {
    if p > 0 {
      LogReaches(x / 2, p - 1);
    }
  }

  lemma ScannedGives(chunks: seq<Chunk>, k: nat, s: nat, start: nat, min: nat)
    requires Scanned(chunks, |chunks|, start, k, s, min)
    ensures min > 0 && StartsOk(chunks, |chunks|, k, s, min)
  {
  }

  /** The chunk of a block of the file. */
  lemma BlockInChunk(isize: nat, s: nat, k: nat, n: nat)
    requires n < BlkRoundUp(isize, Pow2(s))
    ensures BlkNr(n, Pow2(k)) < BlkRoundUp(isize, Pow2(s + k))
  {
    hide Pow2, BlkRoundUp, BlkPos, BlkNr;
    Pow2Add(s, k);
    CountTwice(isize, Pow2(s), Pow2(k));
    BelowRoundUp(BlkRoundUp(isize, Pow2(s)), Pow2(k));
    BlkSplit(n, Pow2(k));
  }

  /** Merging makes the indexes fewer, as the debug assertion of `erofs_blob_mergechunks` says. */
  lemma MergeShrinks(isize: nat, s: nat, k: nat, bits: nat, min: nat)
    requires k < bits && Pow2(bits) <= Pow2(ILog2(min)) <= min <= BlkRoundUp(isize, Pow2(s))
    ensures BlkRoundUp(isize, Pow2(s + bits)) < BlkRoundUp(isize, Pow2(s + k))
  {
    var p, w := Pow2(k), Pow2(bits - k);
    Pow2Add(s, k);
    Pow2Add(s + k, bits - k);
    Pow2Add(k, bits - k);
    assert w >= 2;
    hide Pow2, BlkRoundUp, BlkPos;
    var n := BlkRoundUp(isize, Pow2(s + k));
    CountTwice(isize, Pow2(s), p);
    CountTwice(isize, Pow2(s + k), w);
    BelowRoundUp(BlkRoundUp(isize, Pow2(s)), p);
    BlkPosNext(0, p);
    TimesPos(w, p);
    BlkPosNext(1, p);
    BlkPosMonotone(2, w, p);
    assert BlkPos(1, p) < BlkRoundUp(isize, Pow2(s));
    BelowRoundUp(n, w);
    TwiceAbove(n - 1, w);
    assert BlkPos(n - 1, w) >= n;
  }

  lemma TwiceAbove(i: nat, w: nat)
    requires w >= 2
    ensures BlkPos(i, w) >= 2 * i
  {
    MulMonotone(2, w, i);
  }

  // ----- the indexes on disk -----------------------------------------------------------

  /** The address on disk: chunks of the first device are moved behind `base`. */
  function DiskAddr(dev: nat, addr: nat, base: nat): nat {
    if dev > 0 then addr else base + addr
  }

  /** An 8-byte chunk index, or a 4-byte block map entry. */
  function Entry(c: Chunk, indexes: bool, base: nat): seq<byte> {
    var addr := if c.addr == NULL_ADDR then NULL_ADDR else DiskAddr(c.dev, c.addr, base);
    if indexes then Le16(0) + Le16(c.dev) + Le32(addr) else Le32(addr)
  }

  function Unit(indexes: bool): nat {
    if indexes then 8 else 4
  }

  /** `out` holds the entries of all chunks. */
  ghost predicate EntriesAt(out: seq<byte>, at: nat, chunks: seq<Chunk>, indexes: bool, base: nat) {
    && at + |chunks| * Unit(indexes) <= |out|
    && forall i :: 0 <= i < |chunks| ==> EntryAt(out, at + i * Unit(indexes), chunks[i], indexes, base)
  }

  ghost predicate EntryAt(out: seq<byte>, at: int, c: Chunk, indexes: bool, base: nat) {
    0 <= at <= at + Unit(indexes) <= |out| && out[at..at + Unit(indexes)] == Entry(c, indexes, base)
  }

  /** `erofs_blob_write_chunk_indexes` */
  method WriteIndexes(chunks: seq<Chunk>, indexes: bool, base: nat) returns (out: seq<byte>)
    ensures |out| == |chunks| * Unit(indexes) && EntriesAt(out, 0, chunks, indexes, base)
  {
    hide Entry;
    out := [];
    for i := 0 to |chunks|
      invariant |out| == i * Unit(indexes)
      invariant forall j :: 0 <= j < i ==> EntryAt(out, j * Unit(indexes), chunks[j], indexes, base)
    {
      ghost var was := out;
      var e := Entry(chunks[i], indexes, base);
      assert |e| == Unit(indexes) by { EntrySize(chunks[i], indexes, base); }
      out := out + e;
      assert EntryAt(out, i * Unit(indexes), chunks[i], indexes, base);
      forall j | 0 <= j < i
        ensures EntryAt(out, j * Unit(indexes), chunks[j], indexes, base)
      {
        assert EntryAt(was, j * Unit(indexes), chunks[j], indexes, base);
        assert out[j * Unit(indexes)..j * Unit(indexes) + Unit(indexes)] == was[j * Unit(indexes)..j * Unit(indexes) + Unit(indexes)];
      }
    }
  }

  lemma EntrySize(c: Chunk, indexes: bool, base: nat)
    ensures |Entry(c, indexes, base)| == Unit(indexes)
  {
  }

  /** `struct erofs_map_blocks`, as the chunk lookup fills it in. */
  datatype Map = Map(la: nat, plen: nat, mapped: bool, dev: nat, pa: nat)

  /** Addresses on disk fit the fields and are none of them the mark of a hole. */
  predicate Addressable(c: Chunk, indexes: bool, base: nat, mask: nat) {
    c == HOLE || (c.dev <= mask < 65536 && (indexes || c.dev == 0) && c.addr < NULL_ADDR && DiskAddr(c.dev, c.addr, base) < NULL_ADDR)
  }

  /** What the entry of a chunk is read as. */
  lemma ReadEntry(out: seq<byte>, at: nat, c: Chunk, indexes: bool, base: nat, mask: nat)
    requires EntryAt(out, at, c, indexes, base) && Addressable(c, indexes, base, mask)
    ensures at + Unit(indexes) <= |out|
    ensures var addr := U32(out, if indexes then at + 4 else at);
            if c.addr == NULL_ADDR then addr == NULL_ADDR else addr == DiskAddr(c.dev, c.addr, base) < NULL_ADDR
    ensures c != HOLE ==> c.dev == if indexes then U16(out, at + 2) % (mask + 1) else 0
  {
    hide DiskAddr, Le16, Le32;
    var addr := if c.addr == NULL_ADDR then NULL_ADDR else DiskAddr(c.dev, c.addr, base);
    if indexes {
      Fields(out, at, Le16(0), Le16(c.dev), Le32(addr));
      ReadLe16(out, at + 2, c.dev);
      ReadLe32(out, at + 4, addr);
      if c != HOLE {
        DivModUnique(c.dev, 65536, 0, c.dev);
        DivModUnique(c.dev, mask + 1, 0, c.dev);
      }
    } else {
      ReadLe32(out, at, addr);
    }
    DivModUnique(addr, 0x1_0000_0000, 0, addr);
  }

  lemma Fields(out: seq<byte>, at: nat, x: seq<byte>, y: seq<byte>, z: seq<byte>)
    requires |x| == |y| == 2 && |z| == 4 && at + 8 <= |out| && out[at..at + 8] == x + y + z
    ensures out[at + 2..at + 4] == y && out[at + 4..at + 8] == z
  {
    var e := out[at..at + 8];
    assert e == x + y + z;
    assert forall i :: 0 <= i < 2 ==> out[at + 2 + i] == e[2 + i] == y[i];
    assert forall i :: 0 <= i < 4 ==> out[at + 4 + i] == e[4 + i] == z[i];
  }

  /** Where an offset is in its chunk. */
  lemma OffsetInChunk(isize: nat, s: nat, bits: nat, la: nat)
    requires la < isize
    ensures var b, cs, n := Pow2(s), Pow2(s + bits), BlkNr(la, Pow2(s));
            var at := BlkPos(BlkNr(la, cs), cs);
            && BlkNr(la, cs) == BlkNr(n, Pow2(bits)) < BlkRoundUp(isize, cs)
            && at <= la < at + cs && at < isize && la < at + RoundUp(isize - at, b) && BlkOff(at, cs) == 0
            && la - at == BlkPos(BlkOff(n, Pow2(bits)), b) + BlkOff(la, b)
  {
    hide Pow2, BlkNr, BlkOff, BlkPos, BlkRoundUp, RoundUp;
    var b, cs := Pow2(s), Pow2(s + bits);
    Pow2Add(s, bits);
    BlkSplit(la, cs);
    TwoLevels(la, b, Pow2(bits));
    BelowRoundUp(isize, cs);
    var at := BlkPos(BlkNr(la, cs), cs);
    BlkUnique(at, cs, BlkNr(la, cs), 0);
    RoundUpAbove(isize - at, b);
  }

  lemma RoundUpAbove(x: nat, a: nat)
    requires a > 0
    ensures x <= RoundUp(x, a)
  {
    var q := (x + (a - 1)) / a;
    assert x + (a - 1) == q * a + (x + (a - 1)) % a;
  }

  /** The address of a byte is that of its chunk and its place there. */
  lemma ByteAddress(dev: nat, addr: nat, base: nat, o: nat, b: nat, off: nat)
    ensures BlkPos(DiskAddr(dev, addr, base), b) + (BlkPos(o, b) + off) == BlkPos(DiskAddr(dev, addr + o, base), b) + off
  {
    hide BlkPos;
    BlkPosAdd(DiskAddr(dev, addr, base), o, b);
  }

  /**
   * The chunk part of `erofs_map_blocks`: `at` is where the indexes begin. The device number is
   * masked with `mask`, one less than a power of two.
   */
  method MapBlocks(dev: seq<byte>, at: nat, isize: nat, s: nat, bits: nat, indexes: bool, mask: nat, la: nat,
                   ghost chunks: seq<Chunk>, ghost base: nat)
    returns (r: Map)
    requires la < isize && |chunks| == BlkRoundUp(isize, Pow2(s + bits)) && EntriesAt(dev, at, chunks, indexes, base)
    requires forall i :: 0 <= i < |chunks| ==> Addressable(chunks[i], indexes, base, mask)
    ensures r.la <= la < r.la + r.plen && r.plen <= Pow2(s + bits) && BlkOff(r.la, Pow2(s + bits)) == 0
    ensures BlkNr(BlkNr(la, Pow2(s)), Pow2(bits)) < |chunks|
    ensures var x := Lookup(chunks, bits, BlkNr(la, Pow2(s)));
            && (r.mapped <==> x.Some?)
            && (x.Some? ==> r.dev == x.value.0
                            && r.pa + (la - r.la) == BlkPos(DiskAddr(x.value.0, x.value.1, base), Pow2(s)) + BlkOff(la, Pow2(s)))
  {
    hide Pow2, BlkNr, BlkOff, BlkPos, BlkRoundUp, RoundUp, Lookup, DiskAddr;
    var b, cs := Pow2(s), Pow2(s + bits);
    var chunknr := BlkNr(la, cs);
    OffsetInChunk(isize, s, bits, la);
    var c := chunks[chunknr];
    var pos := at + chunknr * Unit(indexes);
    assert EntryAt(dev, pos, c, indexes, base);
    ReadEntry(dev, pos, c, indexes, base, mask);
    LookupIn(chunks, bits, BlkNr(la, b));
    ByteAddress(c.dev, c.addr, base, BlkOff(BlkNr(la, b), Pow2(bits)), b, BlkOff(la, b));
    r := Map(BlkPos(chunknr, cs), Min(cs, RoundUp(isize - BlkPos(chunknr, cs), b)), false, 0, 0);
    var addr := U32(dev, if indexes then pos + 4 else pos);
    if addr != NULL_ADDR {
      r := r.(mapped := true, pa := BlkPos(addr, b), dev := if indexes then U16(dev, pos + 2) % (mask + 1) else 0);
    }
  }

  lemma LookupIn(chunks: seq<Chunk>, k: nat, n: nat)
    requires BlkNr(n, Pow2(k)) < |chunks|
    ensures Lookup(chunks, k, n) == Resolve(chunks[BlkNr(n, Pow2(k))], BlkOff(n, Pow2(k)))
  {
  }
}
