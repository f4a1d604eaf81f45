/**
 * From the bytes of a file to the bytes of the image and back: chunks go to the blob file once each
 * (`erofs_blob_getchunk`), the blob is copied into the image (`erofs_mkfs_dump_blobs`, `lib/blobchunk.c`),
 * and the reader finds every byte there (`lib/data.c`).
 */
module ChunkStore {
  import opened Arithmetic
  import opened Bytes
  import opened ChunkMap
  import opened ChunkFile
  import opened Options

  predicate Zeroes(s: seq<byte>) {
    forall i :: 0 <= i < |s| ==> s[i] == 0
  }

  /** The blob holds the bytes of a chunk where the chunk says, or they are zeroes and it is a hole. */
  predicate ChunkHolds(blob: seq<byte>, c: Chunk, buf: seq<byte>, b: nat) {
    if c.addr == NULL_ADDR then Zeroes(buf)
    else
      var p := BlkPos(c.addr, b);
      c.size == |buf| && p + |buf| <= |blob| && blob[p..p + |buf|] == buf
  }

  /** The blob file with the chunks that are in it, by their digests. */
  class Blob {
    const b: nat
    const device: nat
    const sha: seq<byte> -> seq<byte>
    var data: seq<byte>
    var table: map<seq<byte>, Chunk>
    ghost var contents: map<seq<byte>, seq<byte>>

    ghost predicate Valid()
      reads this
    {
      && b > 0 && BlkOff(|data|, b) == 0 && table.Keys == contents.Keys
      && forall h :: h in table ==> EntryOk(h)
    }

    ghost predicate EntryOk(h: seq<byte>)
      requires h in table && table.Keys == contents.Keys
      reads this
    {
      && sha(contents[h]) == h && contents[h] != [] && ChunkHolds(data, table[h], contents[h], b)
      && (table[h].addr != NULL_ADDR ==> table[h].dev == device)
    }

    /** `erofs_blob_init`, which enters the chunk of zeroes as a hole. */
    constructor (b: nat, device: nat, sha: seq<byte> -> seq<byte>, chunksize: nat)
      requires b > 0 && chunksize > 0
      ensures Valid() && this.b == b && this.device == device && data == []
    {
      this.b, this.device, this.sha := b, device, sha;
      var zeroes := seq(chunksize, _ => 0);
      data, table, contents := [], map[sha(zeroes) := Chunk(0, NULL_ADDR, chunksize)], map[sha(zeroes) := zeroes];
      NoBlocks(b);
    }

    /** `erofs_blob_getchunk` */
    method GetChunk(buf: seq<byte>) returns (c: Chunk)
      requires Valid() && buf != [] && BlkNr(|data|, b) < NULL_ADDR
      modifies this
      ensures Valid() && old(data) <= data && |data| <= RoundUp(old(|data|) + |buf|, b)
      ensures sha(buf) in old(contents) ==> data == old(data)
      ensures sha(buf) in contents && forall h :: h in old(contents) ==> h in contents && contents[h] == old(contents)[h]
      ensures contents[sha(buf)] == buf ==> ChunkHolds(data, c, buf, b)
      ensures c == HOLE || (c.dev == device && c.addr != NULL_ADDR && c.addr <= BlkNr(old(|data|), b))
    {
      hide BlkNr, BlkOff, BlkPos, RoundUp;
      var h := sha(buf);
      RoundUpHolds(|data| + |buf|, b);
      if h in table {
        assert EntryOk(h);
        c := if table[h].addr == NULL_ADDR then HOLE else table[h];
        WithinBlob(table[h].addr, |data|, b);
        return;
      }
      c := Chunk(device, BlkNr(|data|, b), |buf|);
      ghost var was := data;
      data := Padded(data, buf, b);
      BlkSplit(|was|, b);
      table := table[h := c];
      contents := contents[h := buf];
      forall g | g in table
        ensures EntryOk(g)
      {
        if g != h {
          assert old(EntryOk(g));
          HoldsOn(was, data, table[g], contents[g], b);
        }
      }
    }
  }

  /** What is written for a chunk: its bytes, and zeroes up to the end of the block. */
  function Padded(data: seq<byte>, buf: seq<byte>, b: nat): (r: seq<byte>)
    requires b > 0
    ensures |r| == RoundUp(|data| + |buf|, b) && data + buf <= r
  {
    RoundUpHolds(|data| + |buf|, b);
    data + buf + seq(RoundUp(|data| + |buf|, b) - |data| - |buf|, _ => 0)
  }

  lemma RoundUpHolds(x: nat, b: nat)
    requires b > 0
    ensures x <= RoundUp(x, b) < x + b && BlkOff(RoundUp(x, b), b) == 0
    ensures BlkOff(x, b) == 0 ==> RoundUp(x, b) == x
  {
    var q := (x + (b - 1)) / b;
    assert x + (b - 1) == q * b + (x + (b - 1)) % b;
    DivModUnique(q * b, b, q, 0);
    if x % b == 0 {
      assert x == x / b * b;
      DivModUnique(x + (b - 1), b, x / b, b - 1);
    }
  }

  lemma WithinBlob(addr: nat, n: nat, b: nat)
    requires b > 0
    ensures BlkPos(addr, b) < n ==> addr <= BlkNr(n, b)
  {
    BlkSplit(n, b);
    if addr > BlkNr(n, b) {
      BlkPosMonotone(BlkNr(n, b) + 1, addr, b);
      BlkPosNext(BlkNr(n, b), b);
    }
  }

  lemma HoldsOn(blob: seq<byte>, more: seq<byte>, c: Chunk, buf: seq<byte>, b: nat)
    requires ChunkHolds(blob, c, buf, b) && blob <= more
    ensures ChunkHolds(more, c, buf, b)
  {
    hide BlkPos;
    if c.addr != NULL_ADDR {
      var p := BlkPos(c.addr, b);
      assert more[p..p + |buf|] == blob[p..p + |buf|];
    }
  }

  lemma NoBlocks(b: nat)
    requires b > 0
    ensures BlkOff(0, b) == 0
  {
    BlkPosNext(0, b);
    BlkUnique(0, b, 0, 0);
  }

  // ----- a file in chunks --------------------------------------------------------------

  /** Chunk `i` of the file. */
  function Piece(file: seq<byte>, i: nat, cs: nat): seq<byte>
    requires BlkPos(i, cs) <= |file|
  {
    file[BlkPos(i, cs)..BlkPos(i, cs) + SizeAt(|file|, i, cs)]
  }

  /** The cells of a file hold its bytes, and skipped chunks are zeroes. */
  ghost predicate CellHolds(blob: seq<byte>, cell: Cell, piece: seq<byte>, b: nat) {
    if cell.Sparse? then Zeroes(piece) else ChunkHolds(blob, cell.chunk, piece, b) 
  }

  ghost predicate FileHeld(blob: seq<byte>, cells: seq<Cell>, file: seq<byte>, k: nat, s: nat) {
    && CellsOk(cells, |file|, k, s)
    && forall i :: 0 <= i < |cells| ==>
         BlkPos(i, Pow2(s + k)) <= |file| && CellHolds(blob, cells[i], Piece(file, i, Pow2(s + k)), Pow2(s))
  }

  /** No two chunks of the file, and of what the blob had before, share a digest. */
  ghost predicate NoCollision(contents: map<seq<byte>, seq<byte>>, sha: seq<byte> -> seq<byte>, file: seq<byte>, n: nat, cs: nat) {
    forall i :: 0 <= i < n && BlkPos(i, cs) <= |file| ==>
      var piece := Piece(file, i, cs); sha(piece) in contents ==> contents[sha(piece)] == piece
  }

  /** What `lseek` passes over reads as zeroes. */
  predicate SparseIsZero(file: seq<byte>, sparse: seq<bool>, cs: nat) {
    forall i :: 0 <= i < |sparse| && sparse[i] && BlkPos(i, cs) <= |file| ==> Zeroes(Piece(file, i, cs))
  }

  /** A chunk takes at most its number of blocks. */
  lemma OneChunkMore(n: nat, m: nat, len: nat, k: nat, s: nat)
    requires BlkOff(n, Pow2(s)) == 0 && len <= Pow2(s + k) && m <= RoundUp(n + len, Pow2(s))
    ensures BlkNr(m, Pow2(s)) <= BlkNr(n, Pow2(s)) + Pow2(k)
  {
    hide Pow2, BlkNr, BlkOff, BlkPos, RoundUp;
    var b := Pow2(s);
    Pow2Add(s, k);
    BlkSplit(n, b);
    BlkPosAdd(BlkNr(n, b), Pow2(k), b);
    assert BlkPos(Pow2(k), b) == b * Pow2(k) by { TimesPos(Pow2(k), b); }
    RoundUpMonotone(n + len, BlkPos(BlkNr(n, b) + Pow2(k), b), b);
    BlkUnique(BlkPos(BlkNr(n, b) + Pow2(k), b), b, BlkNr(n, b) + Pow2(k), 0);
    RoundUpHolds(BlkPos(BlkNr(n, b) + Pow2(k), b), b);
    BlkMonotone(m, BlkPos(BlkNr(n, b) + Pow2(k), b), b);
  }

  lemma RoundUpMonotone(x: nat, y: nat, b: nat)
    requires b > 0 && x <= y
    ensures RoundUp(x, b) <= RoundUp(y, b)
  {
    var p, q := (x + (b - 1)) / b, (y + (b - 1)) / b;
    assert x + (b - 1) == p * b + (x + (b - 1)) % b && y + (b - 1) == q * b + (y + (b - 1)) % b;
    if p > q {
      MulMonotone(q + 1, p, b);
    } else {
      MulMonotone(p, q, b);
    }
  }

  lemma PieceInFile(file: seq<byte>, i: nat, cs: nat)
    requires cs > 0 && i < BlkRoundUp(|file|, cs)
    ensures BlkPos(i, cs) < |file| && 0 < |Piece(file, i, cs)| == SizeAt(|file|, i, cs) <= cs
  {
    hide BlkRoundUp, BlkPos;
    BelowRoundUp(|file|, cs);
  }

  /** The chunks of a file, as `erofs_blob_write_chunked_file` gets them; `sparse` is what `lseek` says. */
  method Collect(blob: Blob, file: seq<byte>, sparse: seq<bool>, k: nat, s: nat) returns (cells: seq<Cell>)
    requires blob.Valid() && blob.b == Pow2(s) && file != [] && |sparse| == BlkRoundUp(|file|, Pow2(s + k))
    requires SparseIsZero(file, sparse, Pow2(s + k))
    requires BlkNr(|blob.data|, Pow2(s)) + BlkPos(|sparse| + 1, Pow2(k)) < NULL_ADDR
    modifies blob
    ensures blob.Valid() && |cells| == |sparse| && old(blob.data) <= blob.data
    ensures NoCollision(blob.contents, blob.sha, file, |sparse|, Pow2(s + k)) ==>
              && FileHeld(blob.data, cells, file, k, s)
              && forall i :: 0 <= i < |cells| && cells[i].Data? && cells[i].chunk != HOLE ==> cells[i].chunk.dev == blob.device
  {
    hide Pow2, BlkNr, BlkOff, BlkPos, BlkRoundUp, RoundUp, ChunkHolds;
    var cs, b := Pow2(s + k), Pow2(s);
    cells := [];
    BlkPosNext(0, Pow2(k));
    while |cells| < |sparse|
      invariant |cells| <= |sparse| && blob.Valid() && old(blob.data) <= blob.data
      invariant BlkNr(|blob.data|, b) <= BlkNr(|old(blob.data)|, b) + BlkPos(|cells|, Pow2(k))
      invariant AllKept(blob.data, blob.contents, blob.sha, blob.device, cells, sparse, file, k, s)
    {
      var i := |cells|;
      PieceInFile(file, i, cs);
      ghost var was, held := blob.data, blob.contents;
      BlkPosNext(i, Pow2(k));
      BlkPosMonotone(i + 1, |sparse|, Pow2(k));
      BlkPosNext(|sparse|, Pow2(k));
      var cell := Sparse;
      if !sparse[i] {
        var piece := Piece(file, i, cs);
        var c := blob.GetChunk(piece);
        OneChunkMore(|was|, |blob.data|, |piece|, k, s);
        cell := Data(c);
      }
      KeptOn(was, held, blob.data, blob.contents, blob.sha, blob.device, cells, cell, sparse, file, k, s);
      cells := cells + [cell];
    }
    if NoCollision(blob.contents, blob.sha, file, |sparse|, cs) {
      KeptHolds(blob.data, blob.contents, blob.sha, blob.device, cells, sparse, file, k, s);
    }
  }

  /** A cell made so far, unless digests collide. */
  ghost predicate CellKept(data: seq<byte>, contents: map<seq<byte>, seq<byte>>, sha: seq<byte> -> seq<byte>, device: nat,
                           cell: Cell, sparse: bool, file: seq<byte>, i: nat, k: nat, s: nat)
  {
    var cs := Pow2(s + k);
    && BlkPos(i, cs) <= |file|
    && if sparse then cell.Sparse?
       else
         var h := sha(Piece(file, i, cs));
         && cell.Data? && h in contents
         && (cell.chunk == HOLE || (cell.chunk.dev == device && cell.chunk.addr + Pow2(k) < NULL_ADDR))
         && (contents[h] == Piece(file, i, cs) ==> ChunkHolds(data, cell.chunk, Piece(file, i, cs), Pow2(s)))
  }

  ghost predicate AllKept(data: seq<byte>, contents: map<seq<byte>, seq<byte>>, sha: seq<byte> -> seq<byte>, device: nat,
                          cells: seq<Cell>, sparse: seq<bool>, file: seq<byte>, k: nat, s: nat)
  {
    |cells| <= |sparse| && forall j :: 0 <= j < |cells| ==> CellKept(data, contents, sha, device, cells[j], sparse[j], file, j, k, s)
  }

  lemma KeptOn(data: seq<byte>, contents: map<seq<byte>, seq<byte>>, data': seq<byte>, contents': map<seq<byte>, seq<byte>>,
               sha: seq<byte> -> seq<byte>, device: nat, cells: seq<Cell>, cell: Cell, sparse: seq<bool>, file: seq<byte>, k: nat, s: nat)
    requires AllKept(data, contents, sha, device, cells, sparse, file, k, s) && data <= data' && |cells| < |sparse|
    requires forall h :: h in contents ==> h in contents' && contents'[h] == contents[h]
    requires CellKept(data', contents', sha, device, cell, sparse[|cells|], file, |cells|, k, s)
    ensures AllKept(data', contents', sha, device, cells + [cell], sparse, file, k, s)
  {
    hide Pow2, BlkPos, ChunkHolds;
    forall j | 0 <= j < |cells|
      ensures CellKept(data', contents', sha, device, cells[j], sparse[j], file, j, k, s)
    {
      assert CellKept(data, contents, sha, device, cells[j], sparse[j], file, j, k, s);
      if !sparse[j] {
        var piece := Piece(file, j, Pow2(s + k));
        if contents[sha(piece)] == piece {
          HoldsOn(data, data', cells[j].chunk, piece, Pow2(s));
        }
      }
    }
  }

  /** Without collisions the cells hold the file. */
  lemma KeptHolds(data: seq<byte>, contents: map<seq<byte>, seq<byte>>, sha: seq<byte> -> seq<byte>, device: nat,
                  cells: seq<Cell>, sparse: seq<bool>, file: seq<byte>, k: nat, s: nat)
    requires AllKept(data, contents, sha, device, cells, sparse, file, k, s)
    requires file != [] && |cells| == |sparse| == BlkRoundUp(|file|, Pow2(s + k))
    requires SparseIsZero(file, sparse, Pow2(s + k)) && NoCollision(contents, sha, file, |sparse|, Pow2(s + k))
    ensures FileHeld(data, cells, file, k, s)
    ensures forall i :: 0 <= i < |cells| && cells[i].Data? && cells[i].chunk != HOLE ==> cells[i].chunk.dev == device
  {
    hide Pow2, BlkPos, BlkRoundUp;
    var cs := Pow2(s + k);
    forall i | 0 <= i < |cells|
      ensures BlkPos(i, cs) <= |file| && CellHolds(data, cells[i], Piece(file, i, cs), Pow2(s))
      ensures cells[i].Sparse? || ChunkOk(cells[i].chunk, SizeAt(|file|, i, cs), k, s)
      ensures cells[i].Data? && cells[i].chunk != HOLE ==> cells[i].chunk.dev == device
    {
      PieceInFile(file, i, cs);
      assert CellKept(data, contents, sha, device, cells[i], sparse[i], file, i, k, s);
    }
  }

  // ----- reading back ------------------------------------------------------------------

  /** `erofs_mkfs_dump_blobs`: the blob was copied to block `base` of the image. */
  predicate BlobOn(image: seq<byte>, base: nat, blob: seq<byte>, b: nat) {
    var p := BlkPos(base, b);
    p + |blob| <= |image| && image[p..p + |blob|] == blob
  }

  /** The chunk of a byte of the file has the byte. */
  lemma HeldByte(blob: seq<byte>, cells: seq<Cell>, file: seq<byte>, k: nat, s: nat, la: nat)
    requires FileHeld(blob, cells, file, k, s) && la < |file|
    ensures BlkNr(BlkNr(la, Pow2(s)), Pow2(k)) < |cells|
    ensures match Lookup(ChunksOf(cells), k, BlkNr(la, Pow2(s)))
            case None => file[la] == 0
            case Some((dev, addr)) =>
              var p := BlkPos(addr, Pow2(s)) + BlkOff(la, Pow2(s));
              p < |blob| && blob[p] == file[la]
  {
    var b, cs, n := Pow2(s), Pow2(s + k), BlkNr(la, Pow2(s));
    hide Pow2, BlkNr, BlkOff, BlkPos, BlkRoundUp, RoundUp, ChunkOk, Lookup;
    CellsCount(cells, |file|, k, s);
    OffsetInChunk(|file|, s, k, la);
    var i := BlkNr(n, Pow2(k));
    PieceInFile(file, i, cs);
    LookupIn(ChunksOf(cells), k, n);
    assert CellHolds(blob, cells[i], Piece(file, i, cs), b);
    hide CellsOk, CellHolds, Piece;
    CellByte(blob, cells[i], Piece(file, i, cs), BlkOff(n, Pow2(k)), BlkOff(la, b), b);
    PieceByte(file, i, cs, la);
  }

  lemma PieceByte(file: seq<byte>, i: nat, cs: nat, la: nat)
    requires BlkPos(i, cs) <= la < |file| && la < BlkPos(i, cs) + cs
    ensures la - BlkPos(i, cs) < |Piece(file, i, cs)| && Piece(file, i, cs)[la - BlkPos(i, cs)] == file[la]
  {
    hide BlkPos;
  }

  lemma CellByte(blob: seq<byte>, cell: Cell, piece: seq<byte>, o: nat, off: nat, b: nat)
    requires CellHolds(blob, cell, piece, b) && BlkPos(o, b) + off < |piece|
    ensures match Resolve(ChunkOf(cell), o)
            case None => piece[BlkPos(o, b) + off] == 0
            case Some((dev, addr)) => BlkPos(addr, b) + off < |blob| && blob[BlkPos(addr, b) + off] == piece[BlkPos(o, b) + off]
  {
    hide BlkPos;
    if cell.Data? && cell.chunk.addr != NULL_ADDR {
      BlkPosAdd(cell.chunk.addr, o, b);
      var p, q := BlkPos(cell.chunk.addr, b), BlkPos(o, b) + off;
      assert blob[p + q] == blob[p..p + |piece|][q];
    }
  }

  lemma OnImage(image: seq<byte>, base: nat, blob: seq<byte>, b: nat, p: nat)
    requires BlobOn(image, base, blob, b) && p < |blob|
    ensures BlkPos(base, b) + p < |image| && image[BlkPos(base, b) + p] == blob[p]
  {
    hide BlkPos;
    assert image[BlkPos(base, b)..BlkPos(base, b) + |blob|][p] == blob[p];
  }

  /** The devices and the addresses of all chunks fit the entries. */
  predicate Placeable(cells: seq<Cell>, indexes: bool, base: nat, mask: nat) {
    mask < 65536 && forall i :: 0 <= i < |cells| && cells[i].Data? && cells[i].chunk != HOLE ==>
      && cells[i].chunk.dev <= mask && (indexes || cells[i].chunk.dev == 0)
      && cells[i].chunk.addr < NULL_ADDR && (cells[i].chunk.dev == 0 ==> base + cells[i].chunk.addr < NULL_ADDR)
  }

  /**
   * A file written in chunks and looked up: every byte is found in the image, or in the blob if that is
   * a device of its own; what is not mapped is zero.
   */
  method StoreAndMap(blob: seq<byte>, cells: seq<Cell>, file: seq<byte>, k: nat, s: nat, indexes: bool, base: nat,
                     pre: seq<byte>, mask: nat, la: nat)
    returns (r: Map, image: seq<byte>)
    requires FileHeld(blob, cells, file, k, s) && la < |file| && BlkRoundUp(|file|, Pow2(s)) < 0x1_0000_0000
    requires Placeable(cells, indexes, base, mask)
    requires BlobOn(pre, base, blob, Pow2(s)) ||
             forall i :: 0 <= i < |cells| && cells[i].Data? && cells[i].chunk != HOLE ==> cells[i].chunk.dev > 0
    ensures pre <= image
    ensures !r.mapped ==> file[la] == 0
    ensures r.mapped ==> var at := r.pa + (la - r.la); var disk := if r.dev == 0 then image else blob;
                         0 <= at < |disk| && disk[at] == file[la]
  {
    hide Pow2, BlkNr, BlkOff, BlkPos, BlkRoundUp, RoundUp, FileHeld, DiskAddr, Lookup, EntriesAt, BlobOn, Placeable, CellsOk;
    var n := BlkNr(la, Pow2(s));
    assert CellsOk(cells, |file|, k, s) by { HeldCells(blob, cells, file, k, s); }
    BlockOf(|file|, la, Pow2(s));
    HeldByte(blob, cells, file, k, s, la);
    var idx, count, bits := WriteChunkedFile(cells, |file|, s, k);
    var out := WriteIndexes(idx[..count], indexes, base);
    image := pre + out;
    EntriesShift(pre, out, idx[..count], indexes, base);
    AllAddressable(cells, idx[..count], indexes, base, mask);
    r := MapBlocks(image, |pre|, |file|, s, bits, indexes, mask, la, idx[..count], base);
    if r.mapped {
      ghost var x := Lookup(ChunksOf(cells), k, n).value;
      assert r.dev == x.0;
      LookedUp(cells, k, n);
      assert DiskAddr(x.0, x.1, base) == if x.0 > 0 then x.1 else base + x.1 by { DiskAddrIs(x.0, x.1, base); }
      if x.0 == 0 {
        BlobStays(pre, out, base, blob, Pow2(s));
        OnImage(image, base, blob, Pow2(s), BlkPos(x.1, Pow2(s)) + BlkOff(la, Pow2(s)));
        BlkPosAdd(base, x.1, Pow2(s));
      }
    }
  }

  lemma HeldCells(blob: seq<byte>, cells: seq<Cell>, file: seq<byte>, k: nat, s: nat)
    requires FileHeld(blob, cells, file, k, s)
    ensures CellsOk(cells, |file|, k, s)
  {
  }

  lemma BlockOf(isize: nat, la: nat, b: nat)
    requires b > 0 && la < isize
    ensures BlkNr(la, b) < BlkRoundUp(isize, b)
  {
    hide BlkNr, BlkRoundUp, BlkPos, BlkOff;
    BelowRoundUp(isize, b);
    BlkSplit(la, b);
  }

  lemma DiskAddrIs(dev: nat, addr: nat, base: nat)
    ensures DiskAddr(dev, addr, base) == if dev > 0 then addr else base + addr
  {
  }

  /** What is looked up is in some cell. */
  lemma LookedUp(cells: seq<Cell>, k: nat, n: nat)
    requires BlkNr(n, Pow2(k)) < |cells|
    ensures var x := Lookup(ChunksOf(cells), k, n);
            x.Some? ==> exists i :: 0 <= i < |cells| && cells[i].Data? && cells[i].chunk != HOLE && cells[i].chunk.dev == x.value.0
  {
    var i := BlkNr(n, Pow2(k));
    LookupIn(ChunksOf(cells), k, n);
    hide Lookup, BlkNr, Pow2;
    if Lookup(ChunksOf(cells), k, n).Some? {
      assert cells[i].Data? && cells[i].chunk != HOLE;
    }
  }

  lemma BlobStays(pre: seq<byte>, out: seq<byte>, base: nat, blob: seq<byte>, b: nat)
    requires BlobOn(pre, base, blob, b)
    ensures BlobOn(pre + out, base, blob, b)
  {
    hide BlkPos;
    var p := BlkPos(base, b);
    assert (pre + out)[p..p + |blob|] == pre[p..p + |blob|];
  }

  lemma EntriesShift(pre: seq<byte>, out: seq<byte>, chunks: seq<Chunk>, indexes: bool, base: nat)
    requires EntriesAt(out, 0, chunks, indexes, base)
    ensures EntriesAt(pre + out, |pre|, chunks, indexes, base)
  {
    hide Entry;
    forall i | 0 <= i < |chunks|
      ensures EntryAt(pre + out, |pre| + i * Unit(indexes), chunks[i], indexes, base)
    {
      assert EntryAt(out, 0 + i * Unit(indexes), chunks[i], indexes, base);
      var at, u := i * Unit(indexes), Unit(indexes);
      assert (pre + out)[|pre| + at..|pre| + at + u] == out[at..at + u];
    }
  }

  lemma AllAddressable(cells: seq<Cell>, chunks: seq<Chunk>, indexes: bool, base: nat, mask: nat)
    requires Placeable(cells, indexes, base, mask) && forall i :: 0 <= i < |chunks| ==> chunks[i] in ChunksOf(cells)
    ensures forall i :: 0 <= i < |chunks| ==> Addressable(chunks[i], indexes, base, mask)
  {
    forall i | 0 <= i < |chunks|
      ensures Addressable(chunks[i], indexes, base, mask)
    {
      var j :| 0 <= j < |cells| && ChunksOf(cells)[j] == chunks[i];
    }
  }
}
