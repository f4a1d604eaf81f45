/** Raw blocks and the reads that reassemble a file from its extents (`lib/compress.c`, `lib/decompress.c`, `lib/data.c`). */
module ReadData {
  import opened Arithmetic
  import opened Bytes
  import opened Extents
  import opened FullIndex
  import opened IndexReader
  import opened IndexMeaning
  import opened MapBlocks

  /** `memcpy(dst + at, src, |src|)` */
  method CopyTo(dst: array<byte>, at: nat, src: seq<byte>)
    requires at + |src| <= dst.Length
    modifies dst
    ensures forall i :: at <= i < at + |src| ==> dst[i] == src[i - at]
    ensures forall i :: 0 <= i < dst.Length && !(at <= i < at + |src|) ==> dst[i] == old(dst[i])
  {
    for n := 0 to |src|
      invariant forall i :: at <= i < at + n ==> dst[i] == src[i - at]
      invariant forall i :: 0 <= i < dst.Length && !(at <= i < at + n) ==> dst[i] == old(dst[i])
    {
      dst[at + n] := src[n];
    }
  }

  /** `memset(dst + at, 0, n)` */
  method ZeroFill(dst: array<byte>, at: nat, n: nat)
    requires at + n <= dst.Length
    modifies dst
    ensures forall i :: at <= i < at + n ==> dst[i] == 0
    ensures forall i :: 0 <= i < dst.Length && !(at <= i < at + n) ==> dst[i] == old(dst[i])
  {
    for m := 0 to n
      invariant forall i :: at <= i < at + m ==> dst[i] == 0
      invariant forall i :: 0 <= i < dst.Length && !(at <= i < at + m) ==> dst[i] == old(dst[i])
    {
      dst[at + m] := 0;
    }
  }

  // ----- raw blocks --------------------------------------------------------------------

  /** The block holds `data` from offset `o` on, going round at the end. */
  predicate Rotated(block: seq<byte>, b: nat, o: nat, data: seq<byte>)
    requires b > 0
  {
    b <= |block| && forall j :: 0 <= j < |data| ==> block[BlkOff(o + j, b)] == data[j]
  }

  /** Where going on from `x` by `j` ends in a ring of `b` places. */
  lemma RingStep(x: nat, j: nat, b: nat)
    requires b > 0 && j < b
    ensures BlkOff(x + j, b) == (if BlkOff(x, b) + j < b then BlkOff(x, b) + j else BlkOff(x, b) + j - b)
    ensures BlkOff(x, b) < b
  {
    Advance(x, j, b);
    BlkSplit(x, b);
    BlkPosNext(0, b);
    hide BlkOff, BlkNr, BlkPos;
    var s := BlkOff(x, b) + j;
    if s < b { BlkUnique(s, b, 0, s); } else { BlkUnique(s, b, 1, s - b); }
  }

  /** `write_uncompressed_extent`: the block holds the data rotated by the cluster offset, the rest is zero. */
  method WriteUncompressed(b: nat, interlaced: bool, clusterofs: nat, queue: seq<byte>, dst: array<byte>) returns (count: nat)
    requires 0 < b == dst.Length && clusterofs < b
    modifies dst
    ensures count == Min(b, |queue|)
    ensures Rotated(dst[..], b, if interlaced then clusterofs else 0, queue[..count] + seq(b - count, _ => 0))
  {
    hide BlkOff;
    count := Min(b, |queue|);
    var o := if interlaced then clusterofs else 0;
    var rightpart := Min(b - o, count);
    ZeroFill(dst, 0, b);
    CopyTo(dst, o, queue[..rightpart]);
    CopyTo(dst, 0, queue[rightpart..count]);
    BlkPosNext(0, b);
    BlkUnique(o, b, 0, o);
    ghost var data := queue[..count] + seq(b - count, _ => 0);
    forall i | 0 <= i < |data|
      ensures BlkOff(o + i, b) < b && dst[..][BlkOff(o + i, b)] == data[i]
    {
      RingStep(o, i, b);
    }
  }

  /** A decompressor: algorithm, input, length wanted, whether the input may hold more than that. */
  type Codec = (nat, seq<byte>, nat, bool) -> Result<seq<byte>>

  const EIO := 5

  /** Byte `j` of the decompressed extent. */
  predicate DecodesTo(codec: Codec, b: nat, alg: nat, input: seq<byte>, o: nat, length: nat, partial: bool, j: nat, v: byte)
    requires b > 0 && j < length
  {
    if alg == INTERLACED then BlkOff(o + j, b) < |input| && v == input[BlkOff(o + j, b)]
    else if alg == SHIFTED then j < |input| && v == input[j]
    else var r := codec(alg, input, length, partial); r.Ok? && j < |r.value| && v == r.value[j]
  }

  /** When `z_erofs_decompress` succeeds. */
  predicate Decodable(codec: Codec, b: nat, alg: nat, input: seq<byte>, length: nat, partial: bool) {
    if alg == INTERLACED then |input| <= b && length <= b
    else if alg == SHIFTED then length <= |input|
    else var r := codec(alg, input, length, partial); r.Ok? && |r.value| == length
  }

  /** `z_erofs_decompress`: bytes `skip` to `length` of the extent go to `out` at `at`. */
  method Decompress(codec: Codec, b: nat, alg: nat, input: seq<byte>, o: nat, skip: nat, length: nat, partial: bool,
                    out: array<byte>, at: nat)
    returns (err: nat)
    requires 0 < b <= |input| && skip <= length && at + length - skip <= out.Length
    modifies out
    ensures err == 0 <==> Decodable(codec, b, alg, input, length, partial)
    ensures err == 0 ==> forall i :: at <= i < at + length - skip ==>
      DecodesTo(codec, b, alg, input, o, length, partial, skip + (i - at), out[i])
    ensures forall i :: 0 <= i < out.Length && !(at <= i < at + length - skip) ==> out[i] == old(out[i])
  {
    hide BlkOff;
    if alg == INTERLACED {
      if |input| > b || length > b {
        return EFSCORRUPTED;
      }
      var count, from := length - skip, BlkOff(o + skip, b);
      RingStep(o + skip, 0, b);
      var rightpart := Min(b - from, count);
      CopyTo(out, at, input[from..from + rightpart]);
      CopyTo(out, at + rightpart, input[..count - rightpart]);
      forall i | at <= i < at + count
        ensures DecodesTo(codec, b, alg, input, o, length, partial, skip + (i - at), out[i])
      {
        RingStep(o + skip, i - at, b);
        assert o + skip + (i - at) == o + (skip + (i - at));
      }
      return 0;
    }
    if alg == SHIFTED {
      if length > |input| {
        return EFSCORRUPTED;
      }
      CopyTo(out, at, input[skip..length]);
      return 0;
    }
    var r := codec(alg, input, length, partial);
    if r.Err? || |r.value| != length {
      return EIO;
    }
    CopyTo(out, at, r.value[skip..]);
    return 0;
  }

  // ----- whole files -------------------------------------------------------------------

  function ExtentData(es: seq<Extent>, file: seq<byte>, k: nat): seq<byte>
    requires |file| == FileSize(es) && k < |es|
  {
    PosMonotone(es, k + 1, |es|);
    file[Pos(es, k)..Pos(es, k + 1)]
  }

  lemma DataLength(es: seq<Extent>, file: seq<byte>, k: nat)
    requires |file| == FileSize(es) && k < |es|
    ensures Pos(es, k) + es[k].length <= |file| && |ExtentData(es, file, k)| == es[k].length
    ensures forall j :: 0 <= j < es[k].length ==> ExtentData(es, file, k)[j] == file[Pos(es, k) + j]
  {
    PosMonotone(es, k + 1, |es|);
  }

  /** The blocks of extent `k` hold its data: rotated if it is raw, or as the codec decodes it. */
  ghost predicate ExtentStored(inode: Inode, dev: seq<byte>, codec: Codec, es: seq<Extent>, file: seq<byte>, k: nat)
    requires |file| == FileSize(es) && k < |es|
  {
    var b, data := inode.B(), ExtentData(es, file, k);
    var blocks := DevRead(dev, BlkPos(es[k].blkaddr, b), BlkPos(es[k].compressedblks, b));
    if es[k].raw then
      Rotated(blocks, b, if inode.interlaced then BlkOff(Pos(es, k), b) else 0, data)
    else
      && (forall n: nat :: n <= |data| ==> codec(inode.alg, blocks, n, true) == Ok(data[..n]))
      && (!es[k].partial ==> codec(inode.alg, blocks, |data|, false) == Ok(data))
  }

  ghost predicate FileStored(inode: Inode, dev: seq<byte>, codec: Codec, es: seq<Extent>, file: seq<byte>) {
    && Setting(inode, dev, es) && |file| == FileSize(es) && inode.alg < SHIFTED
    && forall k :: 0 <= k < |es| ==> ExtentStored(inode, dev, codec, es, file, k)
  }

  /** A mapped piece covers the byte asked for, and what lies before it is decoded from one extent. */
  lemma PieceCovers(inode: Inode, dev: seq<byte>, es: seq<Extent>, at: nat, m: Map)
    requires Setting(inode, dev, es) && at < inode.size && Maps(inode, es, at, false, m)
    ensures m.la <= at < m.la + m.llen
    ensures at + 1 - m.la <= es[ExtentOf(es, at)].length
    ensures m.fullMapped ==> m.llen == es[ExtentOf(es, at)].length
  {
    hide BlkNr, BlkOff, BlkPos, BlkRoundUp, Pow2, Faithful, Storable;
    var b, k := inode.B(), ExtentOf(es, at);
    BlkSplit(at, b);
    BlkPosNext(BlkNr(at, b), b);
  }

  /** What decoding extent `k` yields is the file's data. */
  lemma DecodedIsFile(inode: Inode, dev: seq<byte>, codec: Codec, es: seq<Extent>, file: seq<byte>, at: nat, m: Map,
                      length: nat, partial: bool, j: nat, v: byte)
    requires FileStored(inode, dev, codec, es, file) && at < inode.size && Maps(inode, es, at, false, m)
    requires length == at + 1 - m.la && j < length
    requires partial == (length < m.llen || !m.fullMapped || m.partialRef)
    requires var b := inode.B();
      DecodesTo(codec, b, m.alg, DevRead(dev, m.pa, m.plen), if m.alg == INTERLACED then BlkOff(m.la, b) else 0,
                length, partial, j, v)
    ensures m.la + j < |file| && v == file[m.la + j]
  {
    hide BlkNr, BlkOff, BlkPos, BlkRoundUp, Pow2, Faithful, Storable, DevRead;
    PieceCovers(inode, dev, es, at, m);
    var b, k := inode.B(), ExtentOf(es, at);
    var data := ExtentData(es, file, k);
    DataLength(es, file, k);
    assert ExtentStored(inode, dev, codec, es, file, k);
    hide Pos, ExtentData;
    if es[k].raw {
      StorableAt(b, inode.big, es, k);
      RawFits(b, inode.big, es, k, at);
      if !inode.interlaced {
        BlkPosNext(0, b);
        BlkUnique(j, b, 0, j);
        assert BlkOff(0 + j, b) == j;
      }
    } else if partial {
      assert codec(inode.alg, DevRead(dev, m.pa, m.plen), length, true) == Ok(data[..length]);
    }
  }

  /** Such an extent can be decoded. */
  lemma FileDecodable(inode: Inode, dev: seq<byte>, codec: Codec, es: seq<Extent>, file: seq<byte>, at: nat, m: Map,
                      length: nat, partial: bool)
    requires FileStored(inode, dev, codec, es, file) && at < inode.size && Maps(inode, es, at, false, m)
    requires length == at + 1 - m.la
    requires partial == (length < m.llen || !m.fullMapped || m.partialRef)
    ensures inode.B() <= m.plen && Decodable(codec, inode.B(), m.alg, DevRead(dev, m.pa, m.plen), length, partial)
  {
    hide BlkNr, BlkOff, BlkPos, BlkRoundUp, Pow2, Faithful, Storable, DevRead;
    PieceCovers(inode, dev, es, at, m);
    var b, k := inode.B(), ExtentOf(es, at);
    var data := ExtentData(es, file, k);
    DataLength(es, file, k);
    assert ExtentStored(inode, dev, codec, es, file, k);
    StorableAt(b, inode.big, es, k);
    BlkPosNext(0, b);
    BlkPosMonotone(1, es[k].compressedblks, b);
    if es[k].raw {
      RawFits(b, inode.big, es, k, at);
    } else if partial {
      assert codec(inode.alg, DevRead(dev, m.pa, m.plen), length, true) == Ok(data[..length]);
    }
  }

  lemma FileIsSetting(inode: Inode, dev: seq<byte>, codec: Codec, es: seq<Extent>, file: seq<byte>)
    requires FileStored(inode, dev, codec, es, file)
    ensures Setting(inode, dev, es) && |file| == inode.size && |es| > 0
  {
  }

  /** What reading byte `at` should give: the file's byte, or zero past its end. */
  function FileByte(file: seq<byte>, at: nat): byte {
    if at < |file| then file[at] else 0
  }

  /**
   * `z_erofs_read_data`: the backward loop fills the buffer with the file's bytes from `offset` on.
   * A piece that does not end at the byte asked for trips only a debug assertion in the source.
   */
  method Read(inode: Inode, dev: seq<byte>, codec: Codec, buffer: array<byte>, offset: nat,
              ghost es: seq<Extent>, ghost file: seq<byte>)
    returns (err: nat)
    requires inode.blkbits >= 5
    modifies buffer
    ensures FileStored(inode, dev, codec, es, file) ==>
      err == 0 && forall i :: 0 <= i < buffer.Length ==> buffer[i] == FileByte(file, offset + i)
  {
    hide BlkNr, BlkOff, BlkPos, BlkRoundUp, Pow2, FileStored, Maps, DevRead, Setting, Decodable, DecodesTo;
    ghost var good := FileStored(inode, dev, codec, es, file);
    if good {
      FileIsSetting(inode, dev, codec, es, file);
    }
    var end := offset + buffer.Length;
    while end > offset
      invariant end <= offset + buffer.Length
      invariant good ==> forall i :: 0 <= i < buffer.Length && end <= offset + i ==> buffer[i] == FileByte(file, offset + i)
      decreases end
    {
      if end - 1 >= inode.size {
        var la := inode.size;
        var from := Max(la, offset);
        ZeroFill(buffer, from - offset, end - from);
        end := la;
        continue;
      }
      var r := DoMapBlocks(inode, dev, end - 1, false, es);
      if r.Err? {
        return r.error;
      }
      var m := r.value;
      ghost var at := end - 1;
      if good {
        PieceCovers(inode, dev, es, at, m);
        FileDecodable(inode, dev, codec, es, file, at, m, end - m.la,
                      end < m.la + m.llen || !m.fullMapped || m.partialRef);
      }
      if end > m.la + m.llen || m.la >= end || m.plen < inode.B() {
        return EFSCORRUPTED;
      }
      var length, trimmed := end - m.la, end < m.la + m.llen;
      var skip := if m.la < offset then offset - m.la else 0;
      var partial := trimmed || !m.fullMapped || m.partialRef;
      var from := m.la + skip;
      var input := DevRead(dev, m.pa, m.plen);
      err := Decompress(codec, inode.B(), m.alg, input, if m.alg == INTERLACED then BlkOff(m.la, inode.B()) else 0,
                        skip, length, partial, buffer, from - offset);
      if err != 0 {
        return;
      }
      if good {
        forall i | 0 <= i < buffer.Length && from <= offset + i <= at
          ensures buffer[i] == FileByte(file, offset + i)
        {
          DecodedIsFile(inode, dev, codec, es, file, at, m, length, partial, offset + i - m.la, buffer[i]);
        }
      }
      end := from;
    }
    err := 0;
  }
}
