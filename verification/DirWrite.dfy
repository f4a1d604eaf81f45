/** Sizing and writing directories (`lib/inode.c`). */
module DirWrite {
  import opened Arithmetic
  import opened Bytes
  import opened DirBlock

  predicate DirBlockSize(b: nat) {
    512 <= b <= MAX_BLOCK
  }

  function Last<T>(s: seq<T>): T
    requires s != []
  {
    s[|s| - 1]
  }

  /** The blocks of a directory: every entry goes into the last block if it still fits. */
  function Pack(es: seq<Entry>, b: nat): (bs: seq<seq<Entry>>)
    ensures bs == [] <==> es == []
    ensures forall j :: 0 <= j < |bs| ==> bs[j] != []
  {
    if es == [] then []
    else
      var bs, e := Pack(es[..|es| - 1], b), Last(es);
      if bs == [] || Used(Last(bs)) + DIRENT + |e.name| > b then bs + [[e]] else bs[..|bs| - 1] + [Last(bs) + [e]]
  }

  function Flatten<T>(bs: seq<seq<T>>): seq<T> {
    if bs == [] then [] else Flatten(bs[..|bs| - 1]) + Last(bs)
  }

  lemma UsedAppend(es: seq<Entry>, e: Entry)
    ensures Used(es + [e]) == Used(es) + DIRENT + |e.name|
    ensures Used([e]) == DIRENT + |e.name| && Used([]) == 0
  {
    assert (es + [e])[..|es|] == es;
    assert [e][..0] == [];
    assert NameBytes([e]) == NameBytes([e][..0]) + |e.name|;
  }

  lemma FlattenSnoc<T>(bs: seq<seq<T>>, x: seq<T>)
    ensures Flatten(bs + [x]) == Flatten(bs) + x
  {
    assert (bs + [x])[..|bs|] == bs;
  }

  lemma PackSnoc(es: seq<Entry>, b: nat)
    requires es != []
    ensures var bs, e := Pack(es[..|es| - 1], b), Last(es);
            Pack(es, b)
              == if bs == [] || Used(Last(bs)) + DIRENT + |e.name| > b then bs + [[e]] else bs[..|bs| - 1] + [Last(bs) + [e]]
  {
  }

  /** The blocks hold all entries in their order. */
  lemma {:induction false} PackFlat(es: seq<Entry>, b: nat)
    ensures Flatten(Pack(es, b)) == es
  {
    if es == [] {
      assert Pack(es, b) == [];
    } else {
      var init, e := es[..|es| - 1], Last(es);
      PackFlat(init, b);
      PackSnoc(es, b);
      hide Pack, Used, Flatten;
      var bs := Pack(init, b);
      assert es == init + [e];
      if bs == [] || Used(Last(bs)) + DIRENT + |e.name| > b {
        FlattenSnoc(bs, [e]);
      } else {
        var k := |bs| - 1;
        assert bs == bs[..k] + [Last(bs)];
        FlattenSnoc(bs[..k], Last(bs));
        FlattenSnoc(bs[..k], Last(bs) + [e]);
      }
    }
  }

  lemma OneMoreOk(es: seq<Entry>, e: Entry)
    requires EntryOk(e)
    ensures EntriesOk(es) ==> EntriesOk(es + [e])
    ensures |e.name| <= NAME_LEN && [] + [e] == [e]
  {
  }

  /** No block is overfull. */
  lemma {:induction false} PackOk(es: seq<Entry>, b: nat)
    requires EntriesOk(es) && DirBlockSize(b)
    ensures forall j :: 0 <= j < |Pack(es, b)| ==> Used(Pack(es, b)[j]) <= b && EntriesOk(Pack(es, b)[j])
  {
    if es == [] {
      assert Pack(es, b) == [];
    } else {
      var init, e := es[..|es| - 1], Last(es);
      PackOk(init, b);
      PackSnoc(es, b);
      assert EntryOk(e);
      hide Pack, Used, EntryOk;
      var bs := Pack(init, b);
      UsedAppend([], e);
      OneMoreOk([], e);
      if bs != [] {
        UsedAppend(Last(bs), e);
        OneMoreOk(Last(bs), e);
      }
    }
  }

  /** A block is closed only when the next entry does not fit any more. */
  lemma {:induction false} PackGreedy(es: seq<Entry>, b: nat, j: nat)
    requires j + 1 < |Pack(es, b)|
    ensures Pack(es, b)[j + 1] != [] && Used(Pack(es, b)[j]) + DIRENT + |Pack(es, b)[j + 1][0].name| > b
  {
    var init := es[..|es| - 1];
    PackSnoc(es, b);
    hide Used, Pack;
    var bs := Pack(init, b);
    if j + 1 < |bs| {
      PackGreedy(init, b, j);
    }
  }

  /** The size of a directory with these blocks. */
  function DirSize(bs: seq<seq<Entry>>, b: nat): nat {
    if bs == [] then 0 else BlkPos(|bs| - 1, b) + Used(Last(bs))
  }

  lemma PackNext(es: seq<Entry>, i: nat, b: nat)
    requires i < |es|
    ensures var bs, e := Pack(es[..i], b), es[i];
            Pack(es[..i + 1], b)
              == if bs == [] || Used(Last(bs)) + DIRENT + |e.name| > b then bs + [[e]] else bs[..|bs| - 1] + [Last(bs) + [e]]
  {
    assert es[..i + 1][..i] == es[..i];
  }

  lemma PrefixPackOk(es: seq<Entry>, i: nat, b: nat)
    requires EntriesOk(es) && DirBlockSize(b) && 0 < i <= |es|
    ensures Pack(es[..i], b) != [] && DIRENT < Used(Last(Pack(es[..i], b))) <= b
  {
    PackOk(es[..i], b);
    var x := Last(Pack(es[..i], b));
    assert EntryOk(Last(x)) by { assert EntriesOk(x); }
    UsedAppend(x[..|x| - 1], Last(x));
    assert x[..|x| - 1] + [Last(x)] == x;
  }

  /** How full the last block is, from the size. */
  lemma SizeInBlock(k: nat, used: nat, b: nat)
    requires b > 0 && 0 < used <= b
    ensures BlkOff(BlkPos(k, b) + used, b) == if used == b then 0 else used
    ensures BlkNr(BlkPos(k, b) + used, b) == if used == b then k + 1 else k
    ensures RoundUp(BlkPos(k, b) + used, b) == BlkPos(k + 1, b)
  {
    BlkPosNext(k, b);
    if used == b {
      BlkUnique(BlkPos(k, b) + used, b, k + 1, 0);
    } else {
      BlkUnique(BlkPos(k, b) + used, b, k, used);
    }
    var x := BlkPos(k, b) + used;
    assert x + (b - 1) == (k + 1) * b + (used - 1);
    DivModUnique(x + (b - 1), b, k + 1, used - 1);
  }

  /** The size part of `erofs_prepare_dir_file`; the entries are sorted. */
  method PrepareDirFile(es: seq<Entry>, b: nat) returns (size: nat, idata: nat)
    requires EntriesOk(es) && DirBlockSize(b)
    ensures size == DirSize(Pack(es, b), b) && idata == size % b
  {
    hide Pack, Used, BlkOff, BlkPos, RoundUp;
    size := 0;
    assert es[..0] == [] && Pack(es[..0], b) == [];
    for i := 0 to |es|
      invariant size == DirSize(Pack(es[..i], b), b)
    {
      var bs := Pack(es[..i], b);
      var len := |es[i].name| + DIRENT;
      PackNext(es, i, b);
      UsedAppend([], es[i]);
      assert EntryOk(es[i]);
      if i > 0 {
        PrefixPackOk(es, i, b);
        SizeInBlock(|bs| - 1, Used(Last(bs)), b);
        UsedAppend(Last(bs), es[i]);
        BlkPosNext(|bs| - 1, b);
      } else {
        BlkPosNext(0, b);
        BlkUnique(0, b, 0, 0);
      }
      if BlkOff(size, b) + len > b {
        size := RoundUp(size, b);
      }
      size := size + len;
    }
    assert es[..|es|] == es;
    idata := size % b;
  }

  // ----- writing -----------------------------------------------------------------------

  /** Whole blocks, one behind the other. */
  ghost predicate BlocksIn(main: seq<byte>, bs: seq<seq<Entry>>, b: nat) {
    && |main| == BlkPos(|bs|, b)
    && forall j: nat :: j < |bs| ==> BlockIn(main, j, bs[j], b)
  }

  ghost predicate BlockIn(main: seq<byte>, j: nat, x: seq<Entry>, b: nat) {
    BlkPos(j, b) + b <= |main| && IsBlock(main[BlkPos(j, b)..BlkPos(j, b) + b], x)
  }

  lemma BlocksAppend(main: seq<byte>, bs: seq<seq<Entry>>, blk: seq<byte>, x: seq<Entry>, b: nat)
    requires BlocksIn(main, bs, b) && |blk| == b && IsBlock(blk, x)
    ensures BlocksIn(main + blk, bs + [x], b)
  {
    hide BlkPos, IsBlock;
    BlkPosNext(|bs|, b);
    forall j: nat | j < |bs| + 1
      ensures BlockIn(main + blk, j, (bs + [x])[j], b)
    {
      var p := BlkPos(j, b);
      if j < |bs| {
        assert BlockIn(main, j, bs[j], b);
        assert (main + blk)[p..p + b] == main[p..p + b];
      } else {
        assert (main + blk)[p..p + b] == blk;
      }
    }
  }

  lemma NoBlocks(b: nat)
    ensures BlocksIn([], [], b)
  {
  }

  lemma OneEntryOk(es: seq<Entry>, i: nat)
    requires EntriesOk(es) && i < |es|
    ensures EntryOk(es[i])
  {
  }

  /** A written directory: whole blocks, and the used part of the last one unless it is full. */
  ghost predicate Written(main: seq<byte>, idata: seq<byte>, bs: seq<seq<Entry>>, b: nat) {
    if idata == [] then BlocksIn(main, bs, b) && (bs != [] ==> Used(Last(bs)) == b)
    else bs != [] && BlocksIn(main, bs[..|bs| - 1], b) && |idata| == Used(Last(bs)) < b && IsBlock(idata, Last(bs))
  }

  /** `erofs_write_dir_file`: the blocks that it writes and the tail that it leaves to be inlined. */
  method WriteDirFile(es: seq<Entry>, b: nat) returns (main: seq<byte>, idata: seq<byte>)
    requires EntriesOk(es) && DirBlockSize(b)
    ensures Written(main, idata, Pack(es, b), b)
  {
    hide Pack, Used, BlkPos, IsBlock, BlocksIn, EntriesOk;
    main, idata := [], [];
    var head, q, used := 0, 0, 0;
    assert es[..0] == [] && Pack(es[..0], b) == [];
    NoBlocks(b);
    UsedAppend([], Entry([], 0, 0));
    for i := 0 to |es|
      invariant head <= i && q == DIRENT * (i - head) && used == Used(es[head..i]) && (i == 0 ==> used == 0)
      invariant i > 0 ==> head < i && Pack(es[..i], b) != [] && Last(Pack(es[..i], b)) == es[head..i]
      invariant BlocksIn(main, if i == 0 then [] else Pack(es[..i], b)[..|Pack(es[..i], b)| - 1], b)
    {
      ghost var bs := Pack(es[..i], b);
      var len := |es[i].name| + DIRENT;
      PackNext(es, i, b);
      OneEntryOk(es, i);
      if i > 0 { PrefixPackOk(es, i, b); }
      if used + len > b {
        var buf := FillDirblock(b, q, es[head..i]);
        BlocksAppend(main, bs[..|bs| - 1], buf[..], es[head..i], b);
        assert bs[..|bs| - 1] + [es[head..i]] == bs;
        main := main + buf[..];
        head, q, used := i, 0, 0;
        assert es[i..i] == [];
      }
      UsedAppend(es[head..i], es[i]);
      assert es[head..i + 1] == es[head..i] + [es[i]];
      used := used + len;
      q := q + DIRENT;
    }
    ghost var bs := Pack(es, b);
    assert es[..|es|] == es;
    if |es| > 0 { PrefixPackOk(es, |es|, b); }
    if used == b {
      var buf := FillDirblock(b, q, es[head..]);
      BlocksAppend(main, bs[..|bs| - 1], buf[..], es[head..], b);
      assert bs[..|bs| - 1] + [es[head..]] == bs;
      main := main + buf[..];
    } else if used > 0 {
      var buf := FillDirblock(used, q, es[head..]);
      idata := buf[..];
    }
  }

  /** The computed size, the number of whole blocks and the size of the inline tail are what is written. */
  lemma WrittenSize(main: seq<byte>, idata: seq<byte>, bs: seq<seq<Entry>>, b: nat)
    requires b > 0 && Written(main, idata, bs, b)
    ensures |main| + |idata| == DirSize(bs, b)
    ensures |main| == BlkPos(BlkNr(DirSize(bs, b), b), b) && |idata| == DirSize(bs, b) % b
  {
    hide Used, IsBlock;
    if bs == [] {
      BlkPosNext(0, b);
      BlkUnique(0, b, 0, 0);
      DivModUnique(0, b, 0, 0);
    } else {
      var used := Used(Last(bs));
      if idata == [] || used > 0 {
        SizeInBlock(|bs| - 1, used, b);
        BlkPosNext(|bs| - 1, b);
      }
    }
  }
}
