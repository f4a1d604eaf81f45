/** Writing whole blocks (`kite_deflate_sendtrees`, `kite_deflate_writeblock`). */
module BlockWriter {
  import opened Arithmetic
  import opened Bits
  import opened PrefixCode
  import opened CodeWriter
  import opened RunLengths
  import opened Slots
  import opened Inflate
  import opened MatchFinder
  import opened DeflateBlock
  import opened DynamicBlock
  import opened BlockTables

  /** The parts of `kite_deflate_init_once` that make the fixed codes. */
  method InitFixedCodes() returns (mainCodes: seq<nat>, distCodes: seq<nat>)
    ensures ReversedTable(FixedLitLens(), mainCodes) && ReversedTable(FixedDistLens(), distCodes)
  {
    hide Count, Used, Feasible, Canonical, ReversedTable, FixedLitLens, FixedDistLens, ReverseOne;
    var blCount: seq<nat> := [0, 0, 0, 0, 0, 0, 0, 24, 152, 112, 0, 0, 0, 0, 0, 0, 0];
    forall l: nat { FixedCounts(l); }
    FixedComplete();
    FixedBounded();
    var p := new nat[288];
    var complete := GenHuffCodes(FixedLitLens(), p, blCount);
    assert complete;
    mainCodes := ReverseCodes(p[..], FixedLitLens());
    var table := new nat[288];
    for i := 0 to 288
      invariant forall k :: 0 <= k < i ==> table[k] == ReverseOne(k, 5)
    {
      table[i] := ReverseOne(i, 5);
    }
    distCodes := table[..];
    FixedDistReversed(distCodes);
  }

  lemma FixedBounded()
    ensures forall k :: 0 <= k < |FixedLitLens()| ==> FixedLitLens()[k] <= MAX_LEN
  {
  }

  lemma FixedDistReversed(codes: seq<nat>)
    requires |codes| == 288 && forall k :: 0 <= k < 288 ==> codes[k] == ReverseOne(k, 5)
    ensures ReversedTable(FixedDistLens(), codes)
  {
    hide Feasible, ReverseOne, Code;
    FixedComplete();
    forall k | 0 <= k < 32
      ensures codes[k] == ReverseOne(Code(FixedDistLens(), k), FixedDistLens()[k])
    {
      FixedDistCode(k);
    }
  }

  /** Writes a code and extra bits. */
  method WriteCoded(w: BitWriter, codes: seq<nat>, lens: seq<nat>, k: nat, v: nat, bits: nat)
    requires w.Valid() && ReversedTable(lens, codes) && k < |lens| && lens[k] > 0 && bits <= 16 && v < Pow2(bits)
    requires |w.Written()| + lens[k] + bits <= 8 * w.out.Length
    modifies w, w.out
    ensures w.Valid() && w.Written() == old(w.Written()) + (SymbolBits(lens, k) + ToBits(v, bits))
  {
    hide ReversedTable, SymbolBits, ToBits, Pow2;
    ghost var start := w.Written();
    WriteSymbol(w, codes, lens, k);
    w.WriteBits(v, bits);
    assert start + SymbolBits(lens, k) + ToBits(v, bits) == start + (SymbolBits(lens, k) + ToBits(v, bits));
  }

  /** The writes for one symbol. */
  method WriteItem(w: BitWriter, mainCodes: seq<nat>, distCodes: seq<nat>, lit: seq<nat>, dist: seq<nat>,
                   m: Match)
    requires w.Valid() && Recordable(m) && ReversedTable(lit, mainCodes) && ReversedTable(dist, distCodes)
    requires Coded(lit, dist, m) && |w.Written()| + |ItemBits(lit, dist, m)| <= 8 * w.out.Length
    modifies w, w.out
    ensures w.Valid() && w.Written() == old(w.Written()) + ItemBits(lit, dist, m)
  {
    hide ReversedTable, SymbolBits, ToBits, Pow2, LenSlotOf, DistSlotOf, LenStart, LenExtra, DistStart, DistExtra;
    ghost var start := w.Written();
    if m.len < MATCH_MIN_LEN {
      WriteSymbol(w, mainCodes, lit, m.dist);
    } else {
      var lenSlot, distSlot := LenSlotOf(m), DistSlotOf(m);
      var lc := m.len - MATCH_MIN_LEN;
      ExtraBitsFit(m);
      WriteCoded(w, mainCodes, lit, END_OF_BLOCK + 1 + lenSlot, lc - LenStart(lenSlot), LenExtra(lenSlot));
      WriteCoded(w, distCodes, dist, distSlot, m.dist - 1 - DistStart(distSlot), DistExtra(distSlot));
      Joined(start, SymbolBits(lit, END_OF_BLOCK + 1 + lenSlot), ToBits(lc - LenStart(lenSlot), LenExtra(lenSlot)),
             SymbolBits(dist, distSlot), ToBits(m.dist - 1 - DistStart(distSlot), DistExtra(distSlot)));
    }
  }

  lemma Joined(s: seq<bool>, a: seq<bool>, b: seq<bool>, c: seq<bool>, d: seq<bool>)
    ensures s + (a + b) + (c + d) == s + (a + b + c + d)
  {
  }

  lemma ExtraBitsFit(m: Match)
    requires Recordable(m) && !IsLiteral(m)
    ensures var s, d := LenSlotOf(m), DistSlotOf(m);
      && s < LEN_SLOTS && d < DIST_SLOTS && LenExtra(s) <= 16 && DistExtra(d) <= 16
      && 0 <= m.len - MATCH_MIN_LEN - LenStart(s) < Pow2(LenExtra(s))
      && 0 <= m.dist - 1 - DistStart(d) < Pow2(DistExtra(d))
  {
    hide LenStart, DistStart, Pow2;
    LengthTable(LenSlotOf(m));
    DistanceTable(DistSlotOf(m));
  }

  lemma {:induction false} BodyFits(lit: seq<nat>, dist: seq<nat>, syms: seq<Match>, n: nat)
    requires AllRecordable(syms) && n <= |syms|
    ensures |ItemsBits(lit, dist, syms[..n])| <= |ItemsBits(lit, dist, syms)|
    decreases |syms|
  {
    hide ItemBits;
    if n < |syms| {
      BodyFits(lit, dist, syms[..|syms| - 1], n);
      assert syms[..|syms| - 1][..n] == syms[..n];
    } else {
      assert syms[..n] == syms;
    }
  }

  lemma NextItem(lit: seq<nat>, dist: seq<nat>, syms: seq<Match>, n: nat, start: seq<bool>)
    requires AllRecordable(syms) && n < |syms|
    ensures start + ItemsBits(lit, dist, syms[..n + 1])
              == start + ItemsBits(lit, dist, syms[..n]) + ItemBits(lit, dist, syms[n])
    ensures |ItemsBits(lit, dist, syms[..n])| + |ItemBits(lit, dist, syms[n])| <= |ItemsBits(lit, dist, syms)|
  {
    hide ItemBits;
    assert syms[..n + 1][..n] == syms[..n];
    BodyFits(lit, dist, syms, n + 1);
  }

  /** The loop of `kite_deflate_writeblock` and the end of the block. */
  method WriteBody(w: BitWriter, mainCodes: seq<nat>, distCodes: seq<nat>, lit: seq<nat>, dist: seq<nat>,
                   syms: seq<Match>)
    requires w.Valid() && AllRecordable(syms) && AllCoded(lit, dist, syms)
    requires ReversedTable(lit, mainCodes) && ReversedTable(dist, distCodes)
    requires |w.Written()| + |BodyBits(lit, dist, syms)| <= 8 * w.out.Length
    modifies w, w.out
    ensures w.Valid() && w.Written() == old(w.Written()) + BodyBits(lit, dist, syms)
  {
    hide ReversedTable, SymbolBits, ItemBits, ItemsBits, Coded, Recordable;
    ghost var start := w.Written();
    NoItems(lit, dist, start);
    assert syms[..0] == [];
    for i := 0 to |syms|
      invariant w.Valid() && w.Written() == start + ItemsBits(lit, dist, syms[..i])
    {
      NextItem(lit, dist, syms, i, start);
      assert Coded(lit, dist, syms[i]);
      WriteItem(w, mainCodes, distCodes, lit, dist, syms[i]);
    }
    assert syms[..|syms|] == syms;
    WriteSymbol(w, mainCodes, lit, END_OF_BLOCK);
    assert start + ItemsBits(lit, dist, syms) + SymbolBits(lit, END_OF_BLOCK) == start + BodyBits(lit, dist, syms);
  }

  lemma NoItems(lit: seq<nat>, dist: seq<nat>, start: seq<bool>)
    ensures start + ItemsBits(lit, dist, []) == start
  {
  }

  /** The loop of `kite_deflate_sendtrees` over the code length alphabet. */
  method SendLevels(w: BitWriter, cl: seq<nat>, n: nat)
    requires w.Valid() && LevelsTrimmed(cl, n) && |w.Written()| + 3 * n <= 8 * w.out.Length
    modifies w, w.out
    ensures w.Valid() && w.Written() == old(w.Written()) + LevelBits(cl, n)
  {
    hide ToBits, OrderAt;
    ghost var start := w.Written();
    assert start + LevelBits(cl, 0) == start;
    assert Pow2(3) == 8;
    for i := 0 to n
      invariant w.Valid() && w.Written() == start + LevelBits(cl, i)
    {
      assert start + LevelBits(cl, i + 1) == start + LevelBits(cl, i) + ToBits(cl[OrderAt(i)], 3);
      w.WriteBits(cl[OrderAt(i)], 3);
    }
  }

  /** The header and the three counts of a dynamic block. */
  method SendHeader(w: BitWriter, t: Table, final: bool)
    requires w.Valid() && TableShape(t) && |w.Written()| + 17 <= 8 * w.out.Length
    modifies w, w.out
    ensures w.Valid()
    ensures w.Written() == old(w.Written()) + ToBits(4 + Flag(final), 3)
                           + (ToBits(t.numlitlens - 257, 5) + ToBits(t.numdistlens - 1, 5) + ToBits(t.numblcodes - 4, 4))
  {
    hide ToBits;
    ghost var start := w.Written();
    assert Pow2(3) == 8 && Pow2(4) == 16 && Pow2(5) == 32 by { SmallPowers(); }
    hide Pow2;
    w.WriteBits(4 + Flag(final), 3);
    w.WriteBits(t.numlitlens - 257, 5);
    w.WriteBits(t.numdistlens - 1, 5);
    w.WriteBits(t.numblcodes - 4, 4);
    ghost var h := start + ToBits(4 + Flag(final), 3);
    JoinedThree(h, ToBits(t.numlitlens - 257, 5), ToBits(t.numdistlens - 1, 5), ToBits(t.numblcodes - 4, 4));
  }

  lemma JoinedThree(s: seq<bool>, a: seq<bool>, b: seq<bool>, c: seq<bool>)
    ensures s + a + b + c == s + (a + b + c)
  {
  }

  /** The two trees. */
  method SendBoth(w: BitWriter, codes: seq<nat>, t: Table)
    requires w.Valid() && TableShape(t) && ReversedTable(t.levelLens, codes)
    requires Writable(t.levelLens, LitTokens(t)) && Writable(t.levelLens, DistTokens(t))
    requires |w.Written()| + |TokensBits(t.levelLens, LitTokens(t))| + |TokensBits(t.levelLens, DistTokens(t))| <= 8 * w.out.Length
    modifies w, w.out
    ensures w.Valid()
    ensures w.Written() == old(w.Written()) + (TokensBits(t.levelLens, LitTokens(t)) + TokensBits(t.levelLens, DistTokens(t)))
  {
    hide ReversedTable, TokensBits, Tokens, Writable;
    ghost var start, a, b := w.Written(), TokensBits(t.levelLens, LitTokens(t)), TokensBits(t.levelLens, DistTokens(t));
    SendTree(w, codes, t.levelLens, t.litLenLevels[..t.numlitlens]);
    SendTree(w, codes, t.levelLens, t.distLevels[..t.numdistlens]);
    assert start + a + b == start + (a + b);
  }

  /** `kite_deflate_sendtrees`; the level codes are reversed on the way. */
  method SendTrees(w: BitWriter, t: Table, final: bool) returns (t': Table)
    requires w.Valid() && TableOk(t) && Canonical(t.levelLens, t.levelCodes) && |t.levelCodes| == CODE_LENGTHS
    requires |w.Written()| + 3 + |TreesBits(t)| <= 8 * w.out.Length
    modifies w, w.out
    ensures w.Valid() && w.Written() == old(w.Written()) + ToBits(4 + Flag(final), 3) + TreesBits(t)
    ensures t' == t.(levelCodes := t'.levelCodes) && |t'.levelCodes| == |t.levelCodes|
  {
    hide ToBits, Canonical, ReversedTable, Feasible, LevelBits, TokensBits, Tokens, Writable, LevelsTrimmed;
    ghost var start := w.Written() + ToBits(4 + Flag(final), 3);
    SendHeader(w, t, final);
    SendLevels(w, t.levelLens, t.numblcodes);
    LevelsBounded(t.levelLens, t.numblcodes);
    var codes := ReverseCodes(t.levelCodes, t.levelLens);
    t' := t.(levelCodes := codes);
    SendBoth(w, codes, t);
    JoinedTrees(start, ToBits(t.numlitlens - 257, 5) + ToBits(t.numdistlens - 1, 5) + ToBits(t.numblcodes - 4, 4),
                LevelBits(t.levelLens, t.numblcodes),
                TokensBits(t.levelLens, LitTokens(t)), TokensBits(t.levelLens, DistTokens(t)));
  }

  lemma LevelsBounded(cl: seq<nat>, n: nat)
    requires LevelsTrimmed(cl, n)
    ensures forall k :: 0 <= k < |cl| ==> cl[k] <= MAX_LEN
  {
  }

  lemma JoinedTrees(s: seq<bool>, a: seq<bool>, d: seq<bool>, e: seq<bool>, f: seq<bool>)
    ensures s + a + d + (e + f) == s + (a + d + (e + f))
  {
  }

  /** A block with fixed codes. */
  method WriteFixed(w: BitWriter, mainCodes: seq<nat>, distCodes: seq<nat>, final: bool, syms: seq<Match>)
    requires w.Valid() && AllRecordable(syms)
    requires ReversedTable(FixedLitLens(), mainCodes) && ReversedTable(FixedDistLens(), distCodes)
    requires |w.Written()| + |FixedBits(final, syms)| <= 8 * w.out.Length
    modifies w, w.out
    ensures w.Valid() && w.Written() == old(w.Written()) + FixedBits(final, syms)
  {
    hide ToBits, ReversedTable, BodyBits, FixedLitLens, FixedDistLens, AllCoded;
    ghost var start := w.Written();
    assert Pow2(3) == 8;
    w.WriteBits(2 + Flag(final), 3);
    FixedCoded(syms);
    WriteBody(w, mainCodes, distCodes, FixedLitLens(), FixedDistLens(), syms);
    var a, b := ToBits(2 + Flag(final), 3), BodyBits(FixedLitLens(), FixedDistLens(), syms);
    assert start + a + b == start + (a + b);
  }

  /** A block with dynamic codes; the codes of the table are reversed on the way. */
  method WriteDynamic(w: BitWriter, t: Table, final: bool, syms: seq<Match>) returns (t': Table)
    requires w.Valid() && AllRecordable(syms) && TableFor(t, syms)
    requires |w.Written()| + |DynamicBits(t, final, syms)| <= 8 * w.out.Length
    modifies w, w.out
    ensures w.Valid() && w.Written() == old(w.Written()) + DynamicBits(t, final, syms)
    ensures t' == t.(mainCodes := t'.mainCodes, distCodes := t'.distCodes, levelCodes := t'.levelCodes)
  {
    hide ToBits, TreesBits, BodyBits, Canonical, ReversedTable, Feasible, AllCoded, TableOk;
    ghost var start := w.Written();
    TableFacts(t);
    t' := SendTrees(w, t, final);
    var mainCodes := ReverseCodes(t.mainCodes, t.litLenLevels);
    var distCodes := ReverseCodes(t.distCodes, t.distLevels);
    t' := t'.(mainCodes := mainCodes, distCodes := distCodes);
    WriteBody(w, mainCodes, distCodes, t.litLenLevels, t.distLevels, syms);
    ghost var a, b, c := ToBits(4 + Flag(final), 3), TreesBits(t), BodyBits(t.litLenLevels, t.distLevels, syms);
    assert start + a + b + c == start + (a + b + c);
  }

  lemma TableFacts(t: Table)
    requires TableOk(t)
    ensures TableShape(t) && Feasible(t.litLenLevels, MAX_LEN) && Feasible(t.distLevels, MAX_LEN)
    ensures forall k :: 0 <= k < |t.litLenLevels| ==> t.litLenLevels[k] <= MAX_LEN
    ensures forall k :: 0 <= k < |t.distLevels| ==> t.distLevels[k] <= MAX_LEN
  {
  }
}
