/** Building the codes of a dynamic block and its price (`kite_deflate_fixdynblock`), and the fixed codes. */
module BlockTables {
  import opened Arithmetic
  import opened Bits
  import opened PrefixCode
  import opened CodeWriter
  import opened RunLengths
  import opened Slots
  import opened Inflate
  import opened MatchFinder
  import opened DeflateBlock
  import opened DynamicBlock
  import opened BlockCost
  import opened Huffman
  import opened HuffmanCost
  import opened HuffmanTree

  /** What a dynamic block with these codes is accounted to cost: its size, and two bits for each length of 16. */
  ghost function DynamicCost(t: Table, syms: seq<Match>): nat
    requires AllRecordable(syms) && TableOk(t)
  {
    |DynamicBits(t, false, syms)| + 2 * Sixteens(LitTokens(t) + DistTokens(t))
  }

  /** The table has codes for all symbols, and within the standard unless it was made for many of them. */
  ghost predicate TableFor(t: Table, syms: seq<Match>)
    requires AllRecordable(syms)
  {
    && (|syms| < SURELY_STANDARD ==> WithinStandard(t))
    && TableOk(t) && AllCoded(t.litLenLevels, t.distLevels, syms)
    && |t.mainCodes| == MAIN_TABLE_SIZE && |t.distCodes| == DIST_SLOTS && |t.levelCodes| == CODE_LENGTHS
    && Canonical(t.litLenLevels, t.mainCodes) && Canonical(t.distLevels, t.distCodes) && Canonical(t.levelLens, t.levelCodes)
  }

  /** The table was made for just these symbols: its code lengths are Huffman lengths, and nothing needless is sent. */
  ghost predicate Built(t: Table, syms: seq<Match>)
    requires AllRecordable(syms)
  {
    && TableShape(t)
    && HuffmanLengths(MainFreqs(syms), MAX_LEN, t.litLenLevels) && HuffmanLengths(DistFreqs(syms), MAX_LEN, t.distLevels)
    && HuffmanLengths(Histogram(LitTokens(t) + DistTokens(t)), 7, t.levelLens)
    && (|syms| < SURELY_OPTIMAL ==> Optimal(MainFreqs(syms), t.litLenLevels) && Optimal(DistFreqs(syms), t.distLevels))
    && (t.numlitlens > 257 ==> t.litLenLevels[t.numlitlens - 1] > 0)
    && (t.numdistlens > 1 ==> t.distLevels[t.numdistlens - 1] > 0)
    && (t.numblcodes > 4 ==> t.levelLens[OrderAt(t.numblcodes - 1)] > 0)
  }

  /** For fewer symbols the limit of 16 bits is out of reach, and no codes are shorter. */
  const SURELY_OPTIMAL := 4180

  /** Blocks of fewer symbols have no code of 16 bits. */
  const SURELY_STANDARD := 2583

  /** A code of 16 bits takes a total frequency of 2584, and the end of the block counts, too. */
  lemma FewAreStandard(main: nat, dist: nat, n: nat, t: Table)
    requires main == n + 1 && dist <= n && ShortCodes(main, t.litLenLevels) && ShortCodes(dist, t.distLevels)
    ensures n < SURELY_STANDARD ==> WithinStandard(t)
  {
    FibEighteen();
    if n < SURELY_STANDARD {
      assert AtMost(t.litLenLevels, 15) && AtMost(t.distLevels, 15);
    }
  }

  lemma FibEighteen()
    ensures Fib(15 + 3) == 2584 && Fib(16 + 3) == 4181
  {
    assert Fib(6) == 8 && Fib(7) == 13;
    assert Fib(8) == 21 && Fib(9) == 34;
    assert Fib(10) == 55 && Fib(11) == 89;
    assert Fib(12) == 144 && Fib(13) == 233;
    assert Fib(14) == 377 && Fib(15) == 610;
    assert Fib(16) == 987 && Fib(17) == 1597;
  }

  lemma HuffmanFacts(freqs: seq<nat>, maxLen: nat, lens: seq<nat>)
    requires HuffmanLengths(freqs, maxLen, lens) && maxLen <= MAX_LEN
    ensures |lens| == |freqs| && Feasible(lens, MAX_LEN)
    ensures forall k :: 0 <= k < |lens| ==> lens[k] <= maxLen && (freqs[k] > 0 ==> lens[k] > 0)
  {
  }

  /** Drops trailing symbols without a code, but keeps `min`. */
  method Trim(lens: seq<nat>, min: nat) returns (n: nat)
    requires min <= |lens|
    ensures min <= n <= |lens| && Trimmed(lens, n)
    ensures n > min ==> lens[n - 1] > 0
  {
    n := |lens|;
    while n > min && lens[n - 1] == 0
      invariant min <= n <= |lens| && Trimmed(lens, n)
    {
      n := n - 1;
    }
  }

  method TrimLevels(cl: seq<nat>) returns (n: nat)
    requires LevelsTrimmed(cl, CODE_LENGTHS)
    ensures 4 <= n <= CODE_LENGTHS && LevelsTrimmed(cl, n)
    ensures n > 4 ==> cl[OrderAt(n - 1)] > 0
  {
    hide OrderAt;
    n := CODE_LENGTHS;
    while n > 4 && cl[OrderAt(n - 1)] == 0
      invariant 4 <= n <= CODE_LENGTHS && LevelsTrimmed(cl, n)
    {
      n := n - 1;
    }
  }

  /** A symbol that occurs has a frequency. */
  lemma {:induction false} Occurs(syms: seq<Match>, i: nat)
    requires AllRecordable(syms) && i < |syms|
    ensures MainFreqs(syms)[MainSymbol(syms[i])] > 0
    ensures !IsLiteral(syms[i]) ==> DistFreqs(syms)[DistSlotOf(syms[i])] > 0
    decreases |syms|
  {
    hide MainSymbol, DistSlotOf;
    if i < |syms| - 1 {
      Occurs(syms[..|syms| - 1], i);
    }
  }

  lemma {:induction false} EndOccurs(syms: seq<Match>)
    requires AllRecordable(syms)
    ensures MainFreqs(syms)[END_OF_BLOCK] > 0
    decreases |syms|
  {
    hide MainSymbol, DistSlotOf;
    if syms != [] {
      EndOccurs(syms[..|syms| - 1]);
    }
  }

  /** Codes made from the frequencies of symbols cover the symbols. */
  lemma CodesCover(syms: seq<Match>, lit: seq<nat>, dist: seq<nat>)
    requires AllRecordable(syms)
    requires HuffmanLengths(MainFreqs(syms), MAX_LEN, lit) && HuffmanLengths(DistFreqs(syms), MAX_LEN, dist)
    ensures AllCoded(lit, dist, syms)
  {
    hide HuffmanLengths, MainSymbol, DistSlotOf, MainFreqs, DistFreqs;
    HuffmanFacts(MainFreqs(syms), MAX_LEN, lit);
    HuffmanFacts(DistFreqs(syms), MAX_LEN, dist);
    EndOccurs(syms);
    forall i | 0 <= i < |syms|
      ensures Coded(lit, dist, syms[i])
    {
      Occurs(syms, i);
    }
  }

  /** The tokens of lengths up to 16 can be sent. */
  lemma {:induction false} TokensSendable(lens: seq<nat>, n: nat, prev: int, count: nat, lim: (nat, nat))
    requires n <= |lens| && lim.1 >= 1 && forall i :: 0 <= i < |lens| ==> lens[i] <= MAX_LEN
    ensures forall i :: 0 <= i < |TokensFrom(lens, n, prev, count, lim)| ==> Sendable(TokensFrom(lens, n, prev, count, lim)[i])
    decreases |lens| - n
  {
    if n < |lens| {
      if count + 1 < lim.0 && lens[n] == Next(lens, n) {
        TokensSendable(lens, n + 1, prev, count + 1, lim);
      } else {
        var run, rest := RunTokens(lens[n], prev, count + 1, lim.1),
                         TokensFrom(lens, n + 1, lens[n], 0, Limits(lens[n], Next(lens, n)));
        TokensSendable(lens, n + 1, lens[n], 0, Limits(lens[n], Next(lens, n)));
        RunLens(lens[n], prev, count + 1, lim.1);
        hide RunTokens;
        assert TokensFrom(lens, n, prev, count, lim) == run + rest;
      }
    }
  }

  lemma SendableTree(lens: seq<nat>)
    requires |lens| > 0 && forall i :: 0 <= i < |lens| ==> lens[i] <= MAX_LEN
    ensures |Tokens(lens)| <= |lens| && forall i :: 0 <= i < |Tokens(lens)| ==> Sendable(Tokens(lens)[i])
    ensures (forall i :: 0 <= i < |lens| ==> lens[i] <= 15) ==>
      forall i :: 0 <= i < |Tokens(lens)| ==> Tokens(lens)[i] != Len(16)
  {
    hide TokensFrom;
    TokensSendable(lens, 0, -1, 0, Limits(-1, lens[0]));
    RunsRoundTrip([], lens);
    ExpandGrows([], Tokens(lens));
    if forall i :: 0 <= i < |lens| ==> lens[i] <= 15 {
      TokensReadable(lens, 0, -1, 0, Limits(-1, lens[0]));
    }
  }

  /** A token that occurs has a code. */
  lemma {:induction false} TokenOccurs(tokens: seq<Token>, i: nat)
    requires i < |tokens|
    ensures Count(RunLengths.Symbols(tokens), Symbol(tokens[i])) > 0
    decreases |tokens|
  {
    var n := |tokens| - 1;
    assert RunLengths.Symbols(tokens)[..n] == RunLengths.Symbols(tokens[..n]);
    if i < n {
      TokenOccurs(tokens[..n], i);
    }
  }

  lemma TokensCovered(tokens: seq<Token>, cl: seq<nat>)
    requires HuffmanLengths(Histogram(tokens), 7, cl) && forall i :: 0 <= i < |tokens| ==> Sendable(tokens[i])
    ensures Writable(cl, tokens)
  {
    hide HuffmanLengths;
    HuffmanFacts(Histogram(tokens), 7, cl);
    forall i | 0 <= i < |tokens|
      ensures Symbol(tokens[i]) < |cl| && cl[Symbol(tokens[i])] > 0
    {
      assert Sendable(tokens[i]);
      TokenOccurs(tokens, i);
    }
  }

  /** The codes of the code length alphabet for two trees. */
  method LevelCodes(lit: seq<nat>, dist: seq<nat>) returns (freqs: seq<nat>, codes: seq<nat>, cl: seq<nat>)
    requires 0 < |lit| <= MAIN_TABLE_SIZE && 0 < |dist| <= DIST_SLOTS
    requires forall i :: 0 <= i < |lit| ==> lit[i] <= MAX_LEN
    requires forall i :: 0 <= i < |dist| ==> dist[i] <= MAX_LEN
    ensures freqs == Histogram(Tokens(lit) + Tokens(dist))
    ensures HuffmanLengths(freqs, 7, cl) && |codes| == |cl| == CODE_LENGTHS && Canonical(cl, codes)
    ensures Writable(cl, Tokens(lit)) && Writable(cl, Tokens(dist))
  {
    hide HuffmanLengths, Canonical, Tokens, Count, Sum, UsedSymbols;
    var levelFreqs := new nat[CODE_LENGTHS](_ => 0);
    ScanLens(lit, levelFreqs);
    ScanLens(dist, levelFreqs);
    ghost var ts, us := Tokens(lit), Tokens(dist);
    SendableTree(lit);
    SendableTree(dist);
    forall x | 0 <= x < CODE_LENGTHS
      ensures levelFreqs[x] == Histogram(ts + us)[x]
    {
      SymbolsConcat(ts, us, x);
    }
    freqs := levelFreqs[..];
    assert freqs == Histogram(ts + us);
    HistogramSum(ts + us);
    FewSymbols(freqs);
    assert Pow2(7) == 128 by { SmallPowers(); }
    codes, cl := Generate(freqs, 7);
    TokensCovered(ts + us, cl);
    HuffmanFacts(freqs, 7, cl);
    BothWritable(cl, ts, us);
  }

  lemma FewSymbols(freqs: seq<nat>)
    ensures UsedSymbols(freqs) <= |freqs|
  {
  }

  lemma BothWritable(cl: seq<nat>, ts: seq<Token>, us: seq<Token>)
    requires Writable(cl, ts + us)
    ensures Writable(cl, ts) && Writable(cl, us)
  {
    assert forall i :: 0 <= i < |ts| ==> ts[i] == (ts + us)[i];
    assert forall i :: 0 <= i < |us| ==> us[i] == (ts + us)[|ts| + i];
  }

  /** `kite_deflate_fixdynblock`: codes for the frequencies of `syms`, and the price of the block. */
  method BuildTable(mainFreqs: seq<nat>, distFreqs: seq<nat>, ghost syms: seq<Match>)
    returns (t: Table, costbits: nat)
    requires AllRecordable(syms) && |syms| < 0x40_0000 - 1
    requires mainFreqs == MainFreqs(syms) && distFreqs == DistFreqs(syms)
    ensures TableFor(t, syms) && Built(t, syms) && costbits == DynamicCost(t, syms)
  {
    FibEighteen();
    hide Fib, Optimal;
    hide HuffmanLengths, OrderAt, Histogram, Built, Trimmed, Tokens, Canonical, Sum, UsedSymbols, MainFreqs, DistFreqs, TableOk, AllCoded, AllRecordable, ShortCodes, Steeper, WithinStandard;
    FreqSums(syms);
    FewSymbols(mainFreqs);
    FewSymbols(distFreqs);
    assert Pow2(16) == 65536 by { Pow2Bytes(); }
    var mainCodes, lit := Generate(mainFreqs, MAX_LEN);
    var distCodes, dist := Generate(distFreqs, MAX_LEN);
    HuffmanFacts(mainFreqs, MAX_LEN, lit);
    HuffmanFacts(distFreqs, MAX_LEN, dist);
    var numlitlens := Trim(lit, 257);
    var numdistlens := Trim(dist, 1);
    var levelFreqs, levelCodes, cl := LevelCodes(lit[..numlitlens], dist[..numdistlens]);
    HuffmanFacts(levelFreqs, 7, cl);
    var numblcodes := TrimLevels(cl);
    t := Table(mainCodes, lit, distCodes, dist, levelCodes, cl, numlitlens, numdistlens, numblcodes);
    CodesCover(syms, lit, dist);
    FewAreStandard(Sum(mainFreqs), Sum(distFreqs), |syms|, t);
    TableComplete(t);
    BuiltIs(t, syms);
    costbits := PriceTable(t, mainFreqs, distFreqs, levelFreqs);
    PriceIsCost(t, syms);
  }

  lemma BuiltIs(t: Table, syms: seq<Match>)
    requires AllRecordable(syms) && TableShape(t)
    requires HuffmanLengths(MainFreqs(syms), MAX_LEN, t.litLenLevels) && HuffmanLengths(DistFreqs(syms), MAX_LEN, t.distLevels)
    requires HuffmanLengths(Histogram(LitTokens(t) + DistTokens(t)), 7, t.levelLens)
    requires |syms| < SURELY_OPTIMAL ==> Optimal(MainFreqs(syms), t.litLenLevels) && Optimal(DistFreqs(syms), t.distLevels)
    requires t.numlitlens > 257 ==> t.litLenLevels[t.numlitlens - 1] > 0
    requires t.numdistlens > 1 ==> t.distLevels[t.numdistlens - 1] > 0
    requires t.numblcodes > 4 ==> t.levelLens[OrderAt(t.numblcodes - 1)] > 0
    ensures Built(t, syms)
  {
    hide HuffmanLengths, Histogram, Tokens, MainFreqs, DistFreqs, OrderAt, AllRecordable, Optimal;
  }

  lemma TableComplete(t: Table)
    requires TableShape(t)
    requires Feasible(t.litLenLevels, MAX_LEN) && Feasible(t.distLevels, MAX_LEN) && Feasible(t.levelLens, MAX_LEN)
    requires Trimmed(t.litLenLevels, t.numlitlens) && Trimmed(t.distLevels, t.numdistlens)
    requires LevelsTrimmed(t.levelLens, t.numblcodes)
    requires Writable(t.levelLens, LitTokens(t)) && Writable(t.levelLens, DistTokens(t))
    ensures TableOk(t)
  {
  }

  /** What `costbits` is set to. */
  function TablePrice(t: Table, mainFreqs: seq<nat>, distFreqs: seq<nat>, levelFreqs: seq<nat>): nat
    requires TableShape(t) && |mainFreqs| == MAIN_TABLE_SIZE && |distFreqs| == DIST_SLOTS && |levelFreqs| == CODE_LENGTHS
  {
    3 + 5 + 5 + 4 + 3 * t.numblcodes
    + PriceEx(levelFreqs, t.levelLens, CODE_LENGTHS, LevelExtras(), REPEAT)
    + BodyPrice(mainFreqs, distFreqs, t.litLenLevels, t.distLevels)
  }

  method PriceTable(t: Table, mainFreqs: seq<nat>, distFreqs: seq<nat>, levelFreqs: seq<nat>) returns (costbits: nat)
    requires TableShape(t) && |mainFreqs| == MAIN_TABLE_SIZE && |distFreqs| == DIST_SLOTS && |levelFreqs| == CODE_LENGTHS
    ensures costbits == TablePrice(t, mainFreqs, distFreqs, levelFreqs)
  {
    hide Price, LenExtras, DistExtras, LevelExtras;
    var a := GetPrice(mainFreqs, t.litLenLevels, MAIN_TABLE_SIZE);
    var b := GetPrice(mainFreqs[END_OF_BLOCK + 1..], LenExtras(), LEN_SLOTS);
    var c := GetPrice(distFreqs, t.distLevels, DIST_SLOTS);
    var d := GetPrice(distFreqs[0..], DistExtras(), DIST_SLOTS);
    var e := GetPrice(levelFreqs, t.levelLens, CODE_LENGTHS);
    var f := GetPrice(levelFreqs[REPEAT..], LevelExtras(), 3);
    costbits := 3 + 5 + 5 + 4 + 3 * t.numblcodes + (e + f) + (a + b + (c + d));
  }

  /** The price is the cost. */
  lemma PriceIsCost(t: Table, syms: seq<Match>)
    requires AllRecordable(syms) && TableOk(t)
    ensures TablePrice(t, MainFreqs(syms), DistFreqs(syms), Histogram(LitTokens(t) + DistTokens(t)))
              == DynamicCost(t, syms)
  {
    hide Tokens, TokensBits, BodyBits, BodyPrice, PriceEx, LevelBits, ToBits, MainFreqs, DistFreqs, Histogram, LevelExtras, Sixteens;
    var ts, us := LitTokens(t), DistTokens(t);
    BodySize(t.litLenLevels, t.distLevels, syms);
    SendableTree(t.litLenLevels[..t.numlitlens]);
    SendableTree(t.distLevels[..t.numdistlens]);
    TokensSize(t.levelLens, ts + us);
    TokensBitsConcat(t.levelLens, ts, us);
  }

  /** With codes of at most 15 bits, the accounted cost is exactly the size of the block. */
  lemma CostIsExact(t: Table, syms: seq<Match>)
    requires AllRecordable(syms) && TableOk(t) && WithinStandard(t)
    ensures DynamicCost(t, syms) == |DynamicBits(t, false, syms)|
  {
    hide Tokens, DynamicBits;
    SendableTree(t.litLenLevels[..t.numlitlens]);
    SendableTree(t.distLevels[..t.numdistlens]);
    NoSixteens(LitTokens(t) + DistTokens(t));
  }

  // ----- bounds on the cost ------------------------------------------------------------

  lemma {:induction false} ItemsBound(lit: seq<nat>, dist: seq<nat>, syms: seq<Match>)
    requires AllRecordable(syms) && Feasible(lit, MAX_LEN) && Feasible(dist, MAX_LEN)
    ensures |ItemsBits(lit, dist, syms)| <= 50 * |syms|
    decreases |syms|
  {
    hide SymbolBits, Used;
    if syms != [] {
      var m := syms[|syms| - 1];
      ItemsBound(lit, dist, syms[..|syms| - 1]);
      if !IsLiteral(m) {
        LengthTable(LenSlotOf(m));
        DistanceTable(DistSlotOf(m));
      }
    }
  }

  lemma {:induction false} TokensBound(cl: seq<nat>, tokens: seq<Token>)
    requires forall k :: 0 <= k < |cl| ==> cl[k] <= 7
    ensures |TokensBits(cl, tokens)| <= 14 * |tokens|
  {
    hide SymbolBits, ToBits, TokenBits;
    if tokens != [] {
      TokenBound(cl, tokens[0]);
      TokensBound(cl, tokens[1..]);
    }
  }

  lemma TokenBound(cl: seq<nat>, t: Token)
    requires forall k :: 0 <= k < |cl| ==> cl[k] <= 7
    ensures |TokenBits(cl, t)| <= 14
  {
    hide SymbolBits, ToBits;
  }

  lemma {:induction false} SixteensBound(tokens: seq<Token>)
    ensures Sixteens(tokens) <= |tokens|
  {
    if tokens != [] {
      SixteensBound(tokens[..|tokens| - 1]);
    }
  }

  /** No block costs anywhere near `2^32` bits, and a dynamic block costs at least its header. */
  lemma CostBounds(t: Table, syms: seq<Match>)
    requires AllRecordable(syms) && TableOk(t) && |syms| <= 0x1_0000
    ensures 17 <= |DynamicBits(t, false, syms)| <= DynamicCost(t, syms) < 0xFFFF_FFFF
  {
    hide TokensBits, ItemsBits, Tokens, LevelBits, ToBits, Sixteens, SymbolBits, Used;
    var ts, us := LitTokens(t), DistTokens(t);
    ItemsBound(t.litLenLevels, t.distLevels, syms);
    SendableTree(t.litLenLevels[..t.numlitlens]);
    SendableTree(t.distLevels[..t.numdistlens]);
    TokensBound(t.levelLens, ts);
    TokensBound(t.levelLens, us);
    SixteensBound(ts + us);
  }
}
