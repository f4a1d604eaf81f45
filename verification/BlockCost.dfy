/** Symbol frequencies, and the sizes of blocks computed from them. */
module BlockCost {
  import opened Arithmetic
  import opened Bits
  import opened Options
  import opened PrefixCode
  import opened CodeWriter
  import opened RunLengths
  import opened Slots
  import opened Inflate
  import opened MatchFinder
  import opened DeflateBlock
  import opened DynamicBlock
  import opened Huffman
  import opened HuffmanTree

  /** `kLenExtraBits32` and `kDistExtraBits` */
  function LenExtras(): (s: seq<nat>)
    ensures |s| == LEN_SLOTS
  {
    LEN_EXTRA
  }

  function DistExtras(): (s: seq<nat>)
    ensures |s| == DIST_SLOTS
  {
    DIST_EXTRA
  }

  function Bump(freqs: seq<nat>, k: nat): (r: seq<nat>)
    requires k < |freqs|
    ensures |r| == |freqs|
  {
    freqs[k := freqs[k] + 1]
  }

  /** Frequencies of the literal and length alphabet, with one end of block. */
  function MainFreqs(syms: seq<Match>): (f: seq<nat>)
    requires AllRecordable(syms)
    ensures |f| == MAIN_TABLE_SIZE
  {
    if syms == [] then Copies(MAIN_TABLE_SIZE, 0)[END_OF_BLOCK := 1]
    else Bump(MainFreqs(syms[..|syms| - 1]), MainSymbol(syms[|syms| - 1]))
  }

  /** Frequencies of the distance alphabet. */
  function DistFreqs(syms: seq<Match>): (f: seq<nat>)
    requires AllRecordable(syms)
    ensures |f| == DIST_SLOTS
  {
    if syms == [] then Copies(DIST_SLOTS, 0)
    else
      var f := DistFreqs(syms[..|syms| - 1]);
      var m := syms[|syms| - 1];
      if IsLiteral(m) then f else Bump(f, DistSlotOf(m))
  }

  /** `Huffman_GetPrice`, as a sum over the first `n` symbols. */
  function Price(freqs: seq<nat>, lens: seq<nat>, n: nat): nat
    requires n <= |freqs| && n <= |lens|
  {
    if n == 0 then 0 else Price(freqs, lens, n - 1) + freqs[n - 1] * lens[n - 1]
  }

  /** The loop of `Huffman_GetPrice`. */
  method GetPrice(freqs: seq<nat>, lens: seq<nat>, num: nat) returns (price: nat)
    requires num <= |freqs| && num <= |lens|
    ensures price == Price(freqs, lens, num)
  {
    price := 0;
    var i := 0;
    while i < num
      invariant i <= num && price == Price(freqs, lens, i)
    {
      price := price + lens[i] * freqs[i];
      i := i + 1;
    }
  }

  /** `Huffman_GetPriceEx` */
  function PriceEx(freqs: seq<nat>, lens: seq<nat>, n: nat, extra: seq<nat>, base: nat): nat
    requires base <= n <= |freqs| && n <= |lens| && n - base <= |extra|
  {
    Price(freqs, lens, n) + Price(freqs[base..], extra, n - base)
  }

  lemma {:induction false} PriceBump(freqs: seq<nat>, lens: seq<nat>, n: nat, k: nat)
    requires n <= |freqs| && n <= |lens| && k < |freqs|
    ensures Price(Bump(freqs, k), lens, n) == Price(freqs, lens, n) + (if k < n then lens[k] else 0)
  {
    if n > 0 {
      PriceBump(freqs, lens, n - 1, k);
      if k == n - 1 {
        assert (freqs[k] + 1) * lens[k] == freqs[k] * lens[k] + lens[k];
      }
    }
  }

  lemma PriceExBump(freqs: seq<nat>, lens: seq<nat>, n: nat, extra: seq<nat>, base: nat, k: nat)
    requires base <= n <= |freqs| && n <= |lens| && n - base <= |extra| && k < n
    ensures PriceEx(Bump(freqs, k), lens, n, extra, base)
              == PriceEx(freqs, lens, n, extra, base) + lens[k] + (if k >= base then extra[k - base] else 0)
  {
    PriceBump(freqs, lens, n, k);
    if k >= base {
      assert Bump(freqs, k)[base..] == Bump(freqs[base..], k - base);
      PriceBump(freqs[base..], extra, n - base, k - base);
    } else {
      assert Bump(freqs, k)[base..] == freqs[base..];
    }
  }

  lemma {:induction false} PriceOfNone(freqs: seq<nat>, lens: seq<nat>, n: nat)
    requires n <= |freqs| && n <= |lens| && forall k :: 0 <= k < n ==> freqs[k] == 0
    ensures Price(freqs, lens, n) == 0
  {
    if n > 0 {
      PriceOfNone(freqs, lens, n - 1);
    }
  }

  /** `opt_mainlen`: the price of all symbols, the end of the block included. */
  function BodyPrice(main: seq<nat>, dist: seq<nat>, lit: seq<nat>, distLens: seq<nat>): nat
    requires |main| == MAIN_TABLE_SIZE <= |lit| && |dist| == DIST_SLOTS <= |distLens|
  {
    PriceEx(main, lit, MAIN_TABLE_SIZE, LenExtras(), END_OF_BLOCK + 1) + PriceEx(dist, distLens, DIST_SLOTS, DistExtras(), 0)
  }

  lemma ItemSize(lit: seq<nat>, dist: seq<nat>, m: Match)
    requires Recordable(m) && MAIN_TABLE_SIZE <= |lit| && DIST_SLOTS <= |dist|
    ensures IsLiteral(m) ==> |ItemBits(lit, dist, m)| == lit[m.dist]
    ensures !IsLiteral(m) ==> var s, d := LenSlotOf(m), DistSlotOf(m);
      |ItemBits(lit, dist, m)| == lit[END_OF_BLOCK + 1 + s] + LenExtra(s) + dist[d] + DistExtra(d)
  {
  }

  /** The price computed from the frequencies is the size of the symbols' bits. */
  lemma {:induction false} BodySize(lit: seq<nat>, dist: seq<nat>, syms: seq<Match>)
    requires AllRecordable(syms) && MAIN_TABLE_SIZE <= |lit| && DIST_SLOTS <= |dist|
    ensures |BodyBits(lit, dist, syms)| == BodyPrice(MainFreqs(syms), DistFreqs(syms), lit, dist)
    decreases |syms|
  {
    hide BodyPrice, ItemBits, SymbolBits;
    if syms == [] {
      EmptyPrice(lit, dist);
    } else {
      var m, init := syms[|syms| - 1], syms[..|syms| - 1];
      BodySize(lit, dist, init);
      ItemPrice(lit, dist, m, MainFreqs(init), DistFreqs(init));
    }
  }

  /** Counting one more symbol adds the size of its bits to the price. */
  lemma ItemPrice(lit: seq<nat>, dist: seq<nat>, m: Match, f: seq<nat>, g: seq<nat>)
    requires Recordable(m) && MAIN_TABLE_SIZE <= |lit| && DIST_SLOTS <= |dist|
    requires |f| == MAIN_TABLE_SIZE && |g| == DIST_SLOTS
    ensures BodyPrice(Bump(f, MainSymbol(m)), if IsLiteral(m) then g else Bump(g, DistSlotOf(m)), lit, dist)
              == BodyPrice(f, g, lit, dist) + |ItemBits(lit, dist, m)|
  {
    hide PriceEx, ItemBits, SymbolBits, LenSlotOf, DistSlotOf, LenExtra, DistExtra, LenExtras, DistExtras, Bump;
    ItemSize(lit, dist, m);
    PriceExBump(f, lit, MAIN_TABLE_SIZE, LenExtras(), END_OF_BLOCK + 1, MainSymbol(m));
    if !IsLiteral(m) {
      ExtraIs(LenSlotOf(m), DistSlotOf(m));
      PriceExBump(g, dist, DIST_SLOTS, DistExtras(), 0, DistSlotOf(m));
    }
  }

  lemma ExtraIs(s: nat, d: nat)
    requires s < LEN_SLOTS && d < DIST_SLOTS
    ensures LenExtras()[s] == LenExtra(s) && DistExtras()[d] == DistExtra(d)
  {
  }

  lemma EmptyPrice(lit: seq<nat>, dist: seq<nat>)
    requires MAIN_TABLE_SIZE <= |lit| && DIST_SLOTS <= |dist|
    ensures BodyPrice(Copies(MAIN_TABLE_SIZE, 0)[END_OF_BLOCK := 1], Copies(DIST_SLOTS, 0), lit, dist) == lit[END_OF_BLOCK]
  {
    hide Price;
    var none := Copies(MAIN_TABLE_SIZE, 0);
    assert none[END_OF_BLOCK := 1] == Bump(none, END_OF_BLOCK);
    PriceBump(none, lit, MAIN_TABLE_SIZE, END_OF_BLOCK);
    PriceOfNone(none, lit, MAIN_TABLE_SIZE);
    PriceOfNone(none[END_OF_BLOCK := 1][END_OF_BLOCK + 1..], LenExtras(), LEN_SLOTS);
    PriceOfNone(Copies(DIST_SLOTS, 0), dist, DIST_SLOTS);
    PriceOfNone(Copies(DIST_SLOTS, 0)[0..], DistExtras(), DIST_SLOTS);
  }

  // ----- the trees ---------------------------------------------------------------------

  /** `kLevelExtraBits` */
  function LevelExtras(): (s: seq<nat>)
    ensures |s| == 3
  {
    [2, 3, 7]
  }

  /** Tokens of lengths up to 16. */
  predicate Sendable(t: Token) {
    t.Len? ==> t.len <= MAX_LEN
  }

  /** How often lengths of 16 are sent, which the price takes for repetitions. */
  function Sixteens(tokens: seq<Token>): nat {
    if tokens == [] then 0 else Sixteens(tokens[..|tokens| - 1]) + (if tokens[|tokens| - 1] == Len(16) then 1 else 0)
  }

  function Histogram(tokens: seq<Token>): (f: seq<nat>)
    ensures |f| == CODE_LENGTHS
  {
    seq(CODE_LENGTHS, x requires 0 <= x < CODE_LENGTHS => Count(Symbols(tokens), x))
  }

  lemma HistogramPush(tokens: seq<Token>, t: Token)
    requires Symbol(t) < CODE_LENGTHS
    ensures Histogram(tokens + [t]) == Bump(Histogram(tokens), Symbol(t))
  {
    var a, b := Histogram(tokens + [t]), Bump(Histogram(tokens), Symbol(t));
    assert Symbols([t]) == [Symbol(t)] && [Symbol(t)][..0] == [];
    forall x | 0 <= x < CODE_LENGTHS
      ensures a[x] == b[x]
    {
      SymbolsConcat(tokens, [t], x);
      assert Count([Symbol(t)], x) == Count([], x) + (if Symbol(t) == x then 1 else 0);
    }
  }

  /** The price of the trees is their size, and two bits more for each length of 16. */
  lemma {:induction false} TokensSize(cl: seq<nat>, tokens: seq<Token>)
    requires |cl| == CODE_LENGTHS && forall i :: 0 <= i < |tokens| ==> Sendable(tokens[i])
    ensures |TokensBits(cl, tokens)| + 2 * Sixteens(tokens)
              == PriceEx(Histogram(tokens), cl, CODE_LENGTHS, LevelExtras(), REPEAT)
    decreases |tokens|
  {
    hide PriceEx, Histogram, TokensBits, SymbolBits, LevelExtras, TokenBits;
    if tokens == [] {
      NoTokens(cl);
    } else {
      var t, init := tokens[|tokens| - 1], tokens[..|tokens| - 1];
      assert tokens == init + [t];
      TokensSize(cl, init);
      TokensBitsConcat(cl, init, [t]);
      TokenSize(cl, t);
      HistogramPush(init, t);
      PriceExBump(Histogram(init), cl, CODE_LENGTHS, LevelExtras(), REPEAT, Symbol(t));
    }
  }

  lemma TokenSize(cl: seq<nat>, t: Token)
    requires |cl| == CODE_LENGTHS && Sendable(t)
    ensures |TokensBits(cl, [t])| + (if t == Len(16) then 2 else 0)
              == cl[Symbol(t)] + (if Symbol(t) >= REPEAT then LevelExtras()[Symbol(t) - REPEAT] else 0)
  {
    hide TokensBits;
    OneToken(cl, t, []);
  }

  lemma NoTokens(cl: seq<nat>)
    requires |cl| == CODE_LENGTHS
    ensures |TokensBits(cl, [])| + 2 * Sixteens([]) == PriceEx(Histogram([]), cl, CODE_LENGTHS, LevelExtras(), REPEAT)
  {
    hide Price, LevelExtras;
    NoSymbols();
    PriceOfNone(Histogram([]), cl, CODE_LENGTHS);
    PriceOfNone(Histogram([])[REPEAT..], LevelExtras(), 3);
  }

  lemma {:induction false} NoSixteens(tokens: seq<Token>)
    requires forall i :: 0 <= i < |tokens| ==> tokens[i] != Len(16)
    ensures Sixteens(tokens) == 0
  {
    if tokens != [] {
      NoSixteens(tokens[..|tokens| - 1]);
    }
  }

  // ----- sums and numbers of symbols ----------------------------------------------------

  lemma {:induction false} SumBump(f: seq<nat>, k: nat)
    requires k < |f|
    ensures Sum(Bump(f, k)) == Sum(f) + 1
  {
    if k == |f| - 1 {
      assert Bump(f, k)[..|f| - 1] == f[..|f| - 1];
    } else {
      SumBump(f[..|f| - 1], k);
      assert Bump(f, k)[..|f| - 1] == Bump(f[..|f| - 1], k);
    }
  }

  lemma {:induction false} SumZeros(n: nat)
    ensures Sum(Copies(n, 0)) == 0
  {
    if n > 0 {
      SumZeros(n - 1);
      assert Copies(n, 0)[..n - 1] == Copies(n - 1, 0);
    }
  }

  /** Frequencies add up to the number of symbols. */
  lemma {:induction false} FreqSums(syms: seq<Match>)
    requires AllRecordable(syms)
    ensures Sum(MainFreqs(syms)) == |syms| + 1 && Sum(DistFreqs(syms)) <= |syms|
    decreases |syms|
  {
    hide MainSymbol, DistSlotOf;
    if syms == [] {
      SumZeros(MAIN_TABLE_SIZE);
      SumZeros(DIST_SLOTS);
      assert Copies(MAIN_TABLE_SIZE, 0)[END_OF_BLOCK := 1] == Bump(Copies(MAIN_TABLE_SIZE, 0), END_OF_BLOCK);
      SumBump(Copies(MAIN_TABLE_SIZE, 0), END_OF_BLOCK);
    } else {
      var m, init := syms[|syms| - 1], syms[..|syms| - 1];
      FreqSums(init);
      SumBump(MainFreqs(init), MainSymbol(m));
      if !IsLiteral(m) {
        SumBump(DistFreqs(init), DistSlotOf(m));
      }
    }
  }

  lemma {:induction false} HistogramSum(tokens: seq<Token>)
    requires forall i :: 0 <= i < |tokens| ==> Sendable(tokens[i])
    ensures Sum(Histogram(tokens)) == |tokens|
    decreases |tokens|
  {
    hide Histogram;
    if tokens == [] {
      EmptyHistogram();
      SumZeros(CODE_LENGTHS);
    } else {
      var t, init := tokens[|tokens| - 1], tokens[..|tokens| - 1];
      assert tokens == init + [t];
      HistogramSum(init);
      HistogramPush(init, t);
      SumBump(Histogram(init), Symbol(t));
    }
  }

  lemma EmptyHistogram()
    ensures Histogram([]) == Copies(CODE_LENGTHS, 0)
  {
    NoSymbols();
  }
}
