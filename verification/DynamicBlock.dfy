/** The layout of whole blocks, and reading them back. */
module DynamicBlock {
  import opened Arithmetic
  import opened Bytes
  import opened Bits
  import opened Options
  import opened PrefixCode
  import opened CodeWriter
  import opened RunLengths
  import opened Slots
  import opened Inflate
  import opened MatchFinder
  import opened DeflateBlock

  /** `kMainTableSize` */
  const MAIN_TABLE_SIZE := 286

  /** `struct kite_deflate_table` */
  datatype Table = Table(mainCodes: seq<nat>, litLenLevels: seq<nat>, distCodes: seq<nat>, distLevels: seq<nat>,
                         levelCodes: seq<nat>, levelLens: seq<nat>,
                         numlitlens: nat, numdistlens: nat, numblcodes: nat)

  /** Lengths from `n` on are zero. */
  predicate Trimmed(lens: seq<nat>, n: nat) {
    n <= |lens| && forall k :: n <= k < |lens| ==> lens[k] == 0
  }

  /** Sizes and counts of a table. */
  predicate TableShape(t: Table) {
    && |t.litLenLevels| == MAIN_TABLE_SIZE && |t.distLevels| == DIST_SLOTS && |t.levelLens| == CODE_LENGTHS
    && 257 <= t.numlitlens <= MAIN_TABLE_SIZE && 1 <= t.numdistlens <= DIST_SLOTS && 4 <= t.numblcodes <= CODE_LENGTHS
  }

  /** The code lengths of a table can be sent. */
  ghost predicate TableOk(t: Table) {
    && TableShape(t)
    && Feasible(t.litLenLevels, MAX_LEN) && Feasible(t.distLevels, MAX_LEN) && Feasible(t.levelLens, MAX_LEN)
    && Trimmed(t.litLenLevels, t.numlitlens) && Trimmed(t.distLevels, t.numdistlens)
    && LevelsTrimmed(t.levelLens, t.numblcodes)
    && Writable(t.levelLens, LitTokens(t)) && Writable(t.levelLens, DistTokens(t))
  }

  /** Code lengths of the code length alphabet fit three bits and are zero where they are not sent. */
  predicate LevelsTrimmed(cl: seq<nat>, n: nat) {
    && |cl| == CODE_LENGTHS && n <= CODE_LENGTHS && (forall k :: 0 <= k < CODE_LENGTHS ==> cl[k] <= 7)
    && forall j :: n <= j < CODE_LENGTHS ==> cl[OrderAt(j)] == 0
  }

  function LitTokens(t: Table): seq<Token>
    requires 0 < t.numlitlens <= |t.litLenLevels|
  {
    Tokens(t.litLenLevels[..t.numlitlens])
  }

  function DistTokens(t: Table): seq<Token>
    requires 0 < t.numdistlens <= |t.distLevels|
  {
    Tokens(t.distLevels[..t.numdistlens])
  }

  /** Three bits for each of the first `n` code lengths of the code length alphabet. */
  function LevelBits(cl: seq<nat>, n: nat): (s: seq<bool>)
    requires |cl| == CODE_LENGTHS && n <= CODE_LENGTHS
    ensures |s| == 3 * n
  {
    if n == 0 then [] else LevelBits(cl, n - 1) + ToBits(cl[OrderAt(n - 1)], 3)
  }

  /** The three counts and the two trees of a dynamic block. */
  function TreesBits(t: Table): seq<bool>
    requires TableShape(t)
  {
    ToBits(t.numlitlens - 257, 5) + ToBits(t.numdistlens - 1, 5) + ToBits(t.numblcodes - 4, 4)
    + LevelBits(t.levelLens, t.numblcodes)
    + (TokensBits(t.levelLens, LitTokens(t)) + TokensBits(t.levelLens, DistTokens(t)))
  }

  function Flag(b: bool): nat { if b then 1 else 0 }

  function FixedBits(final: bool, syms: seq<Match>): seq<bool>
    requires AllRecordable(syms)
  {
    ToBits(2 + Flag(final), 3) + BodyBits(FixedLitLens(), FixedDistLens(), syms)
  }

  ghost function DynamicBits(t: Table, final: bool, syms: seq<Match>): seq<bool>
    requires AllRecordable(syms) && TableOk(t)
  {
    ToBits(4 + Flag(final), 3) + TreesBits(t) + BodyBits(t.litLenLevels, t.distLevels, syms)
  }

  // ----- the fixed codes ---------------------------------------------------------------

  lemma FixedCounts(l: nat)
    ensures Count(FixedLitLens(), l) == (if l == 7 then 24 else if l == 8 then 152 else if l == 9 then 112 else 0)
    ensures Count(FixedDistLens(), l) == (if l == 5 then 32 else 0)
  {
    var a, b, c, d := Copies(144, 8), Copies(112, 9), Copies(24, 7), Copies(8, 8);
    assert FixedLitLens() == a + b + c + d;
    CountConcat(a + b + c, d, l);
    CountConcat(a + b, c, l);
    CountConcat(a, b, l);
    CountCopies(144, 8, l);
    CountCopies(112, 9, l);
    CountCopies(24, 7, l);
    CountCopies(8, 8, l);
    CountCopies(32, 5, l);
  }

  lemma {:induction false} UsedStep(lens: seq<nat>, m: nat, n: nat, c: nat)
    requires m + 1 == n && Count(lens, n) == c
    ensures Used(lens, n) == 2 * Used(lens, m) + c
  {
  }

  /** The fixed codes use up all codes. */
  lemma FixedComplete()
    ensures Used(FixedLitLens(), MAX_LEN) == Pow2(MAX_LEN) && Used(FixedDistLens(), MAX_LEN) == Pow2(MAX_LEN)
    ensures Used(FixedDistLens(), 4) == 0
    ensures Feasible(FixedLitLens(), MAX_LEN) && Feasible(FixedDistLens(), MAX_LEN)
  {
    hide Count, Used, Pow2;
    var a, b := FixedLitLens(), FixedDistLens();
    forall l: nat { FixedCounts(l); }
    assert Used(a, 0) == 0 && Used(b, 0) == 0 by { NoCodes(a); NoCodes(b); }
    UsedStep(a, 0, 1, 0); UsedStep(a, 1, 2, 0); UsedStep(a, 2, 3, 0); UsedStep(a, 3, 4, 0);
    UsedStep(a, 4, 5, 0); UsedStep(a, 5, 6, 0); UsedStep(a, 6, 7, 24); UsedStep(a, 7, 8, 152);
    UsedStep(a, 8, 9, 112);
    UsedStep(b, 0, 1, 0); UsedStep(b, 1, 2, 0); UsedStep(b, 2, 3, 0); UsedStep(b, 3, 4, 0);
    UsedStep(b, 4, 5, 32);
    SmallPowers();
    Doubling(a, 9);
    Doubling(b, 5);
  }

  lemma NoCodes(lens: seq<nat>)
    ensures Used(lens, 0) == 0
  {
  }

  lemma {:induction false} Doubling(lens: seq<nat>, m: nat)
    requires m <= MAX_LEN && Used(lens, m) == Pow2(m) && forall l :: m < l <= MAX_LEN ==> Count(lens, l) == 0
    ensures Used(lens, MAX_LEN) == Pow2(MAX_LEN)
    decreases MAX_LEN - m
  {
    if m < MAX_LEN {
      assert Used(lens, m + 1) == 2 * Used(lens, m) + Count(lens, m + 1);
      Doubling(lens, m + 1);
    }
  }

  /** The fixed distance codes are the five-bit numbers. */
  lemma FixedDistCode(k: nat)
    requires k < 32
    ensures FixedDistLens()[k] == 5 && Code(FixedDistLens(), k) == k
  {
    hide Count, Feasible, Pow2;
    FixedComplete();
    assert FixedDistLens()[..k] == Copies(k, 5);
    CountCopies(k, 5, 5);
  }

  // ----- trimmed lengths ---------------------------------------------------------------

  lemma {:induction false} TrimmedCount(lens: seq<nat>, n: nat, l: nat)
    requires Trimmed(lens, n) && l > 0
    ensures Count(lens[..n], l) == Count(lens, l)
    decreases |lens|
  {
    if n < |lens| {
      TrimmedCount(lens[..|lens| - 1], n, l);
      assert lens[..|lens| - 1][..n] == lens[..n];
    } else {
      assert lens[..n] == lens;
    }
  }

  lemma {:induction false} TrimmedUsed(lens: seq<nat>, n: nat, l: nat)
    requires Trimmed(lens, n)
    ensures Used(lens[..n], l) == Used(lens, l)
  {
    if l > 0 {
      TrimmedUsed(lens, n, l - 1);
      TrimmedCount(lens, n, l);
    }
  }

  /** Leaving out trailing zero lengths changes no code. */
  lemma TrimmedBits(lens: seq<nat>, n: nat, k: nat)
    requires Trimmed(lens, n)
    ensures SymbolBits(lens[..n], k) == SymbolBits(lens, k)
  {
    if k < n && lens[k] > 0 {
      TrimmedUsed(lens, n, lens[k] - 1);
      assert lens[..n][..k] == lens[..k];
    }
  }

  lemma TrimmedFeasible(lens: seq<nat>, n: nat)
    requires Trimmed(lens, n) && Feasible(lens, MAX_LEN)
    ensures Feasible(lens[..n], MAX_LEN)
  {
    TrimmedUsed(lens, n, MAX_LEN);
  }

  lemma {:induction false} TrimmedItems(lit: seq<nat>, n: nat, dist: seq<nat>, m: nat, syms: seq<Match>)
    requires AllRecordable(syms) && Trimmed(lit, n) && Trimmed(dist, m)
    ensures ItemsBits(lit[..n], dist[..m], syms) == ItemsBits(lit, dist, syms)
    decreases |syms|
  {
    hide SymbolBits, Trimmed;
    if syms != [] {
      var x := syms[|syms| - 1];
      TrimmedItems(lit, n, dist, m, syms[..|syms| - 1]);
      if IsLiteral(x) {
        TrimmedBits(lit, n, x.dist);
      } else {
        TrimmedBits(lit, n, END_OF_BLOCK + 1 + LenSlotOf(x));
        TrimmedBits(dist, m, DistSlotOf(x));
      }
    }
  }

  lemma TrimmedCoded(lit: seq<nat>, n: nat, dist: seq<nat>, m: nat, syms: seq<Match>)
    requires AllRecordable(syms) && Trimmed(lit, n) && Trimmed(dist, m)
    requires AllCoded(lit, dist, syms)
    ensures AllCoded(lit[..n], dist[..m], syms)
  {
    forall i | 0 <= i < |syms|
      ensures Coded(lit[..n], dist[..m], syms[i])
    {
      assert Coded(lit, dist, syms[i]);
    }
  }

  // ----- reading the trees -------------------------------------------------------------

  /** Where a symbol of the code length alphabet comes in the order. */
  const ORDER_OF: seq<nat> := [3, 17, 15, 13, 11, 9, 7, 5, 4, 6, 8, 10, 12, 14, 16, 18, 0, 1, 2]

  function OrderOf(k: nat): nat
    requires k < CODE_LENGTHS
  {
    ORDER_OF[k]
  }

  lemma OrderIsPermutation(x: nat)
    requires x < CODE_LENGTHS
    ensures OrderOf(x) < CODE_LENGTHS && OrderAt(OrderOf(x)) == x && OrderOf(OrderAt(x)) == x
  {
  }

  /** The code length alphabet is read back, up to the lengths that were sent. */
  lemma {:induction false} ReadsLevels(bits: seq<bool>, pos: nat, cl: seq<nat>, n: nat)
    requires |cl| == CODE_LENGTHS && n <= CODE_LENGTHS && BitsAt(bits, pos, LevelBits(cl, n))
    requires forall k :: 0 <= k < CODE_LENGTHS ==> cl[k] <= 7
    ensures ReadCodeLengths(bits, pos, n).Some?
    ensures forall x :: 0 <= x < CODE_LENGTHS ==> ReadCodeLengths(bits, pos, n).value[x] == (if OrderOf(x) < n then cl[x] else 0)
  {
    hide ToBits, ReadBits, OrderAt, OrderOf, BitsAt;
    if n > 0 {
      var c := OrderAt(n - 1);
      OrderIsPermutation(n - 1);
      BitsAtSplit(bits, pos, LevelBits(cl, n - 1), ToBits(cl[c], 3));
      ReadsLevels(bits, pos, cl, n - 1);
      assert Pow2(3) == 8;
      ReadsNumber(bits, pos + 3 * (n - 1), cl[c], 3);
      forall x | 0 <= x < CODE_LENGTHS
        ensures ReadCodeLengths(bits, pos, n).value[x] == (if OrderOf(x) < n then cl[x] else 0)
      {
        OrderIsPermutation(x);
      }
    }
  }

  /** Nothing is lost by leaving out the last code lengths of the alphabet. */
  lemma ReadsAllLevels(bits: seq<bool>, pos: nat, cl: seq<nat>, n: nat)
    requires LevelsTrimmed(cl, n) && BitsAt(bits, pos, LevelBits(cl, n))
    ensures ReadCodeLengths(bits, pos, n) == Some(cl)
  {
    hide OrderAt, OrderOf, BitsAt, ReadCodeLengths;
    ReadsLevels(bits, pos, cl, n);
    forall x | 0 <= x < CODE_LENGTHS
      ensures ReadCodeLengths(bits, pos, n).value[x] == cl[x]
    {
      OrderIsPermutation(x);
      assert cl[OrderAt(OrderOf(x))] == cl[x];
    }
    assert ReadCodeLengths(bits, pos, n).value == cl;
  }

  /** No code of a table is longer than the standard allows. */
  predicate WithinStandard(t: Table) {
    (forall k :: 0 <= k < |t.litLenLevels| ==> t.litLenLevels[k] <= 15)
    && forall k :: 0 <= k < |t.distLevels| ==> t.distLevels[k] <= 15
  }

  /** The trees of a dynamic block are read back if and only if no length is over 15. */
  lemma ReadsTrees(bits: seq<bool>, pos: nat, t: Table)
    requires TableOk(t) && BitsAt(bits, pos, TreesBits(t))
    ensures ReadTrees(bits, pos) == Some((t.litLenLevels[..t.numlitlens], t.distLevels[..t.numdistlens], pos + |TreesBits(t)|))
            <==> WithinStandard(t)
  {
    hide BitsAt, ToBits, TokensBits, LevelBits, ReadCodeLengths, ReadLengths, ReadBits, Feasible, Tokens, Writable;
    var n, m, b, cl := t.numlitlens, t.numdistlens, t.numblcodes, t.levelLens;
    var lit, dist := t.litLenLevels[..n], t.distLevels[..m];
    HeaderParts(bits, pos, t);
    ReadsAllLevels(bits, pos + 14, cl, b);
    LengthsRecovered(bits, pos + 14 + 3 * b, cl, lit, dist);
    TrimmedStandard(t);
    assert (lit + dist)[..n] == lit && (lit + dist)[n..] == dist;
    var r := ReadLengths(bits, pos + 14 + 3 * b, cl, n + m, []);
    if r.Some? && |r.value.0| == n + m {
      assert r.value.0[..n] + r.value.0[n..] == r.value.0;
    }
  }

  lemma TrimmedStandard(t: Table)
    requires TableShape(t) && Trimmed(t.litLenLevels, t.numlitlens) && Trimmed(t.distLevels, t.numdistlens)
    ensures var s := t.litLenLevels[..t.numlitlens] + t.distLevels[..t.numdistlens];
      WithinStandard(t) <==> forall i :: 0 <= i < |s| ==> s[i] <= 15
  {
    var n, m := t.numlitlens, t.numdistlens;
    var s := t.litLenLevels[..n] + t.distLevels[..m];
    assert forall k :: 0 <= k < n ==> t.litLenLevels[k] == s[k];
    assert forall k :: 0 <= k < m ==> t.distLevels[k] == s[n + k];
  }

  /** The parts of the header of a dynamic block and what they read as. */
  lemma HeaderParts(bits: seq<bool>, pos: nat, t: Table)
    requires TableShape(t) && BitsAt(bits, pos, TreesBits(t))
    ensures ReadBits(bits, pos, 5) == Some(t.numlitlens - 257) && ReadBits(bits, pos + 5, 5) == Some(t.numdistlens - 1)
    ensures ReadBits(bits, pos + 10, 4) == Some(t.numblcodes - 4)
    ensures BitsAt(bits, pos + 14, LevelBits(t.levelLens, t.numblcodes))
    ensures BitsAt(bits, pos + 14 + 3 * t.numblcodes,
                   TokensBits(t.levelLens, LitTokens(t)) + TokensBits(t.levelLens, DistTokens(t)))
  {
    hide BitsAt, ToBits, TokensBits, LevelBits, ReadBits, Tokens;
    SmallPowers();
    var a, b, c := ToBits(t.numlitlens - 257, 5), ToBits(t.numdistlens - 1, 5), ToBits(t.numblcodes - 4, 4);
    var d := LevelBits(t.levelLens, t.numblcodes);
    BitsAtSplit(bits, pos, a + b + c + d, TokensBits(t.levelLens, LitTokens(t)) + TokensBits(t.levelLens, DistTokens(t)));
    FourParts(bits, pos, a, b, c, d);
    ReadsNumber(bits, pos, t.numlitlens - 257, 5);
    ReadsNumber(bits, pos + 5, t.numdistlens - 1, 5);
    ReadsNumber(bits, pos + 10, t.numblcodes - 4, 4);
  }

  // ----- reading whole blocks ----------------------------------------------------------

  /** A block with fixed codes reads as the data its symbols describe. */
  lemma ReadsFixedBlock(final: bool, syms: seq<Match>, bits: seq<bool>, pos: nat, data: seq<byte>, at: nat)
    requires AllRecordable(syms) && AllDescribe(data, at, syms) && at <= |data|
    requires BitsAt(bits, pos, FixedBits(final, syms))
    ensures EndOf(at, syms) <= |data|
    ensures ReadBlock(bits, pos, data[..at]) == Some((data[..EndOf(at, syms)], pos + |FixedBits(final, syms)|, final))
  {
    hide BitsAt, ToBits, BodyBits, ReadItems, ReadBits, Feasible, FixedLitLens, FixedDistLens, AllCoded, AllDescribe;
    hide Used, Pow2, ReadTrees;
    var v := 2 + Flag(final);
    assert Pow2(3) == 8 by { SmallPowers(); }
    BitsAtSplit(bits, pos, ToBits(v, 3), BodyBits(FixedLitLens(), FixedDistLens(), syms));
    ReadsNumber(bits, pos, v, 3);
    FixedComplete();
    FixedCoded(syms);
    ReadsItems(FixedLitLens(), FixedDistLens(), bits, pos + 3, data, at, syms, 0);
    assert syms[..0] == [];
    StartOfItems(FixedLitLens(), FixedDistLens(), at);
  }

  lemma StartOfItems(lit: seq<nat>, dist: seq<nat>, at: nat)
    ensures |ItemsBits(lit, dist, [])| == 0 && EndOf(at, []) == at
  {
  }

  lemma FixedCoded(syms: seq<Match>)
    requires AllRecordable(syms)
    ensures AllCoded(FixedLitLens(), FixedDistLens(), syms)
  {
    forall i | 0 <= i < |syms|
      ensures Coded(FixedLitLens(), FixedDistLens(), syms[i])
    {
      assert Recordable(syms[i]);
    }
  }

  /** A block with dynamic codes reads as the data its symbols describe, if no code is over 15 bits. */
  lemma ReadsDynamicBlock(t: Table, final: bool, syms: seq<Match>, bits: seq<bool>, pos: nat,
                          data: seq<byte>, at: nat)
    requires AllRecordable(syms) && AllDescribe(data, at, syms) && at <= |data|
    requires TableOk(t) && WithinStandard(t) && AllCoded(t.litLenLevels, t.distLevels, syms)
    requires BitsAt(bits, pos, DynamicBits(t, final, syms))
    ensures EndOf(at, syms) <= |data|
    ensures ReadBlock(bits, pos, data[..at]) == Some((data[..EndOf(at, syms)], pos + |DynamicBits(t, final, syms)|, final))
  {
    hide BitsAt, ToBits, TreesBits, ReadItems, ReadBits, ReadTrees, Feasible, SymbolBits, AllCoded;
    var v := 4 + Flag(final);
    var n, m := t.numlitlens, t.numdistlens;
    var lit, dist := t.litLenLevels[..n], t.distLevels[..m];
    SmallPowers();
    BitsAtSplit(bits, pos, ToBits(v, 3) + TreesBits(t), BodyBits(t.litLenLevels, t.distLevels, syms));
    BitsAtSplit(bits, pos, ToBits(v, 3), TreesBits(t));
    ReadsNumber(bits, pos, v, 3);
    ReadsTrees(bits, pos + 3, t);
    TrimmedItems(t.litLenLevels, n, t.distLevels, m, syms);
    TrimmedBits(t.litLenLevels, n, END_OF_BLOCK);
    TrimmedCoded(t.litLenLevels, n, t.distLevels, m, syms);
    TrimmedFeasible(t.litLenLevels, n);
    TrimmedFeasible(t.distLevels, m);
    ReadsItems(lit, dist, bits, pos + 3 + |TreesBits(t)|, data, at, syms, 0);
    assert syms[..0] == [];
    StartOfItems(lit, dist, at);
  }
}
