/** The encoder proper: symbols are counted against the output budget, and blocks are written (`lib/kite_deflate.c`). */
module KiteDeflate {
  import opened Arithmetic
  import opened Bytes
  import opened ByteCompare
  import opened Bits
  import opened Options
  import opened PrefixCode
  import opened CodeWriter
  import opened RunLengths
  import opened Slots
  import opened Inflate
  import opened MatchFinder
  import opened DeflateBlock
  import opened DynamicBlock
  import opened BlockCost
  import opened BlockTables
  import opened BlockWriter
  import opened StoredBlock
  import opened BlockStream

  const STORED := 0
  const FIXED := 1
  const DYNAMIC := 2

  /** `ZLIB_DISTANCE_TOO_FAR` */
  const TOO_FAR := 4096

  /** Limit of `max_symbols`. */
  const MAX_SYMBOLS := 16384

  function ZeroTable(): Table {
    Table(Copies(MAIN_TABLE_SIZE, 0), Copies(MAIN_TABLE_SIZE, 0), Copies(DIST_SLOTS, 0), Copies(DIST_SLOTS, 0),
          Copies(CODE_LENGTHS, 0), Copies(CODE_LENGTHS, 0), 0, 0, 0)
  }

  /** The size of a block with fixed codes. */
  function FixedCost(syms: seq<Match>): nat
    requires AllRecordable(syms)
  {
    |FixedBits(false, syms)|
  }

  /** Frequencies of symbols. */
  ghost predicate FreqsOf(main: seq<nat>, dist: seq<nat>, syms: seq<Match>) {
    AllRecordable(syms) && main == MainFreqs(syms) && dist == DistFreqs(syms)
  }

  /** Two tables of the right size. */
  predicate TwoTables(tables: seq<Table>) {
    |tables| == 2 && forall i :: 0 <= i < 2 ==> |tables[i].litLenLevels| == MAIN_TABLE_SIZE && |tables[i].distLevels| == DIST_SLOTS
  }

  /** The table gives no code to any symbol. */
  predicate Codeless(t: Table) {
    t.litLenLevels == Copies(MAIN_TABLE_SIZE, 0)
  }

  /** `cost` is what a block of `syms` is accounted to cost in the mode. */
  ghost predicate Costs(mode: nat, t: Table, syms: seq<Match>, cost: nat)
    requires AllRecordable(syms)
  {
    || (mode == FIXED && cost == FixedCost(syms))
    || (mode == DYNAMIC && TableFor(t, syms) && cost == DynamicCost(t, syms))
  }

  /** A table for `syms` costs more than the room. */
  ghost predicate TooDear(t: Table, syms: seq<Match>, room: int)
    requires AllRecordable(syms)
  {
    TableFor(t, syms) && DynamicCost(t, syms) > room
  }

  /** Neither do the present dynamic codes have room for one more symbol, nor, if they have no code for it, new ones. */
  ghost predicate Refused(t: Table, syms: seq<Match>, m: Match, room: int) {
    && AllRecordable(syms) && AllRecordable(syms + [m]) && Recordable(m)
    && if Coded(t.litLenLevels, t.distLevels, m) then TooDear(t, syms + [m], room)
       else exists u :: Built(u, syms + [m]) && TooDear(u, syms + [m], room)
  }

  /** The dynamic codes stay as they are unless they have no code for the symbol. */
  ghost predicate Recoded(t: Table, u: Table, syms: seq<Match>, m: Match) {
    && AllRecordable(syms + [m]) && Recordable(m)
    && if Coded(t.litLenLevels, t.distLevels, m) then u == t else Built(u, syms + [m])
  }

  /** The symbol and the slots of a recorded match or literal. */
  predicate SlotsOf(m: Match, literal: bool, lenSlot: nat, distSlot: nat)
    requires Recordable(m)
  {
    && literal == IsLiteral(m)
    && lenSlot == (if literal then m.dist else LenSlotOf(m))
    && distSlot == (if literal then 0 else DistSlotOf(m))
  }

  /** The bits of one more symbol under the current codes, and whether these have no code for it. */
  method SymbolCost(mode: nat, t: Table, literal: bool, lenSlot: nat, distSlot: nat, ghost m: Match) returns (bits: nat, recalc: bool)
    requires Recordable(m) && SlotsOf(m, literal, lenSlot, distSlot) && (mode == FIXED || mode == DYNAMIC)
    requires |t.litLenLevels| == MAIN_TABLE_SIZE && |t.distLevels| == DIST_SLOTS
    ensures mode == FIXED ==> !recalc && bits == |ItemBits(FixedLitLens(), FixedDistLens(), m)|
    ensures mode == DYNAMIC ==> recalc == !Coded(t.litLenLevels, t.distLevels, m)
    ensures mode == DYNAMIC && !recalc ==> bits == |ItemBits(t.litLenLevels, t.distLevels, m)|
  {
    hide SymbolBits, ToBits, LenExtra, DistExtra, ItemBits, LenSlotOf, DistSlotOf;
    if mode == FIXED {
      ItemSize(FixedLitLens(), FixedDistLens(), m);
      if literal {
        return FixedLitLens()[lenSlot], false;
      }
      return FixedLitLens()[END_OF_BLOCK + 1 + lenSlot] + LenExtra(lenSlot) + 5 + DistExtra(distSlot), false;
    }
    ItemSize(t.litLenLevels, t.distLevels, m);
    if literal {
      return t.litLenLevels[lenSlot], t.litLenLevels[lenSlot] == 0;
    }
    recalc := t.distLevels[distSlot] == 0 || t.litLenLevels[END_OF_BLOCK + 1 + lenSlot] == 0;
    bits := t.distLevels[distSlot] + DistExtra(distSlot) + t.litLenLevels[END_OF_BLOCK + 1 + lenSlot] + LenExtra(lenSlot);
  }

  // ----- which symbols are chosen ------------------------------------------------------

  /** A search of `depth` steps finds nothing at `at` that is longer than `best`. */
  ghost predicate Longest(data: seq<byte>, at: nat, wsiz: nat, niceLen: nat, depth: nat, best: nat) {
    at <= |data| && Exhausted(data, at, wsiz, Min(niceLen, |data| - at), depth, best)
  }

  /** A match that ends within the limits of a search. */
  predicate Found(data: seq<byte>, at: nat, wsiz: nat, niceLen: nat, m: Match) {
    at <= |data| && Sound(data, at, wsiz, Min(niceLen, |data| - at), m) && m.len >= MATCH_MIN_LEN && !TooFar(m)
  }

  /** Three bytes from far away are better coded as literals. */
  predicate TooFar(m: Match) {
    m.len == MATCH_MIN_LEN && m.dist > TOO_FAR
  }

  /** No match worth coding: none at all, or three bytes from too far away. */
  ghost predicate Nothing(data: seq<byte>, at: nat, wsiz: nat, niceLen: nat, depth: nat) {
    || Longest(data, at, wsiz, niceLen, depth, MATCH_MIN_LEN - 1)
    || (Longest(data, at, wsiz, niceLen, depth, MATCH_MIN_LEN)
        && exists far: nat :: far > TOO_FAR && Sound(data, at, wsiz, Min(niceLen, |data| - at), Match(MATCH_MIN_LEN, far)))
  }

  /** The longest match a search finds. */
  ghost predicate Best(data: seq<byte>, at: nat, wsiz: nat, niceLen: nat, depth: nat, m: Match) {
    Found(data, at, wsiz, niceLen, m) && Longest(data, at, wsiz, niceLen, depth, m.len)
  }

  /** Without lazy matching, the longest match found is taken. */
  ghost predicate FastChoice(data: seq<byte>, at: nat, wsiz: nat, c: Config, m: Match) {
    if IsLiteral(m) then Nothing(data, at, wsiz, c.niceLen, c.depth) else Best(data, at, wsiz, c.niceLen, c.depth, m)
  }

  /** How far is searched behind a match: less if it is a good one. */
  function LazyDepth(c: Config, len: nat): nat {
    if len >= c.goodLen then c.depth / 2 else c.depth
  }

  /** One byte further there is no longer match, or it is not looked for. */
  ghost predicate Unbeaten(data: seq<byte>, at: nat, wsiz: nat, c: Config, len: nat) {
    len >= c.maxLazy || Longest(data, at + 1, wsiz, c.niceLen, LazyDepth(c, len), len)
  }

  /** The longest match at `at` is shorter than one that begins one byte further. */
  ghost predicate Beaten(data: seq<byte>, at: nat, wsiz: nat, c: Config) {
    exists m, n :: Best(data, at, wsiz, c.niceLen, c.depth / 2, m) && Found(data, at + 1, wsiz, c.niceLen, n) && n.len > m.len
  }

  /** With lazy matching, a match is taken unless it is beaten, and a literal stands for one that is. */
  ghost predicate LazyChoice(data: seq<byte>, at: nat, wsiz: nat, c: Config, m: Match) {
    if IsLiteral(m) then Nothing(data, at, wsiz, c.niceLen, c.depth) || Beaten(data, at, wsiz, c)
    else Best(data, at, wsiz, c.niceLen, c.depth / 2, m) && Unbeaten(data, at, wsiz, c, m.len)
  }

  ghost predicate ChoiceBy(data: seq<byte>, at: nat, wsiz: nat, c: Config, m: Match) {
    if c.lazySearch then LazyChoice(data, at, wsiz, c, m) else FastChoice(data, at, wsiz, c, m)
  }

  ghost predicate ChosenBy(data: seq<byte>, wsiz: nat, c: Config, from: nat, syms: seq<Match>) {
    forall i :: 0 <= i < |syms| ==> ChoiceBy(data, EndOf(from, syms[..i]), wsiz, c, syms[i])
  }

  /** Every symbol of every block with codes was chosen as the level demands. */
  ghost predicate WellChosen(data: seq<byte>, wsiz: nat, c: Config, blocks: seq<Record>) {
    forall i :: 0 <= i < |blocks| && !blocks[i].PlainBlock? ==> WellChosenBlock(data, wsiz, c, blocks[i])
  }

  ghost predicate WellChosenBlock(data: seq<byte>, wsiz: nat, c: Config, r: Record) {
    !r.PlainBlock? && exists from: nat, to: nat :: Holds(r, data, from, to) && ChosenBy(data, wsiz, c, from, r.syms)
  }

  /** What a search does not find, one of half the steps does not find either. */
  lemma LongestInHalf(data: seq<byte>, at: nat, wsiz: nat, c: Config, len: nat, best: nat)
    requires Longest(data, at, wsiz, c.niceLen, LazyDepth(c, len), best)
    ensures Longest(data, at, wsiz, c.niceLen, c.depth / 2, best)
  {
    hide NotLonger;
  }

  /** Too close to the end, there is nothing to find. */
  lemma LongestFrom(data: seq<byte>, at: nat, pos: nat, wsiz: nat, niceLen: nat, depth: nat, best: nat)
    requires at <= pos <= |data| && Longest(data, at, wsiz, niceLen, depth, best)
    requires at == pos || |data| - at <= best
    ensures Longest(data, pos, wsiz, niceLen, depth, best)
  {
    hide Exhausted;
    if at != pos {
      LimitReached(data, pos, wsiz, Min(niceLen, |data| - pos), depth, best);
    }
  }

  /** `struct kite_deflate` */
  class Deflater {
    const input: seq<byte>
    const outlen: nat
    const w: BitWriter
    const mf: Finder
    const maxSymbols: nat
    const lenSlots: seq<nat>
    const fastPos: seq<nat>
    const fixedMain: seq<nat>
    const fixedDist: seq<nat>
    var posIn: nat
    var startpos: nat
    var costbits: nat
    var encodeMode: nat
    var freqChanged: bool
    var lastblock: bool
    var prevValid: bool
    var prevLongest: nat
    var sym: seq<Match>
    var mainFreqs: seq<nat>
    var distFreqs: seq<nat>
    var tables: seq<Table>
    var tab: nat

    /** `tables` are those of the last run. */
    constructor (input: seq<byte>, outlen: nat, w: BitWriter, mf: Finder, maxSymbols: nat,
                 lenSlots: seq<nat>, fastPos: seq<nat>, fixedMain: seq<nat>, fixedDist: seq<nat>, tables: seq<Table>)
      requires TwoTables(tables)
      ensures this.input == input && this.outlen == outlen && this.w == w && this.mf == mf
      ensures this.maxSymbols == maxSymbols && this.lenSlots == lenSlots && this.fastPos == fastPos
      ensures this.fixedMain == fixedMain && this.fixedDist == fixedDist
      ensures posIn == startpos == prevLongest == 0 && !lastblock && !prevValid && this.tables == tables
    {
      this.input, this.outlen, this.w, this.mf, this.maxSymbols := input, outlen, w, mf, maxSymbols;
      this.lenSlots, this.fastPos, this.fixedMain, this.fixedDist := lenSlots, fastPos, fixedMain, fixedDist;
      posIn, startpos, costbits, encodeMode, freqChanged, lastblock := 0, 0, 0, STORED, false, false;
      prevValid, prevLongest := false, 0;
      sym, mainFreqs, distFreqs, this.tables, tab := [], [], [], tables, 0;
    }

    /** The tables made once and for all. */
    ghost predicate Prepared() {
      && LenSlotsOk(lenSlots) && FastPosOk(fastPos) && 0 < maxSymbols <= MAX_SYMBOLS
      && ReversedTable(FixedLitLens(), fixedMain) && ReversedTable(FixedDistLens(), fixedDist)
    }

    /** The output has room for four bytes more than `outlen`. */
    ghost predicate Stream()
      reads w, w.out
    {
      w.Valid() && w.out.Length >= outlen + 4 && |w.Written()| <= 8 * outlen
    }

    /** Nothing is written before the first block, and something after it. */
    ghost predicate First()
      reads this`startpos, w, w.out
    {
      w.Valid() && (startpos == 0 <==> w.Written() == [])
    }

    /** Where the data of the block ends: a match still to be decided on begins one byte earlier. */
    function End(): nat
      reads this`posIn, this`prevValid
    {
      if prevValid && posIn > 0 then posIn - 1 else posIn
    }

    /** Bits left for the block. */
    ghost function Room(): (n: int)
      reads w, w.out
      requires w.Valid()
    {
      8 * outlen - |w.Written()|
    }

    /** The frequencies and the cost are those of `syms`. */
    ghost predicate Counted(syms: seq<Match>)
      reads this`mainFreqs, this`distFreqs, this`tables, this`tab, this`encodeMode, this`costbits, this`freqChanged
    {
      && FreqsOf(mainFreqs, distFreqs, syms) && TwoTables(tables) && tab < 2
      && (encodeMode == FIXED || encodeMode == DYNAMIC) && Costs(encodeMode, tables[tab], syms, costbits)
      && (encodeMode == FIXED ==> tab == 0 && Codeless(tables[0]) && (syms != [] ==> freqChanged))
    }

    /** The same, or the switch to dynamic codes was just made and there are none yet. */
    ghost predicate MayCount()
      reads this
    {
      && FreqsOf(mainFreqs, distFreqs, sym) && TwoTables(tables) && tab < 2
      && (Counted(sym) || (encodeMode == DYNAMIC && Codeless(tables[tab])))
    }

    /** `kite_deflate_startblock` */
    method StartBlock()
      requires TwoTables(tables)
      modifies this`mainFreqs, this`distFreqs, this`tables, this`sym, this`encodeMode, this`tab, this`costbits
      ensures Counted(sym) && sym == [] && encodeMode == FIXED && costbits == 10
    {
      mainFreqs := Copies(MAIN_TABLE_SIZE, 0);
      distFreqs := Copies(DIST_SLOTS, 0);
      tables := tables[0 := ZeroTable()];
      sym := [];
      mainFreqs := mainFreqs[END_OF_BLOCK := mainFreqs[END_OF_BLOCK] + 1];
      encodeMode := FIXED;
      tab := 0;
      costbits := 3 + 7;
      EmptyFixed();
      hide FixedCost;
    }

    /** `kite_deflate_fixdynblock` for the frequencies of `syms`. */
    method FixDynBlock(ghost syms: seq<Match>)
      requires FreqsOf(mainFreqs, distFreqs, syms) && |syms| <= MAX_SYMBOLS + 1 && TwoTables(tables) && tab < 2
      modifies this`tables, this`costbits, this`freqChanged
      ensures !freqChanged && TwoTables(tables)
      ensures old(freqChanged) ==> Costs(DYNAMIC, tables[tab], syms, costbits) && tables == old(tables)[tab := tables[tab]]
      ensures old(freqChanged) ==> AllRecordable(syms) && Built(tables[tab], syms)
      ensures !old(freqChanged) ==> tables == old(tables) && costbits == old(costbits)
    {
      hide TableFor, DynamicCost, AllRecordable, MainFreqs, DistFreqs, Built;
      if !freqChanged {
        return;
      }
      var t;
      t, costbits := BuildTable(mainFreqs, distFreqs, syms);
      TableForShape(t, syms);
      tables := tables[tab := t];
      freqChanged := false;
    }

    /** Counts one more symbol in the frequencies. */
    method AddFreqs(literal: bool, lenSlot: nat, distSlot: nat, ghost syms: seq<Match>, ghost m: Match)
      requires FreqsOf(mainFreqs, distFreqs, syms) && Recordable(m) && SlotsOf(m, literal, lenSlot, distSlot)
      modifies this`mainFreqs, this`distFreqs, this`freqChanged
      ensures freqChanged && FreqsOf(mainFreqs, distFreqs, syms + [m])
    {
      hide LenSlotOf, DistSlotOf, Recordable, MainFreqs, DistFreqs;
      freqChanged := true;
      FreqsGrow(syms, m);
      var k := if literal then lenSlot else END_OF_BLOCK + 1 + lenSlot;
      mainFreqs := mainFreqs[k := mainFreqs[k] + 1];
      if !literal {
        distFreqs := distFreqs[distSlot := distFreqs[distSlot] + 1];
      }
    }

    /** Takes the symbol out of the frequencies again. */
    method DropFreqs(literal: bool, lenSlot: nat, distSlot: nat, ghost syms: seq<Match>, ghost m: Match)
      requires AllRecordable(syms) && Recordable(m) && SlotsOf(m, literal, lenSlot, distSlot)
      requires FreqsOf(mainFreqs, distFreqs, syms + [m])
      modifies this`mainFreqs, this`distFreqs
      ensures FreqsOf(mainFreqs, distFreqs, syms)
    {
      hide FreqsOf, AllRecordable, Recordable, SlotsOf;
      FreqsShrink(mainFreqs, distFreqs, syms, m, literal, lenSlot, distSlot);
      var k := if literal then lenSlot else END_OF_BLOCK + 1 + lenSlot;
      mainFreqs := mainFreqs[k := mainFreqs[k] - 1];
      if !literal {
        distFreqs := distFreqs[distSlot := distFreqs[distSlot] - 1];
      }
    }

    /** Switches to the other table and fills it. */
    method Recalculate(ghost syms: seq<Match>)
      requires FreqsOf(mainFreqs, distFreqs, syms) && |syms| <= MAX_SYMBOLS + 1 && TwoTables(tables) && tab < 2 && freqChanged
      modifies this`tables, this`tab, this`costbits, this`freqChanged
      ensures TwoTables(tables) && tab == 1 - old(tab) && tables[old(tab)] == old(tables[tab])
      ensures AllRecordable(syms) && Costs(DYNAMIC, tables[tab], syms, costbits) && 17 <= costbits < 0xFFFF_FFFF
      ensures Built(tables[tab], syms)
    {
      hide TableFor, DynamicCost, Costs, Built;
      FreqsFacts(mainFreqs, distFreqs, syms);
      tab := if tab == 0 then 1 else 0;
      FixDynBlock(syms);
      BoundedCost(tables[tab], syms, costbits);
    }

    /** The first part of `deflate_count_code`: what the block would cost with one more symbol. */
    method AddSymbol(literal: bool, lenSlot: nat, distSlot: nat, ghost m: Match) returns (bits: nat, recalc: bool)
      requires MayCount() && |sym| <= MAX_SYMBOLS && Recordable(m) && SlotsOf(m, literal, lenSlot, distSlot)
      modifies this`mainFreqs, this`distFreqs, this`freqChanged, this`tables, this`tab, this`costbits
      ensures FreqsOf(mainFreqs, distFreqs, sym + [m]) && AllRecordable(sym + [m]) && TwoTables(tables) && tab < 2
      ensures Costs(encodeMode, tables[tab], sym + [m], costbits + bits)
      ensures tables[old(tab)] == old(tables[tab])
      ensures encodeMode == DYNAMIC ==> 17 <= costbits < 0xFFFF_FFFF
      ensures recalc ==> encodeMode == DYNAMIC && tab == 1 - old(tab) && bits == 0
      ensures encodeMode == DYNAMIC ==> recalc == !old(Coded(tables[tab].litLenLevels, tables[tab].distLevels, m))
      ensures recalc ==> Built(tables[tab], sym + [m])
      ensures !recalc ==> tab == old(tab) && costbits == old(costbits) && freqChanged
      ensures encodeMode == DYNAMIC && old(Codeless(tables[tab])) ==> recalc
    {
      hide FreqsOf, Codeless, AllRecordable, Costs, SlotsOf, Recordable, Coded, ItemBits, FixedLitLens, FixedDistLens, Built;
      FreqsFacts(mainFreqs, distFreqs, sym);
      ghost var t, mode := tables[tab], encodeMode;
      MayCountFacts(t, mode, sym, m, costbits);
      bits, recalc := SymbolCost(encodeMode, tables[tab], literal, lenSlot, distSlot, m);
      CountedMore(mode, t, sym, m, costbits, bits, recalc);
      AddFreqs(literal, lenSlot, distSlot, sym, m);
      if recalc {
        Recalculate(sym + [m]);
        bits := 0;
      }
    }

    /** `deflate_count_code` */
    method CountCode(literal: bool, lenSlot: nat, distSlot: nat, ghost m: Match) returns (ok: bool)
      requires Stream() && MayCount() && |sym| <= MAX_SYMBOLS && Recordable(m) && SlotsOf(m, literal, lenSlot, distSlot)
      modifies this`mainFreqs, this`distFreqs, this`freqChanged, this`tables, this`tab, this`costbits
      ensures ok ==> Counted(sym + [m]) && costbits <= Room()
      ensures !ok ==> FreqsOf(mainFreqs, distFreqs, sym) && TwoTables(tables) && tab == old(tab) && tables[tab] == old(tables[tab])
      ensures !ok && encodeMode == FIXED ==> costbits == old(costbits) && Overfull(sym, m, Room())
      ensures !ok && encodeMode == DYNAMIC ==> 17 <= costbits < 0xFFFF_FFFF
      ensures !ok && encodeMode == DYNAMIC && old(Codeless(tables[tab])) ==> costbits > Room()
      ensures !ok && encodeMode == DYNAMIC ==> Refused(old(tables[tab]), sym, m, Room())
      ensures ok && encodeMode == DYNAMIC ==> Recoded(old(tables[tab]), tables[tab], sym, m)
    {
      hide FreqsOf, Codeless, AllRecordable, Costs, SlotsOf, Recordable, Overfull, Refused, Recoded, Coded, Built;
      ghost var t := tables[tab];
      var rem := 8 * (outlen - w.posOut) - w.bitpos;
      assert rem == Room();
      FreqsFacts(mainFreqs, distFreqs, sym);
      var bits, recalc := AddSymbol(literal, lenSlot, distSlot, m);
      if rem < costbits + bits {
        OverfullIs(encodeMode, tables[tab], sym, m, costbits + bits, rem);
        RefusedIs(encodeMode, t, tables[tab], sym, m, costbits + bits, rem);
        DropFreqs(literal, lenSlot, distSlot, sym, m);
        if recalc {
          tab := if tab == 0 then 1 else 0;
        }
        return false;
      }
      costbits := costbits + bits;
      RecodedIs(encodeMode, t, tables[tab], sym, m);
      return true;
    }

    /** The block so far fits, or it is empty. */
    ghost predicate InBudget()
      reads this`sym, this`encodeMode, this`costbits, w, w.out
    {
      w.Valid() && if sym == [] then encodeMode == FIXED else costbits <= Room()
    }

    /** The block can be written, and it fits unless it is empty. */
    ghost predicate Settled()
      reads this`sym, this`tables, this`tab, this`encodeMode, w, w.out
    {
      && w.Valid() && AllRecordable(sym) && TwoTables(tables) && tab < 2
      && (encodeMode == FIXED || (encodeMode == DYNAMIC && TableFor(tables[tab], sym)))
      && (sym != [] || encodeMode == DYNAMIC ==> AccountedCost(encodeMode, tables[tab], sym) <= Room())
    }

    /** `kite_deflate_tally`; the result says that the symbol did not fit. */
    method Tally(m: Match) returns (full: bool)
      requires Prepared() && Stream() && Counted(sym) && InBudget() && |sym| <= MAX_SYMBOLS && Recordable(m)
      modifies this`mainFreqs, this`distFreqs, this`freqChanged, this`tables, this`tab, this`costbits,
               this`sym, this`encodeMode, this`lastblock
      ensures !full ==> sym == old(sym) + [m] && Counted(sym) && InBudget() && lastblock == old(lastblock)
      ensures full ==> sym == old(sym) && lastblock && Settled() && TwoTables(tables)
      ensures old(encodeMode) == FIXED && (full || encodeMode == DYNAMIC) ==> Overfull(old(sym), m, Room())
      ensures full ==> Refused(old(tables[tab]), old(sym), m, Room())
      ensures full && encodeMode == DYNAMIC ==> old(encodeMode) == DYNAMIC
      ensures !full && encodeMode == DYNAMIC ==> Recoded(old(tables[tab]), tables[tab], old(sym), m)
      ensures !full && encodeMode == FIXED ==> old(encodeMode) == FIXED
    {
      hide FreqsOf, Codeless, AllRecordable, Costs, Recordable, TableFor, Prepared, AccountedCost, Overfull, Refused, Recoded;
      var fixedcost := 0xFFFF_FFFF;
      var literal, lenSlot, distSlot := Slot(m);
      FreqsFacts(mainFreqs, distFreqs, sym);
      CostIs(encodeMode, tables[tab], sym, costbits);
      var hassp := CountCode(literal, lenSlot, distSlot, m);
      if !hassp && encodeMode == FIXED {
        fixedcost := costbits;
        encodeMode := DYNAMIC;
        hassp := CountCode(literal, lenSlot, distSlot, m);
      }
      FreqsFacts(mainFreqs, distFreqs, if hassp then sym + [m] else sym);
      if !hassp {
        lastblock := true;
        if fixedcost <= costbits {
          encodeMode := FIXED;
        }
        return true;
      }
      sym := sym + [m];
      return false;
    }

    /** What the encoder may code at `at`. */
    ghost predicate Choice(at: nat, m: Match) {
      ChoiceBy(input, at, mf.wsiz, mf.cfg, m)
    }

    ghost predicate AllChosen(from: nat, syms: seq<Match>) {
      ChosenBy(input, mf.wsiz, mf.cfg, from, syms)
    }

    /** The symbols of the block describe the data up to `at`, and each was chosen as the level demands. */
    ghost predicate Covers(at: nat)
      reads this`startpos, this`sym
    {
      DescribedBy(input, startpos, sym, at) && AllChosen(startpos, sym)
    }

    lemma NothingChosen(from: nat)
      ensures AllChosen(from, [])
    {
    }

    lemma ChosenMore(from: nat, syms: seq<Match>, at: nat, m: Match)
      requires AllChosen(from, syms) && DescribedBy(input, from, syms, at) && Choice(at, m)
      ensures AllChosen(from, syms + [m])
    {
      hide ChoiceBy, AllDescribe;
      assert (syms + [m])[..|syms|] == syms;
      forall i | 0 <= i < |syms + [m]|
        ensures ChoiceBy(input, EndOf(from, (syms + [m])[..i]), mf.wsiz, mf.cfg, (syms + [m])[i])
      {
        if i < |syms| {
          assert (syms + [m])[..i] == syms[..i];
        }
      }
    }

    /** Fixed codes are left only if they do not do for the data up to `at`. */
    ghost predicate Spent(at: nat)
      reads this`startpos, this`encodeMode, w, w.out
    {
      w.Valid() && (encodeMode == DYNAMIC ==> Short(startpos, at, Room()))
    }

    /** With nine bits a byte, the block does not reach beyond `at` as far as the data does. */
    ghost predicate Cut(at: nat)
      reads this`startpos, w, w.out
    {
      w.Valid() && CutShort(|input|, Room(), startpos, at)
    }

    /** `Tally` for a symbol that describes the data at `at`. */
    method TallyNext(m: Match, ghost at: nat) returns (full: bool)
      requires Prepared() && Stream() && Counted(sym) && InBudget() && |sym| <= MAX_SYMBOLS && Recordable(m)
      requires Covers(at) && Describes(input, at, m) && Choice(at, m) && Spent(at)
      modifies this`mainFreqs, this`distFreqs, this`freqChanged, this`tables, this`tab, this`costbits,
               this`sym, this`encodeMode, this`lastblock
      ensures !full ==> |sym| == |old(sym)| + 1 && Counted(sym) && InBudget() && lastblock == old(lastblock)
      ensures !full ==> Covers(at + Length(m)) && Spent(at + Length(m))
      ensures full ==> sym == old(sym) && lastblock && Settled() && Short(startpos, at + Length(m), Room())
      ensures full ==> Spent(at) && Cut(at)
      ensures TwoTables(tables) && at + Length(m) <= |input|
    {
      hide Counted, Settled, Prepared, Recordable, Describes, DescribedBy, AllChosen, Choice, Overfull, InBudget;
      CountedFacts();
      full := Tally(m);
      CountedFacts();
      DescribedMore(input, startpos, old(sym), at, m);
      ChosenMore(startpos, old(sym), at, m);
      EndAfter(input, at, m);
      OverfullReaches(input, startpos, old(sym), at, m, Room());
    }

    /** The slots of a symbol, looked up in the tables. */
    method Slot(m: Match) returns (literal: bool, lenSlot: nat, distSlot: nat)
      requires Prepared() && Recordable(m)
      ensures SlotsOf(m, literal, lenSlot, distSlot)
    {
      hide ReversedTable, FixedLitLens, FixedDistLens, IsLenSlot, IsDistSlot, LenSlot, DistSlot, FastDistSlot;
      if m.len < MATCH_MIN_LEN {
        return true, m.dist, 0;
      }
      var lc := m.len - MATCH_MIN_LEN;
      literal, lenSlot, distSlot := false, lenSlots[lc], FastDistSlot(fastPos, m.dist - 1);
      DistSlotFound(fastPos, m.dist - 1);
      SlotsUnique(lc, lenSlot, m.dist - 1, distSlot);
    }

    /** A stored block takes less than what is left, by the encoder's reckoning. */
    ghost predicate StoredOk()
      reads this`startpos, this`posIn, this`prevValid, w
    {
      w.Valid() && startpos < End() <= |input| && End() - startpos <= 65535
      && 40 - w.bitpos + 8 * (End() - startpos) < 8 * (outlen - w.posOut) - w.bitpos
    }

    /** Builds dynamic codes and keeps them if they are cheaper. */
    method TryDynamic()
      requires Stream() && Counted(sym) && InBudget() && sym != [] && |sym| <= MAX_SYMBOLS && encodeMode == FIXED
      modifies this`tables, this`costbits, this`freqChanged, this`encodeMode
      ensures Settled() && TwoTables(tables) && tab < 2 && costbits <= 10 + 31 * MAX_SYMBOLS && costbits <= Room()
      ensures encodeMode != STORED
      ensures AllRecordable(sym) && costbits == AccountedCost(encodeMode, tables[tab], sym)
      ensures costbits <= old(costbits) && Cheaper(tables[tab], sym, costbits)
    {
      hide FreqsOf, Codeless, AllRecordable, Costs, TableFor, AccountedCost, Built, Cheaper;
      FreqsFacts(mainFreqs, distFreqs, sym);
      CostIs(encodeMode, tables[tab], sym, costbits);
      var fixedcost := costbits;
      ghost var t0 := tables[tab];
      FixDynBlock(sym);
      CostIs(DYNAMIC, tables[tab], sym, costbits);
      FixedCostIs(t0, tables[tab], sym);
      FixedAtMost(tables[tab], sym);
      CheaperIs(tables[tab], sym, fixedcost, costbits);
      if fixedcost > costbits {
        encodeMode := DYNAMIC;
      } else {
        costbits := fixedcost;
      }
    }

    /** `costbits` is what the chosen way of writing the block is reckoned to cost. */
    ghost predicate Priced()
      reads this`sym, this`tables, this`tab, this`encodeMode, this`costbits, this`startpos, this`posIn, this`prevValid, w
    {
      if encodeMode == STORED then startpos <= End() && costbits == 40 - w.bitpos + 8 * (End() - startpos)
      else AllRecordable(sym) && tab < |tables| && costbits == AccountedCost(encodeMode, tables[tab], sym)
    }

    /** Neither fixed codes nor those just built for the block nor storing it would be reckoned cheaper. */
    ghost predicate Cheapest()
      reads this`sym, this`tables, this`tab, this`costbits, this`startpos, this`posIn, this`prevValid, w
    {
      && tab < |tables| && Cheaper(tables[tab], sym, costbits)
      && costbits <= 40 - w.bitpos + 8 * (End() - startpos)
    }

    /** The cheapest way to write the block. */
    method ChooseMode()
      requires Stream() && Counted(sym) && InBudget() && sym != [] && |sym| <= MAX_SYMBOLS && startpos < End() <= |input|
      modifies this`tables, this`costbits, this`freqChanged, this`encodeMode
      ensures TwoTables(tables) && tab < 2 && if encodeMode == STORED then StoredOk() else Settled()
      ensures Priced() && costbits <= old(costbits)
      ensures old(encodeMode) == FIXED ==> Cheapest()
      ensures old(encodeMode) == DYNAMIC ==> encodeMode == DYNAMIC && tables == old(tables)
    {
      hide FreqsOf, AllRecordable, TableFor, AccountedCost, Counted, Settled, StoredOk, InBudget, Cheaper;
      BudgetFacts();
      if encodeMode == FIXED {
        TryDynamic();
        ghost var cost := costbits;
        TryStored();
        CheaperStill(tables[tab], sym, cost, costbits);
      }
    }

    /** `kite_deflate_endblock` */
    method EndBlock()
      requires Stream() && Counted(sym) && InBudget() && sym != [] && |sym| <= MAX_SYMBOLS && startpos < End() <= |input|
      requires DescribedBy(input, startpos, sym, End()) && Spent(End())
      modifies this`tables, this`costbits, this`freqChanged, this`encodeMode, this`lastblock
      ensures TwoTables(tables) && if encodeMode == STORED then StoredOk() else Settled()
      ensures lastblock <==> old(lastblock) || costbits >= Room()
      ensures lastblock ==> old(lastblock) || Short(startpos, End() + 1, Room())
      ensures encodeMode != STORED && !lastblock ==> Strict()
      ensures Priced() && Lean(End())
      ensures old(encodeMode) == FIXED ==> Cheapest()
      ensures old(encodeMode) == DYNAMIC ==> encodeMode == DYNAMIC && tables == old(tables)
    {
      hide AllRecordable, AccountedCost, Counted, Settled, StoredOk, InBudget, DescribedBy, AllChosen, Choice, Spent, Cheapest;
      BudgetLean(End());
      ChooseMode();
      lastblock := lastblock || costbits + w.bitpos >= (outlen - w.posOut) * 8;
    }

    /** The block is reckoned to take at most ten bits, and nine for each byte up to `at`. */
    ghost predicate Lean(at: nat)
      reads this`sym, this`tables, this`tab, this`encodeMode, this`startpos, this`posIn, this`prevValid, w
    {
      if encodeMode == STORED then 40 - w.bitpos + 8 * (End() - startpos) <= 10 + 9 * (at - startpos)
      else AllRecordable(sym) && tab < |tables| && AccountedCost(encodeMode, tables[tab], sym) <= 10 + 9 * (at - startpos)
    }

    /** Fixed codes take at most nine bits a byte; dynamic ones are used only where that is too much. */
    lemma BudgetLean(at: nat)
      requires Stream() && Counted(sym) && InBudget() && sym != [] && DescribedBy(input, startpos, sym, at) && Spent(at)
      ensures costbits <= 10 + 9 * (at - startpos)
    {
      hide DescribedBy, AllChosen, Choice, TableFor, FixedCost, DynamicCost;
      NineBitsAByte(input, startpos, sym, at);
    }

    lemma SettledLean(at: nat)
      requires Stream() && Settled() && DescribedBy(input, startpos, sym, at) && Spent(at)
      ensures Lean(at)
    {
      hide DescribedBy, AllChosen, Choice, TableFor, FixedCost, DynamicCost;
      NineBitsAByte(input, startpos, sym, at);
    }

    /** Stores the block if that is reckoned to be cheaper. */
    method TryStored()
      requires w.Valid() && startpos < End() <= |input| && costbits <= 10 + 31 * MAX_SYMBOLS && costbits <= Room()
      requires encodeMode != STORED
      modifies this`costbits, this`encodeMode
      ensures if encodeMode == STORED then StoredOk() && costbits == 40 - w.bitpos + 8 * (End() - startpos)
              else encodeMode == old(encodeMode) && costbits == old(costbits)
      ensures costbits <= old(costbits) && costbits <= 40 - w.bitpos + 8 * (End() - startpos)
    {
      var storelen := End() - startpos;
      var storecost := StoreCost(storelen);
      if costbits > storecost {
        OneStoredBlock(w.bitpos, storelen, costbits);
        costbits := storecost;
        encodeMode := STORED;
      }
    }

    /** What storing is reckoned to cost. The true size depends on where the last byte ends. */
    function StoreCost(storelen: nat): (cost: nat)
      reads w
      requires w.bitpos <= 32
      ensures cost >= 40 - w.bitpos + 8 * storelen && (storelen <= 65535 ==> cost == 40 - w.bitpos + 8 * storelen)
    {
      var storeblocks := Max((storelen + 65534) / 65535, 1);
      8 - w.bitpos + storeblocks - 1 + storeblocks * 32 + storelen * 8
    }

    /** A block can be committed: its symbols describe the data up to `end`, and it has been reckoned with. */
    ghost predicate Committable(end: nat)
      reads this, w, w.out
    {
      && Covers(end) && TwoTables(tables) && (prevValid ==> posIn > 0) && Lean(end)
      && if encodeMode == STORED then StoredOk() && end == End() else Settled() && (!lastblock ==> Strict())
    }

    /** The block leaves some room. */
    ghost predicate Strict()
      reads this`sym, this`tables, this`tab, this`encodeMode, w, w.out
    {
      w.Valid() && AllRecordable(sym) && tab < |tables| && AccountedCost(encodeMode, tables[tab], sym) < Room()
    }

    /** Writes a block with codes. */
    method CommitCoded() returns (ghost r: Record)
      requires Prepared() && Stream() && Settled()
      modifies this`tables, w, w.out
      ensures w.Valid() && TwoTables(tables) && RecordOk(r) && !r.PlainBlock? && r.final == lastblock && r.syms == sym
      ensures var off := old(|w.Written()|); var n := |RecordBits(r, off)|;
        && w.Written() == old(w.Written()) + RecordBits(r, off)
        && 10 <= n <= old(Room()) + 10 && (n <= old(Room()) <==> old(Room()) >= 10)
        && AllRecordable(sym) && n <= old(AccountedCost(encodeMode, tables[tab], sym))
    {
      hide TableFor, ReversedTable, FixedBits, DynamicBits, AllRecordable, DynamicCost, FixedCost, Prepared;
      BlockSize(encodeMode, tables[tab], sym, lastblock, Room());
      PreparedFacts();
      if encodeMode == FIXED {
        r := FixedBlock(lastblock, sym);
        WriteFixed(w, fixedMain, fixedDist, lastblock, sym);
      } else {
        r := DynamicBlock(tables[tab], lastblock, sym);
        var t := WriteDynamic(w, tables[tab], lastblock, sym);
        TableForShape(tables[tab], sym);
        tables := tables[tab := t];
      }
    }

    /** Writes a stored block. */
    method CommitStored() returns (ghost r: Record)
      requires Stream() && First() && StoredOk()
      modifies w, w.out
      ensures w.Valid() && r == PlainBlock(lastblock, input[startpos..End()]) && RecordOk(r)
      ensures var off := old(|w.Written()|); var n := |RecordBits(r, off)|;
        && w.Written() == old(w.Written()) + RecordBits(r, off)
        && n == StoredSize(off, |r.data|) && 10 <= n <= old(Room()) + 32 && (off == 0 ==> n <= old(Room()))
        && n <= old(72 - w.bitpos + 8 * (End() - startpos))
    {
      hide StoredBits, ByteEdge;
      var data := input[startpos..End()];
      r := PlainBlock(lastblock, data);
      StoredBitsSize(|w.Written()|, lastblock, data);
      StoredSlack(w.posOut, w.bitpos, |data|);
      WriteStored(w, startpos == 0 && w.bitpos == 0, lastblock, data);
    }

    /** A block with the data from `from` to `end` was written behind `bits`. */
    ghost predicate BlockDone(bits: seq<bool>, from: nat, r: Record, end: nat)
      reads this`tables, w, w.out
    {
      && w.Valid() && RecordOk(r) && w.Written() == bits + RecordBits(r, |bits|)
      && |w.Written()| <= 8 * outlen + 32 && |RecordBits(r, |bits|)| >= 10
      && |RecordBits(r, |bits|)| <= (if r.PlainBlock? then 42 else 10) + 9 * (end - from)
      && (|w.Written()| <= 8 * outlen <==> KeepsLimit(r, |bits|, outlen))
      && Holds(r, input, from, end) && (|input| < SURELY_STANDARD ==> Standard(r))
      && (bits == [] && r.PlainBlock? ==> KeepsLimit(r, 0, outlen))
      && TwoTables(tables)
    }

    /** `kite_deflate_commitblock` */
    method CommitBlock(ghost end: nat) returns (last: bool, ghost r: Record)
      requires Prepared() && Stream() && First() && Committable(end)
      modifies this`startpos, this`tables, w, w.out
      ensures BlockDone(old(w.Written()), old(startpos), r, end)
      ensures r.final == last == lastblock && startpos == End() && (!r.PlainBlock? ==> r.syms == sym)
      ensures !r.PlainBlock? ==> AllChosen(old(startpos), r.syms)
      ensures !last && !r.PlainBlock? ==> |w.Written()| < 8 * outlen
    {
      hide TableFor, RecordBits, AllRecordable, Prepared, AccountedCost, DescribedBy, AllChosen, Choice, StoredSize, WithinStandard, TwoTables;
      if encodeMode == STORED {
        r := CommitStored();
      } else {
        SettledFacts();
        DescribedFew(input, startpos, sym, end);
        r := CommitCoded();
      }
      if r.PlainBlock? || |r.syms| < SURELY_STANDARD {
        ShortIsStandard(r);
      }
      startpos := posIn - if prevValid then 1 else 0;
      last := lastblock;
    }

    /** Between two blocks. */
    ghost predicate Between()
      reads this`posIn, this`startpos, this`prevValid, this`prevLongest, this`lastblock, mf, mf.hash, mf.chain
    {
      !lastblock && Tracking() && Held() && startpos == End() && posIn < |input| && (!mf.cfg.lazySearch ==> !prevValid)
    }

    /** Between two blocks within the limit. */
    ghost predicate BetweenBlocks()
      reads this, mf, mf.hash, mf.chain, w, w.out
    {
      Prepared() && Stream() && First() && TwoTables(tables) && Between()
    }

    // ----- finding symbols ---------------------------------------------------------------

    /** The match finder stands where the encoder does, or too close to the end to find anything. */
    ghost predicate Tracking()
      reads this`posIn, mf, mf.hash, mf.chain
    {
      mf.Valid() && mf.buffer == input && mf.offset <= posIn && (mf.offset == posIn || |input| - mf.offset < MATCH_MIN_LEN)
    }

    /** The match finder can be used again. */
    ghost predicate FinderOk()
      reads mf, mf.hash
    {
      mf.Reusable()
    }

    lemma TrackingIsOk()
      requires Tracking()
      ensures FinderOk()
    {
      mf.ValidIsReusable();
    }

    /** The symbols of the block describe the input from its start. */
    ghost predicate Described()
      reads this`startpos, this`sym, this`posIn, this`prevValid
    {
      (prevValid ==> posIn > 0) && Covers(End())
    }

    /** The match or literal at the current position, as the match finder leaves it. */
    method FindSymbol() returns (m: Match)
      requires Tracking() && posIn < |input|
      modifies mf`offset, mf`cyclicPos, mf`matches, mf.hash, mf.chain
      ensures mf.Valid() && mf.buffer == input && Recordable(m) && Describes(input, posIn, m)
      ensures !mf.cfg.lazySearch ==> Choice(posIn, m)
      ensures !IsLiteral(m) ==> mf.offset == posIn + 1
      ensures IsLiteral(m) ==> mf.offset == posIn + 1 || (mf.offset <= posIn && |input| - mf.offset < MATCH_MIN_LEN)
    {
      hide Agree, Exhausted;
      ghost var at := mf.offset;
      var matches := mf.GetMatches(mf.cfg.depth, MATCH_MIN_LEN - 1);
      LongestFrom(input, at, posIn, mf.wsiz, mf.cfg.niceLen, mf.cfg.depth, if matches > 0 then mf.matches[matches].len else MATCH_MIN_LEN - 1);
      if matches > 0 {
        m := mf.matches[matches];
        if !(m.len == MATCH_MIN_LEN && m.dist > TOO_FAR) {
          return;
        }
      }
      mf.SetLiteral(input[posIn]);
      m := mf.matches[0];
    }

    /** `while (--len) kite_mf_hc3_skip(mf)`, counted up. */
    method SkipMany(n: nat)
      requires mf.Valid() && mf.buffer == input && mf.offset + n <= |input|
      modifies mf`offset, mf`cyclicPos, mf`matches, mf.hash, mf.chain
      ensures mf.Valid() && mf.buffer == input && mf.offset == old(mf.offset) + n && mf.matches[0] == old(mf.matches[0])
    {
      for k := 0 to n
        modifies mf`offset, mf`cyclicPos, mf`matches, mf.hash, mf.chain
        invariant mf.Valid() && mf.buffer == input && mf.offset == old(mf.offset) + k && mf.matches[0] == old(mf.matches[0])
      {
        mf.Skip();
      }
    }

    /** One round of the loop of `kite_deflate_fast`; the result says that the symbol did not fit. */
    method NextSymbol() returns (full: bool)
      requires Prepared() && Stream() && Counted(sym) && InBudget() && |sym| < MAX_SYMBOLS
      requires Tracking() && Described() && Spent(posIn) && posIn < |input| && !prevValid && !mf.cfg.lazySearch
      modifies this`mainFreqs, this`distFreqs, this`freqChanged, this`tables, this`tab, this`costbits,
               this`sym, this`encodeMode, this`lastblock, this`posIn,
               mf`offset, mf`cyclicPos, mf`matches, mf.hash, mf.chain
      ensures Described() && TwoTables(tables)
      ensures full ==> sym == old(sym) && lastblock && Settled() && Stops(|w.Written()|, startpos, posIn) && Cut(posIn)
      ensures Spent(posIn)
      ensures !full ==> |sym| == |old(sym)| + 1 && Counted(sym) && InBudget() && lastblock == old(lastblock)
      ensures !full ==> Tracking() && posIn > old(posIn)
      ensures FinderOk()
    {
      hide Counted, Settled, Prepared, Recordable, Describes, DescribedBy, AllChosen, Choice, Stops, Spent, Short, InBudget, Beyond;
      var m := FindSymbol();
      mf.ValidIsReusable();
      full := TallyNext(m, posIn);
      if full {
        NextIsBeyond(m, posIn);
        StopsShort(|w.Written()|, startpos, posIn, posIn + Length(m));
        return;
      }
      posIn := posIn + Length(m);
      if !IsLiteral(m) {
        SkipMany(m.len - 1);
        mf.ValidIsReusable();
      }
    }

    /** A block that began after `n` bits with the data at `from` may end at `at`. */
    ghost predicate Stops(n: nat, from: nat, at: nat) {
      StopsFor(|input|, mf.cfg.lazySearch, maxSymbols, 8 * outlen - n, from, at)
    }

    lemma MatchIsBeyond(m: Match, at: nat)
      requires Recordable(m) && !IsLiteral(m) && Describes(input, at, m)
      ensures Beyond(|input|, mf.cfg.lazySearch, at, at + Length(m))
    {
    }

    lemma NextIsBeyond(m: Match, at: nat)
      requires Recordable(m) && Describes(input, at, m) && at + Length(m) + (if mf.cfg.lazySearch then 1 else 0) <= |input|
      ensures Beyond(|input|, mf.cfg.lazySearch, at, at + Length(m))
    {
    }

    lemma StopsEnd(n: nat, at: nat)
      requires DescribedBy(input, startpos, sym, at) && (at == |input| || |sym| >= maxSymbols)
      ensures Stops(n, startpos, at)
    {
      EndGrows(startpos, sym);
    }

    lemma StopsShort(n: nat, from: nat, at: nat, reach: nat)
      requires Beyond(|input|, mf.cfg.lazySearch, at, reach) && Short(from, reach, 8 * outlen - n)
      ensures Stops(n, from, at)
    {
    }

    /** A block that was cut short is the last one. */
    lemma CutIsCommittable()
      requires Stream() && Settled() && Described() && Spent(End()) && Cut(End()) && lastblock
      ensures Committable(End()) && Ends(lastblock, |input|, maxSymbols, Room(), startpos, End())
    {
      hide DescribedBy, AllChosen, Choice, TableFor, AccountedCost, AllRecordable, Short, Lean, Strict, Spent;
      SettledLean(End());
    }

    /** Where `EndBlock` may end a block. */
    lemma EndsHere(at: nat)
      requires w.Valid() && DescribedBy(input, startpos, sym, at) && (at == |input| || |sym| >= maxSymbols)
      requires at == |input| ==> lastblock
      requires lastblock ==> at == |input| || Short(startpos, at + 1, Room())
      ensures Ends(lastblock, |input|, maxSymbols, Room(), startpos, at)
    {
      EndGrows(startpos, sym);
    }

    /** The end of a block that takes in the end of the input, or has as many symbols as there may be. */
    method FinishBlock()
      requires Stream() && Counted(sym) && InBudget() && 0 < |sym| <= MAX_SYMBOLS && Described()
      requires Spent(End()) && (lastblock <==> End() == |input|) && (End() == |input| || |sym| >= maxSymbols)
      modifies this`tables, this`costbits, this`freqChanged, this`encodeMode, this`lastblock
      ensures Committable(End()) && Stops(|w.Written()|, startpos, End()) && startpos < End() <= |input|
      ensures old(lastblock) ==> lastblock
      ensures Ends(lastblock, |input|, maxSymbols, Room(), startpos, End())
    {
      hide Counted, InBudget, DescribedBy, AllChosen, Choice, StoredOk, Strict, Stops, TwoTables, Settled, Priced, Cheapest, Lean, Spent, Ends, Short;
      DescribedFacts(input, startpos, sym, End());
      StopsEnd(|w.Written()|, End());
      EndBlock();
      EndsHere(End());
      SettledFacts();
    }

    /** The loop of `kite_deflate_fast`: symbols are found until the block is full or ended. */
    method CollectBlock()
      requires Prepared() && Stream() && TwoTables(tables) && Tracking() && posIn == startpos < |input| && !prevValid
      requires !mf.cfg.lazySearch && !lastblock
      modifies this`mainFreqs, this`distFreqs, this`freqChanged, this`tables, this`tab, this`costbits,
               this`sym, this`encodeMode, this`lastblock, this`posIn,
               mf`offset, mf`cyclicPos, mf`matches, mf.hash, mf.chain
      ensures startpos <= posIn <= |input| && Committable(posIn) && FinderOk()
      ensures !lastblock ==> startpos < posIn < |input| && Tracking() && |sym| == maxSymbols
      ensures Stops(|w.Written()|, startpos, posIn) && Ends(lastblock, |input|, maxSymbols, Room(), startpos, posIn)
    {
      hide Counted, Settled, Prepared, DescribedBy, AllChosen, Choice, ReversedTable, FixedLitLens, FixedDistLens, TwoTables, AccountedCost;
      hide InBudget, Tracking, StoredOk, Strict, Stream, Spent, Stops, Short, Lean, Priced, Cheapest, Cut, Ends, AllRecordable, TableFor;
      StartBlock();
      CountedFacts();
      EmptyInBudget(posIn);
      NothingDescribed(input, posIn);
      NothingChosen(posIn);
      PreparedFacts();
      while true
        invariant Described() && Tracking() && startpos <= posIn < |input| && TwoTables(tables) && Spent(posIn)
        invariant Counted(sym) && InBudget() && |sym| < maxSymbols && !lastblock
        decreases |input| - posIn
      {
        var full := NextSymbol();
        DescribedFacts(input, startpos, sym, posIn);
        if full {
          CutIsCommittable();
          break;
        }
        lastblock := lastblock || posIn >= |input|;
        if posIn >= |input| || |sym| >= maxSymbols {
          FinishBlock();
          TrackingIsOk();
          break;
        }
      }
    }

    /** `kite_deflate_fast` */
    method DeflateFast() returns (last: bool, ghost r: Record)
      requires BetweenBlocks() && !mf.cfg.lazySearch
      modifies this`mainFreqs, this`distFreqs, this`freqChanged, this`tables, this`tab, this`costbits,
               this`sym, this`encodeMode, this`lastblock, this`posIn, this`startpos,
               mf`offset, mf`cyclicPos, mf`matches, mf.hash, mf.chain, w, w.out
      ensures BlockDone(old(w.Written()), old(startpos), r, startpos) && r.final == last && startpos <= |input|
      ensures Stops(old(|w.Written()|), old(startpos), startpos)
      ensures Ends(last, |input|, maxSymbols, 8 * outlen - old(|w.Written()|), old(startpos), startpos)
      ensures !last && !r.PlainBlock? ==> |r.syms| == maxSymbols
      ensures !r.PlainBlock? ==> AllChosen(old(startpos), r.syms)
      ensures !last ==> Between() && startpos > old(startpos) && (r.PlainBlock? || |w.Written()| < 8 * outlen)
      ensures FinderOk()
    {
      hide Counted, Settled, Prepared, DescribedBy, AllChosen, Choice, TwoTables, AccountedCost, RecordBits, AllRecordable, Standard, Holds, Ends, Lean;
      CollectBlock();
      last, r := CommitBlock(posIn);
    }

    // ----- lazy matching -----------------------------------------------------------------

    /**
     * With `prevValid`, the byte before the current position is still to be coded: as a literal, or
     * with the longest match found there.
     */
    ghost predicate Held()
      reads this`posIn, this`prevValid, this`prevLongest, mf`matches
    {
      && prevLongest < |mf.matches|
      && if prevValid then
           && 0 < posIn <= |input| && mf.matches[0] == Match(MATCH_MIN_LEN - 1, input[posIn - 1] as int)
           && Recordable(mf.matches[prevLongest]) && Describes(input, posIn - 1, mf.matches[prevLongest])
           && (prevLongest > 0 ==> !IsLiteral(mf.matches[prevLongest]))
           && HeldFrom(posIn - 1, prevLongest, mf.matches[prevLongest])
         else prevLongest == 0
    }

    /** What is held at `at`: the longest match that a search finds, or nothing worth coding. */
    ghost predicate HeldFrom(at: nat, n: nat, m: Match) {
      if n > 0 then Best(input, at, mf.wsiz, mf.cfg.niceLen, mf.cfg.depth / 2, m)
      else Nothing(input, at, mf.wsiz, mf.cfg.niceLen, mf.cfg.depth)
    }

    lemma TakeIsChoice(at: nat, n: nat, m: Match)
      requires mf.cfg.lazySearch && n > 0 && !IsLiteral(m) && HeldFrom(at, n, m)
      requires Unbeaten(input, at, mf.wsiz, mf.cfg, m.len)
      ensures Choice(at, m)
    {
      hide Best, Unbeaten;
    }

    /** A literal is coded where nothing was found, or where what was found is beaten. */
    lemma LiteralIsChoice(at: nat, n: nat, m: Match, k: nat, next: Match, literal: Match)
      requires mf.cfg.lazySearch && IsLiteral(literal) && HeldFrom(at, n, m)
      requires n > 0 ==> k > 0 && HeldFrom(at + 1, k, next) && next.len > m.len
      ensures Choice(at, literal)
    {
      hide Longest, Nothing, Found;
    }

    /** A match at the current position that is longer than the held one, if there is any. */
    method FindLonger(len0: nat) returns (n: nat, len: nat)
      requires Tracking() && Held() && posIn < |input| && len0 == mf.matches[prevLongest].len
      modifies mf`offset, mf`cyclicPos, mf`matches, mf`otherMatches, mf.hash, mf.chain
      ensures mf.Valid() && mf.buffer == input && mf.otherMatches == old(mf.matches) && n < 4
      ensures mf.matches[0] == Match(MATCH_MIN_LEN - 1, input[posIn] as int)
      ensures n == 0 ==> len == MATCH_MIN_LEN - 1
      ensures n > 0 ==> len == mf.matches[n].len > len0 && mf.offset == posIn + 1
      ensures n > 0 ==> !IsLiteral(mf.matches[n]) && Recordable(mf.matches[n]) && Describes(input, posIn, mf.matches[n])
      ensures mf.offset == old(mf.offset) + 1 <= |input| || (mf.offset == old(mf.offset) && |input| - mf.offset <= len0)
      ensures n > 0 || len0 < MATCH_MIN_LEN ==> HeldFrom(posIn, n, mf.matches[n])
      ensures n == 0 && len0 >= MATCH_MIN_LEN ==> Unbeaten(input, posIn - 1, mf.wsiz, mf.cfg, len0)
    {
      hide Agree, Exhausted;
      ghost var at := mf.offset;
      mf.Toggle();
      mf.SetLiteral(input[posIn]);
      n, len := 0, MATCH_MIN_LEN - 1;
      if len0 < mf.cfg.maxLazy {
        var matches := mf.GetMatches(LazyDepth(mf.cfg, len0), len0);
        LongestFrom(input, at, posIn, mf.wsiz, mf.cfg.niceLen, LazyDepth(mf.cfg, len0), if matches > 0 then mf.matches[matches].len else len0);
        LongestInHalf(input, posIn, mf.wsiz, mf.cfg, len0, if matches > 0 then mf.matches[matches].len else len0);
        if matches > 0 {
          n, len := matches, mf.matches[matches].len;
          if len == MATCH_MIN_LEN && mf.matches[matches].dist > TOO_FAR {
            n, len := 0, MATCH_MIN_LEN - 1;
          }
        }
      } else {
        mf.Skip();
      }
    }

    method TallyMatch(m: Match, ghost at: nat) returns (full: bool)
      requires Prepared() && Stream() && Counted(sym) && InBudget() && |sym| < MAX_SYMBOLS && Recordable(m)
      requires Covers(at) && Describes(input, at, m) && Choice(at, m) && Spent(at) && !IsLiteral(m)
      modifies this`mainFreqs, this`distFreqs, this`freqChanged, this`tables, this`tab, this`costbits,
               this`sym, this`encodeMode, this`lastblock
      ensures !full ==> |sym| == |old(sym)| + 1 && Counted(sym) && InBudget() && lastblock == old(lastblock)
      ensures !full ==> Covers(at + Length(m)) && Spent(at + Length(m))
      ensures full ==> sym == old(sym) && lastblock && Settled() && Stops(|w.Written()|, startpos, at) && Spent(at) && Cut(at)
      ensures TwoTables(tables) && at + Length(m) <= |input|
    {
      hide Counted, Settled, Prepared, Recordable, Describes, DescribedBy, AllChosen, Choice, Stops, Spent, Short, InBudget, Beyond;
      full := TallyNext(m, at);
      if full {
        MatchIsBeyond(m, at);
        StopsShort(|w.Written()|, startpos, at, at + Length(m));
      }
    }

    /** Moves behind a match of `len0` bytes that begins at the byte before. */
    method StepBehind(len0: nat)
      requires mf.Valid() && mf.buffer == input && len0 >= MATCH_MIN_LEN && posIn + len0 - 1 <= |input|
      requires mf.offset <= posIn + 1 && (mf.offset == posIn + 1 || |input| - mf.offset <= len0)
      modifies this`posIn, this`prevValid, this`prevLongest, mf`offset, mf`cyclicPos, mf`matches, mf.hash, mf.chain
      ensures Tracking() && FinderOk() && Held() && !prevValid && posIn == old(posIn) + len0 - 1
    {
      SkipMany(len0 - 2);
      mf.ValidIsReusable();
      posIn := posIn + len0 - 1;
      prevValid, prevLongest := false, 0;
    }

    /** The held match is taken: the encoder moves behind it. */
    method TakeHeld(len0: nat) returns (full: bool)
      requires Prepared() && Stream() && Counted(sym) && InBudget() && |sym| < MAX_SYMBOLS
      requires mf.Valid() && mf.buffer == input && Described() && prevValid && prevLongest < 4 && posIn < |input|
      requires Spent(posIn - 1) && mf.cfg.lazySearch
      requires var m := mf.otherMatches[prevLongest];
        Recordable(m) && !IsLiteral(m) && m.len == len0 && Describes(input, posIn - 1, m) && Choice(posIn - 1, m)
      requires mf.offset <= posIn + 1 && (mf.offset == posIn + 1 || |input| - mf.offset <= len0)
      modifies this`mainFreqs, this`distFreqs, this`freqChanged, this`tables, this`tab, this`costbits,
               this`sym, this`encodeMode, this`lastblock, this`posIn, this`prevValid, this`prevLongest,
               mf`offset, mf`cyclicPos, mf`matches, mf.hash, mf.chain
      ensures Described() && TwoTables(tables) && FinderOk()
      ensures full ==> sym == old(sym) && lastblock && Settled() && posIn == old(posIn)
      ensures full ==> Stops(|w.Written()|, startpos, End()) && Spent(End()) && Cut(End())
      ensures !full ==> |sym| == |old(sym)| + 1 && Counted(sym) && InBudget() && lastblock == old(lastblock)
      ensures !full ==> Tracking() && Held() && old(posIn) < posIn <= |input| && !prevValid && Spent(posIn)
    {
      hide Counted, Settled, Prepared, Recordable, Describes, DescribedBy, AllChosen, Choice, Stops, Spent, Short, InBudget, Beyond, Covers, Cut, HeldFrom, Best, Nothing;
      EndAfter(input, posIn - 1, mf.otherMatches[prevLongest]);
      mf.ValidIsReusable();
      full := TallyMatch(mf.otherMatches[prevLongest], posIn - 1);
      if full {
        return;
      }
      StepBehind(len0);
    }

    /** The held byte, if any, becomes a literal, and what was found here is held. */
    method HoldNext(n: nat) returns (full: bool)
      requires Prepared() && Stream() && Counted(sym) && InBudget() && |sym| < MAX_SYMBOLS
      requires mf.Valid() && mf.buffer == input && Described() && posIn < |input| && n < 4
      requires prevValid ==> mf.otherMatches[0] == Match(MATCH_MIN_LEN - 1, input[posIn - 1] as int)
      requires prevValid ==> Choice(posIn - 1, mf.otherMatches[0])
      requires HeldFrom(posIn, n, mf.matches[n])
      requires mf.matches[0] == Match(MATCH_MIN_LEN - 1, input[posIn] as int)
      requires n > 0 ==> !IsLiteral(mf.matches[n]) && Recordable(mf.matches[n]) && Describes(input, posIn, mf.matches[n])
      requires mf.offset == posIn + 1 || (mf.offset <= posIn && |input| - mf.offset < MATCH_MIN_LEN)
      requires Spent(End()) && mf.cfg.lazySearch
      modifies this`mainFreqs, this`distFreqs, this`freqChanged, this`tables, this`tab, this`costbits,
               this`sym, this`encodeMode, this`lastblock, this`posIn, this`prevValid, this`prevLongest
      ensures Described() && TwoTables(tables) && FinderOk()
      ensures full ==> sym == old(sym) && lastblock && Settled() && posIn == old(posIn)
      ensures full ==> Stops(|w.Written()|, startpos, End()) && Spent(End()) && Cut(End())
      ensures !full ==> |sym| <= |old(sym)| + 1 && Counted(sym) && InBudget() && lastblock == old(lastblock)
      ensures !full ==> Tracking() && Held() && old(posIn) < posIn <= |input| && prevValid && Spent(posIn - 1)
    {
      hide Counted, Settled, Prepared, DescribedBy, AllChosen, Choice, Stops, Spent, Short, InBudget, Beyond;
      CountedFacts();
      mf.ValidIsReusable();
      full := false;
      if !prevValid {
        prevValid := true;
      } else {
        full := TallyNext(mf.otherMatches[0], posIn - 1);
        if full {
          NextIsBeyond(mf.otherMatches[0], posIn - 1);
          StopsShort(|w.Written()|, startpos, posIn - 1, posIn);
          return;
        }
      }
      posIn := posIn + 1;
      prevLongest := n;
    }

    /** One round of the loop of `kite_deflate_slow`; the result says that a symbol did not fit. */
    method NextLazy() returns (full: bool)
      requires Prepared() && Stream() && Counted(sym) && InBudget() && |sym| < MAX_SYMBOLS
      requires Tracking() && Held() && Described() && posIn < |input| && Spent(End()) && mf.cfg.lazySearch
      modifies this`mainFreqs, this`distFreqs, this`freqChanged, this`tables, this`tab, this`costbits,
               this`sym, this`encodeMode, this`lastblock, this`posIn, this`prevValid, this`prevLongest,
               mf`offset, mf`cyclicPos, mf`matches, mf`otherMatches, mf.hash, mf.chain
      ensures Described() && TwoTables(tables) && FinderOk()
      ensures full ==> sym == old(sym) && lastblock && Settled() && posIn == old(posIn)
      ensures full ==> Stops(|w.Written()|, startpos, End()) && Spent(End()) && Cut(End())
      ensures !full ==> |sym| <= |old(sym)| + 1 && Counted(sym) && InBudget() && lastblock == old(lastblock)
      ensures !full ==> Tracking() && Held() && old(posIn) < posIn <= |input| && Spent(End())
    {
      hide Counted, Settled, Prepared, DescribedBy, AllChosen, Choice, Describes, HeldFrom, Unbeaten;
      var len0 := mf.matches[prevLongest].len;
      var n, len := FindLonger(len0);
      if len < len0 {
        TakeIsChoice(posIn - 1, prevLongest, mf.otherMatches[prevLongest]);
        full := TakeHeld(len0);
      } else {
        if prevValid {
          LiteralIsChoice(posIn - 1, prevLongest, mf.otherMatches[prevLongest], n, mf.matches[n], mf.otherMatches[0]);
        }
        full := HoldNext(n);
      }
    }

    /** The loop of `kite_deflate_slow`; `flush` says that the end of the input was reached. */
    method CollectLazily() returns (flush: bool)
      requires Prepared() && Stream() && TwoTables(tables) && Tracking() && Held() && startpos == End() && posIn < |input|
      requires mf.cfg.lazySearch && !lastblock
      modifies this`mainFreqs, this`distFreqs, this`freqChanged, this`tables, this`tab, this`costbits,
               this`sym, this`encodeMode, this`lastblock, this`posIn, this`prevValid, this`prevLongest,
               mf`offset, mf`cyclicPos, mf`matches, mf`otherMatches, mf.hash, mf.chain
      ensures Described() && startpos <= End() <= posIn <= |input| && FinderOk()
      ensures flush ==> posIn == |input| && Counted(sym) && InBudget() && Held() && lastblock && |sym| <= MAX_SYMBOLS
      ensures flush ==> Spent(End())
      ensures !flush ==> Committable(End()) && Stops(|w.Written()|, startpos, End())
      ensures !flush ==> Ends(lastblock, |input|, maxSymbols, Room(), startpos, End())
      ensures !lastblock ==> startpos < End() && posIn < |input| && Tracking() && Held() && |sym| == maxSymbols
    {
      hide Counted, Settled, Prepared, DescribedBy, AllChosen, Choice, ReversedTable, FixedLitLens, FixedDistLens, TwoTables, AccountedCost;
      hide InBudget, Tracking, Held, StoredOk, Strict, Stream, FinderOk, Spent, Stops, Short, Lean, Cut, Ends, AllRecordable, TableFor;
      StartBlock();
      CountedFacts();
      HeldFacts();
      EmptyInBudget(End());
      NothingDescribed(input, End());
      NothingChosen(End());
      PreparedFacts();
      while true
        invariant Described() && Tracking() && Held() && startpos <= End() <= posIn < |input| && TwoTables(tables)
        invariant Spent(End())
        invariant Counted(sym) && InBudget() && |sym| < maxSymbols && !lastblock
        decreases |input| - posIn
      {
        var full := NextLazy();
        DescribedFacts(input, startpos, sym, End());
        if full {
          CutIsCommittable();
          return false;
        }
        lastblock := lastblock || posIn >= |input|;
        TrackingIsOk();
        if posIn >= |input| {
          return true;
        }
        if |sym| >= maxSymbols {
          FinishBlock();
          return false;
        }
      }
    }

    /**
     * The end of `kite_deflate_slow`: the byte still held is coded, if it fits; the encoder goes on as
     * if it did.
     */
    method FlushHeld() returns (dropped: bool)
      requires Prepared() && Stream() && Counted(sym) && InBudget() && |sym| <= MAX_SYMBOLS && lastblock
      requires Described() && Held() && posIn == |input| && startpos <= End() && Spent(End()) && mf.cfg.lazySearch
      modifies this`mainFreqs, this`distFreqs, this`freqChanged, this`tables, this`tab, this`costbits,
               this`sym, this`encodeMode, this`lastblock, this`prevValid
      ensures lastblock && !prevValid && (dropped ==> posIn > 0 && Short(startpos, posIn, Room()))
      ensures Committable(if dropped then posIn - 1 else posIn)
    {
      hide Counted, Settled, Prepared, DescribedBy, AllChosen, Choice, StoredOk, Strict, TwoTables, InBudget, Recordable, Describes, Lean, Spent, Short;
      BudgetFacts();
      dropped := false;
      if prevValid {
        HeldIsLiteral(input, posIn - 1, mf.matches[prevLongest]);
        LiteralIsChoice(posIn - 1, 0, mf.matches[0], 0, mf.matches[0], mf.matches[0]);
        dropped := TallyLast(mf.matches[prevLongest], posIn - 1);
        prevValid := false;
      }
      SettledFacts();
      SettledLean(if dropped then posIn - 1 else posIn);
    }

    method TallyLast(m: Match, ghost at: nat) returns (dropped: bool)
      requires Prepared() && Stream() && Counted(sym) && InBudget() && |sym| <= MAX_SYMBOLS && Recordable(m) && lastblock
      requires at + 1 == |input| && Covers(at) && Describes(input, at, m) && Choice(at, m) && Spent(at)
      modifies this`mainFreqs, this`distFreqs, this`freqChanged, this`tables, this`tab, this`costbits,
               this`sym, this`encodeMode, this`lastblock
      ensures lastblock && Settled() && TwoTables(tables)
      ensures if dropped then Covers(at) else Covers(at + 1)
      ensures dropped ==> Short(startpos, at + 1, Room())
      ensures if dropped then Spent(at) else Spent(at + 1)
    {
      hide Counted, Settled, Prepared, DescribedBy, AllChosen, Choice, Describes, Recordable, TwoTables, InBudget, Spent, Short, Cut, AccountedCost, AllRecordable;
      HeldIsLiteral(input, at, m);
      dropped := TallyNext(m, at);
      if !dropped {
        BudgetFacts();
      }
    }

    /** `kite_deflate_slow`; `dropped` says that the last byte is missing though it counts as coded. */
    method DeflateSlow() returns (last: bool, dropped: bool, ghost r: Record, ghost end: nat)
      requires BetweenBlocks() && mf.cfg.lazySearch
      modifies this`mainFreqs, this`distFreqs, this`freqChanged, this`tables, this`tab, this`costbits,
               this`sym, this`encodeMode, this`lastblock, this`posIn, this`startpos, this`prevValid, this`prevLongest,
               mf`offset, mf`cyclicPos, mf`matches, mf`otherMatches, mf.hash, mf.chain, w, w.out
      ensures BlockDone(old(w.Written()), old(startpos), r, end) && r.final == last && startpos <= |input|
      ensures if dropped then end + 1 == startpos == |input| && last else end == startpos
      ensures Stops(old(|w.Written()|), old(startpos), startpos)
      ensures Ends(last, |input|, maxSymbols, 8 * outlen - old(|w.Written()|), old(startpos), startpos)
      ensures !last && !r.PlainBlock? ==> |r.syms| == maxSymbols
      ensures !r.PlainBlock? ==> AllChosen(old(startpos), r.syms)
      ensures dropped ==> Short(old(startpos), |input|, 8 * outlen - old(|w.Written()|))
      ensures !last ==> Between() && startpos > old(startpos) && (r.PlainBlock? || |w.Written()| < 8 * outlen)
      ensures FinderOk()
    {
      hide Counted, Settled, Prepared, DescribedBy, AllChosen, Choice, TwoTables, AccountedCost, RecordBits, AllRecordable, Standard, Holds;
      hide Tracking, Held, InBudget, StoredOk, Strict, BlockDone, Lean;
      var flush := CollectLazily();
      end := End();
      dropped := false;
      if flush {
        dropped := FlushHeld();
        end := if dropped then posIn - 1 else posIn;
      }
      last, r := CommitBlock(end);
    }

    /** A block, with or without lazy matching. */
    method DeflateOne() returns (last: bool, dropped: bool, ghost r: Record, ghost end: nat)
      requires BetweenBlocks()
      modifies this`mainFreqs, this`distFreqs, this`freqChanged, this`tables, this`tab, this`costbits,
               this`sym, this`encodeMode, this`lastblock, this`posIn, this`startpos, this`prevValid, this`prevLongest,
               mf`offset, mf`cyclicPos, mf`matches, mf`otherMatches, mf.hash, mf.chain, w, w.out
      ensures BlockDone(old(w.Written()), old(startpos), r, end) && r.final == last && startpos <= |input|
      ensures if dropped then mf.cfg.lazySearch && end + 1 == startpos == |input| && last else end == startpos
      ensures Stops(old(|w.Written()|), old(startpos), startpos)
      ensures Ends(last, |input|, maxSymbols, 8 * outlen - old(|w.Written()|), old(startpos), startpos)
      ensures !last && !r.PlainBlock? ==> |r.syms| == maxSymbols
      ensures !r.PlainBlock? ==> AllChosen(old(startpos), r.syms)
      ensures dropped ==> Short(old(startpos), |input|, 8 * outlen - old(|w.Written()|))
      ensures !last ==> Between() && startpos > old(startpos) && (r.PlainBlock? || |w.Written()| < 8 * outlen)
      ensures FinderOk()
    {
      hide BlockDone, Tracking, Held, Prepared, TwoTables;
      if mf.cfg.lazySearch {
        last, dropped, r, end := DeflateSlow();
      } else {
        last, r := DeflateFast();
        dropped, end := false, startpos;
      }
    }

    /**
     * The loop of `kite_deflate_destsize`, which gives the blocks it wrote. It is followed until the
     * last block, or until a stored block that is not the last passes the limit: `wrapped`. (What is
     * left is a 32-bit difference in the source.)
     */
    method Run() returns (dropped: bool, wrapped: bool, ghost blocks: seq<Record>, ghost end: nat)
      requires BetweenBlocks() && startpos == 0
      modifies this`mainFreqs, this`distFreqs, this`freqChanged, this`tables, this`tab, this`costbits,
               this`sym, this`encodeMode, this`lastblock, this`posIn, this`startpos, this`prevValid, this`prevLongest,
               mf`offset, mf`cyclicPos, mf`matches, mf`otherMatches, mf.hash, mf.chain, w, w.out
      ensures w.Valid() && startpos <= |input| && |w.Written()| <= 8 * w.out.Length && FinderOk() && TwoTables(tables)
      ensures if dropped then mf.cfg.lazySearch && end + 1 == startpos == |input| else end == startpos
      ensures Ran(w.Written(), blocks, end, wrapped) && WellChosen(input, mf.wsiz, mf.cfg, blocks)
      ensures Consumed(input, outlen, maxSymbols, |w.Written()|, blocks, startpos, end, dropped, wrapped)
      ensures Opening(input, outlen, mf.cfg.lazySearch, maxSymbols, blocks, startpos, end, dropped)
    {
      hide Prepared, BlockDone, TwoTables, ReadsAll, ReadsTo, Wrote, Standard, AllStandard, LastKeepsLimit, Tracking, Held;
      hide SoFar, Ran, Opening, Stops, Ends, Consumed, Advanced, WellChosen, AllChosen, Short, Holds, RecordOk, RecordBits;
      hide Between, FinderOk;
      blocks, dropped, wrapped := [], false, false;
      NothingSoFar(w.Written());
      NoneAdvanced();
      while true
        invariant BetweenBlocks() && SoFar(w.Written(), blocks, startpos)
        invariant blocks == [] <==> startpos == 0
        invariant Advanced(|w.Written()|, blocks, startpos) && WellChosen(input, mf.wsiz, mf.cfg, blocks)
        invariant blocks != [] ==> Opening(input, outlen, mf.cfg.lazySearch, maxSymbols, blocks, startpos, startpos, false)
        decreases |input| - startpos
      {
        BetweenFacts();
        ghost var bits, from := w.Written(), startpos;
        var last;
        ghost var r;
        last, dropped, r, end := DeflateOne();
        MoreBlocks(bits, blocks, from, r, end);
        BlockDoneFacts(bits, from, r, end);
        Opens(bits, blocks, from, r, end, dropped);
        Advances(bits, blocks, from, r, end, dropped);
        ChosenToo(bits, blocks, from, r, end);
        blocks := blocks + [r];
        if last {
          return;
        }
        if 8 * w.posOut + w.bitpos > 8 * outlen {
          wrapped := true;
          return;
        }
      }
    }

    lemma BetweenFacts()
      requires Between()
      ensures startpos < |input|
    {
    }

    lemma BlockDoneFacts(bits: seq<bool>, from: nat, r: Record, end: nat)
      requires BlockDone(bits, from, r, end)
      ensures w.Valid() && TwoTables(tables) && |bits| < |w.Written()| <= 8 * outlen + 32
    {
    }

    /** Blocks that are not the last. */
    ghost predicate Advanced(n: nat, blocks: seq<Record>, at: nat) {
      && maxSymbols > 0 && Frugal(n, |blocks|, at) && maxSymbols * |blocks| <= at <= |input|
      && forall i :: 0 <= i < |blocks| && !blocks[i].PlainBlock? ==> |blocks[i].syms| == maxSymbols
    }

    lemma NoneAdvanced()
      requires Prepared()
      ensures Advanced(0, [], 0) && WellChosen(input, mf.wsiz, mf.cfg, [])
    {
    }

    lemma Advances(bits: seq<bool>, blocks: seq<Record>, from: nat, r: Record, end: nat, dropped: bool)
      requires Advanced(|bits|, blocks, from) && SoFar(bits, blocks, from) && BlockDone(bits, from, r, end)
      requires startpos <= |input| && end == startpos - (if dropped then 1 else 0) && (dropped ==> r.final)
      requires Ends(r.final, |input|, maxSymbols, 8 * outlen - |bits|, from, startpos)
      requires !r.final && !r.PlainBlock? ==> |r.syms| == maxSymbols
      requires dropped ==> startpos == |input| && Short(from, |input|, 8 * outlen - |bits|)
      ensures !r.final ==> Advanced(|w.Written()|, blocks + [r], startpos)
      ensures r.final || |w.Written()| > 8 * outlen ==>
                Consumed(input, outlen, maxSymbols, |w.Written()|, blocks + [r], startpos, end, dropped, !r.final)
    {
      hide ReadsTo, RecordOk, RecordBits, Standard, AllStandard, KeepsLimit, Holds, Short, BlocksBits, RanOut, TwoTables;
      hide Ends, Ample, Frugal, CutShort;
      HeldData(r, input, from, end);
      SizeStep(|input|, maxSymbols, outlen, |bits|, |w.Written()|, |blocks|, from, startpos, r.final);
      if r.final {
        EndsFinal(|input|, maxSymbols, 8 * outlen - |bits|, from, startpos);
        RunsOut(bits, blocks, from, r, end);
      }
    }

    lemma ChosenToo(bits: seq<bool>, blocks: seq<Record>, from: nat, r: Record, end: nat)
      requires BlockDone(bits, from, r, end) && WellChosen(input, mf.wsiz, mf.cfg, blocks)
      requires !r.PlainBlock? ==> AllChosen(from, r.syms)
      ensures WellChosen(input, mf.wsiz, mf.cfg, blocks + [r])
    {
      hide ReadsTo, RecordOk, RecordBits, Standard, KeepsLimit, Holds, TwoTables, ChosenBy;
    }

    lemma RunsOut(bits: seq<bool>, blocks: seq<Record>, from: nat, r: Record, end: nat)
      requires SoFar(bits, blocks, from) && BlockDone(bits, from, r, end)
      requires startpos == |input| || CutShort(|input|, 8 * outlen - |bits|, from, startpos)
      ensures RanOut(input, outlen, blocks + [r], startpos, end)
    {
      hide ReadsTo, RecordOk, RecordBits, Standard, AllStandard, KeepsLimit, Holds, CutShort, BlocksBits, TwoTables;
      assert (blocks + [r])[..|blocks|] == blocks;
      if startpos != |input| {
        assert LastIsCut(input, outlen, blocks + [r], from, startpos, end);
      }
    }

    lemma Opens(bits: seq<bool>, blocks: seq<Record>, from: nat, r: Record, end: nat, dropped: bool)
      requires BlockDone(bits, from, r, end)
      requires if blocks == [] then from == 0 && bits == [] && Stops(0, 0, startpos) && (dropped ==> Short(0, |input|, 8 * outlen))
               else Opening(input, outlen, mf.cfg.lazySearch, maxSymbols, blocks, from, from, false) && from < |input|
      ensures Opening(input, outlen, mf.cfg.lazySearch, maxSymbols, blocks + [r], startpos, end, dropped)
    {
      hide RecordOk, RecordBits, KeepsLimit, Holds, Short, StopsFor, Standard, TwoTables;
      if blocks == [] {
        assert bits + RecordBits(r, 0) == RecordBits(r, 0);
        assert (blocks + [r])[0] == r;
      } else {
        assert (blocks + [r])[0] == blocks[0];
      }
    }

    /** Blocks that are not the last, with the data up to `end`. */
    ghost predicate SoFar(bits: seq<bool>, blocks: seq<Record>, end: nat) {
      && Wrote(bits, blocks) && end <= |input|
      && (AllStandard(blocks) ==> ReadsTo(bits, input[..end]))
      && (|input| < SURELY_STANDARD ==> AllStandard(blocks))
    }

    /** All blocks, with the data up to `end`. */
    ghost predicate Ran(bits: seq<bool>, blocks: seq<Record>, end: nat, wrapped: bool) {
      && Wrote(bits, blocks) && blocks != [] && end <= |input|
      && (|bits| <= 8 * outlen <==> LastKeepsLimit(outlen, blocks))
      && (|input| < SURELY_STANDARD ==> AllStandard(blocks))
      && var r := blocks[|blocks| - 1];
        && r.final == !wrapped
        && (wrapped ==> r.PlainBlock? && |bits| > 8 * outlen)
        && (!wrapped && AllStandard(blocks) ==> ReadsAll(bits, input[..end]))
    }

    lemma NothingSoFar(bits: seq<bool>)
      requires bits == []
      ensures SoFar(bits, [], 0)
    {
      NothingRead(bits, input[..0]);
      NothingWrote(bits);
    }

    lemma MoreBlocks(bits: seq<bool>, blocks: seq<Record>, from: nat, r: Record, end: nat)
      requires SoFar(bits, blocks, from) && BlockDone(bits, from, r, end)
      ensures r.final || (r.PlainBlock? && |w.Written()| > 8 * outlen) ==> Ran(w.Written(), blocks + [r], end, !r.final)
      ensures !r.final ==> SoFar(w.Written(), blocks + [r], end)
    {
      hide ReadsAll, ReadsTo, Wrote, RecordOk, RecordBits, Standard, AllStandard, LastKeepsLimit, KeepsLimit, BlockReads;
      WroteMore(bits, blocks, r);
      HeldData(r, input, from, end);
      if AllStandard(blocks) && Standard(r) {
        BlockIsRead(r, |bits|, input, from, end);
        if r.final {
          LastBlockRead(bits, RecordBits(r, |bits|), input, from, end);
        } else {
          BlockRead(bits, RecordBits(r, |bits|), input, from, end);
        }
      }
    }

    /** `kite_deflate_destsize` after its preparations: the blocks and the last byte. */
    method Compress() returns (dropped: bool, wrapped: bool, ghost blocks: seq<Record>, ghost end: nat)
      requires BetweenBlocks() && startpos == 0
      modifies this`mainFreqs, this`distFreqs, this`freqChanged, this`tables, this`tab, this`costbits,
               this`sym, this`encodeMode, this`lastblock, this`posIn, this`startpos, this`prevValid, this`prevLongest,
               mf`offset, mf`cyclicPos, mf`matches, mf`otherMatches, mf.hash, mf.chain, w, w.out
      ensures startpos <= |input| && w.posOut <= w.out.Length && FinderOk() && TwoTables(tables)
      ensures if dropped then mf.cfg.lazySearch && end + 1 == startpos == |input| else end == startpos
      ensures Compressed(input, outlen, w.out[..w.posOut], blocks, end, wrapped)
      ensures AllOk(blocks) && Consumed(input, outlen, maxSymbols, |BlocksBits(blocks)|, blocks, startpos, end, dropped, wrapped)
      ensures WellChosen(input, mf.wsiz, mf.cfg, blocks)
      ensures Opening(input, outlen, mf.cfg.lazySearch, maxSymbols, blocks, startpos, end, dropped)
    {
      hide Opening, FinderOk, Prepared, ReadsAll, TwoTables, BytesBits, ToBits, Decode, BlocksBits, RecordOk, AllStandard, LastKeepsLimit;
      hide Tracking, Held, Consumed, WellChosen;
      dropped, wrapped, blocks, end := Run();
      ghost var bits := w.Written();
      w.Flush();
      NoLimit(outlen, blocks);
      if !wrapped && AllStandard(blocks) {
        StreamRead(bits, ToBits(0, 8 * w.posOut - |bits|), input[..end]);
      }
    }

    lemma HeldFacts()
      requires Held()
      ensures prevValid ==> posIn > 0
    {
    }

    /** What is counted and in the budget is settled. */
    lemma BudgetFacts()
      requires Stream() && Counted(sym) && InBudget()
      ensures AllRecordable(sym) && TwoTables(tables) && tab < 2 && Settled()
      ensures sym != [] ==> costbits == AccountedCost(encodeMode, tables[tab], sym)
      ensures encodeMode == FIXED || encodeMode == DYNAMIC
    {
      hide FreqsOf, Codeless, AllRecordable, Costs, TableFor, AccountedCost;
      FreqsFacts(mainFreqs, distFreqs, sym);
      CostIs(encodeMode, tables[tab], sym, costbits);
    }

    lemma EmptyInBudget(at: nat)
      requires Stream() && sym == [] && encodeMode == FIXED
      ensures InBudget() && Spent(at)
    {
    }

    lemma SettledFacts()
      ensures Settled() ==> AllRecordable(sym) && TwoTables(tables) && tab < 2
      ensures Settled() ==> encodeMode == FIXED || (encodeMode == DYNAMIC && TableFor(tables[tab], sym))
    {
    }

    lemma CountedFacts()
      ensures Counted(sym) ==> TwoTables(tables) && AllRecordable(sym) && (encodeMode == FIXED || encodeMode == DYNAMIC)
    {
    }

    lemma PreparedFacts()
      requires Prepared()
      ensures ReversedTable(FixedLitLens(), fixedMain) && ReversedTable(FixedDistLens(), fixedDist)
      ensures 0 < maxSymbols <= MAX_SYMBOLS
    {
    }
  }

  /** A block takes at least ten bits and no more than it is accounted to cost; an empty one takes ten. */
  lemma BlockSize(mode: nat, t: Table, syms: seq<Match>, final: bool, room: int)
    requires AllRecordable(syms) && (mode == FIXED || (mode == DYNAMIC && TableFor(t, syms))) && 0 <= room
    requires syms != [] || mode == DYNAMIC ==> AccountedCost(mode, t, syms) <= room
    ensures var n := if mode == DYNAMIC then |DynamicBits(t, final, syms)| else |FixedBits(final, syms)|;
      10 <= n <= AccountedCost(mode, t, syms) && (n <= room <==> room >= 10) && n <= room + 10
  {
    hide ToBits, TreesBits, TableFor, FixedLitLens, FixedDistLens;
    if mode == DYNAMIC {
      DynamicSize(t, syms, final);
    } else {
      EmptyFixed();
      FixedAtLeast(syms);
    }
  }

  lemma DynamicSize(t: Table, syms: seq<Match>, final: bool)
    requires AllRecordable(syms) && TableFor(t, syms)
    ensures 10 <= |DynamicBits(t, final, syms)| <= DynamicCost(t, syms)
  {
    hide ToBits, BodyBits, TokensBits, LevelBits, Sixteens;
  }

  lemma FixedAtLeast(syms: seq<Match>)
    requires AllRecordable(syms)
    ensures FixedCost(syms) >= 10
  {
    hide ToBits, ItemsBits;
  }

  /** What a block is accounted to cost. */
  ghost function AccountedCost(mode: nat, t: Table, syms: seq<Match>): nat
    requires AllRecordable(syms)
  {
    if mode == DYNAMIC && TableFor(t, syms) then DynamicCost(t, syms) else FixedCost(syms)
  }

  lemma CostIs(mode: nat, t: Table, syms: seq<Match>, cost: nat)
    requires AllRecordable(syms)
    ensures Costs(mode, t, syms, cost) ==> cost == AccountedCost(mode, t, syms) && (mode == DYNAMIC ==> TableFor(t, syms))
    ensures Costs(FIXED, t, [], cost) ==> cost == 10
  {
    EmptyFixed();
    hide TableFor, DynamicCost, FixedCost;
  }

  /** The cost is at most that of fixed codes, and that of codes built for the block. */
  ghost predicate Cheaper(t: Table, syms: seq<Match>, cost: nat) {
    && AllRecordable(syms) && TableFor(t, syms) && Built(t, syms)
    && cost <= FixedCost(syms) && cost <= DynamicCost(t, syms)
  }

  lemma CheaperStill(t: Table, syms: seq<Match>, cost: nat, less: nat)
    requires Cheaper(t, syms, cost) && less <= cost
    ensures Cheaper(t, syms, less)
  {
    hide Built, TableFor, DynamicCost, FixedCost;
  }

  lemma CheaperIs(t: Table, syms: seq<Match>, fixed: nat, dynamic: nat)
    requires AllRecordable(syms) && Built(t, syms) && Costs(DYNAMIC, t, syms, dynamic)
    requires fixed == AccountedCost(FIXED, t, syms)
    ensures Cheaper(t, syms, Min(fixed, dynamic))
  {
    hide Built, TableFor, DynamicCost, FixedCost;
  }

  lemma FixedCostIs(t: Table, u: Table, syms: seq<Match>)
    requires AllRecordable(syms)
    ensures AccountedCost(FIXED, t, syms) == AccountedCost(FIXED, u, syms)
  {
  }

  lemma EmptyFixed()
    ensures FixedCost([]) == 10
  {
    hide ToBits;
  }

  lemma TableForShape(t: Table, syms: seq<Match>)
    requires AllRecordable(syms) && TableFor(t, syms)
    ensures |t.litLenLevels| == MAIN_TABLE_SIZE && |t.distLevels| == DIST_SLOTS
  {
  }

  lemma FreqsFacts(main: seq<nat>, dist: seq<nat>, syms: seq<Match>)
    requires FreqsOf(main, dist, syms)
    ensures AllRecordable(syms) && |main| == MAIN_TABLE_SIZE && |dist| == DIST_SLOTS
  {
  }

  lemma Unbump(f: seq<nat>, k: nat)
    requires k < |f|
    ensures Bump(f, k)[k] == f[k] + 1 && Bump(f, k)[k := f[k]] == f
  {
  }

  /** Taking a symbol out of the frequencies undoes counting it. */
  lemma FreqsShrink(main: seq<nat>, dist: seq<nat>, syms: seq<Match>, m: Match, literal: bool, lenSlot: nat, distSlot: nat)
    requires AllRecordable(syms) && Recordable(m) && SlotsOf(m, literal, lenSlot, distSlot) && FreqsOf(main, dist, syms + [m])
    ensures var k := if literal then lenSlot else END_OF_BLOCK + 1 + lenSlot;
      && k < |main| && main[k] > 0 && (!literal ==> distSlot < |dist| && dist[distSlot] > 0)
      && FreqsOf(main[k := main[k] - 1], if literal then dist else dist[distSlot := dist[distSlot] - 1], syms)
  {
    hide LenSlotOf, DistSlotOf, Recordable, MainFreqs, DistFreqs;
    FreqsGrow(syms, m);
    Unbump(MainFreqs(syms), MainSymbol(m));
    if !literal {
      Unbump(DistFreqs(syms), distSlot);
    }
  }

  lemma FreqsGrow(syms: seq<Match>, m: Match)
    requires AllRecordable(syms) && Recordable(m)
    ensures AllRecordable(syms + [m])
    ensures MainFreqs(syms + [m]) == Bump(MainFreqs(syms), MainSymbol(m))
    ensures DistFreqs(syms + [m]) == (if IsLiteral(m) then DistFreqs(syms) else Bump(DistFreqs(syms), DistSlotOf(m)))
  {
    assert (syms + [m])[..|syms|] == syms;
  }

  /** One more symbol makes a block larger by the symbol's bits, as long as it has codes. */
  lemma CountedMore(mode: nat, t: Table, syms: seq<Match>, m: Match, cost: nat, bits: nat, recalc: bool)
    requires AllRecordable(syms) && Recordable(m)
    requires mode == FIXED ==> !recalc && bits == |ItemBits(FixedLitLens(), FixedDistLens(), m)|
    requires mode == DYNAMIC ==> recalc == !Coded(t.litLenLevels, t.distLevels, m)
    requires mode == DYNAMIC && !recalc ==> bits == |ItemBits(t.litLenLevels, t.distLevels, m)|
    ensures AllRecordable(syms + [m])
    ensures Costs(mode, t, syms, cost) && !recalc ==> Costs(mode, t, syms + [m], cost + bits)
  {
    hide ItemBits, TableFor, Coded;
    if mode == FIXED {
      FixedGrows(syms, m);
    } else if mode == DYNAMIC && !recalc && TableFor(t, syms) {
      DynamicGrows(t, syms, m);
    } else {
      FreqsGrow(syms, m);
    }
  }

  lemma FixedGrows(syms: seq<Match>, m: Match)
    requires AllRecordable(syms) && Recordable(m)
    ensures AllRecordable(syms + [m])
    ensures FixedCost(syms + [m]) == FixedCost(syms) + |ItemBits(FixedLitLens(), FixedDistLens(), m)|
  {
    hide ItemBits, SymbolBits, ToBits, FixedLitLens, FixedDistLens;
    assert (syms + [m])[..|syms|] == syms;
  }

  lemma DynamicGrows(t: Table, syms: seq<Match>, m: Match)
    requires AllRecordable(syms) && Recordable(m) && TableFor(t, syms)
    requires Coded(t.litLenLevels, t.distLevels, m)
    ensures AllRecordable(syms + [m]) && TableFor(t, syms + [m])
    ensures DynamicCost(t, syms + [m]) == DynamicCost(t, syms) + |ItemBits(t.litLenLevels, t.distLevels, m)|
  {
    hide ItemBits, SymbolBits, ToBits, TreesBits, TableOk, Coded, Recordable;
    assert (syms + [m])[..|syms|] == syms;
    forall i | 0 <= i < |syms + [m]|
      ensures Recordable((syms + [m])[i]) && Coded(t.litLenLevels, t.distLevels, (syms + [m])[i])
    {
      if i < |syms| {
        assert Recordable(syms[i]) && Coded(t.litLenLevels, t.distLevels, syms[i]);
      }
    }
  }

  /** What is known when a symbol is counted: the cost is bounded, or a new table is needed. */
  lemma MayCountFacts(t: Table, mode: nat, syms: seq<Match>, m: Match, cost: nat)
    requires AllRecordable(syms) && |syms| <= 0x1_0000 && Recordable(m)
    ensures Costs(mode, t, syms, cost) && mode == DYNAMIC ==> 17 <= cost < 0xFFFF_FFFF
    ensures Codeless(t) ==> !Coded(t.litLenLevels, t.distLevels, m)
  {
    BoundedCost(t, syms, cost);
    NeedsTable(t, m);
  }

  /** Without codes, every symbol needs a new table. */
  lemma NeedsTable(t: Table, m: Match)
    requires Recordable(m)
    ensures Codeless(t) ==> !Coded(t.litLenLevels, t.distLevels, m)
  {
  }

  lemma BoundedCost(t: Table, syms: seq<Match>, cost: nat)
    requires AllRecordable(syms) && |syms| <= 0x1_0000
    ensures Costs(DYNAMIC, t, syms, cost) ==> 17 <= cost < 0xFFFF_FFFF
  {
    hide DynamicCost;
    if TableFor(t, syms) {
      CostBounds(t, syms);
    }
  }

  /** Nine bits a byte, and ten for the block, are not enough for the data from `from` to `reach`. */
  predicate Short(from: nat, reach: nat, room: int) {
    room < 10 + 9 * (reach - from)
  }

  /**
   * A block of an input of `len` bytes may end: at its end, after many symbols, or because nine bits a
   * byte are not enough to go on to `reach`.
   */
  ghost predicate StopsFor(len: nat, lazy: bool, most: nat, room: int, from: nat, at: nat) {
    || at == len || at - from >= most
    || exists reach: nat :: Beyond(len, lazy, at, reach) && Short(from, reach, room)
  }

  /** Some of the data beyond `at` is out of reach. */
  ghost predicate CutShort(len: nat, room: int, from: nat, at: nat) {
    exists reach: nat :: at < reach <= len && Short(from, reach, room)
  }

  /** The last block ends where the input does or is cut short, all others have many symbols. */
  ghost predicate Ends(final: bool, len: nat, most: nat, room: int, from: nat, at: nat) {
    if final then at == len || CutShort(len, room, from, at) else at - from >= most && at < len
  }

  /** A block takes at most nine bits a byte and 42 more: ten, and 32 where a stored block was reckoned short. */
  predicate Frugal(n: nat, blocks: nat, srcsize: nat) {
    n <= 9 * srcsize + 42 * blocks
  }

  /** Nine bits a byte and 42 more for each started `most` bytes. */
  predicate Ample(len: nat, most: nat, outlen: nat)
    requires most > 0
  {
    9 * len + 42 * (len / most + 1) <= 8 * outlen
  }

  /** With ample room, the last block ends where the input does. */
  lemma AmpleEnds(len: nat, most: nat, outlen: nat, n: nat, blocks: nat, from: nat, at: nat, final: bool)
    requires most > 0 && Ample(len, most, outlen) && most * blocks <= from <= len
    requires Frugal(n, blocks, from) && Ends(final, len, most, 8 * outlen - n, from, at)
    ensures final ==> at == len
    ensures !Short(from, len, 8 * outlen - n) && 9 * len + 42 * (blocks + 1) <= 8 * outlen
  {
    CountAtMost(len, most, blocks);
  }

  lemma SizeStep(len: nat, most: nat, outlen: nat, n: nat, n': nat, blocks: nat, from: nat, at: nat, final: bool)
    requires most > 0 && most * blocks <= from <= at <= len && n' <= n + 42 + 9 * (at - from)
    requires Frugal(n, blocks, from) && Ends(final, len, most, 8 * outlen - n, from, at)
    ensures Frugal(n', blocks + 1, at) && most * blocks <= at && (!final ==> most * (blocks + 1) <= at)
    ensures Ample(len, most, outlen) ==> n' <= 8 * outlen && !Short(from, len, 8 * outlen - n) && (final ==> at == len)
  {
    hide CutShort;
    assert most * (blocks + 1) == most * blocks + most;
    if Ample(len, most, outlen) {
      AmpleEnds(len, most, outlen, n, blocks, from, at, final);
    }
  }

  lemma EndsFinal(len: nat, most: nat, room: int, from: nat, at: nat)
    requires Ends(true, len, most, room, from, at)
    ensures at == len || CutShort(len, room, from, at)
  {
  }

  lemma CountAtMost(len: nat, most: nat, blocks: nat)
    requires most > 0 && most * blocks <= len
    ensures blocks <= len / most
  {
    var q := len / most;
    assert len == q * most + len % most;
    if blocks > q {
      MulMonotone(q + 1, blocks, most);
    }
  }

  /**
   * Where the run ends: at the end of the input, or where nine bits a byte are too many for what the
   * blocks before the last one left of the output.
   */
  ghost predicate RanOut(input: seq<byte>, outlen: nat, blocks: seq<Record>, srcsize: nat, end: nat) {
    srcsize == |input| || exists from: nat :: LastIsCut(input, outlen, blocks, from, srcsize, end)
  }

  /** The last block begins with the data at `from`, and is cut short. */
  ghost predicate LastIsCut(input: seq<byte>, outlen: nat, blocks: seq<Record>, from: nat, srcsize: nat, end: nat) {
    && blocks != [] && AllOk(blocks) && Holds(blocks[|blocks| - 1], input, from, end)
    && CutShort(|input|, 8 * outlen - |BlocksBits(blocks[..|blocks| - 1])|, from, srcsize)
  }

  /** The length of the run: the output is frugal, and all blocks but the last take at least `most` bytes. */
  ghost predicate Consumed(input: seq<byte>, outlen: nat, most: nat, size: nat, blocks: seq<Record>,
                           srcsize: nat, end: nat, dropped: bool, wrapped: bool)
  {
    && most > 0 && Frugal(size, |blocks|, srcsize) && most * (|blocks| - 1) <= srcsize
    && (forall i :: 0 <= i < |blocks| - 1 && !blocks[i].PlainBlock? ==> |blocks[i].syms| == most)
    && (!wrapped ==> RanOut(input, outlen, blocks, srcsize, end))
    && (Ample(|input|, most, outlen) ==> srcsize == |input| && !dropped && !wrapped && size <= 8 * outlen)
  }

  /** One byte or a match further; with lazy matching, the last byte is decided on later. */
  predicate Beyond(len: nat, lazy: bool, at: nat, reach: nat) {
    if reach == at + 1 then reach + (if lazy then 1 else 0) <= len
    else at > 0 && at + MATCH_MIN_LEN <= reach <= len
  }

  /** One more symbol with fixed codes takes more than the room. */
  ghost predicate Overfull(syms: seq<Match>, m: Match, room: int) {
    AllRecordable(syms + [m]) && FixedCost(syms + [m]) > room
  }

  lemma RefusedIs(mode: nat, t: Table, u: Table, syms: seq<Match>, m: Match, cost: nat, room: int)
    requires AllRecordable(syms) && AllRecordable(syms + [m]) && Recordable(m) && Costs(mode, u, syms + [m], cost) && cost > room
    requires if Coded(t.litLenLevels, t.distLevels, m) then u == t else Built(u, syms + [m]) || mode != DYNAMIC
    ensures mode == DYNAMIC ==> Refused(t, syms, m, room)
  {
    hide Coded, Built, TableFor, DynamicCost, FixedCost, AllRecordable;
  }

  lemma RecodedIs(mode: nat, t: Table, u: Table, syms: seq<Match>, m: Match)
    requires AllRecordable(syms + [m]) && Recordable(m)
    requires mode == DYNAMIC ==> if Coded(t.litLenLevels, t.distLevels, m) then u == t else Built(u, syms + [m])
    ensures mode == DYNAMIC ==> Recoded(t, u, syms, m)
  {
    hide Coded, Built;
  }

  lemma OverfullIs(mode: nat, t: Table, syms: seq<Match>, m: Match, cost: nat, room: int)
    requires AllRecordable(syms + [m]) && Costs(mode, t, syms + [m], cost) && cost > room
    ensures mode == FIXED ==> Overfull(syms, m, room)
  {
  }

  /** Fixed codes take at most nine bits a byte. */
  lemma {:induction false} NineBitsAByte(data: seq<byte>, from: nat, syms: seq<Match>, end: nat)
    requires AllRecordable(syms) && DescribedBy(data, from, syms, end)
    ensures FixedCost(syms) <= 10 + 9 * (end - from) && from <= end
    decreases |syms|
  {
    hide ItemBits, FixedCost;
    if syms == [] {
      EmptyFixed();
    } else {
      var init, m := syms[..|syms| - 1], syms[|syms| - 1];
      assert syms == init + [m];
      DescribedInit(data, from, syms);
      NineBitsAByte(data, from, init, EndOf(from, init));
      FixedGrows(init, m);
      ItemAtMost(m);
    }
  }

  lemma DescribedInit(data: seq<byte>, from: nat, syms: seq<Match>)
    requires syms != [] && AllDescribe(data, from, syms) && from <= |data| && EndOf(from, syms) <= |data|
    ensures var init := syms[..|syms| - 1];
      DescribedBy(data, from, init, EndOf(from, init)) && EndOf(from, syms) == EndOf(from, init) + Length(syms[|syms| - 1])
  {
    hide Describes;
    var init := syms[..|syms| - 1];
    forall i | 0 <= i < |init|
      ensures Describes(data, EndOf(from, init[..i]), init[i])
    {
      assert init[..i] == syms[..i];
      assert Describes(data, EndOf(from, syms[..i]), syms[i]);
    }
  }

  /** A literal takes up to 9 bits, a match up to 25 if it has 3 bytes and up to 31 otherwise. */
  lemma ItemAtMost(m: Match)
    requires Recordable(m)
    ensures |ItemBits(FixedLitLens(), FixedDistLens(), m)| <= 9 * Length(m)
  {
    hide ItemBits;
    ItemSize(FixedLitLens(), FixedDistLens(), m);
    ExtrasAtMost(m);
    if !IsLiteral(m) && m.len == MATCH_MIN_LEN {
      ShortestMatch(m);
    }
  }

  lemma ShortestMatch(m: Match)
    requires Recordable(m) && m.len == MATCH_MIN_LEN
    ensures LenSlotOf(m) == 0 && LenExtra(0) == 0
  {
  }

  lemma OverfullReaches(data: seq<byte>, from: nat, syms: seq<Match>, at: nat, m: Match, room: int)
    requires DescribedBy(data, from, syms, at) && Describes(data, at, m)
    ensures Overfull(syms, m, room) ==> Short(from, at + Length(m), room)
    ensures Short(from, at, room) ==> Short(from, at + Length(m), room)
  {
    hide FixedCost, Describes, AllRecordable;
    DescribedMore(data, from, syms, at, m);
    if Overfull(syms, m, room) {
      NineBitsAByte(data, from, syms + [m], at + Length(m));
    }
  }

  /** What is held at the last byte can only be a literal. */
  lemma HeldIsLiteral(data: seq<byte>, at: nat, m: Match)
    requires at + 1 == |data| && Recordable(m) && Describes(data, at, m)
    ensures IsLiteral(m)
  {
  }

  /** No symbol takes more than 31 bits. */
  lemma {:induction false} FixedAtMost(t: Table, syms: seq<Match>)
    requires AllRecordable(syms)
    ensures FixedCost(syms) <= 10 + 31 * |syms| && AccountedCost(FIXED, t, syms) == FixedCost(syms)
    decreases |syms|
  {
    hide ItemBits, FixedCost;
    if syms == [] {
      EmptyFixed();
    } else {
      var init, m := syms[..|syms| - 1], syms[|syms| - 1];
      assert syms == init + [m];
      FixedAtMost(t, init);
      FixedGrows(init, m);
      ItemSize(FixedLitLens(), FixedDistLens(), m);
      ExtrasAtMost(m);
    }
  }

  lemma ExtrasAtMost(m: Match)
    requires Recordable(m)
    ensures !IsLiteral(m) ==> LenExtra(LenSlotOf(m)) <= 5 && DistExtra(DistSlotOf(m)) <= 13
  {
    hide LenSlotOf, DistSlotOf;
  }

  /** One stored block is enough where storing pays. */
  lemma OneStoredBlock(bitpos: nat, storelen: nat, costbits: nat)
    requires bitpos <= 32 && costbits <= 10 + 31 * MAX_SYMBOLS
    requires var n := Max((storelen + 65534) / 65535, 1); costbits > 8 - bitpos + n - 1 + n * 32 + storelen * 8
    ensures storelen <= 65535 && Max((storelen + 65534) / 65535, 1) == 1
  {
  }

  /** The reckoning takes the last byte written so far for the one being filled: right up to five bits. */
  lemma ReckonedExactly(posOut: nat, bitpos: nat, len: nat)
    requires bitpos <= 32
    ensures StoredSize(8 * posOut + bitpos, len) == 40 - bitpos + 8 * len <==> bitpos <= 5
  {
  }

  /** With 14 bits in the buffer, 100 bytes seem to fit into 106 bytes and do not. */
  lemma ReckonedTooLittle(data: seq<byte>)
    requires |data| == 100
    ensures 40 - 14 + 8 * |data| < 8 * 106 - 14 && !KeepsLimit(PlainBlock(false, data), 14, 106)
  {
  }

  /** What a stored block takes beyond the reckoning: up to 32 bits. */
  lemma StoredSlack(posOut: nat, bitpos: nat, len: nat)
    requires bitpos <= 32
    ensures StoredSize(8 * posOut + bitpos, len) <= 40 - bitpos + 8 * len + 32
    ensures StoredSize(8 * posOut + bitpos, len) >= 10 && StoredSize(0, len) == 40 + 8 * len
  {
  }

  /**
   * What was written: the blocks, and fewer than eight zero bits. It keeps within the limit exactly if
   * the last block does; a limit of one byte is always exceeded. It decodes to the input up to `end`
   * unless some code has 16 bits, which no short input leads to, or the last block is a stored one
   * that passed the limit although more was to come.
   */
  ghost predicate Compressed(input: seq<byte>, outlen: nat, bytes: seq<byte>, blocks: seq<Record>, end: nat,
                             wrapped: bool)
  {
    && end <= |input| && blocks != [] && Flushed(bytes, blocks)
    && (|bytes| <= outlen <==> LastKeepsLimit(outlen, blocks))
    && (outlen <= 1 ==> |bytes| > outlen)
    && (|input| < SURELY_STANDARD ==> AllStandard(blocks))
    && (!wrapped && AllStandard(blocks) ==> Decode(BytesBits(bytes), 0, []) == Some(input[..end]))
    && (wrapped ==> blocks[|blocks| - 1].PlainBlock? && !blocks[|blocks| - 1].final && |bytes| > outlen)
  }

  /**
   * How it begins: the first block keeps within the limit if ten bits do, or if it is stored; and it
   * ends where a block may end.
   */
  ghost predicate Opening(input: seq<byte>, outlen: nat, lazy: bool, most: nat, blocks: seq<Record>,
                          srcsize: nat, end: nat, dropped: bool)
  {
    && blocks != [] && RecordOk(blocks[0])
    && (|RecordBits(blocks[0], 0)| <= 8 * outlen <==> KeepsLimit(blocks[0], 0, outlen))
    && (blocks[0].PlainBlock? ==> KeepsLimit(blocks[0], 0, outlen))
    && if |blocks| == 1 then
         && Holds(blocks[0], input, 0, end) && StopsFor(|input|, lazy, most, 8 * outlen, 0, srcsize)
         && (dropped ==> Short(0, |input|, 8 * outlen))
       else exists at: nat :: at < |input| && StopsFor(|input|, lazy, most, 8 * outlen, 0, at)
  }

  /** An input for which nine bits a byte fit is taken as a whole. */
  lemma WholeInput(input: seq<byte>, outlen: nat, lazy: bool, bytes: seq<byte>, blocks: seq<Record>,
                   srcsize: nat, end: nat, dropped: bool, wrapped: bool)
    requires Opening(input, outlen, lazy, MAX_SYMBOLS, blocks, srcsize, end, dropped)
    requires Compressed(input, outlen, bytes, blocks, end, wrapped) && srcsize <= |input|
    requires |input| < MAX_SYMBOLS && 10 + 9 * |input| <= 8 * outlen
    ensures srcsize == |input| && !dropped && !wrapped && |bytes| <= outlen
  {
    hide Holds, RecordOk, RecordBits, Flushed, BlocksBits, Decode, BytesBits;
    OneBlockKeeps(outlen, blocks);
  }

  /** With ample room the whole input is taken, and the output is frugal anyway. */
  lemma AmpleInput(input: seq<byte>, outlen: nat, bytes: seq<byte>, blocks: seq<Record>,
                   srcsize: nat, end: nat, dropped: bool, wrapped: bool)
    requires Compressed(input, outlen, bytes, blocks, end, wrapped) && AllOk(blocks)
    requires Consumed(input, outlen, MAX_SYMBOLS, |BlocksBits(blocks)|, blocks, srcsize, end, dropped, wrapped)
    ensures 8 * |bytes| <= 9 * srcsize + 42 * |blocks| + 7 && MAX_SYMBOLS * (|blocks| - 1) <= srcsize
    ensures !wrapped ==> RanOut(input, outlen, blocks, srcsize, end)
    ensures Ample(|input|, MAX_SYMBOLS, outlen) ==> srcsize == |input| && !dropped && !wrapped && |bytes| <= outlen
  {
    hide RanOut, Decode, BytesBits, ToBits, BlocksBits, RecordOk, AllStandard, LastKeepsLimit;
  }

  lemma OneBlockKeeps(outlen: nat, blocks: seq<Record>)
    requires |blocks| == 1 && RecordOk(blocks[0])
    ensures AllOk(blocks) && (LastKeepsLimit(outlen, blocks) <==> KeepsLimit(blocks[0], 0, outlen))
    ensures BlocksBits(blocks) == RecordBits(blocks[0], 0)
  {
    hide RecordBits, RecordOk, KeepsLimit;
    assert blocks[..0] == [];
    NoBlocks();
    assert [] + RecordBits(blocks[0], 0) == RecordBits(blocks[0], 0);
  }

  /** A short input is read back as a whole. */
  lemma ShortInput(input: seq<byte>, outlen: nat, bytes: seq<byte>, blocks: seq<Record>, wrapped: bool)
    requires Compressed(input, outlen, bytes, blocks, |input|, wrapped) && !wrapped && |input| < SURELY_STANDARD
    ensures Decode(BytesBits(bytes), 0, []) == Some(input)
  {
    hide Flushed, Decode, BytesBits, AllStandard, LastKeepsLimit;
    assert input[..|input|] == input;
  }

  lemma WholeIsRead(input: seq<byte>, outlen: nat, bytes: seq<byte>, blocks: seq<Record>)
    requires Compressed(input, outlen, bytes, blocks, |input|, false)
    ensures AllStandard(blocks) ==> Decode(BytesBits(bytes), 0, []) == Some(input)
  {
    hide Flushed, Decode, BytesBits, AllStandard, LastKeepsLimit;
    assert input[..|input|] == input;
  }

  /** Three literals take more than 32 bits, with any codes. */
  lemma ThreeTooMany(input: seq<byte>, r: Record)
    requires |input| == 3 && RecordOk(r) && !r.PlainBlock? && Holds(r, input, 0, 3)
    ensures |RecordBits(r, 0)| > 32
  {
    ThreeLiterals(input, r.syms);
    if r.FixedBlock? {
      LiteralBits(FixedLitLens(), FixedDistLens(), r.syms, 8);
      FixedAbove(r.final, r.syms);
    } else {
      LiteralBits(r.t.litLenLevels, r.t.distLevels, r.syms, 1);
      DynamicAbove(r.t, r.final, r.syms);
    }
  }

  lemma ThreeLiterals(input: seq<byte>, syms: seq<Match>)
    requires |input| == 3 && AllRecordable(syms) && DescribedBy(input, 0, syms, 3)
    ensures |syms| == 3 && forall i :: 0 <= i < 3 ==> IsLiteral(syms[i])
  {
    forall i | 0 <= i < |syms|
      ensures IsLiteral(syms[i])
    {
      assert Describes(input, EndOf(0, syms[..i]), syms[i]);
    }
    LiteralsEnd(0, syms);
  }

  lemma {:induction false} LiteralsEnd(at: nat, syms: seq<Match>)
    requires forall i :: 0 <= i < |syms| ==> IsLiteral(syms[i])
    ensures EndOf(at, syms) == at + |syms|
  {
    if syms != [] {
      LiteralsEnd(at, syms[..|syms| - 1]);
    }
  }

  lemma {:induction false} LiteralBits(lit: seq<nat>, dist: seq<nat>, syms: seq<Match>, least: nat)
    requires AllRecordable(syms)
    requires forall i :: 0 <= i < |syms| ==> IsLiteral(syms[i]) && syms[i].dist < |lit| && lit[syms[i].dist] >= least
    ensures |ItemsBits(lit, dist, syms)| >= least * |syms|
    decreases |syms|
  {
    hide SymbolBits;
    if syms != [] {
      assert least * |syms| == least * (|syms| - 1) + least;
      LiteralBits(lit, dist, syms[..|syms| - 1], least);
    }
  }

  lemma FixedAbove(final: bool, syms: seq<Match>)
    requires AllRecordable(syms)
    ensures |FixedBits(final, syms)| == 10 + |ItemsBits(FixedLitLens(), FixedDistLens(), syms)|
  {
    hide ToBits, ItemsBits;
  }

  lemma DynamicAbove(t: Table, final: bool, syms: seq<Match>)
    requires AllRecordable(syms) && TableOk(t) && AllCoded(t.litLenLevels, t.distLevels, syms)
    ensures |DynamicBits(t, final, syms)| >= 30 + |ItemsBits(t.litLenLevels, t.distLevels, syms)|
  {
    hide ToBits, ItemsBits, LevelBits, TokensBits, Tokens, Feasible, Writable;
  }

  /** With lazy matching and a limit of four bytes, the last of three bytes is lost. */
  lemma LostByte(input: seq<byte>, bytes: seq<byte>, blocks: seq<Record>, srcsize: nat, end: nat, dropped: bool, wrapped: bool)
    requires |input| == 3 && srcsize <= 3 && end == srcsize - (if dropped then 1 else 0) && (dropped ==> srcsize == 3)
    requires Opening(input, 4, true, MAX_SYMBOLS, blocks, srcsize, end, dropped)
    requires Compressed(input, 4, bytes, blocks, end, wrapped)
    ensures srcsize == 3 && |bytes| <= 4 && Decode(BytesBits(bytes), 0, []) == Some(input[..2])
  {
    hide Holds, RecordOk, RecordBits, Flushed, BlocksBits, Decode, BytesBits;
    assert |blocks| == 1 && srcsize == 3;
    OneBlockKeeps(4, blocks);
    if !dropped {
      if !blocks[0].PlainBlock? {
        ThreeTooMany(input, blocks[0]);
      }
    }
  }

  lemma NoBlocks()
    ensures AllOk([]) && BlocksBits([]) == []
  {
  }

  lemma NoLimit(outlen: nat, rs: seq<Record>)
    requires rs != [] && AllOk(rs)
    ensures outlen <= 1 ==> !LastKeepsLimit(outlen, rs)
  {
    hide BlocksBits;
  }

  lemma HeldData(r: Record, data: seq<byte>, from: nat, to: nat)
    requires Holds(r, data, from, to)
    ensures from <= to <= |data|
  {
    hide AllDescribe;
    if !r.PlainBlock? {
      DescribedFacts(data, from, r.syms, to);
    }
  }

  /** The preparations of `kite_deflate_destsize`; the static tables are those of `kite_deflate_init`. */
  method Init(input: seq<byte>, out: array<byte>, outlen: nat, mf: Finder, tables: seq<Table>) returns (s: Deflater)
    requires 0 < |input| < 0x7fff_0000 && out.Length >= outlen + 4 && mf.Reusable() && TwoTables(tables)
    modifies mf, mf.hash
    ensures s.BetweenBlocks() && s.startpos == 0 && s.tables == tables && s.maxSymbols == MAX_SYMBOLS
    ensures s.input == input && s.outlen == outlen && s.w.out == out && s.mf == mf
    ensures fresh(s) && fresh(s.w)
  {
    hide ReversedTable, FixedLitLens, FixedDistLens, LenSlotsOk, FastPosOk;
    var lenSlots := InitLenSlots();
    var fastPos := InitFastPos();
    var fixedMain, fixedDist := InitFixedCodes();
    mf.Reset(input);
    var w := new BitWriter(out);
    s := new Deflater(input, outlen, w, mf, MAX_SYMBOLS, lenSlots, fastPos, fixedMain, fixedDist, tables);
  }

  /**
   * `kite_deflate_destsize`: as much of the input as fits is compressed, and the output decodes to the
   * part of the input that is reported as consumed, except for its last byte if `dropped`: with lazy
   * matching the end of the input counts as coded even if it no longer fits. The match finder and the
   * tables may come from earlier runs, and serve for later ones.
   */
  method DestSize(input: seq<byte>, out: array<byte>, outlen: nat, mf: Finder, tables: seq<Table>)
    returns (srcsize: nat, size: nat, dropped: bool, wrapped: bool, left: seq<Table>, ghost blocks: seq<Record>)
    requires 0 < |input| < 0x7fff_0000 && out.Length >= outlen + 4
    requires mf.Reusable() && TwoTables(tables)
    modifies out, mf, mf.hash, mf.chain
    ensures mf.Reusable() && TwoTables(left)
    ensures srcsize <= |input| && size <= out.Length && (dropped ==> mf.cfg.lazySearch && srcsize == |input|)
    ensures Compressed(input, outlen, out[..size], blocks, srcsize - if dropped then 1 else 0, wrapped)
    ensures Opening(input, outlen, mf.cfg.lazySearch, MAX_SYMBOLS, blocks, srcsize, srcsize - if dropped then 1 else 0, dropped)
    ensures |input| < MAX_SYMBOLS && 10 + 9 * |input| <= 8 * outlen ==> srcsize == |input| && size <= outlen && !dropped && !wrapped
    ensures Ample(|input|, MAX_SYMBOLS, outlen) ==> srcsize == |input| && size <= outlen && !dropped && !wrapped
    ensures !wrapped ==> RanOut(input, outlen, blocks, srcsize, srcsize - if dropped then 1 else 0)
    ensures 8 * size <= 9 * srcsize + 42 * |blocks| + 7 && MAX_SYMBOLS * (|blocks| - 1) <= srcsize
    ensures WellChosen(input, mf.wsiz, mf.cfg, blocks)
  {
    hide WellChosen, Compressed, Opening, TwoTables, Deflater.BetweenBlocks, Consumed, RanOut, Ample;
    var s := Init(input, out, outlen, mf, tables);
    ghost var end;
    dropped, wrapped, blocks, end := s.Compress();
    size, srcsize, left := s.w.posOut, s.startpos, s.tables;
    AmpleInput(input, outlen, s.w.out[..s.w.posOut], blocks, srcsize, end, dropped, wrapped);
    assert out[..size] == s.w.out[..s.w.posOut] && end == srcsize - if dropped then 1 else 0;
    if |input| < MAX_SYMBOLS && 10 + 9 * |input| <= 8 * outlen {
      WholeInput(input, outlen, mf.cfg.lazySearch, out[..size], blocks, srcsize, end, dropped, wrapped);
    }
  }

  const EINVAL := 22

  /** `kite_deflate_init` and a first run. */
  method Deflate(level: nat, dictSize: nat, input: seq<byte>, out: array<byte>, outlen: nat)
    returns (err: nat, srcsize: nat, size: nat, dropped: bool, wrapped: bool, ghost blocks: seq<Record>)
    requires 0 < |input| < 0x7fff_0000 && out.Length >= outlen + 4
    modifies out
    ensures err == if 1 <= level <= 9 && ValidWindow(dictSize) then 0 else EINVAL
    ensures err == 0 ==>
              && srcsize <= |input| && size <= out.Length && (dropped ==> level >= 4 && srcsize == |input|)
              && Compressed(input, outlen, out[..size], blocks, srcsize - if dropped then 1 else 0, wrapped)
    ensures err == 0 && |input| < MAX_SYMBOLS && 10 + 9 * |input| <= 8 * outlen ==>
              srcsize == |input| && size <= outlen && !dropped && !wrapped
    ensures err == 0 && Ample(|input|, MAX_SYMBOLS, outlen) ==>
              && srcsize == |input| && size <= outlen
              && (AllStandard(blocks) ==> Decode(BytesBits(out[..size]), 0, []) == Some(input))
    ensures err == 0 ==> WellChosen(input, if dictSize == 0 then HISTORY_SIZE else dictSize, ConfigOf(level), blocks)
    ensures err == 0 && !wrapped ==> RanOut(input, outlen, blocks, srcsize, srcsize - if dropped then 1 else 0)
    ensures err == 0 && |input| < SURELY_STANDARD && 10 + 9 * |input| <= 8 * outlen ==>
              Decode(BytesBits(out[..size]), 0, []) == Some(input)
    ensures err == 0 && level >= 4 && |input| == 3 && outlen == 4 ==>
              srcsize == 3 && size <= 4 && Decode(BytesBits(out[..size]), 0, []) == Some(input[..2])
  {
    hide Opening, Compressed, ValidWindow, TwoTables, RanOut, Ample, AllStandard, WellChosen;
    srcsize, size, dropped, wrapped, blocks := 0, 0, false, false, [];
    if !(1 <= level <= 9) || !ValidWindow(dictSize) {
      return EINVAL, 0, 0, false, false, [];
    }
    WindowSize(dictSize);
    var mf := new Finder(if dictSize == 0 then HISTORY_SIZE else dictSize, ConfigOf(level));
    var left;
    err := 0;
    srcsize, size, dropped, wrapped, left, blocks := DestSize(input, out, outlen, mf, NoTables());
    if |input| < SURELY_STANDARD && 10 + 9 * |input| <= 8 * outlen {
      ShortInput(input, outlen, out[..size], blocks, wrapped);
    }
    if Ample(|input|, MAX_SYMBOLS, outlen) {
      WholeIsRead(input, outlen, out[..size], blocks);
    }
    if level >= 4 && |input| == 3 && outlen == 4 {
      LostByte(input, out[..size], blocks, srcsize, srcsize - if dropped then 1 else 0, dropped, wrapped);
    }
  }

  function NoTables(): (tables: seq<Table>)
    ensures TwoTables(tables)
  {
    [ZeroTable(), ZeroTable()]
  }

  lemma WindowSize(n: nat)
    requires ValidWindow(n)
    ensures n <= HISTORY_SIZE
  {
  }

  /** No window size, or a power of two up to 32768. */
  predicate ValidWindow(n: nat) {
    n <= HISTORY_SIZE && (n as bv32) & ((n as bv32) - 1) == 0
  }
}
