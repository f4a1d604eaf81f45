/** The bits of a block of literals and matches, and why a decoder gets the data back. */
module DeflateBlock {
  import opened Arithmetic
  import opened Bytes
  import opened ByteCompare
  import opened Bits
  import opened Options
  import opened PrefixCode
  import opened CodeWriter
  import opened RunLengths
  import opened Slots
  import opened Inflate
  import opened MatchFinder

  /** A symbol shorter than a match stands for the literal in its distance field. */
  predicate IsLiteral(m: Match) {
    m.len < MATCH_MIN_LEN
  }

  /** A symbol the encoder may record. */
  predicate Recordable(m: Match) {
    if IsLiteral(m) then m.dist < 256 else m.len <= MATCH_MAX_LEN && 1 <= m.dist <= HISTORY_SIZE
  }

  function LenSlotOf(m: Match): (s: nat)
    requires Recordable(m) && !IsLiteral(m)
    ensures IsLenSlot(m.len - MATCH_MIN_LEN, s)
  {
    LenSlot(m.len - MATCH_MIN_LEN)
  }

  function DistSlotOf(m: Match): (s: nat)
    requires Recordable(m) && !IsLiteral(m)
    ensures IsDistSlot(m.dist - 1, s)
  {
    DistSlot(m.dist - 1)
  }

  /** The symbol of the literal and length alphabet. */
  function MainSymbol(m: Match): (k: nat)
    requires Recordable(m)
    ensures k < END_OF_BLOCK + 1 + LEN_SLOTS && k != END_OF_BLOCK
  {
    if IsLiteral(m) then m.dist else END_OF_BLOCK + 1 + LenSlotOf(m)
  }

  /** The bits of one symbol. */
  function ItemBits(lit: seq<nat>, dist: seq<nat>, m: Match): seq<bool>
    requires Recordable(m)
  {
    if IsLiteral(m) then SymbolBits(lit, m.dist)
    else
      var s, d := LenSlotOf(m), DistSlotOf(m);
      SymbolBits(lit, END_OF_BLOCK + 1 + s) + ToBits(m.len - MATCH_MIN_LEN - LenStart(s), LenExtra(s))
      + SymbolBits(dist, d) + ToBits(m.dist - 1 - DistStart(d), DistExtra(d))
  }

  predicate AllRecordable(syms: seq<Match>) {
    forall i :: 0 <= i < |syms| ==> Recordable(syms[i])
  }

  function ItemsBits(lit: seq<nat>, dist: seq<nat>, syms: seq<Match>): seq<bool>
    requires AllRecordable(syms)
  {
    if syms == [] then []
    else ItemsBits(lit, dist, syms[..|syms| - 1]) + ItemBits(lit, dist, syms[|syms| - 1])
  }

  /** All symbols and the end of the block. */
  function BodyBits(lit: seq<nat>, dist: seq<nat>, syms: seq<Match>): seq<bool>
    requires AllRecordable(syms)
  {
    ItemsBits(lit, dist, syms) + SymbolBits(lit, END_OF_BLOCK)
  }

  /** The symbol has codes. */
  predicate Coded(lit: seq<nat>, dist: seq<nat>, m: Match)
    requires Recordable(m)
  {
    && MainSymbol(m) < |lit| && lit[MainSymbol(m)] > 0
    && (!IsLiteral(m) ==> DistSlotOf(m) < |dist| && dist[DistSlotOf(m)] > 0)
  }

  predicate AllCoded(lit: seq<nat>, dist: seq<nat>, syms: seq<Match>)
    requires AllRecordable(syms)
  {
    && END_OF_BLOCK < |lit| && lit[END_OF_BLOCK] > 0
    && forall i :: 0 <= i < |syms| ==> Coded(lit, dist, syms[i])
  }

  /** What the decoder makes of a symbol. */
  function Meaning(m: Match): Item
    requires Recordable(m)
  {
    if IsLiteral(m) then Literal(m.dist) else Copy(m.len, m.dist)
  }

  /** Reading the bits of a symbol gives the symbol back. */
  lemma ReadsItem(lit: seq<nat>, dist: seq<nat>, bits: seq<bool>, pos: nat, m: Match)
    requires Recordable(m) && Feasible(lit, MAX_LEN) && Feasible(dist, MAX_LEN)
    requires Coded(lit, dist, m) && BitsAt(bits, pos, ItemBits(lit, dist, m))
    ensures ReadItem(bits, pos, lit, dist) == Some((Meaning(m), |ItemBits(lit, dist, m)|))
  {
    if IsLiteral(m) {
      ReadsSymbol(lit, bits, pos, m.dist);
    } else {
      ReadsMatch(lit, dist, bits, pos, m);
    }
  }

  lemma ReadsMatch(lit: seq<nat>, dist: seq<nat>, bits: seq<bool>, pos: nat, m: Match)
    requires Recordable(m) && Feasible(lit, MAX_LEN) && Feasible(dist, MAX_LEN)
    requires !IsLiteral(m) && Coded(lit, dist, m) && BitsAt(bits, pos, ItemBits(lit, dist, m))
    ensures ReadItem(bits, pos, lit, dist) == Some((Meaning(m), |ItemBits(lit, dist, m)|))
  {
    hide SymbolBits, BitsAt, Feasible, ReadItem, LenSlotOf, DistSlotOf, LengthBase, DistanceBase;
    var s, d := LenSlotOf(m), DistSlotOf(m);
    SlotFields(m, s, d);
    ReadsParts(lit, dist, bits, pos, s, m.len - MATCH_MIN_LEN - LenStart(s), d, m.dist - 1 - DistStart(d));
  }

  /** The extra bits fit, and slots and extra bits make up the length and the distance. */
  lemma SlotFields(m: Match, s: nat, d: nat)
    requires Recordable(m) && !IsLiteral(m) && s == LenSlotOf(m) && d == DistSlotOf(m)
    ensures s < LEN_SLOTS && d < DIST_SLOTS
    ensures var x, y := m.len - MATCH_MIN_LEN - LenStart(s), m.dist - 1 - DistStart(d);
      && 0 <= x < Pow2(LengthExtra(s)) && 0 <= y < Pow2(DistanceExtra(d))
      && LenExtra(s) == LengthExtra(s) && DistExtra(d) == DistanceExtra(d)
      && m.len == LengthBase(s) + x && m.dist == DistanceBase(d) + y
  {
    LengthTable(s);
    DistanceTable(d);
    hide LengthBase, LengthExtra, DistanceBase, DistanceExtra, LenStart, LenExtra, DistStart, DistExtra, Pow2;
  }

  lemma ReadsParts(lit: seq<nat>, dist: seq<nat>, bits: seq<bool>, pos: nat, s: nat, x: nat, d: nat, y: nat)
    requires Feasible(lit, MAX_LEN) && Feasible(dist, MAX_LEN) && s < LEN_SLOTS && d < DIST_SLOTS
    requires x < Pow2(LengthExtra(s)) && y < Pow2(DistanceExtra(d))
    requires END_OF_BLOCK + 1 + s < |lit| && lit[END_OF_BLOCK + 1 + s] > 0 && d < |dist| && dist[d] > 0
    requires BitsAt(bits, pos, SymbolBits(lit, END_OF_BLOCK + 1 + s) + ToBits(x, LengthExtra(s))
                               + SymbolBits(dist, d) + ToBits(y, DistanceExtra(d)))
    ensures ReadItem(bits, pos, lit, dist)
              == Some((Copy(LengthBase(s) + x, DistanceBase(d) + y),
                       lit[END_OF_BLOCK + 1 + s] + LengthExtra(s) + dist[d] + DistanceExtra(d)))
  {
    hide SymbolBits, ToBits, BitsAt, Feasible, ReadBits, ReadSymbol, LengthBase, LengthExtra, DistanceBase, DistanceExtra;
    hide Pow2, ReadItem;
    var k, a, b := END_OF_BLOCK + 1 + s, LengthExtra(s), DistanceExtra(d);
    FourParts(bits, pos, SymbolBits(lit, k), ToBits(x, a), SymbolBits(dist, d), ToBits(y, b));
    ReadsSymbol(lit, bits, pos, k);
    ReadsNumber(bits, pos + lit[k], x, a);
    ReadsSymbol(dist, bits, pos + lit[k] + a, d);
    ReadsNumber(bits, pos + lit[k] + a + dist[d], y, b);
    ReadsCopy(lit, dist, bits, pos, s, x, d, y);
  }

  lemma FourParts(bits: seq<bool>, pos: nat, a: seq<bool>, b: seq<bool>, c: seq<bool>, e: seq<bool>)
    requires BitsAt(bits, pos, a + b + c + e)
    ensures BitsAt(bits, pos, a) && BitsAt(bits, pos + |a|, b) && BitsAt(bits, pos + |a| + |b|, c)
    ensures BitsAt(bits, pos + |a| + |b| + |c|, e)
  {
    hide BitsAt;
    BitsAtSplit(bits, pos, a + b + c, e);
    BitsAtSplit(bits, pos, a + b, c);
    BitsAtSplit(bits, pos, a, b);
  }

  /** A length code, its extra bits, a distance code and its extra bits make a copy. */
  lemma ReadsCopy(lit: seq<nat>, dist: seq<nat>, bits: seq<bool>, pos: nat, s: nat, x: nat, d: nat, y: nat)
    requires s < LEN_SLOTS && d < DIST_SLOTS && END_OF_BLOCK + 1 + s < |lit| && d < |dist|
    requires var a, b := lit[END_OF_BLOCK + 1 + s], LengthExtra(s);
      && ReadSymbol(lit, bits, pos) == Some(END_OF_BLOCK + 1 + s)
      && ReadBits(bits, pos + a, b) == Some(x)
      && ReadSymbol(dist, bits, pos + a + b) == Some(d)
      && ReadBits(bits, pos + a + b + dist[d], DistanceExtra(d)) == Some(y)
    ensures ReadItem(bits, pos, lit, dist)
              == Some((Copy(LengthBase(s) + x, DistanceBase(d) + y),
                       lit[END_OF_BLOCK + 1 + s] + LengthExtra(s) + dist[d] + DistanceExtra(d)))
  {
    hide ReadBits, ReadSymbol, LengthBase, LengthExtra, DistanceBase, DistanceExtra;
  }

  // ----- the data symbols stand for ----------------------------------------------------

  /** Where the data described by symbols ends. */
  function EndOf(at: nat, syms: seq<Match>): nat {
    if syms == [] then at
    else EndOf(at, syms[..|syms| - 1]) + (if IsLiteral(syms[|syms| - 1]) then 1 else syms[|syms| - 1].len)
  }

  /** The symbol describes the data at `at`. */
  predicate Describes(data: seq<byte>, at: nat, m: Match) {
    if IsLiteral(m) then at < |data| && m.dist == data[at] as int
    else 1 <= m.dist <= at && at + m.len <= |data| && Agree(data, at, data, at - m.dist, m.len)
  }

  predicate AllDescribe(data: seq<byte>, at: nat, syms: seq<Match>) {
    forall i :: 0 <= i < |syms| ==> Describes(data, EndOf(at, syms[..i]), syms[i])
  }

  lemma {:induction false} CopiesData(data: seq<byte>, at: nat, len: nat, dist: nat)
    requires 1 <= dist <= at && at + len <= |data| && Agree(data, at, data, at - dist, len)
    ensures CopyBack(data[..at], len, dist) == data[..at + len]
    decreases len
  {
    if len > 0 {
      assert data[at] == data[at..at + len][0] == data[at - dist..at - dist + len][0] == data[at - dist];
      assert data[..at] + [data[..at][at - dist]] == data[..at + 1];
      assert data[at + 1..at + 1 + (len - 1)] == data[at..at + len][1..];
      assert data[at + 1 - dist..at + 1 - dist + (len - 1)] == data[at - dist..at - dist + len][1..];
      CopiesData(data, at + 1, len - 1, dist);
    }
  }

  /** Reading the items from `n` on: the decoder has the data so far and ends with all of it. */
  lemma {:induction false} ReadsItems(lit: seq<nat>, dist: seq<nat>, bits: seq<bool>, pos: nat,
                                      data: seq<byte>, at: nat, syms: seq<Match>, n: nat)
    requires AllRecordable(syms) && Feasible(lit, MAX_LEN) && Feasible(dist, MAX_LEN)
    requires AllCoded(lit, dist, syms) && BitsAt(bits, pos, BodyBits(lit, dist, syms))
    requires n <= |syms| && AllDescribe(data, at, syms) && at <= |data|
    ensures EndOf(at, syms[..n]) <= |data| && EndOf(at, syms) <= |data|
    ensures ReadItems(bits, pos + |ItemsBits(lit, dist, syms[..n])|, lit, dist, data[..EndOf(at, syms[..n])])
              == Some((data[..EndOf(at, syms)], pos + |BodyBits(lit, dist, syms)|))
    decreases |syms| - n
  {
    hide SymbolBits, ItemsBits, BitsAt, Feasible, ReadItem, ReadSymbol, Coded, Describes, EndOf;
    EndsWithin(data, at, syms, n);
    EndsWithin(data, at, syms, |syms|);
    assert syms[..|syms|] == syms;
    var here := pos + |ItemsBits(lit, dist, syms[..n])|;
    if n == |syms| {
      BitsAtSplit(bits, pos, ItemsBits(lit, dist, syms), SymbolBits(lit, END_OF_BLOCK));
      ReadsEnd(lit, dist, bits, here);
    } else {
      ReadsNext(lit, dist, bits, pos, data, at, syms, n);
      ReadsItems(lit, dist, bits, pos, data, at, syms, n + 1);
    }
  }

  /** Reading item `n` leads to item `n + 1`. */
  lemma ReadsNext(lit: seq<nat>, dist: seq<nat>, bits: seq<bool>, pos: nat,
                  data: seq<byte>, at: nat, syms: seq<Match>, n: nat)
    requires AllRecordable(syms) && Feasible(lit, MAX_LEN) && Feasible(dist, MAX_LEN)
    requires AllCoded(lit, dist, syms) && BitsAt(bits, pos, BodyBits(lit, dist, syms))
    requires n < |syms| && AllDescribe(data, at, syms) && at <= |data|
    ensures EndOf(at, syms[..n]) <= |data| && EndOf(at, syms[..n + 1]) <= |data|
    ensures ReadItems(bits, pos + |ItemsBits(lit, dist, syms[..n])|, lit, dist, data[..EndOf(at, syms[..n])])
              == ReadItems(bits, pos + |ItemsBits(lit, dist, syms[..n + 1])|, lit, dist, data[..EndOf(at, syms[..n + 1])])
  {
    hide SymbolBits, ItemBits, BitsAt, Feasible, ReadItem, ReadSymbol, Coded, Describes, BodyBits, EndOf, CopyBack;
    EndsWithin(data, at, syms, n);
    EndsWithin(data, at, syms, n + 1);
    var here, m := pos + |ItemsBits(lit, dist, syms[..n])|, syms[n];
    ItemInBody(lit, dist, bits, pos, syms, n);
    assert Coded(lit, dist, m);
    ReadsItem(lit, dist, bits, here, m);
    assert syms[..n + 1][..n] == syms[..n];
    DataGrows(data, EndOf(at, syms[..n]), m, at, syms, n);
  }

  lemma ReadsEnd(lit: seq<nat>, dist: seq<nat>, bits: seq<bool>, pos: nat)
    requires Feasible(lit, MAX_LEN) && END_OF_BLOCK < |lit| && lit[END_OF_BLOCK] > 0
    requires BitsAt(bits, pos, SymbolBits(lit, END_OF_BLOCK))
    ensures ReadItem(bits, pos, lit, dist) == Some((End, lit[END_OF_BLOCK]))
  {
    ReadsSymbol(lit, bits, pos, END_OF_BLOCK);
  }

  lemma {:induction false} EndsWithin(data: seq<byte>, at: nat, syms: seq<Match>, n: nat)
    requires n <= |syms| && AllDescribe(data, at, syms) && at <= |data|
    ensures at <= EndOf(at, syms[..n]) <= |data|
  {
    if n > 0 {
      assert syms[..n][..n - 1] == syms[..n - 1];
      EndsWithin(data, at, syms, n - 1);
      assert Describes(data, EndOf(at, syms[..n - 1]), syms[n - 1]);
    }
  }

  /** The bits of one item within the body. */
  lemma ItemInBody(lit: seq<nat>, dist: seq<nat>, bits: seq<bool>, pos: nat, syms: seq<Match>, n: nat)
    requires AllRecordable(syms) && n < |syms|
    requires BitsAt(bits, pos, BodyBits(lit, dist, syms))
    ensures BitsAt(bits, pos + |ItemsBits(lit, dist, syms[..n])|, ItemBits(lit, dist, syms[n]))
  {
    hide BitsAt, ItemBits, SymbolBits;
    BitsAtSplit(bits, pos, ItemsBits(lit, dist, syms), SymbolBits(lit, END_OF_BLOCK));
    assert syms[..|syms|] == syms;
    ItemsPrefix(lit, dist, syms, n + 1, |syms|, bits, pos);
    assert syms[..n + 1][..n] == syms[..n];
    BitsAtSplit(bits, pos, ItemsBits(lit, dist, syms[..n]), ItemBits(lit, dist, syms[n]));
  }

  lemma {:induction false} ItemsPrefix(lit: seq<nat>, dist: seq<nat>, syms: seq<Match>, m: nat, n: nat,
                                       bits: seq<bool>, pos: nat)
    requires AllRecordable(syms) && m <= n <= |syms|
    requires BitsAt(bits, pos, ItemsBits(lit, dist, syms[..n]))
    ensures BitsAt(bits, pos, ItemsBits(lit, dist, syms[..m]))
  {
    hide BitsAt, ItemBits;
    if m < n {
      assert syms[..n][..n - 1] == syms[..n - 1];
      BitsAtSplit(bits, pos, ItemsBits(lit, dist, syms[..n - 1]), ItemBits(lit, dist, syms[n - 1]));
      ItemsPrefix(lit, dist, syms, m, n - 1, bits, pos);
    }
  }

  /** Decoding one symbol extends the data by what the symbol describes. */
  lemma DataGrows(data: seq<byte>, here: nat, m: Match, at: nat, syms: seq<Match>, n: nat)
    requires n < |syms| && m == syms[n] && here == EndOf(at, syms[..n]) <= |data| && Recordable(m)
    requires AllDescribe(data, at, syms)
    ensures EndOf(at, syms[..n + 1]) == here + (if IsLiteral(m) then 1 else m.len) <= |data|
    ensures IsLiteral(m) ==> data[..here] + [m.dist] == data[..here + 1]
    ensures !IsLiteral(m) ==> 1 <= m.dist <= here && CopyBack(data[..here], m.len, m.dist) == data[..here + m.len]
  {
    hide CopyBack;
    assert syms[..n + 1][..n] == syms[..n];
    assert Describes(data, here, m);
    if !IsLiteral(m) {
      CopiesData(data, here, m.len, m.dist);
    }
  }
}
