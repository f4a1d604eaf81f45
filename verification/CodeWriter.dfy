/** Writing canonical codes with the bit writer, and where bits stand in a stream. */
module CodeWriter {
  import opened Arithmetic
  import opened Bits
  import opened Options
  import opened PrefixCode

  /** The bits of symbol `k`. */
  function SymbolBits(lens: seq<nat>, k: nat): (s: seq<bool>)
    ensures |s| == (if k < |lens| then lens[k] else 0)
  {
    if k < |lens| && lens[k] > 0 then CodeBits(Code(lens, k), lens[k]) else []
  }

  /** The codes are ready for a writer that starts with the lowest bit. */
  ghost predicate ReversedTable(lens: seq<nat>, codes: seq<nat>) {
    && |lens| <= |codes| && Feasible(lens, MAX_LEN)
    && forall k :: 0 <= k < |lens| && lens[k] > 0 ==> codes[k] == ReverseOne(Code(lens, k), lens[k])
  }

  /** `Huffman_ReverseBits` */
  method ReverseCodes(codes: seq<nat>, lens: seq<nat>) returns (r: seq<nat>)
    requires |lens| <= |codes| && forall k :: 0 <= k < |lens| ==> lens[k] <= MAX_LEN
    ensures |r| == |codes|
    ensures Canonical(lens, codes) && Feasible(lens, MAX_LEN) ==> ReversedTable(lens, r)
  {
    hide Code, Feasible, ReverseOne;
    r := codes;
    for k := 0 to |lens|
      invariant |r| == |codes|
      invariant forall i :: 0 <= i < k ==> r[i] == ReverseOne(codes[i], lens[i])
      invariant forall i :: k <= i < |codes| ==> r[i] == codes[i]
    {
      r := r[k := ReverseOne(codes[k], lens[k])];
    }
  }

  /** `writebits` of a code. */
  method WriteSymbol(w: BitWriter, codes: seq<nat>, lens: seq<nat>, k: nat)
    requires w.Valid() && ReversedTable(lens, codes) && k < |lens| && lens[k] > 0
    requires |w.Written()| + lens[k] <= 8 * w.out.Length
    modifies w, w.out
    ensures w.Valid() && w.Written() == old(w.Written()) + SymbolBits(lens, k)
  {
    CodeFits(lens, MAX_LEN, k);
    ReversedCode(Code(lens, k), lens[k]);
    hide ReverseOne, Code, CodeBits, ToBits;
    w.WriteBits(codes[k], lens[k]);
  }

  // ----- bits at a place in a stream ---------------------------------------------------

  /** `s` stands at `pos`. */
  predicate BitsAt(bits: seq<bool>, pos: nat, s: seq<bool>) {
    pos + |s| <= |bits| && bits[pos..pos + |s|] == s
  }

  lemma BitsAtSplit(bits: seq<bool>, pos: nat, s: seq<bool>, t: seq<bool>)
    requires BitsAt(bits, pos, s + t)
    ensures BitsAt(bits, pos, s) && BitsAt(bits, pos + |s|, t)
  {
    assert bits[pos..pos + |s|] == bits[pos..pos + |s + t|][..|s|] == s;
    assert bits[pos + |s|..pos + |s| + |t|] == bits[pos..pos + |s + t|][|s|..] == t;
  }

  /** The number in the `n` bits at `pos`. */
  function ReadBits(bits: seq<bool>, pos: nat, n: nat): Option<nat> {
    if pos + n <= |bits| then Some(FromBits(bits[pos..pos + n])) else None
  }

  lemma ReadsNumber(bits: seq<bool>, pos: nat, v: nat, n: nat)
    requires BitsAt(bits, pos, ToBits(v, n)) && v < Pow2(n)
    ensures ReadBits(bits, pos, n) == Some(v)
  {
    FromToBits(v, n);
  }

  lemma ReadsSymbol(lens: seq<nat>, bits: seq<bool>, pos: nat, k: nat)
    requires Feasible(lens, MAX_LEN) && k < |lens| && lens[k] > 0 && BitsAt(bits, pos, SymbolBits(lens, k))
    ensures ReadSymbol(lens, bits, pos) == Some(k)
  {
    assert CodeAt(lens, bits, pos, k);
    ReadsWritten(lens, MAX_LEN, bits, pos, k);
  }
}
