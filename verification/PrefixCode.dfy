/** Canonical prefix codes, as section 3.2.2 of RFC 1951 defines them from code lengths. */
module PrefixCode {
  import opened Arithmetic
  import opened Bits
  import opened Options

  /** `kMaxLen` */
  const MAX_LEN := 16

  /** How often `x` occurs. */
  function Count(s: seq<nat>, x: nat): (n: nat)
    ensures n <= |s|
  {
    if s == [] then 0 else Count(s[..|s| - 1], x) + (if s[|s| - 1] == x then 1 else 0)
  }

  lemma {:induction false} CountPrefix(s: seq<nat>, x: nat, j: nat, k: nat)
    requires j < k <= |s|
    ensures Count(s[..j], x) + (if s[j] == x then 1 else 0) <= Count(s[..k], x)
  {
    assert s[..k][..k - 1] == s[..k - 1];
    if j + 1 < k {
      CountPrefix(s, x, j, k - 1);
    }
  }

  /**
   * Codes of length `len` taken by codes of at most that length; dividing by `2^len` gives the
   * Kraft sum.
   */
  function Used(lens: seq<nat>, len: nat): nat {
    if len == 0 then 0 else 2 * Used(lens, len - 1) + Count(lens, len)
  }

  /** The code of symbol `k`: after all shorter codes, and in symbol order among those of its length. */
  function Code(lens: seq<nat>, k: nat): nat
    requires k < |lens| && lens[k] > 0
  {
    2 * Used(lens, lens[k] - 1) + Count(lens[..k], lens[k])
  }

  /** Lengths bounded by `max` for which enough codes exist. */
  predicate Feasible(lens: seq<nat>, max: nat) {
    Used(lens, max) <= Pow2(max) && forall k :: 0 <= k < |lens| ==> lens[k] <= max
  }

  lemma {:induction false} UsedGrows(lens: seq<nat>, m: nat, n: nat)
    requires m <= n
    ensures Shl(Used(lens, m), n - m) <= Used(lens, n)
  {
    if m < n {
      UsedGrows(lens, m, n - 1);
    }
  }

  lemma UsedBound(lens: seq<nat>, m: nat, n: nat)
    requires m <= n && Used(lens, n) <= Pow2(n)
    ensures Used(lens, m) <= Pow2(m)
  {
    UsedGrows(lens, m, n);
    ShlIsTimes(Used(lens, m), n - m);
    Pow2Add(m, n - m);
    MulCancels(Used(lens, m), Pow2(m), Pow2(n - m));
  }

  /** Code and rank of a symbol. */
  lemma CodeBelowUsed(lens: seq<nat>, k: nat)
    requires k < |lens| && lens[k] > 0
    ensures Code(lens, k) < Used(lens, lens[k])
  {
    CountPrefix(lens, lens[k], k, |lens|);
    assert lens[..|lens|] == lens;
  }

  lemma CodeFits(lens: seq<nat>, max: nat, k: nat)
    requires Feasible(lens, max) && k < |lens| && lens[k] > 0
    ensures Code(lens, k) < Pow2(lens[k])
  {
    CodeBelowUsed(lens, k);
    UsedBound(lens, lens[k], max);
  }

  /** The code of symbol `k` stands at `pos`. */
  predicate CodeAt(lens: seq<nat>, bits: seq<bool>, pos: nat, k: nat)
    requires k < |lens|
  {
    && lens[k] > 0 && pos + lens[k] <= |bits|
    && bits[pos..pos + lens[k]] == CodeBits(Code(lens, k), lens[k])
  }

  /** No code is the beginning of another. */
  lemma PrefixFree(lens: seq<nat>, max: nat, bits: seq<bool>, pos: nat, j: nat, k: nat)
    requires Feasible(lens, max) && j < |lens| && k < |lens|
    requires CodeAt(lens, bits, pos, j) && CodeAt(lens, bits, pos, k)
    ensures j == k
  {
    if lens[j] == lens[k] {
      SameLength(lens, max, j, k);
    } else if lens[j] < lens[k] {
      assert bits[pos..pos + lens[k]][..lens[j]] == bits[pos..pos + lens[j]];
      DifferentLength(lens, max, j, k);
    } else {
      assert bits[pos..pos + lens[j]][..lens[k]] == bits[pos..pos + lens[k]];
      DifferentLength(lens, max, k, j);
    }
  }

  lemma SameLength(lens: seq<nat>, max: nat, j: nat, k: nat)
    requires Feasible(lens, max) && j < |lens| && k < |lens| && lens[j] == lens[k] > 0
    requires CodeBits(Code(lens, j), lens[j]) == CodeBits(Code(lens, k), lens[k])
    ensures j == k
  {
    CodeFits(lens, max, j);
    CodeFits(lens, max, k);
    CodeBitsInjective(Code(lens, j), Code(lens, k), lens[j]);
    if j < k {
      CountPrefix(lens, lens[j], j, k);
    } else if k < j {
      CountPrefix(lens, lens[j], k, j);
    }
  }

  lemma DifferentLength(lens: seq<nat>, max: nat, j: nat, k: nat)
    requires Feasible(lens, max) && j < |lens| && k < |lens| && 0 < lens[j] < lens[k]
    ensures CodeBits(Code(lens, k), lens[k])[..lens[j]] != CodeBits(Code(lens, j), lens[j])
  {
    hide CodeBits, Code, Shr, Shl, Low;
    var m, n := lens[j], lens[k];
    var c, d := Code(lens, j), Code(lens, k);
    CodeFits(lens, max, j);
    CodeFits(lens, max, k);
    CodeBitsPrefix(d, m, n);
    ShrBound(d, n - m, m);
    LowHigh(d, n - m);
    LongerIsLarger(lens, j, k);
    ShlIsTimes(c + 1, n - m);
    ShlIsTimes(Shr(d, n - m), n - m);
    HighAtLeast(c + 1, Shr(d, n - m), Low(d, n - m), Pow2(n - m));
    if CodeBits(Shr(d, n - m), m) == CodeBits(c, m) {
      CodeBitsInjective(c, Shr(d, n - m), m);
    }
  }

  lemma HighAtLeast(a: int, h: int, l: int, p: int)
    requires 0 <= l < p && a * p <= l + h * p
    ensures a <= h
  {
    if a > h {
      MulMonotone(h + 1, a, p);
    }
  }

  /** A longer code lies beyond all extensions of a shorter one. */
  lemma LongerIsLarger(lens: seq<nat>, j: nat, k: nat)
    requires j < |lens| && k < |lens| && 0 < lens[j] < lens[k]
    ensures Shl(Code(lens, j) + 1, lens[k] - lens[j]) <= Code(lens, k)
  {
    var m, n := lens[j], lens[k];
    CodeBelowUsed(lens, j);
    UsedGrows(lens, m, n - 1);
    ShlIsTimes(Code(lens, j) + 1, n - m);
    ShlIsTimes(Used(lens, m), n - m);
    MulMonotone(Code(lens, j) + 1, Used(lens, m), Pow2(n - m));
    assert Shl(Used(lens, m), n - m) == 2 * Shl(Used(lens, m), n - 1 - m);
  }

  /** Reading one symbol: the first whose code stands at `pos`. */
  function FindCode(lens: seq<nat>, bits: seq<bool>, pos: nat, from: nat): (r: Option<nat>)
    ensures r.Some? ==> from <= r.value < |lens| && CodeAt(lens, bits, pos, r.value)
    ensures r.None? ==> forall k :: from <= k < |lens| ==> !CodeAt(lens, bits, pos, k)
    decreases |lens| - from
  {
    if from >= |lens| then None
    else if CodeAt(lens, bits, pos, from) then Some(from)
    else FindCode(lens, bits, pos, from + 1)
  }

  function ReadSymbol(lens: seq<nat>, bits: seq<bool>, pos: nat): (r: Option<nat>)
    ensures r.Some? ==> r.value < |lens| && CodeAt(lens, bits, pos, r.value)
  {
    FindCode(lens, bits, pos, 0)
  }

  /** Reading what was written. */
  lemma ReadsWritten(lens: seq<nat>, max: nat, bits: seq<bool>, pos: nat, k: nat)
    requires Feasible(lens, max) && k < |lens| && CodeAt(lens, bits, pos, k)
    ensures ReadSymbol(lens, bits, pos) == Some(k)
  {
    hide CodeAt, Feasible;
    PrefixFree(lens, max, bits, pos, ReadSymbol(lens, bits, pos).value, k);
  }

  /** Codes agree with lengths on all symbols that have one. */
  predicate Canonical(lens: seq<nat>, codes: seq<nat>) {
    |lens| <= |codes| && forall k :: 0 <= k < |lens| && lens[k] > 0 ==> codes[k] == Code(lens, k)
  }

  /**
   * `deflate_genhuffcodes`. `complete` is the condition its debug assertion checks: the lengths
   * use up all codes. The code of a symbol of length 0 comes from an uninitialised counter.
   */
  method GenHuffCodes(lens: seq<nat>, p: array<nat>, blCount: seq<nat>) returns (complete: bool)
    requires |lens| <= p.Length && |blCount| == MAX_LEN + 1
    requires forall k :: 0 <= k < |lens| ==> lens[k] <= MAX_LEN
    requires blCount[0] == 0 && forall l :: 1 <= l <= MAX_LEN ==> blCount[l] == Count(lens, l)
    modifies p
    ensures Canonical(lens, p[..])
    ensures complete <==> Used(lens, MAX_LEN) == Pow2(MAX_LEN)
  {
    var nextCodes := new nat[MAX_LEN + 1];
    var code := 0;
    for bits := 1 to MAX_LEN + 1
      invariant code == (if bits == 1 then 0 else 2 * Used(lens, bits - 2))
      invariant forall l :: 1 <= l < bits ==> nextCodes[l] == 2 * Used(lens, l - 1)
    {
      code := 2 * (code + blCount[bits - 1]);
      nextCodes[bits] := code;
    }
    Pow2Bytes();
    complete := code + blCount[MAX_LEN] == 65536;
    for k := 0 to |lens|
      invariant forall l :: 1 <= l <= MAX_LEN ==> nextCodes[l] == 2 * Used(lens, l - 1) + Count(lens[..k], l)
      invariant forall i :: 0 <= i < k && lens[i] > 0 ==> p[i] == Code(lens, i)
    {
      assert lens[..k + 1][..k] == lens[..k];
      p[k] := nextCodes[lens[k]];
      nextCodes[lens[k]] := nextCodes[lens[k]] + 1;
    }
  }
}
