/** The run coding of code lengths (`kite_deflate_scanlens`, `kite_deflate_sendtree`; section 3.2.7 of RFC 1951). */
module RunLengths {
  import opened Arithmetic
  import opened Bits
  import opened Options
  import opened PrefixCode
  import opened CodeWriter

  /** A length, a repetition of the previous length, or a run of zero lengths. */
  datatype Token = Len(len: nat) | Repeat(n: nat) | Zeros(n: nat)

  const REPEAT := 16
  const ZEROS_SHORT := 17
  const ZEROS_LONG := 18

  /** The symbol of the code length alphabet. */
  function Symbol(t: Token): nat {
    match t
    case Len(len) => len
    case Repeat(n) => REPEAT
    case Zeros(n) => if n <= 10 then ZEROS_SHORT else ZEROS_LONG
  }

  /** The value of the extra bits, and how many they are. */
  function Extra(t: Token): (nat, nat) {
    match t
    case Len(_) => (0, 0)
    case Repeat(n) => (if n < 3 then 0 else n - 3, 2)
    case Zeros(n) => if n <= 10 then (if n < 3 then 0 else n - 3, 3) else (n - 11, 7)
  }

  /** The counts that fit the extra bits. */
  predicate Fits(t: Token) {
    match t
    case Len(_) => true
    case Repeat(n) => 3 <= n <= 6
    case Zeros(n) => 3 <= n <= 138
  }

  function Copies(n: nat, v: nat): (s: seq<nat>)
    ensures |s| == n && forall i :: 0 <= i < n ==> s[i] == v
  {
    seq(n, _ => v)
  }

  function Last(s: seq<nat>): nat {
    if s == [] then 0 else s[|s| - 1]
  }

  /** Lengths that tokens stand for, after the lengths `acc`. */
  function Expand(acc: seq<nat>, tokens: seq<Token>): (lens: seq<nat>)
    decreases |tokens|
  {
    if tokens == [] then acc
    else
      match tokens[0]
      case Len(len) => Expand(acc + [len], tokens[1..])
      case Repeat(n) => Expand(acc + Copies(n, Last(acc)), tokens[1..])
      case Zeros(n) => Expand(acc + Copies(n, 0), tokens[1..])
  }

  /** The tokens for a run of `count` lengths `len` after the length `prev`. */
  function RunTokens(len: nat, prev: int, count: nat, min: nat): seq<Token> {
    if count < min then seq(count, _ => Len(len))
    else if len != 0 then
      if len != prev then [Len(len), Repeat(if count > 0 then count - 1 else 0)] else [Repeat(count)]
    else [Zeros(count)]
  }

  /** `max_count` and `min_count` for a run of `next` after `cur`. */
  function Limits(cur: int, next: int): (nat, nat) {
    if next == 0 then (138, 3) else if cur == next then (6, 3) else (7, 4)
  }

  function Next(lens: seq<nat>, n: nat): int
    requires n < |lens|
  {
    if n + 1 < |lens| then lens[n + 1] else -1
  }

  /** The tokens for the lengths from `n` on, `count` lengths of the current run being pending. */
  function TokensFrom(lens: seq<nat>, n: nat, prev: int, count: nat, lim: (nat, nat)): seq<Token>
    requires n <= |lens|
    decreases |lens| - n
  {
    if n == |lens| then []
    else if count + 1 < lim.0 && lens[n] == Next(lens, n) then TokensFrom(lens, n + 1, prev, count + 1, lim)
    else
      RunTokens(lens[n], prev, count + 1, lim.1)
      + TokensFrom(lens, n + 1, lens[n], 0, Limits(lens[n], Next(lens, n)))
  }

  function Tokens(lens: seq<nat>): seq<Token>
    requires |lens| > 0
  {
    TokensFrom(lens, 0, -1, 0, Limits(-1, lens[0]))
  }

  // ----- runs expand to the lengths ----------------------------------------------------

  lemma {:induction false} ExpandAppend(acc: seq<nat>, s: seq<Token>, t: seq<Token>)
    ensures Expand(acc, s + t) == Expand(Expand(acc, s), t)
    decreases |s|
  {
    if s == [] {
      assert s + t == t;
    } else {
      assert (s + t)[1..] == s[1..] + t;
      match s[0]
      case Len(len) => ExpandAppend(acc + [len], s[1..], t);
      case Repeat(n) => ExpandAppend(acc + Copies(n, Last(acc)), s[1..], t);
      case Zeros(n) => ExpandAppend(acc + Copies(n, 0), s[1..], t);
    }
  }

  lemma {:induction false} ExpandLens(acc: seq<nat>, len: nat, count: nat)
    ensures Expand(acc, seq(count, _ => Len(len))) == acc + Copies(count, len)
    decreases count
  {
    if count > 0 {
      assert seq(count, _ => Len(len))[1..] == seq(count - 1, _ => Len(len));
      ExpandLens(acc + [len], len, count - 1);
      assert acc + [len] + Copies(count - 1, len) == acc + Copies(count, len);
    } else {
      assert acc + Copies(0, len) == acc;
    }
  }

  /** The limits in force suit the run that starts after `prev`. */
  predicate LimitsSuit(len: nat, prev: int, count: nat, lim: (nat, nat)) {
    lim == Limits(prev, len) && count < lim.0
  }

  /** The tokens of a run expand to the run, and their counts fit. */
  lemma RunExpands(acc: seq<nat>, len: nat, prev: int, count: nat, lim: (nat, nat))
    requires lim == Limits(prev, len) && 1 <= count <= lim.0
    requires prev == -1 || (acc != [] && prev == acc[|acc| - 1])
    ensures Expand(acc, RunTokens(len, prev, count, lim.1)) == acc + Copies(count, len)
    ensures forall i :: 0 <= i < |RunTokens(len, prev, count, lim.1)| ==> Fits(RunTokens(len, prev, count, lim.1)[i])
  {
    if count < lim.1 {
      ExpandLens(acc, len, count);
    } else if len != 0 && len != prev {
      var mid := acc + [len];
      var ts := RunTokens(len, prev, count, lim.1);
      assert ts[1..] == [Repeat(count - 1)] && ts[1..][1..] == [];
      assert Expand(acc, ts) == Expand(mid, [Repeat(count - 1)]);
      assert Expand(mid, [Repeat(count - 1)]) == mid + Copies(count - 1, len);
      assert mid + Copies(count - 1, len) == acc + Copies(count, len);
    } else if len != 0 {
      assert [Repeat(count)][1..] == [];
      assert Copies(count, len) == Copies(count, Last(acc));
    } else {
      assert [Zeros(count)][1..] == [];
    }
  }

  lemma {:induction false} TokensExpand(pre: seq<nat>, lens: seq<nat>, n: nat, prev: int, count: nat, lim: (nat, nat))
    requires count <= n <= |lens|
    requires n < |lens| ==> LimitsSuit(lens[n], prev, count, lim)
    requires n == |lens| ==> count == 0
    requires forall i :: n - count <= i < n ==> lens[i] == lens[n]
    requires prev == -1 || (n - count > 0 && prev == lens[n - count - 1])
    ensures Expand(pre + lens[..n - count], TokensFrom(lens, n, prev, count, lim)) == pre + lens
    ensures forall i :: 0 <= i < |TokensFrom(lens, n, prev, count, lim)| ==> Fits(TokensFrom(lens, n, prev, count, lim)[i])
    decreases |lens| - n
  {
    hide RunTokens, Fits;
    if n == |lens| {
      assert lens[..n] == lens;
    } else if count + 1 < lim.0 && lens[n] == Next(lens, n) {
      TokensExpand(pre, lens, n + 1, prev, count + 1, lim);
    } else {
      var acc := pre + lens[..n - count];
      var run, rest := RunTokens(lens[n], prev, count + 1, lim.1),
                       TokensFrom(lens, n + 1, lens[n], 0, Limits(lens[n], Next(lens, n)));
      RunExpands(acc, lens[n], prev, count + 1, lim);
      ExpandAppend(acc, run, rest);
      assert acc + Copies(count + 1, lens[n]) == pre + lens[..n + 1];
      TokensExpand(pre, lens, n + 1, lens[n], 0, Limits(lens[n], Next(lens, n)));
    }
  }

  /** Expanding the emitted runs gives the lengths back, after any others, and all counts fit their 2, 3 or 7 bits. */
  lemma RunsRoundTrip(pre: seq<nat>, lens: seq<nat>)
    requires |lens| > 0
    ensures Expand(pre, Tokens(lens)) == pre + lens
    ensures forall i :: 0 <= i < |Tokens(lens)| ==> Fits(Tokens(lens)[i])
  {
    assert pre + lens[..0] == pre;
    TokensExpand(pre, lens, 0, -1, 0, Limits(-1, lens[0]));
  }

  // ----- the histogram -----------------------------------------------------------------

  function Symbols(tokens: seq<Token>): (s: seq<nat>)
    ensures |s| == |tokens|
  {
    seq(|tokens|, i requires 0 <= i < |tokens| => Symbol(tokens[i]))
  }

  lemma {:induction false} CountConcat(s: seq<nat>, t: seq<nat>, x: nat)
    ensures Count(s + t, x) == Count(s, x) + Count(t, x)
  {
    if t == [] {
      assert s + t == s;
    } else {
      assert (s + t)[..|s + t| - 1] == s + t[..|t| - 1];
      CountConcat(s, t[..|t| - 1], x);
    }
  }

  lemma SymbolsConcat(s: seq<Token>, t: seq<Token>, x: nat)
    ensures Count(Symbols(s + t), x) == Count(Symbols(s), x) + Count(Symbols(t), x)
  {
    assert Symbols(s + t) == Symbols(s) + Symbols(t);
    CountConcat(Symbols(s), Symbols(t), x);
  }

  lemma {:induction false} CountCopies(n: nat, v: nat, x: nat)
    ensures Count(Copies(n, v), x) == (if v == x then n else 0)
  {
    if n > 0 {
      CountCopies(n - 1, v, x);
      assert Copies(n, v)[..n - 1] == Copies(n - 1, v);
    }
  }

  /** How often each symbol occurs among the tokens of a run. */
  lemma RunHistogram(len: nat, prev: int, count: nat, min: nat, x: nat)
    requires count > 0
    ensures var ts := RunTokens(len, prev, count, min);
      Count(Symbols(ts), x) ==
        (if count < min then (if x == len then count else 0)
         else if len != 0 then (if len != prev && x == len then 1 else 0) + (if x == REPEAT then 1 else 0)
         else if count <= 10 then (if x == ZEROS_SHORT then 1 else 0)
         else (if x == ZEROS_LONG then 1 else 0))
  {
    var ts := RunTokens(len, prev, count, min);
    if count < min {
      assert Symbols(ts) == Copies(count, len);
      CountCopies(count, len, x);
    } else if len != 0 && len != prev {
      assert Symbols(ts) == [len, REPEAT] && [len, REPEAT][..1] == [len] && [len][..0] == [];
      assert Count([len], x) == Count([], x) + (if len == x then 1 else 0);
    } else {
      assert Symbols(ts) == [Symbol(ts[0])] && [Symbol(ts[0])][..0] == [];
    }
  }

  /** `kite_deflate_scanlens`: adds the histogram of the emitted symbols. */
  method ScanLens(lens: seq<nat>, freqs: array<nat>)
    requires |lens| > 0 && freqs.Length == 19 && forall i :: 0 <= i < |lens| ==> lens[i] <= MAX_LEN
    modifies freqs
    ensures forall x :: 0 <= x < 19 ==> freqs[x] == old(freqs[x]) + Count(Symbols(Tokens(lens)), x)
  {
    hide RunTokens, Symbols, Count;
    var prevlen, curlen, nextlen: int := -1, 0, lens[0];
    var count, maxCount, minCount := 0, 7, 4;
    if nextlen == 0 {
      maxCount, minCount := 138, 3;
    }
    ghost var done: seq<Token> := [];
    NoSymbols();
    assert done + Tokens(lens) == Tokens(lens);
    for n := 0 to |lens|
      invariant nextlen == (if n < |lens| then lens[n] else -1)
      invariant done + TokensFrom(lens, n, prevlen, count, (maxCount, minCount)) == Tokens(lens)
      invariant forall x :: 0 <= x < 19 ==> freqs[x] == old(freqs[x]) + Count(Symbols(done), x)
    {
      curlen := nextlen;
      nextlen := if n + 1 < |lens| then lens[n + 1] else -1;
      count := count + 1;
      if count < maxCount && curlen == nextlen {
        continue;
      }
      ghost var run := RunTokens(curlen, prevlen, count, minCount);
      forall x | 0 <= x < 19
        ensures Count(Symbols(done + run), x) == Count(Symbols(done), x) + Count(Symbols(run), x)
      {
        SymbolsConcat(done, run, x);
      }
      forall x: nat { RunHistogram(curlen, prevlen, count, minCount, x); }
      if count < minCount {
        freqs[curlen] := freqs[curlen] + count;
      } else if curlen != 0 {
        if curlen != prevlen {
          freqs[curlen] := freqs[curlen] + 1;
        }
        freqs[REPEAT] := freqs[REPEAT] + 1;
      } else if count <= 10 {
        freqs[ZEROS_SHORT] := freqs[ZEROS_SHORT] + 1;
      } else {
        freqs[ZEROS_LONG] := freqs[ZEROS_LONG] + 1;
      }
      ghost var rest := TokensFrom(lens, n + 1, curlen, 0, Limits(curlen, nextlen));
      assert done + (run + rest) == done + run + rest;
      done := done + run;
      count, prevlen := 0, curlen;
      if nextlen == 0 {
        maxCount, minCount := 138, 3;
      } else if curlen == nextlen {
        maxCount, minCount := 6, 3;
      } else {
        maxCount, minCount := 7, 4;
      }
    }
    assert done + [] == done;
  }

  lemma NoSymbols()
    ensures forall x :: Count(Symbols([]), x) == 0
  {
    assert Symbols([]) == [];
  }

  // ----- writing and reading -----------------------------------------------------------

  /** The bits of a token under the code with lengths `cl`. */
  function TokenBits(cl: seq<nat>, t: Token): seq<bool> {
    SymbolBits(cl, Symbol(t)) + ToBits(Extra(t).0, Extra(t).1)
  }

  function TokensBits(cl: seq<nat>, tokens: seq<Token>): seq<bool> {
    if tokens == [] then [] else TokenBits(cl, tokens[0]) + TokensBits(cl, tokens[1..])
  }

  lemma {:induction false} TokensBitsConcat(cl: seq<nat>, s: seq<Token>, t: seq<Token>)
    ensures TokensBits(cl, s + t) == TokensBits(cl, s) + TokensBits(cl, t)
  {
    hide TokenBits;
    if s == [] {
      assert s + t == t;
    } else {
      assert (s + t)[1..] == s[1..] + t;
      TokensBitsConcat(cl, s[1..], t);
    }
  }

  /** All tokens can be written under the code. */
  predicate Writable(cl: seq<nat>, tokens: seq<Token>) {
    forall i :: 0 <= i < |tokens| ==> Symbol(tokens[i]) < |cl| && cl[Symbol(tokens[i])] > 0
  }

  lemma ExtraFits(t: Token)
    requires Fits(t)
    ensures Extra(t).0 < Pow2(Extra(t).1) && Extra(t).1 <= 16
  {
    assert Pow2(1) == 2 && Pow2(2) == 4 && Pow2(3) == 8 && Pow2(4) == 16 && Pow2(5) == 32 && Pow2(6) == 64 && Pow2(7) == 128;
  }

  function LenTokens(n: nat, len: nat): (s: seq<Token>)
    ensures |s| == n
  {
    seq(n, _ => Len(len))
  }

  lemma LenTokensBits(cl: seq<nat>, n: nat, len: nat)
    ensures TokensBits(cl, LenTokens(0, len)) == []
    ensures TokensBits(cl, LenTokens(n + 1, len)) == TokensBits(cl, LenTokens(n, len)) + SymbolBits(cl, len)
  {
    hide SymbolBits;
    assert LenTokens(n + 1, len) == LenTokens(n, len) + [Len(len)];
    TokensBitsConcat(cl, LenTokens(n, len), [Len(len)]);
    OneToken(cl, Len(len), []);
  }

  lemma {:induction false} LenTokensSize(cl: seq<nat>, n: nat, len: nat)
    requires len < |cl|
    ensures |TokensBits(cl, LenTokens(n, len))| == n * cl[len]
  {
    hide TokensBits, SymbolBits, LenTokens;
    LenTokensBits(cl, 0, len);
    if n > 0 {
      LenTokensSize(cl, n - 1, len);
      LenTokensBits(cl, n - 1, len);
      OneMore(n - 1, cl[len]);
    }
  }

  lemma OneMore(n: nat, k: nat)
    ensures (n + 1) * k == n * k + k
  {
  }

  /** The writes for a run too short to be coded. */
  method SendLens(w: BitWriter, codes: seq<nat>, cl: seq<nat>, curlen: nat, pending: nat)
    requires w.Valid() && ReversedTable(cl, codes) && 0 < pending && curlen < |cl| && cl[curlen] > 0
    requires |w.Written()| + |TokensBits(cl, LenTokens(pending, curlen))| <= 8 * w.out.Length
    modifies w, w.out
    ensures w.Valid() && w.Written() == old(w.Written()) + TokensBits(cl, LenTokens(pending, curlen))
  {
    hide ReversedTable, SymbolBits, TokensBits, LenTokens;
    var count := pending;
    ghost var start := w.Written();
    LenTokensBits(cl, 0, curlen);
    while true
      invariant w.Valid() && 0 < count <= pending
      invariant w.Written() == start + TokensBits(cl, LenTokens(pending - count, curlen))
      decreases count
    {
      LenTokensBits(cl, pending - count, curlen);
      LenTokensSize(cl, pending - count, curlen);
      LenTokensSize(cl, pending, curlen);
      MoreFits(pending - count, pending, cl[curlen]);
      WriteSymbol(w, codes, cl, curlen);
      count := count - 1;
      if count == 0 {
        break;
      }
    }
  }

  lemma MoreFits(m: nat, n: nat, k: nat)
    requires m < n
    ensures m * k + k <= n * k
  {
    MulMonotone(m + 1, n, k);
  }

  /** Writes a code and its extra bits. */
  method SendCounted(w: BitWriter, codes: seq<nat>, cl: seq<nat>, k: nat, v: nat, bits: nat, ghost t: Token)
    requires w.Valid() && ReversedTable(cl, codes) && k < |cl| && cl[k] > 0
    requires Fits(t) && Symbol(t) == k && Extra(t) == (v, bits)
    requires |w.Written()| + cl[k] + bits <= 8 * w.out.Length
    modifies w, w.out
    ensures w.Valid() && w.Written() == old(w.Written()) + TokensBits(cl, [t])
  {
    hide ReversedTable, SymbolBits, ToBits, TokensBits;
    ExtraFits(t);
    OneToken(cl, t, w.Written());
    WriteSymbol(w, codes, cl, k);
    w.WriteBits(v, bits);
  }

  /** The writes for one run. */
  method SendRun(w: BitWriter, codes: seq<nat>, cl: seq<nat>, curlen: nat, prevlen: int, pending: nat, minCount: nat)
    requires w.Valid() && ReversedTable(cl, codes) && 0 < pending && 3 <= minCount
    requires var run := RunTokens(curlen, prevlen, pending, minCount);
      && Writable(cl, run) && (forall i :: 0 <= i < |run| ==> Fits(run[i]))
      && |w.Written()| + |TokensBits(cl, run)| <= 8 * w.out.Length
    modifies w, w.out
    ensures w.Valid()
    ensures w.Written() == old(w.Written()) + TokensBits(cl, RunTokens(curlen, prevlen, pending, minCount))
  {
    hide ReversedTable, SymbolBits, ToBits, TokensBits;
    var count := pending;
    ghost var start := w.Written();
    ghost var run := RunTokens(curlen, prevlen, pending, minCount);
    if count < minCount {
      assert run == LenTokens(pending, curlen) && run[0] == Len(curlen);
      SendLens(w, codes, cl, curlen, count);
      return;
    }
    ghost var t := run[|run| - 1];
    assert Fits(t) && Symbol(t) < |cl| && cl[Symbol(t)] > 0;
    OneToken(cl, t, []);
    assert |run| == 1 ==> run == [t];
    if curlen != 0 {
      if curlen != prevlen {
        TwoTokens(cl, run[0], t, start);
        assert run == [Len(curlen), t] && Symbol(run[0]) < |cl|;
        OneToken(cl, t, start + SymbolBits(cl, curlen));
        WriteSymbol(w, codes, cl, curlen);
        count := count - 1;
      }
      SendCounted(w, codes, cl, REPEAT, count - 3, 2, t);
    } else if count <= 10 {
      SendCounted(w, codes, cl, ZEROS_SHORT, count - 3, 3, t);
    } else {
      SendCounted(w, codes, cl, ZEROS_LONG, count - 11, 7, t);
    }
  }

  lemma OneToken(cl: seq<nat>, t: Token, start: seq<bool>)
    ensures start + TokensBits(cl, [t]) == start + SymbolBits(cl, Symbol(t)) + ToBits(Extra(t).0, Extra(t).1)
  {
    assert [t][1..] == [];
    assert TokensBits(cl, [t]) == TokenBits(cl, t) + TokensBits(cl, [t][1..]);
  }

  lemma TwoTokens(cl: seq<nat>, t: Token, u: Token, start: seq<bool>)
    requires t.Len?
    ensures start + TokensBits(cl, [t, u])
              == start + SymbolBits(cl, t.len) + SymbolBits(cl, Symbol(u)) + ToBits(Extra(u).0, Extra(u).1)
  {
    hide SymbolBits;
    assert [t, u][1..] == [u];
    assert TokensBits(cl, [t, u]) == TokenBits(cl, t) + TokensBits(cl, [u]);
    OneToken(cl, u, []);
  }

  /** `kite_deflate_sendtree` */
  method SendTree(w: BitWriter, codes: seq<nat>, cl: seq<nat>, lens: seq<nat>)
    requires w.Valid() && ReversedTable(cl, codes) && |lens| > 0 && Writable(cl, Tokens(lens))
    requires |w.Written()| + |TokensBits(cl, Tokens(lens))| <= 8 * w.out.Length
    modifies w, w.out
    ensures w.Valid() && w.Written() == old(w.Written()) + TokensBits(cl, Tokens(lens))
  {
    hide RunTokens, ReversedTable, TokensBits, Fits;
    var prevlen, curlen, nextlen: int := -1, 0, lens[0];
    var count, maxCount, minCount := 0, 7, 4;
    if nextlen == 0 {
      maxCount, minCount := 138, 3;
    }
    ghost var start, all := w.Written(), Tokens(lens);
    ghost var done: seq<Token> := [];
    RunsRoundTrip([], lens);
    assert done + Tokens(lens) == Tokens(lens);
    assert start + TokensBits(cl, []) == start by { NoBitsOf(cl); }
    for n := 0 to |lens|
      invariant w.Valid() && w.Written() == start + TokensBits(cl, done)
      invariant nextlen == (if n < |lens| then lens[n] else -1) && 3 <= minCount
      invariant done + TokensFrom(lens, n, prevlen, count, (maxCount, minCount)) == all
    {
      curlen := nextlen;
      nextlen := if n + 1 < |lens| then lens[n + 1] else -1;
      count := count + 1;
      if count < maxCount && curlen == nextlen {
        continue;
      }
      ghost var run := RunTokens(curlen, prevlen, count, minCount);
      ghost var rest := TokensFrom(lens, n + 1, curlen, 0, Limits(curlen, nextlen));
      assert done + (run + rest) == done + run + rest;
      NextRun(cl, done, run, rest, start);
      SendRun(w, codes, cl, curlen, prevlen, count, minCount);
      done := done + run;
      count, prevlen := 0, curlen;
      if nextlen == 0 {
        maxCount, minCount := 138, 3;
      } else if curlen == nextlen {
        maxCount, minCount := 6, 3;
      } else {
        maxCount, minCount := 7, 4;
      }
    }
    assert done + [] == done;
  }

  lemma NoBitsOf(cl: seq<nat>)
    ensures TokensBits(cl, []) == []
  {
  }

  lemma NextRun(cl: seq<nat>, done: seq<Token>, run: seq<Token>, rest: seq<Token>, start: seq<bool>)
    ensures start + TokensBits(cl, done) + TokensBits(cl, run) == start + TokensBits(cl, done + run)
    ensures |TokensBits(cl, done + run + rest)| >= |TokensBits(cl, done)| + |TokensBits(cl, run)|
    ensures forall i :: 0 <= i < |run| ==> run[i] == (done + run + rest)[|done| + i]
  {
    TokensBitsConcat(cl, done, run);
    TokensBitsConcat(cl, done + run, rest);
  }

  /** What one token adds. */
  function Step(acc: seq<nat>, t: Token): seq<nat> {
    match t
    case Len(len) => acc + [len]
    case Repeat(n) => acc + Copies(n, Last(acc))
    case Zeros(n) => acc + Copies(n, 0)
  }

  /** A decoder reads one symbol and its extra bits; the second result is the number of bits read. */
  function ReadToken(bits: seq<bool>, pos: nat, cl: seq<nat>): (r: Option<(Token, nat)>)
    ensures r.Some? ==> 0 < r.value.1 <= |bits| - pos
    ensures r.Some? && r.value.0.Len? ==> r.value.0.len <= 15
  {
    var r := ReadSymbol(cl, bits, pos);
    if r.None? then None
    else
      var k := r.value;
      if k < 16 then Some((Len(k), cl[k]))
      else if k > ZEROS_LONG then None
      else
        var n := if k == REPEAT then 2 else if k == ZEROS_SHORT then 3 else 7;
        var v := ReadBits(bits, pos + cl[k], n);
        if v.None? then None
        else if k == REPEAT then Some((Repeat(3 + v.value), cl[k] + n))
        else Some((Zeros(if k == ZEROS_SHORT then 3 + v.value else 11 + v.value), cl[k] + n))
  }

  /** A decoder reads code lengths until it has `total` of them (section 3.2.7 of RFC 1951). */
  function ReadLengths(bits: seq<bool>, pos: nat, cl: seq<nat>, total: nat, acc: seq<nat>): Option<(seq<nat>, nat)>
    decreases |bits| - pos
  {
    if |acc| == total then Some((acc, pos))
    else if |acc| > total then None
    else
      var r := ReadToken(bits, pos, cl);
      if r.None? || (r.value.0.Repeat? && acc == []) then None
      else ReadLengths(bits, pos + r.value.1, cl, total, Step(acc, r.value.0))
  }

  /** Tokens that a decoder with lengths `acc` can follow: it has a length to repeat, and no length is 16. */
  predicate Readable(acc: seq<nat>, tokens: seq<Token>) {
    && (acc == [] && tokens != [] ==> !tokens[0].Repeat?)
    && forall i :: 0 <= i < |tokens| ==> Fits(tokens[i]) && (tokens[i].Len? ==> tokens[i].len <= 15)
  }

  lemma {:induction false} ExpandGrows(acc: seq<nat>, tokens: seq<Token>)
    requires forall i :: 0 <= i < |tokens| ==> Fits(tokens[i])
    ensures |Expand(acc, tokens)| >= |acc| + |tokens|
    decreases |tokens|
  {
    if tokens != [] {
      assert Fits(tokens[0]);
      match tokens[0]
      case Len(len) => ExpandGrows(acc + [len], tokens[1..]);
      case Repeat(n) => ExpandGrows(acc + Copies(n, Last(acc)), tokens[1..]);
      case Zeros(n) => ExpandGrows(acc + Copies(n, 0), tokens[1..]);
    }
  }

  /** Reading the bits of one token. */
  lemma ReadsToken(bits: seq<bool>, pos: nat, cl: seq<nat>, t: Token)
    requires Feasible(cl, MAX_LEN) && Symbol(t) < |cl| && cl[Symbol(t)] > 0
    requires Fits(t) && (t.Len? ==> t.len <= 15) && BitsAt(bits, pos, TokenBits(cl, t))
    ensures ReadToken(bits, pos, cl) == Some((t, |TokenBits(cl, t)|))
  {
    hide SymbolBits, Feasible, ToBits, BitsAt, ReadSymbol, ReadBits;
    BitsAtSplit(bits, pos, SymbolBits(cl, Symbol(t)), ToBits(Extra(t).0, Extra(t).1));
    ReadsSymbol(cl, bits, pos, Symbol(t));
    ExtraFits(t);
    ReadsNumber(bits, pos + cl[Symbol(t)], Extra(t).0, Extra(t).1);
  }

  lemma {:induction false} ReadsTokens(bits: seq<bool>, pos: nat, cl: seq<nat>, total: nat, acc: seq<nat>, tokens: seq<Token>)
    requires Feasible(cl, MAX_LEN) && Writable(cl, tokens) && Readable(acc, tokens)
    requires BitsAt(bits, pos, TokensBits(cl, tokens)) && |Expand(acc, tokens)| == total
    ensures ReadLengths(bits, pos, cl, total, acc) == Some((Expand(acc, tokens), pos + |TokensBits(cl, tokens)|))
    decreases |tokens|
  {
    hide TokenBits, Feasible, BitsAt, Fits, ReadToken;
    if tokens != [] {
      var t := tokens[0];
      ExpandGrows(acc, tokens);
      BitsAtSplit(bits, pos, TokenBits(cl, t), TokensBits(cl, tokens[1..]));
      assert Symbol(t) < |cl| && cl[Symbol(t)] > 0 && Fits(t);
      ReadsToken(bits, pos, cl, t);
      StepGrows(acc, t);
      ReadsTokens(bits, pos + |TokenBits(cl, t)|, cl, total, Step(acc, t), tokens[1..]);
    }
  }

  lemma StepGrows(acc: seq<nat>, t: Token)
    requires Fits(t)
    ensures Step(acc, t) != []
  {
  }

  /** Tokens emitted for lengths start afresh, and hold no length that is not among them. */
  lemma {:induction false} TokensReadable(lens: seq<nat>, n: nat, prev: int, count: nat, lim: (nat, nat))
    requires n <= |lens| && forall i :: 0 <= i < |lens| ==> lens[i] <= 15
    requires lim.1 >= 1
    ensures var ts := TokensFrom(lens, n, prev, count, lim);
      && (forall i :: 0 <= i < |ts| && ts[i].Len? ==> ts[i].len <= 15)
      && (prev == -1 && ts != [] ==> !ts[0].Repeat?)
    decreases |lens| - n
  {
    if n < |lens| {
      if count + 1 < lim.0 && lens[n] == Next(lens, n) {
        TokensReadable(lens, n + 1, prev, count + 1, lim);
      } else {
        var run, rest := RunTokens(lens[n], prev, count + 1, lim.1),
                         TokensFrom(lens, n + 1, lens[n], 0, Limits(lens[n], Next(lens, n)));
        TokensReadable(lens, n + 1, lens[n], 0, Limits(lens[n], Next(lens, n)));
        RunLens(lens[n], prev, count + 1, lim.1);
        hide RunTokens;
        assert TokensFrom(lens, n, prev, count, lim) == run + rest;
      }
    }
  }

  /** The only length among the tokens of a run is the run's, and the first run starts with it. */
  lemma RunLens(len: nat, prev: int, count: nat, min: nat)
    requires count > 0 && min >= 1
    ensures var ts := RunTokens(len, prev, count, min);
      && ts != [] && (forall i :: 0 <= i < |ts| && ts[i].Len? ==> ts[i].len == len)
      && (prev == -1 ==> !ts[0].Repeat?)
  {
  }

  /** A decoder never reads a length over 15. */
  lemma {:induction false} ReadsAtMost15(bits: seq<bool>, pos: nat, cl: seq<nat>, total: nat, acc: seq<nat>)
    requires forall i :: 0 <= i < |acc| ==> acc[i] <= 15
    ensures var r := ReadLengths(bits, pos, cl, total, acc);
      r.Some? ==> forall i :: 0 <= i < |r.value.0| ==> r.value.0[i] <= 15
    decreases |bits| - pos
  {
    hide ReadToken;
    var r := ReadToken(bits, pos, cl);
    if |acc| < total && r.Some? {
      ReadsAtMost15(bits, pos + r.value.1, cl, total, Step(acc, r.value.0));
    }
  }

  /**
   * The code lengths of the two trees, sent one after the other, are what a decoder reads if and
   * only if none of them is over 15. (The encoder asks for lengths of up to 16.)
   */
  lemma LengthsRecovered(bits: seq<bool>, pos: nat, cl: seq<nat>, lit: seq<nat>, dist: seq<nat>)
    requires Feasible(cl, MAX_LEN) && |lit| > 0 && |dist| > 0
    requires Writable(cl, Tokens(lit)) && Writable(cl, Tokens(dist))
    requires BitsAt(bits, pos, TokensBits(cl, Tokens(lit)) + TokensBits(cl, Tokens(dist)))
    ensures ReadLengths(bits, pos, cl, |lit| + |dist|, [])
              == Some((lit + dist, pos + |TokensBits(cl, Tokens(lit))| + |TokensBits(cl, Tokens(dist))|))
            <==> (forall i :: 0 <= i < |lit + dist| ==> (lit + dist)[i] <= 15)
  {
    hide Feasible, BitsAt, ReadLengths, TokensBits, TokensFrom;
    var ts, us := Tokens(lit), Tokens(dist);
    ReadsAtMost15(bits, pos, cl, |lit| + |dist|, []);
    RunsRoundTrip([], lit);
    RunsRoundTrip(lit, dist);
    assert [] + lit == lit;
    ExpandAppend([], ts, us);
    TokensBitsConcat(cl, ts, us);
    if forall i :: 0 <= i < |lit + dist| ==> (lit + dist)[i] <= 15 {
      assert forall i :: 0 <= i < |lit| ==> lit[i] == (lit + dist)[i];
      assert forall i :: 0 <= i < |dist| ==> dist[i] == (lit + dist)[|lit| + i];
      TokensReadable(lit, 0, -1, 0, Limits(-1, lit[0]));
      TokensReadable(dist, 0, -1, 0, Limits(-1, dist[0]));
      ExpandGrows([], ts);
      SomeTokens(lit);
      assert Readable([], ts + us);
      ReadsTokens(bits, pos, cl, |lit| + |dist|, [], ts + us);
    }
  }

  lemma SomeTokens(lens: seq<nat>)
    requires |lens| > 0
    ensures Tokens(lens) != []
  {
    RunsRoundTrip([], lens);
  }
}
