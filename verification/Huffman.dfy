/** `Huffman_Generate`: code lengths and canonical codes from symbol frequencies. */
module Huffman {
  import opened Arithmetic
  import opened Bits
  import opened PrefixCode
  import opened HuffmanTree
  import opened HuffmanOptimal
  import opened HuffmanCost
  import HeapSort

  /** The symbols in use among the first `n`, packed with their frequencies, in symbol order. */
  function Packed(freqs: seq<nat>, n: nat): (s: seq<nat>)
    requires n <= |freqs|
    ensures |s| <= n
  {
    if n == 0 then []
    else if freqs[n - 1] == 0 then Packed(freqs, n - 1)
    else Packed(freqs, n - 1) + [Pack(n - 1, freqs[n - 1])]
  }

  /** How many symbols are in use. */
  function UsedSymbols(freqs: seq<nat>): nat {
    |Packed(freqs, |freqs|)|
  }

  lemma {:induction false} PackedWeight(freqs: seq<nat>, n: nat)
    requires n <= |freqs| <= RADIX
    ensures Weight(Packed(freqs, n)) == Sum(freqs[..n])
  {
    if n > 0 {
      PackedWeight(freqs, n - 1);
      assert freqs[..n][..n - 1] == freqs[..n - 1];
      if freqs[n - 1] > 0 {
        Unpacks(n - 1, freqs[n - 1]);
        WeightPush(Packed(freqs, n - 1), Pack(n - 1, freqs[n - 1]));
      }
    }
  }

  /** A packed slot names a symbol in use, with its frequency. */
  predicate Slot(freqs: seq<nat>, n: nat, v: nat)
    requires n <= |freqs|
  {
    Lo(v) < n && freqs[Lo(v)] > 0 && v == Pack(Lo(v), freqs[Lo(v)])
  }

  /** The packed list holds each symbol in use once, in symbol order. */
  lemma {:induction false} PackedHolds(freqs: seq<nat>, n: nat)
    requires n <= |freqs| <= RADIX
    ensures forall i :: 0 <= i < |Packed(freqs, n)| ==> Slot(freqs, n, Packed(freqs, n)[i])
    ensures forall i, j :: 0 <= i < j < |Packed(freqs, n)| ==> Lo(Packed(freqs, n)[i]) < Lo(Packed(freqs, n)[j])
    ensures forall k :: 0 <= k < n && freqs[k] > 0 ==> Pack(k, freqs[k]) in Packed(freqs, n)
  {
    hide Lo, Pack;
    if n > 0 {
      PackedHolds(freqs, n - 1);
      Unpacks(n - 1, freqs[n - 1]);
      forall k | 0 <= k < n && freqs[k] > 0
        ensures Pack(k, freqs[k]) in Packed(freqs, n)
      {
        if k < n - 1 {
          assert Pack(k, freqs[k]) in Packed(freqs, n - 1);
        } else {
          assert Packed(freqs, n)[|Packed(freqs, n)| - 1] == Pack(k, freqs[k]);
        }
      }
    }
  }

  /** The symbols in use, each once, commoner ones later. */
  predicate Ranking(freqs: seq<nat>, syms: seq<nat>) {
    && (forall i :: 0 <= i < |syms| ==> syms[i] < |freqs| && freqs[syms[i]] > 0)
    && (forall i, j :: 0 <= i < j < |syms| ==> syms[i] != syms[j] && freqs[syms[i]] <= freqs[syms[j]])
    && (forall k :: 0 <= k < |freqs| && freqs[k] > 0 ==> k in syms)
  }

  /** The lower parts. */
  function LowerParts(s: seq<nat>): (t: seq<nat>)
    ensures |t| == |s| && forall i :: 0 <= i < |s| ==> t[i] == Lo(s[i])
  {
    seq(|s|, i requires 0 <= i < |s| => Lo(s[i]))
  }

  ghost predicate OnceEach(s: seq<nat>) {
    forall v :: multiset(s)[v] <= 1
  }

  lemma OncePermuted(s: seq<nat>, t: seq<nat>)
    requires HeapSort.Permuted(s, t) && OnceEach(t)
    ensures OnceEach(s)
  {
  }

  /** Sorting the packed list ranks the symbols. */
  lemma SortedRanks(freqs: seq<nat>, s: seq<nat>)
    requires |freqs| <= RADIX && HeapSort.Permuted(s, Packed(freqs, |freqs|))
    requires forall i, j :: 0 <= i < j < |s| ==> s[i] <= s[j]
    ensures Ranking(freqs, LowerParts(s))
  {
    hide Lo, Pack, Packed, Slot, OnceEach, HeapSort.Permuted;
    var t, syms := Packed(freqs, |freqs|), LowerParts(s);
    PackedHolds(freqs, |freqs|);
    NoTwice(t);
    OncePermuted(s, t);
    forall i | 0 <= i < |s|
      ensures Slot(freqs, |freqs|, s[i])
    {
      StillIn(s, t, s[i]);
    }
    SlotsRank(freqs, s);
    forall k | 0 <= k < |freqs| && freqs[k] > 0
      ensures k in syms
    {
      StillIn(t, s, Pack(k, freqs[k]));
      RankedOnce(freqs, s, k);
    }
  }

  lemma RankedOnce(freqs: seq<nat>, s: seq<nat>, k: nat)
    requires k < |freqs| <= RADIX && Pack(k, freqs[k]) in s
    ensures k in LowerParts(s)
  {
    hide Lo, Pack;
    var i :| 0 <= i < |s| && s[i] == Pack(k, freqs[k]);
    Unpacks(k, freqs[k]);
    assert LowerParts(s)[i] == k;
  }

  lemma StillIn(s: seq<nat>, t: seq<nat>, v: nat)
    requires (HeapSort.Permuted(s, t) || HeapSort.Permuted(t, s)) && v in s
    ensures v in t
  {
    assert v in multiset(s);
    assert v in multiset(t);
  }

  lemma SlotsRank(freqs: seq<nat>, s: seq<nat>)
    requires |freqs| <= RADIX && forall i :: 0 <= i < |s| ==> Slot(freqs, |freqs|, s[i])
    requires forall i, j :: 0 <= i < j < |s| ==> s[i] <= s[j]
    requires OnceEach(s)
    ensures var syms := LowerParts(s);
      && (forall i :: 0 <= i < |syms| ==> syms[i] < |freqs| && freqs[syms[i]] > 0)
      && (forall i, j :: 0 <= i < j < |syms| ==> syms[i] != syms[j] && freqs[syms[i]] <= freqs[syms[j]])
  {
    hide Lo, Pack, OnceEach;
    var syms := LowerParts(s);
    forall i, j | 0 <= i < j < |syms|
      ensures syms[i] != syms[j] && freqs[syms[i]] <= freqs[syms[j]]
    {
      TwicePresent(s, i, j);
      PackOrder(syms[i], freqs[syms[i]], syms[j], freqs[syms[j]]);
    }
  }

  lemma PackOrder(a: nat, f: nat, b: nat, g: nat)
    requires a < RADIX && b < RADIX && Pack(a, f) <= Pack(b, g)
    ensures f <= g
  {
  }

  lemma {:induction false} NoTwice(s: seq<nat>)
    requires forall i, j :: 0 <= i < j < |s| ==> Lo(s[i]) < Lo(s[j])
    ensures OnceEach(s)
  {
    if s != [] {
      var t := s[..|s| - 1];
      NoTwice(t);
      assert s == t + [s[|s| - 1]];
      assert s[|s| - 1] !in t;
    }
  }

  lemma TwicePresent(s: seq<nat>, i: nat, j: nat)
    requires i < j < |s| && OnceEach(s)
    ensures s[i] != s[j]
  {
    var a, b := s[..i + 1], s[i + 1..];
    assert s == a + b && multiset(s) == multiset(a) + multiset(b);
    assert a[i] in multiset(a) && b[j - i - 1] in multiset(b);
    assert multiset(a)[s[i]] >= 1 && multiset(b)[s[j]] >= 1;
    assert multiset(s)[s[i]] == multiset(a)[s[i]] + multiset(b)[s[i]];
  }

  // ----- giving out lengths ------------------------------------------------------------

  lemma {:induction false} CountUpdate(s: seq<nat>, i: nat, v: nat, l: nat)
    requires i < |s|
    ensures Count(s[i := v], l) == Count(s, l) - (if s[i] == l then 1 else 0) + (if v == l then 1 else 0)
  {
    var n := |s| - 1;
    if i < n {
      CountUpdate(s[..n], i, v, l);
      assert s[i := v][..n] == s[..n][i := v];
    } else {
      assert s[i := v][..n] == s[..n];
    }
  }

  lemma {:induction false} CountZeros(s: seq<nat>, l: nat)
    requires l > 0 && forall i :: 0 <= i < |s| ==> s[i] == 0
    ensures Count(s, l) == 0
  {
    if s != [] {
      CountZeros(s[..|s| - 1], l);
    }
  }

  /** Lengths scattered over the symbols are counted as they are listed. */
  lemma {:induction false} CountScattered(lens: seq<nat>, syms: seq<nat>, a: seq<nat>, l: nat)
    requires l > 0 && |syms| == |a|
    requires forall i :: 0 <= i < |syms| ==> syms[i] < |lens| && lens[syms[i]] == a[i]
    requires forall i, j :: 0 <= i < j < |syms| ==> syms[i] != syms[j]
    requires forall k :: 0 <= k < |lens| && k !in syms ==> lens[k] == 0
    ensures Count(lens, l) == Count(a, l)
    decreases |syms|
  {
    if syms == [] {
      CountZeros(lens, l);
    } else {
      var n := |syms| - 1;
      CountUpdate(lens, syms[n], 0, l);
      forall k | 0 <= k < |lens| && k !in syms[..n]
        ensures lens[syms[n] := 0][k] == 0
      {
        if k != syms[n] {
          assert forall i :: 0 <= i < |syms| && syms[i] == k ==> syms[..n][i] == k;
        }
      }
      CountScattered(lens[syms[n] := 0], syms[..n], a[..n], l);
    }
  }

  /** Lengths for a ranking: the counters say how many of each, and commoner symbols never get longer codes. */
  predicate Graded(a: seq<nat>, counters: seq<nat>, above: nat, len: nat, done: nat) {
    && |counters| == MAX_LEN + 1 && len <= above <= MAX_LEN
    && (forall i :: 0 <= i < |a| ==> len <= a[i] <= above && a[i] > 0)
    && (forall i, j :: 0 <= i < j < |a| ==> a[i] >= a[j])
    && (forall l :: len < l <= above ==> Count(a, l) == counters[l])
    && (len > 0 ==> Count(a, len) == done)
  }

  /** The loop that gives the longest codes to the rarest symbols. */
  method AssignLengths(p: array<nat>, num: nat, counters: seq<nat>, maxLen: nat, lens: array<nat>) returns (ghost a: seq<nat>)
    requires num <= p.Length && |counters| == MAX_LEN + 1 && 1 <= maxLen <= MAX_LEN && Codes(counters, maxLen) == num
    requires forall i :: 0 <= i < num ==> Lo(p[i]) < lens.Length
    requires forall i, j :: 0 <= i < j < num ==> Lo(p[i]) != Lo(p[j])
    requires p != lens
    modifies lens
    ensures |a| == num && Graded(a, counters, maxLen, 0, 0)
    ensures forall i :: 0 <= i < num ==> lens[Lo(p[i])] == a[i]
    ensures forall k :: 0 <= k < lens.Length && (forall i :: 0 <= i < num ==> Lo(p[i]) != k) ==> lens[k] == old(lens[k])
  {
    hide Lo, Count, Graded;
    a := [];
    var i, len := 0, maxLen;
    StartsGraded(counters, maxLen);
    while len != 0
      invariant len <= maxLen && i + Codes(counters, len) == num && |a| == i
      invariant Graded(a, counters, maxLen, len, 0)
      invariant forall j :: 0 <= j < i ==> lens[Lo(p[j])] == a[j]
      invariant forall k :: 0 <= k < lens.Length && (forall j :: 0 <= j < num ==> Lo(p[j]) != k) ==> lens[k] == old(lens[k])
    {
      var k := counters[len];
      while k != 0
        invariant k <= counters[len] && i + k + Codes(counters, len - 1) == num && |a| == i
        invariant Graded(a, counters, maxLen, len, counters[len] - k)
        invariant forall j :: 0 <= j < i ==> lens[Lo(p[j])] == a[j]
        invariant forall k :: 0 <= k < lens.Length && (forall j :: 0 <= j < num ==> Lo(p[j]) != k) ==> lens[k] == old(lens[k])
      {
        GradeOne(a, counters, maxLen, len, counters[len] - k);
        lens[Lo(p[i])] := len;
        a := a + [len];
        i := i + 1;
        k := k - 1;
      }
      GradeDown(a, counters, maxLen, len);
      len := len - 1;
    }
  }

  lemma StartsGraded(counters: seq<nat>, maxLen: nat)
    requires |counters| == MAX_LEN + 1 && 1 <= maxLen <= MAX_LEN
    ensures Graded([], counters, maxLen, maxLen, 0)
  {
  }

  lemma GradeOne(a: seq<nat>, counters: seq<nat>, above: nat, len: nat, done: nat)
    requires Graded(a, counters, above, len, done) && len > 0
    ensures Graded(a + [len], counters, above, len, done + 1)
  {
    assert (a + [len])[..|a|] == a;
  }

  lemma GradeDown(a: seq<nat>, counters: seq<nat>, above: nat, len: nat)
    requires 0 < len <= MAX_LEN && |counters| == MAX_LEN + 1 && Graded(a, counters, above, len, counters[len])
    ensures Graded(a, counters, above, len - 1, 0)
  {
    if len > 1 {
      NoneOf(a, len - 1);
    }
  }

  lemma {:induction false} NoneOf(a: seq<nat>, l: nat)
    requires forall i :: 0 <= i < |a| ==> a[i] != l
    ensures Count(a, l) == 0
  {
    if a != [] {
      NoneOf(a[..|a| - 1], l);
    }
  }

  // ----- the Kraft sum of the lengths --------------------------------------------------

  lemma {:induction false} UsedIsKraft(lens: seq<nat>, c: seq<nat>, n: nat)
    requires n < |c| && forall l :: 1 <= l <= n ==> Count(lens, l) == c[l]
    ensures Used(lens, n) == Kraft(c, n)
  {
    if n > 0 {
      UsedIsKraft(lens, c, n - 1);
    }
  }

  /** A complete code stays complete when longer, unused lengths are allowed. */
  lemma {:induction false} StillComplete(lens: seq<nat>, m: nat, n: nat)
    requires m <= n && Used(lens, m) == Pow2(m) && forall l :: m < l <= n ==> Count(lens, l) == 0
    ensures Used(lens, n) == Pow2(n)
  {
    if m < n {
      StillComplete(lens, m, n - 1);
    }
  }

  // ----- the whole generator -----------------------------------------------------------

  /** One of two codes, where fewer than two symbols are in use. */
  predicate TwoCodes(lens: seq<nat>, m: nat) {
    0 < m < |lens| && forall k :: 0 <= k < |lens| ==> lens[k] == (if k == 0 || k == m then 1 else 0)
  }

  /** Exactly the symbols in use have codes; two codes are made up if fewer than two are in use. */
  ghost predicate CodesForUsed(freqs: seq<nat>, lens: seq<nat>)
    requires |lens| == |freqs|
  {
    && (forall k :: 0 <= k < |lens| && freqs[k] > 0 ==> lens[k] > 0)
    && (UsedSymbols(freqs) >= 2 ==> forall k :: 0 <= k < |lens| && freqs[k] == 0 ==> lens[k] == 0)
    && (UsedSymbols(freqs) < 2 ==> exists m: nat :: TwoCodes(lens, m) && (m == 1 || freqs[m] > 0))
  }

  /** A rarer symbol never has a shorter code. */
  predicate RarerNotShorter(freqs: seq<nat>, lens: seq<nat>)
    requires |lens| == |freqs|
  {
    forall j, k :: 0 <= j < |lens| && 0 <= k < |lens| && 0 < freqs[j] < freqs[k] ==> lens[j] >= lens[k]
  }

  /** What is promised of the code lengths: bounded, complete, for the symbols in use, and graded. */
  ghost predicate HuffmanLengths(freqs: seq<nat>, maxLen: nat, lens: seq<nat>) {
    && |lens| == |freqs| && (forall k :: 0 <= k < |lens| ==> lens[k] <= maxLen)
    && Used(lens, MAX_LEN) == Pow2(MAX_LEN)
    && CodesForUsed(freqs, lens) && RarerNotShorter(freqs, lens)
  }

  /** The first loop of `Huffman_Generate`. */
  method PackFrequencies(freqs: seq<nat>, p: array<nat>, lens: array<nat>) returns (num: nat)
    requires |freqs| == p.Length == lens.Length <= RADIX && p != lens
    modifies p, lens
    ensures num == UsedSymbols(freqs) && p[..num] == Packed(freqs, |freqs|)
    ensures forall k :: 0 <= k < |freqs| && freqs[k] == 0 ==> lens[k] == 0
  {
    num := 0;
    for i := 0 to |freqs|
      invariant num <= i && p[..num] == Packed(freqs, i)
      invariant forall k :: 0 <= k < i && freqs[k] == 0 ==> lens[k] == 0
    {
      var freq := freqs[i];
      if freq == 0 {
        lens[i] := 0;
      } else {
        p[num] := Pack(i, freq);
        num := num + 1;
        assert p[..num] == p[..num - 1] + [p[num - 1]];
      }
    }
  }

  /** The patch for fewer than two symbols in use. */
  lemma TwoCodesWork(freqs: seq<nat>, maxLen: nat, lens: seq<nat>, codes: seq<nat>, m: nat)
    requires 1 <= maxLen <= MAX_LEN && |codes| == |lens| == |freqs| && UsedSymbols(freqs) < 2
    requires TwoCodes(lens, m) && (m == 1 || freqs[m] > 0) && codes[0] == 0 && codes[m] == 1
    requires forall k :: 0 <= k < |freqs| && freqs[k] > 0 ==> k == 0 || k == m
    ensures HuffmanLengths(freqs, maxLen, lens) && Canonical(lens, codes)
  {
    hide Count, UsedSymbols;
    TwoCodesCount(lens, m);
    assert Used(lens, 1) == 2 * Used(lens, 0) + Count(lens, 1);
    StillComplete(lens, 1, MAX_LEN);
  }

  lemma TwoCodesCount(lens: seq<nat>, m: nat)
    requires TwoCodes(lens, m)
    ensures Count(lens[..0], 1) == 0 && Count(lens[..m], 1) == 1
    ensures forall l :: 1 <= l <= MAX_LEN ==> Count(lens, l) == (if l == 1 then 2 else 0)
  {
    assert lens[..0] == [];
    var before := lens[..m];
    CountZeros(before[0 := 0], 1);
    CountUpdate(before, 0, 0, 1);
    forall l | 1 <= l <= MAX_LEN
      ensures Count(lens, l) == (if l == 1 then 2 else 0)
    {
      CountZeros(lens[m := 0][0 := 0], l);
      CountUpdate(lens, m, 0, l);
      CountUpdate(lens[m := 0], 0, 0, l);
    }
  }

  /** Lengths graded along a ranking satisfy all that is promised. */
  lemma GradedIsHuffman(freqs: seq<nat>, maxLen: nat, lens: seq<nat>, syms: seq<nat>, a: seq<nat>, c: seq<nat>)
    requires |lens| == |freqs| && 1 <= maxLen <= MAX_LEN && UsedSymbols(freqs) >= 2
    requires Ranking(freqs, syms) && |a| == |syms| && Graded(a, c, maxLen, 0, 0)
    requires forall i :: 0 <= i < |syms| ==> lens[syms[i]] == a[i]
    requires forall k :: 0 <= k < |freqs| && freqs[k] == 0 ==> lens[k] == 0
    requires Kraft(c, maxLen) == Pow2(maxLen) && forall l :: maxLen < l <= MAX_LEN ==> c[l] == 0
    ensures HuffmanLengths(freqs, maxLen, lens)
    ensures forall l :: 1 <= l <= MAX_LEN ==> c[l] == Count(lens, l)
  {
    forall l | 1 <= l <= MAX_LEN
      ensures c[l] == Count(lens, l)
    {
      CountScattered(lens, syms, a, l);
      if l > maxLen {
        NoneOf(a, l);
      }
    }
    UsedIsKraft(lens, c, maxLen);
    StillComplete(lens, maxLen, MAX_LEN);
    forall k | 0 <= k < |freqs|
      ensures lens[k] <= maxLen && (freqs[k] > 0 ==> exists i :: 0 <= i < |syms| && syms[i] == k)
    {
      if freqs[k] > 0 {
        assert k in syms;
      }
    }
    GradedByRank(freqs, lens, syms, a);
  }

  lemma GradedByRank(freqs: seq<nat>, lens: seq<nat>, syms: seq<nat>, a: seq<nat>)
    requires |lens| == |freqs| && Ranking(freqs, syms) && |a| == |syms|
    requires forall i :: 0 <= i < |syms| ==> lens[syms[i]] == a[i] > 0
    requires forall i, j :: 0 <= i < j < |a| ==> a[i] >= a[j]
    ensures RarerNotShorter(freqs, lens)
    ensures forall k :: 0 <= k < |freqs| && freqs[k] > 0 ==> lens[k] > 0
  {
    forall j, k | 0 <= j < |lens| && 0 <= k < |lens| && 0 < freqs[j] < freqs[k]
      ensures lens[j] >= lens[k]
    {
      assert j in syms && k in syms;
      var x :| 0 <= x < |syms| && syms[x] == j;
      var y :| 0 <= y < |syms| && syms[y] == k;
    }
    forall k | 0 <= k < |freqs| && freqs[k] > 0
      ensures lens[k] > 0
    {
      assert k in syms;
      var y :| 0 <= y < |syms| && syms[y] == k;
    }
  }

  lemma SortedLeaves(freqs: seq<nat>, t: seq<nat>, num: nat)
    requires |freqs| <= RADIX && num <= |t| && HeapSort.Permuted(t[..num], Packed(freqs, |freqs|))
    requires HeapSort.Sorted(t, 0, num)
    ensures Leaves(t, num)
    ensures forall j :: 0 <= j < num ==> Lo(t[j]) < |freqs| && Hi(t[j]) == freqs[Lo(t[j])]
  {
    hide HeapSort.Permuted, Packed, Slot;
    PackedHolds(freqs, |freqs|);
    forall j | 0 <= j < num
      ensures Hi(t[j]) >= 1 && Lo(t[j]) < |freqs| && Hi(t[j]) == freqs[Lo(t[j])]
    {
      assert t[..num][j] == t[j];
      StillIn(t[..num], Packed(freqs, |freqs|), t[j]);
      SlotInUse(freqs, t[j]);
    }
    forall j, k | 0 <= j < k < num
      ensures Hi(t[j]) <= Hi(t[k])
    {
      HiMonotone(t[j], t[k]);
    }
  }

  lemma SlotInUse(freqs: seq<nat>, v: nat)
    requires Slot(freqs, |freqs|, v) && |freqs| <= RADIX
    ensures Hi(v) >= 1 && Lo(v) < |freqs| && Hi(v) == freqs[Lo(v)]
  {
    Unpacks(Lo(v), freqs[Lo(v)]);
  }

  lemma HiMonotone(v: nat, w: nat)
    requires v <= w
    ensures Hi(v) <= Hi(w)
  {
  }

  /** The sorted slots before the tree is built. */
  lemma SlotsSorted(freqs: seq<nat>, s: seq<nat>, t: seq<nat>, num: nat)
    requires |freqs| <= RADIX && num <= |s| == |t| && s[..num] == Packed(freqs, |freqs|)
    requires HeapSort.Sorted(t, 0, num) && HeapSort.Permuted(s, t)
    requires forall i :: num <= i < |s| ==> t[i] == s[i]
    ensures Ranking(freqs, LowerParts(t[..num])) && Weight(t[..num]) == Sum(freqs) && Leaves(t, num)
    ensures forall j :: 0 <= j < num ==> Lo(t[j]) < |freqs| && Hi(t[j]) == freqs[Lo(t[j])]
  {
    hide HeapSort.Permuted, Packed, Ranking, Weight;
    PrefixPermuted(s, t, num);
    SortedRanks(freqs, t[..num]);
    SortedLeaves(freqs, t, num);
    PackedWeight(freqs, |freqs|);
    assert freqs[..|freqs|] == freqs;
    WeightPermuted(s[..num], t[..num]);
  }

  lemma PrefixPermuted(s: seq<nat>, t: seq<nat>, num: nat)
    requires num <= |s| == |t| && HeapSort.Permuted(s, t) && forall i :: num <= i < |s| ==> t[i] == s[i]
    ensures multiset(s[..num]) == multiset(t[..num]) && HeapSort.Permuted(t[..num], s[..num])
  {
    assert s == s[..num] + s[num..] && t == t[..num] + t[num..] && t[num..] == s[num..];
    assert multiset(s) == multiset(s[..num]) + multiset(s[num..]);
    assert multiset(t) == multiset(t[..num]) + multiset(t[num..]);
    Cancel(multiset(s[..num]), multiset(t[..num]), multiset(s[num..]));
  }

  lemma Cancel(a: multiset<nat>, b: multiset<nat>, c: multiset<nat>)
    requires a + c == b + c
    ensures a == b
  {
    assert a == (a + c) - c && b == (b + c) - c;
  }

  lemma {:induction false} WeightPermuted(s: seq<nat>, t: seq<nat>)
    requires multiset(s) == multiset(t)
    ensures Weight(s) == Weight(t)
  {
    if s == [] {
      assert |multiset(t)| == |t|;
    } else {
      var v := s[|s| - 1];
      assert s == s[..|s| - 1] + [v];
      assert v in multiset(t);
      var i :| 0 <= i < |t| && t[i] == v;
      assert t == t[..i] + [v] + t[i + 1..];
      assert multiset(t) == multiset(t[..i] + t[i + 1..]) + multiset([v]);
      assert multiset(s) == multiset(s[..|s| - 1]) + multiset([v]);
      Cancel(multiset(s[..|s| - 1]), multiset(t[..i] + t[i + 1..]), multiset([v]));
      WeightPermuted(s[..|s| - 1], t[..i] + t[i + 1..]);
      WeightCut(t, i);
    }
  }

  lemma WeightCut(t: seq<nat>, i: nat)
    requires i < |t|
    ensures Weight(t) == Weight(t[..i] + t[i + 1..]) + Hi(t[i])
  {
    WeightSplit(t, i);
    WeightHead(t[i..]);
    assert t[i..][1..] == t[i + 1..];
    WeightSplit(t[..i] + t[i + 1..], i);
    assert (t[..i] + t[i + 1..])[..i] == t[..i] && (t[..i] + t[i + 1..])[i..] == t[i + 1..];
  }

  lemma OneSymbol(freqs: seq<nat>, s: seq<nat>)
    requires |s| < 2 && Ranking(freqs, LowerParts(s))
    ensures |s| == 1 ==> Lo(s[0]) < |freqs| && freqs[Lo(s[0])] > 0
    ensures forall k :: 0 <= k < |freqs| && freqs[k] > 0 ==> |s| == 1 && k == Lo(s[0])
  {
    forall k | 0 <= k < |freqs| && freqs[k] > 0
      ensures |s| == 1 && k == Lo(s[0])
    {
      assert k in LowerParts(s);
    }
  }

  lemma RankingFacts(freqs: seq<nat>, s: seq<nat>, num: nat)
    requires num <= |s| && Ranking(freqs, LowerParts(s[..num]))
    ensures forall i :: 0 <= i < num ==> Lo(s[i]) < |freqs| && freqs[Lo(s[i])] > 0
    ensures forall i, j :: 0 <= i < j < num ==> Lo(s[i]) != Lo(s[j])
  {
    var syms := LowerParts(s[..num]);
    assert forall i :: 0 <= i < num ==> syms[i] == Lo(s[i]);
  }

  // ----- how long the codes get --------------------------------------------------------

  predicate AtMost(lens: seq<nat>, n: nat) {
    forall k :: 0 <= k < |lens| ==> lens[k] <= n
  }

  /** A code longer than `n` takes a total frequency of at least the Fibonacci number `n + 3`. */
  ghost predicate ShortCodes(total: nat, lens: seq<nat>) {
    forall n: nat :: 1 <= n && total < Fib(n + 3) ==> AtMost(lens, n)
  }

  lemma {:induction false} CountPresent(s: seq<nat>, i: nat)
    requires i < |s|
    ensures Count(s, s[i]) > 0
  {
    if i < |s| - 1 {
      CountPresent(s[..|s| - 1], i);
    }
  }

  /** The lengths reach as far as the counters do. */
  lemma LengthsReach(lens: seq<nat>, c: seq<nat>, n: nat, maxLen: nat)
    requires |c| == MAX_LEN + 1 && maxLen <= MAX_LEN && Deepest(c, n, maxLen) && n > 0
    requires (forall k :: 0 <= k < |lens| ==> lens[k] <= MAX_LEN) && forall l :: 1 <= l <= MAX_LEN ==> c[l] == Count(lens, l)
    ensures AtMost(lens, n)
    ensures n <= maxLen ==> n in lens
  {
    hide Count;
    forall k | 0 <= k < |lens|
      ensures lens[k] <= n
    {
      CountPresent(lens, k);
    }
    if n <= maxLen && n !in lens {
      NoneOf(lens, n);
    }
  }

  lemma ShortEnough(depth: nat, total: nat, lens: seq<nat>)
    requires Fib(depth + 3) <= total && AtMost(lens, depth + 1)
    ensures ShortCodes(total, lens)
  {
    forall n: nat | 1 <= n && total < Fib(n + 3)
      ensures AtMost(lens, n)
    {
      if n <= depth { FibMonotone(n + 3, depth + 3); }
    }
  }

  predicate Positive(l: seq<nat>) {
    forall k :: 0 <= k < |l| ==> l[k] > 0
  }

  predicate NonDecreasing(l: seq<nat>) {
    forall j, k :: 0 <= j < k < |l| ==> l[j] <= l[k]
  }

  /** Frequencies that are all in use, sorted and steep. */
  predicate Steeper(freqs: seq<nat>) {
    |freqs| >= 2 && Steep(freqs) && Positive(freqs) && NonDecreasing(freqs)
  }

  lemma {:induction false} AllPacked(freqs: seq<nat>, n: nat)
    requires n <= |freqs| && forall k :: 0 <= k < |freqs| ==> freqs[k] > 0
    ensures |Packed(freqs, n)| == n && forall k :: 0 <= k < n ==> Packed(freqs, n)[k] == Pack(k, freqs[k])
  {
    if n > 0 {
      AllPacked(freqs, n - 1);
    }
  }

  /** A sequence has one sorted permutation. */
  lemma {:induction false} SortedUnique(s: seq<nat>, t: seq<nat>)
    requires multiset(s) == multiset(t)
    requires forall i, j :: 0 <= i < j < |s| ==> s[i] <= s[j]
    requires forall i, j :: 0 <= i < j < |t| ==> t[i] <= t[j]
    ensures s == t
  {
    if s == [] {
      assert |multiset(t)| == |t|;
    } else {
      assert |multiset(s)| == |s| == |multiset(t)| == |t|;
      var n := |s| - 1;
      assert s[n] in multiset(t) && t[n] in multiset(s);
      assert s == s[..n] + [s[n]] && t == t[..n] + [t[n]];
      assert s[n] == t[n];
      Cancel(multiset(s[..n]), multiset(t[..n]), multiset([s[n]]));
      SortedUnique(s[..n], t[..n]);
    }
  }

  /** Steep frequencies are already sorted, and the leaves carry them. */
  lemma SteepLeaves(freqs: seq<nat>, s: seq<nat>, t: seq<nat>, num: nat)
    requires |freqs| <= RADIX && Steeper(freqs) && num <= |s| == |t| && s[..num] == Packed(freqs, |freqs|)
    requires HeapSort.Sorted(t, 0, num) && HeapSort.Permuted(s, t) && forall i :: num <= i < |s| ==> t[i] == s[i]
    ensures num == |freqs| && Weights(t, num) == freqs
  {
    AllPacked(freqs, |freqs|);
    hide HeapSort.Permuted, Steep;
    PrefixPermuted(s, t, num);
    PackedSorted(freqs);
    SortedUnique(s[..num], t[..num]);
    forall k | 0 <= k < num
      ensures Weights(t, num)[k] == freqs[k]
    {
      assert t[..num][k] == t[k];
      Unpacks(k, freqs[k]);
    }
  }

  lemma PackedSorted(freqs: seq<nat>)
    requires |freqs| <= RADIX && forall j, k :: 0 <= j < k < |freqs| ==> freqs[j] <= freqs[k]
    ensures forall j, k :: 0 <= j < k < |freqs| ==> Pack(j, freqs[j]) <= Pack(k, freqs[k])
  {
  }

  /** Lengths with these counts, the longest for the rarest symbols, cost what merging adds up to. */
  ghost predicate OptimalCounts(freqs: seq<nat>, syms: seq<nat>, c: seq<nat>, maxLen: nat) {
    && (forall i :: 0 <= i < |syms| ==> syms[i] < |freqs|) && maxLen < |c|
    && exists d: seq<nat> :: CountedBy(d, c, maxLen) && |d| == |syms| && Cost(Pick(freqs, syms), d) == Merged(Pick(freqs, syms))
  }

  /** Lengths up to the limit, the longest first, as many of each as `c` says. */
  ghost predicate CountedBy(d: seq<nat>, c: seq<nat>, maxLen: nat) {
    && maxLen < |c| && Descending(d) && (forall k :: 0 <= k < |d| ==> 1 <= d[k] <= maxLen)
    && forall x: nat :: 1 <= x <= maxLen ==> Count(d, x) == c[x]
  }

  lemma GradedCounted(a: seq<nat>, c: seq<nat>, maxLen: nat)
    requires maxLen <= MAX_LEN && Graded(a, c, maxLen, 0, 0)
    ensures CountedBy(a, c, maxLen)
  {
    hide Count;
  }

  lemma CountedOnce(a: seq<nat>, d: seq<nat>, c: seq<nat>, maxLen: nat)
    requires CountedBy(a, c, maxLen) && CountedBy(d, c, maxLen) && |a| == |d|
    ensures a == d
  {
    hide Count;
    forall v: nat
      ensures Count(a, v) == Count(d, v)
    {
      CountIn(a, v);
      CountIn(d, v);
    }
    DescendingUnique(a, d);
  }

  lemma CountsAreOptimal(freqs: seq<nat>, lens: seq<nat>, syms: seq<nat>, a: seq<nat>, c: seq<nat>, maxLen: nat)
    requires |lens| == |freqs| && Ranking(freqs, syms) && |a| == |syms| && maxLen <= MAX_LEN && Graded(a, c, maxLen, 0, 0)
    requires forall i :: 0 <= i < |syms| ==> syms[i] < |lens| && lens[syms[i]] == a[i]
    requires OptimalCounts(freqs, syms, c, maxLen)
    ensures Optimal(freqs, lens)
  {
    hide Graded, CountedBy, Merged, Cost, Optimal;
    var d: seq<nat> :| CountedBy(d, c, maxLen) && |d| == |syms| && Cost(Pick(freqs, syms), d) == Merged(Pick(freqs, syms));
    GradedCounted(a, c, maxLen);
    CountedOnce(a, d, c, maxLen);
    assert Pick(lens, syms) == a;
    MergedIsOptimal(freqs, lens, syms);
  }

  /** The counts drawn from the tree are optimal. */
  lemma TreeIsOptimal(freqs: seq<nat>, syms: seq<nat>, par: seq<nat>, w: seq<nat>, ic: seq<nat>, bc: seq<nat>,
                      c: seq<nat>, maxLen: nat)
    requires forall i :: 0 <= i < |syms| ==> syms[i] < |freqs|
    requires Tree(par) && TreeOf(Pick(freqs, syms), par, w, ic, bc) && maxLen < |c| && Depth(par, 0) < maxLen
    requires Exact(par, 0, c, maxLen)
    ensures OptimalCounts(freqs, syms, c, maxLen)
  {
    hide TreeOf, Exact, Merged, Cost, Count;
    var d := TreeCost(Pick(freqs, syms), par, w, ic, bc, c, maxLen);
    assert CountedBy(d, c, maxLen);
  }

  /** `Huffman_Generate` for fewer than two symbols in use. */
  method GenerateFew(freqs: seq<nat>, maxLen: nat, p: array<nat>, ls: array<nat>, num: nat)
    requires 2 <= |freqs| == p.Length == ls.Length && 1 <= maxLen <= MAX_LEN && p != ls
    requires num == UsedSymbols(freqs) < 2 && Ranking(freqs, LowerParts(p[..num]))
    requires forall k :: 0 <= k < |freqs| && freqs[k] == 0 ==> ls[k] == 0
    modifies p, ls
    ensures HuffmanLengths(freqs, maxLen, ls[..]) && Canonical(ls[..], p[..]) && Optimal(freqs, ls[..])
  {
    hide HuffmanLengths, Canonical, Ranking, Lo, UsedSymbols, Optimal;
    OneSymbol(freqs, p[..num]);
    var minCode, maxCode := 0, 1;
    if num == 1 {
      maxCode := Lo(p[0]);
      if maxCode == 0 {
        maxCode := maxCode + 1;
      }
    }
    p[minCode] := 0;
    p[maxCode] := 1;
    ls[minCode], ls[maxCode] := 1, 1;
    TwoCodesWork(freqs, maxLen, ls[..], p[..], maxCode);
    OneBitIsOptimal(freqs, ls[..]);
  }

  /** `Huffman_Generate` for two or more symbols in use. */
  method GenerateMany(freqs: seq<nat>, maxLen: nat, p: array<nat>, ls: array<nat>, num: nat)
    requires |freqs| == p.Length == ls.Length <= RADIX && 1 <= maxLen <= MAX_LEN && p != ls
    requires 2 <= num == UsedSymbols(freqs) <= |freqs| && num <= Pow2(maxLen)
    requires Ranking(freqs, LowerParts(p[..num])) && Weight(p[..num]) < 0x40_0000 && Leaves(p[..], num)
    requires forall k :: 0 <= k < |freqs| && freqs[k] == 0 ==> ls[k] == 0
    requires forall i :: 0 <= i < num ==> Lo(p[i]) < |freqs| && Hi(p[i]) == freqs[Lo(p[i])]
    modifies p, ls
    ensures HuffmanLengths(freqs, maxLen, ls[..]) && Canonical(ls[..], p[..])
    ensures old(Weight(p[..num])) < Fib(maxLen + 3) ==> Optimal(freqs, ls[..])
    ensures ShortCodes(old(Weight(p[..num])), ls[..])
    ensures old(Steep(Weights(p[..], num))) && num - 1 <= maxLen ==> num - 1 in ls[..]
  {
    hide HuffmanLengths, Canonical, Ranking, Graded, Lo, Hi, UsedSymbols, Tree, Weight, Kraft, Codes, Count, Used;
    hide Leaves, Steep, Fib, Depth, Deepest, AtMost, ShortCodes, TreeOf, Exact, OptimalCounts, Optimal;
    ghost var syms := LowerParts(p[..num]);
    assert Weights(p[..], num) == Pick(freqs, syms);
    ghost var w, ic, bc := Merge(p, num);
    ghost var par := Parents(p[..], num - 2);
    ghost var depth := Depth(par, 0);
    var counters := CountLengths(p, num, maxLen);
    assert LowerParts(p[..num]) == syms;
    if depth < maxLen {
      TreeIsOptimal(freqs, syms, par, w, ic, bc, counters, maxLen);
    } else {
      FibMonotone(maxLen + 3, depth + 3);
    }
    GiveLengths(freqs, maxLen, p, ls, num, counters, depth);
    ShortEnough(depth, old(Weight(p[..num])), ls[..]);
  }

  /** The last steps of `Huffman_Generate`: lengths for the counted codes, and the codes. */
  method GiveLengths(freqs: seq<nat>, maxLen: nat, p: array<nat>, ls: array<nat>, num: nat, counters: seq<nat>, ghost depth: nat)
    requires |freqs| == p.Length == ls.Length && 1 <= maxLen <= MAX_LEN && p != ls
    requires 2 <= num == UsedSymbols(freqs) <= |freqs| && Ranking(freqs, LowerParts(p[..num]))
    requires |counters| == MAX_LEN + 1 && counters[0] == 0 && Codes(counters, maxLen) == num
    requires Kraft(counters, maxLen) == Pow2(maxLen) && forall l :: maxLen < l <= MAX_LEN ==> counters[l] == 0
    requires Deepest(counters, depth + 1, maxLen)
    requires forall k :: 0 <= k < |freqs| && freqs[k] == 0 ==> ls[k] == 0
    requires depth < maxLen ==> OptimalCounts(freqs, LowerParts(p[..num]), counters, maxLen)
    modifies p, ls
    ensures HuffmanLengths(freqs, maxLen, ls[..]) && Canonical(ls[..], p[..])
    ensures AtMost(ls[..], depth + 1) && (depth + 1 <= maxLen ==> depth + 1 in ls[..])
    ensures depth < maxLen ==> Optimal(freqs, ls[..])
  {
    hide HuffmanLengths, Canonical, Ranking, Graded, Lo, Hi, UsedSymbols, Kraft, Codes, Count, Used, Deepest, AtMost;
    hide OptimalCounts, Optimal;
    ghost var syms := LowerParts(p[..num]);
    RankingFacts(freqs, p[..], num);
    ghost var a := AssignLengths(p, num, counters, maxLen, ls);
    GradedIsHuffman(freqs, maxLen, ls[..], syms, a, counters);
    LengthsBounded(freqs, maxLen, ls[..]);
    LengthsReach(ls[..], counters, depth + 1, maxLen);
    if depth < maxLen {
      CountsAreOptimal(freqs, ls[..], syms, a, counters, maxLen);
    }
    var complete := GenHuffCodes(ls[..], p, counters);
    assert complete;
  }

  lemma LengthsBounded(freqs: seq<nat>, maxLen: nat, lens: seq<nat>)
    requires HuffmanLengths(freqs, maxLen, lens) && maxLen <= MAX_LEN
    ensures Used(lens, MAX_LEN) == Pow2(MAX_LEN)
    ensures forall k :: 0 <= k < |lens| ==> lens[k] <= MAX_LEN
  {
  }

  lemma SteeperFacts(freqs: seq<nat>)
    requires Steeper(freqs)
    ensures |freqs| >= 2 && Steep(freqs)
  {
  }

  lemma FewAreShort(freqs: seq<nat>, maxLen: nat, lens: seq<nat>)
    requires UsedSymbols(freqs) < 2 && HuffmanLengths(freqs, maxLen, lens)
    ensures ShortCodes(Sum(freqs), lens)
  {
    hide UsedSymbols;
    var m: nat :| TwoCodes(lens, m) && (m == 1 || freqs[m] > 0);
    forall n: nat | 1 <= n && Sum(freqs) < Fib(n + 3)
      ensures AtMost(lens, n)
    {
    }
  }

  /** `Huffman_Generate` */
  method Generate(freqs: seq<nat>, maxLen: nat) returns (codes: seq<nat>, lens: seq<nat>)
    requires 2 <= |freqs| <= RADIX && 1 <= maxLen <= MAX_LEN
    requires Sum(freqs) < 0x40_0000 && UsedSymbols(freqs) <= Pow2(maxLen)
    ensures HuffmanLengths(freqs, maxLen, lens)
    ensures |codes| == |lens| == |freqs| && Canonical(lens, codes)
    ensures ShortCodes(Sum(freqs), lens)
    ensures Sum(freqs) < Fib(maxLen + 3) ==> Optimal(freqs, lens)
    ensures Steeper(freqs) && |freqs| - 1 <= maxLen ==> |freqs| - 1 in lens
  {
    hide HuffmanLengths, Canonical, Ranking, Weight, Leaves, ShortCodes, Steeper, Steep, Optimal, Fib, Lo, Hi;
    var p, ls := new nat[|freqs|], new nat[|freqs|];
    var num := PackFrequencies(freqs, p, ls);
    ghost var s := p[..];
    HeapSort.HeapSort(p, num);
    SlotsSorted(freqs, s, p[..], num);
    if Steeper(freqs) {
      SteepLeaves(freqs, s, p[..], num);
      SteeperFacts(freqs);
    }
    if num < 2 {
      GenerateFew(freqs, maxLen, p, ls, num);
      FewAreShort(freqs, maxLen, ls[..]);
    } else {
      GenerateMany(freqs, maxLen, p, ls, num);
    }
    codes, lens := p[..], ls[..];
  }

  // ----- the limit is reached ----------------------------------------------------------

  /** Frequencies each one more than the sum of all but one of those before it. */
  function SteepFreqs(n: nat): (l: seq<nat>)
    ensures |l| == n
  {
    if n == 0 then []
    else
      var s := SteepFreqs(n - 1);
      s + [if n <= 3 then 1 else Sum(s[..n - 2]) + 1]
  }

  lemma SteepFreqsNext(n: nat)
    requires n > 0
    ensures var s := SteepFreqs(n - 1);
            SteepFreqs(n) == s + [if n <= 3 then 1 else Sum(s[..n - 2]) + 1]
  {
  }

  lemma {:induction false} SumPrefix(l: seq<nat>, n: nat)
    requires n <= |l|
    ensures Sum(l[..n]) <= Sum(l)
    decreases |l| - n
  {
    if n == |l| {
      assert l[..n] == l;
    } else {
      SumPrefix(l, n + 1);
      SumNext(l, n);
    }
  }

  lemma {:induction false} SteepFreqsOk(n: nat)
    ensures var l := SteepFreqs(n);
            Steep(l) && Sum(l) < Pow2(n) && Positive(l) && NonDecreasing(l)
  {
    if n == 0 {
      assert SteepFreqs(n) == [];
    } else {
      hide SteepFreqs, Sum, Steep, Pow2, NonDecreasing, Positive;
      SteepFreqsOk(n - 1);
      SteepFreqsNext(n);
      var s := SteepFreqs(n - 1);
      var x := if n <= 3 then 1 else Sum(s[..n - 2]) + 1;
      assert SteepFreqs(n) == s + [x];
      if n > 1 { LastGrows(n, s); }
      StillSorted(s, x);
      StillSteep(s, x, n);
      SumOfMore(s, x, n);
    }
  }

  lemma StillSorted(s: seq<nat>, x: nat)
    requires NonDecreasing(s) && Positive(s) && x > 0 && (s != [] ==> s[|s| - 1] <= x)
    ensures NonDecreasing(s + [x]) && Positive(s + [x])
  {
  }

  lemma StillSteep(s: seq<nat>, x: nat, n: nat)
    requires |s| == n - 1 && Steep(s) && (n > 3 ==> x > Sum(s[..n - 2]))
    ensures Steep(s + [x])
  {
    hide Sum;
    var l := s + [x];
    forall k | 3 <= k < n
      ensures l[k] > Sum(l[..k - 1])
    {
      assert l[..k - 1] == s[..k - 1];
    }
  }

  lemma SumOfMore(s: seq<nat>, x: nat, n: nat)
    requires |s| == n - 1 && Sum(s) < Pow2(n - 1) && x == if n <= 3 then 1 else Sum(s[..n - 2]) + 1
    ensures Sum(s + [x]) < Pow2(n)
  {
    var l := s + [x];
    SumNext(l, n - 1);
    assert l[..n] == l && l[..n - 1] == s;
    hide Sum;
    if n > 3 { SumPrefix(s, n - 2); }
  }

  /** The last frequency is at least the one before it. */
  lemma LastGrows(n: nat, s: seq<nat>)
    requires n > 1 && s == SteepFreqs(n - 1) && Positive(s)
    ensures SteepFreqs(n)[n - 1] >= s[n - 2]
  {
    SteepFreqsNext(n);
    SteepFreqsNext(n - 1);
    var r := SteepFreqs(n - 2);
    hide SteepFreqs, Sum;
    if n > 4 {
      assert s[..n - 2] == r && r[..n - 2] == r;
      SumNext(r, n - 3);
      assert s[n - 3] == r[n - 3];
    }
  }

  /** For every limit there are frequencies whose longest code reaches it; for the limit 16 that of the encoder, too. */
  method LimitIsReached(maxLen: nat) returns (freqs: seq<nat>, lens: seq<nat>)
    requires 1 <= maxLen <= MAX_LEN
    ensures |freqs| == |lens| == maxLen + 1 && HuffmanLengths(freqs, maxLen, lens) && maxLen in lens
  {
    hide HuffmanLengths, Steep, Sum;
    freqs := SteepFreqs(maxLen + 1);
    SteepFreqsOk(maxLen + 1);
    Pow2Monotone(maxLen + 1, 17);
    assert Pow2(17) == 0x2_0000 by { Fifteen(); }
    FewUsed(freqs, maxLen);
    var codes;
    codes, lens := Generate(freqs, maxLen);
  }

  lemma Fifteen()
    ensures Pow2(17) == 0x2_0000
  {
    assert Pow2(8) == 256;
    Pow2Add(8, 8);
    assert Pow2(17) == 2 * Pow2(16);
  }

  lemma FewUsed(freqs: seq<nat>, maxLen: nat)
    requires |freqs| == maxLen + 1
    ensures UsedSymbols(freqs) <= Pow2(maxLen)
  {
    Above(maxLen);
  }

  lemma {:induction false} Above(n: nat)
    ensures n + 1 <= Pow2(n)
  {
    if n > 0 {
      Above(n - 1);
    }
  }
}
