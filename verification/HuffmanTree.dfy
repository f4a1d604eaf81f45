/** The in-place Huffman tree of `Huffman_Generate` and the code length counters drawn from it. */
module HuffmanTree {
  import opened Arithmetic
  import opened Bits
  import opened PrefixCode
  import opened HuffmanOptimal

  /** `1 << NUM_BITS`: a slot of the table holds a symbol below, and a frequency, a parent or a depth above. */
  const RADIX := 1024

  function Hi(v: nat): nat { v / RADIX }

  function Lo(v: nat): nat { v % RADIX }

  function Pack(lo: nat, hi: nat): nat { lo + RADIX * hi }

  lemma Unpacks(lo: nat, hi: nat)
    requires lo < RADIX
    ensures Hi(Pack(lo, hi)) == hi && Lo(Pack(lo, hi)) == lo
  {
    DivModUnique(Pack(lo, hi), RADIX, hi, lo);
  }

  lemma Packs(v: nat)
    ensures Lo(v) < RADIX && v == Pack(Lo(v), Hi(v)) && v - Lo(v) == RADIX * Hi(v)
  {
  }

  /** Sum of the upper parts. */
  function Weight(s: seq<nat>): nat {
    if s == [] then 0 else Weight(s[..|s| - 1]) + Hi(s[|s| - 1])
  }

  lemma {:induction false} WeightSplit(s: seq<nat>, i: nat)
    requires i <= |s|
    ensures Weight(s) == Weight(s[..i]) + Weight(s[i..])
  {
    if i == |s| {
      assert s[..i] == s && s[i..] == [];
    } else {
      WeightSplit(s[..|s| - 1], i);
      assert s[..|s| - 1][..i] == s[..i];
      assert s[i..][..|s| - i - 1] == s[..|s| - 1][i..];
    }
  }

  lemma WeightHead(s: seq<nat>)
    requires s != []
    ensures Weight(s) == Hi(s[0]) + Weight(s[1..])
  {
    WeightSplit(s, 1);
    assert s[..1] == [s[0]];
    assert Weight([s[0]]) == Weight([]) + Hi(s[0]);
  }

  lemma WeightPush(s: seq<nat>, v: nat)
    ensures Weight(s + [v]) == Weight(s) + Hi(v)
  {
    assert (s + [v])[..|s|] == s;
  }

  /** Parents grow with their nodes, no three nodes share one, and a parent comes after its node. */
  predicate Rising(par: seq<nat>, last: nat) {
    && (forall j :: 0 <= j < |par| ==> j < par[j] <= last)
    && (forall j, k :: 0 <= j < k < |par| ==> par[j] <= par[k])
    && (forall j, k :: 0 <= j < k < |par| && j + 2 <= k ==> par[j] < par[k])
  }

  /** The parents of the internal nodes below the root. */
  predicate Tree(par: seq<nat>) {
    Rising(par, |par|)
  }

  /** The upper parts of the first `b` slots. */
  function Parents(s: seq<nat>, b: nat): (par: seq<nat>)
    requires b <= |s|
    ensures |par| == b && forall j :: 0 <= j < b ==> par[j] == Hi(s[j])
  {
    seq(b, j requires 0 <= j < b => Hi(s[j]))
  }

  /**
   * The merge under way: `i` leaves and `b` of the `e` internal nodes have a parent, `t` of them
   * the node `e` being made, whose frequency is `freq` so far.
   */
  ghost predicate Merging(s: seq<nat>, num: nat, i: nat, b: nat, e: nat, t: nat, freq: nat, total: nat) {
    && 2 <= num <= |s| && num <= RADIX && i <= num && b <= e < num && t <= 2 && i + b == 2 * e + t
    && Weight(s[i..num]) + Weight(s[b..e]) + freq == total < 0x40_0000
    && Rising(Parents(s, b), e)
    && forall j :: 0 <= j < b - t ==> Parents(s, b)[j] < e
  }

  /** Giving the next leaf the parent `e`. */
  lemma TakeLeaf(s: seq<nat>, num: nat, i: nat, b: nat, e: nat, t: nat, freq: nat, total: nat)
    requires Merging(s, num, i, b, e, t, freq, total) && t < 2 && i < num
    ensures Merging(s[i := Pack(Lo(s[i]), e)], num, i + 1, b, e, t + 1, freq + Hi(s[i]), total)
  {
    hide Rising, Hi, Lo, Pack;
    var s' := s[i := Pack(Lo(s[i]), e)];
    WeightHead(s[i..num]);
    assert s[i..num][1..] == s'[i + 1..num];
    assert s'[b..e] == s[b..e];
    assert Parents(s', b) == Parents(s, b);
  }

  /** Giving the next internal node the parent `e`. */
  lemma TakeNode(s: seq<nat>, num: nat, i: nat, b: nat, e: nat, t: nat, freq: nat, total: nat)
    requires Merging(s, num, i, b, e, t, freq, total) && t < 2 && b < e
    ensures Merging(s[b := Pack(Lo(s[b]), e)], num, i, b + 1, e, t + 1, freq + Hi(s[b]), total)
  {
    Unpacks(Lo(s[b]), e);
    hide Hi, Lo, Pack;
    var s' := s[b := Pack(Lo(s[b]), e)];
    WeightHead(s[b..e]);
    assert s[b..e][1..] == s'[b + 1..e];
    assert s'[i..num] == s[i..num];
    assert Parents(s', b + 1) == Parents(s, b) + [e];
  }

  /** Making the internal node `e`. */
  lemma MakeNode(s: seq<nat>, num: nat, i: nat, b: nat, e: nat, freq: nat, total: nat)
    requires Merging(s, num, i, b, e, 2, freq, total) && e + 1 < num
    ensures Merging(s[e := Pack(Lo(s[e]), freq)], num, i, b, e + 1, 0, 0, total)
  {
    Unpacks(Lo(s[e]), freq);
    hide Hi, Lo, Pack;
    var s' := s[e := Pack(Lo(s[e]), freq)];
    WeightPush(s[b..e], s'[e]);
    assert s'[b..e + 1] == s[b..e] + [s'[e]];
    assert s'[i..num] == s[i..num];
    assert Parents(s', b) == Parents(s, b);
  }

  // ----- the lightest first ------------------------------------------------------------

  function Fib(n: nat): nat {
    if n < 2 then n else Fib(n - 1) + Fib(n - 2)
  }

  lemma {:induction false} FibMonotone(m: nat, n: nat)
    requires m <= n
    ensures Fib(m) <= Fib(n)
  {
    if m < n {
      FibMonotone(m, n - 1);
      assert n == 1 || Fib(n) == Fib(n - 1) + Fib(n - 2);
    }
  }

  /** The next to be taken is the leaf at `i` rather than the internal node at `b`. */
  predicate LeafFirst(s: seq<nat>, num: nat, i: nat, b: nat, e: nat)
    requires i <= num <= |s| && b < |s|
  {
    i != num && (b == e || Hi(s[i]) <= Hi(s[b]))
  }

  /**
   * What is taken gets heavier and heavier. Node `j` weighs `w[j]` and stands `h[j]` levels above its
   * deepest leaf; `last` was taken last. The node being made has children up to height `top`.
   */
  ghost predicate Greedy(s: seq<nat>, num: nat, i: nat, b: nat, e: nat, t: nat, freq: nat, w: seq<nat>, h: seq<nat>, top: nat, last: nat) {
    && i + b == 2 * e + t && i <= num <= |s| && b <= e < |s| && |w| == |h| == e && t <= 2
    && (forall j :: b <= j < e ==> Hi(s[j]) == w[j])
    && (forall j :: 0 <= j < b ==> Climbing(Hi(s[j]), h, top, h[j]))
    && (forall j :: i <= j < num ==> Hi(s[j]) >= Max(1, last))
    && (forall j, k :: i <= j < k < num ==> Hi(s[j]) <= Hi(s[k]))
    && (forall j :: b <= j < e ==> w[j] >= last)
    && (forall j, k :: 0 <= j < k < e ==> w[j] <= w[k])
    && (forall j :: 0 <= j < e ==> NodeOk(w[j], h[j], last))
    && TakenOk(t, freq, top, last, w)
  }

  /** A node of height `h` has a parent that is higher, or its parent is being made. */
  ghost predicate Climbing(parent: nat, hs: seq<nat>, top: nat, h: nat) {
    parent <= |hs| && (if parent < |hs| then hs[parent] > h else top >= h)
  }

  ghost predicate NodeOk(w: nat, h: nat, last: nat) {
    1 <= h && 1 <= w <= 2 * last && w >= Fib(h + 2) && last >= Fib(h + 1)
  }

  /** What has been taken for the node being made. */
  ghost predicate TakenOk(t: nat, freq: nat, top: nat, last: nat, w: seq<nat>) {
    && (t == 0 ==> freq == 0 && top == 0)
    && (t == 1 ==> freq == last >= Max(1, Fib(top + 2)))
    && (t == 2 ==> Max(1, last) <= freq <= 2 * last && freq >= Fib(top + 3) && last >= Fib(top + 2)
                   && forall j :: 0 <= j < |w| ==> w[j] <= freq)
  }

  /** Taking something of weight `v` and height `hv`. */
  lemma TakenMore(t: nat, freq: nat, top: nat, last: nat, w: seq<nat>, h: seq<nat>, v: nat, hv: nat)
    requires t < 2 && TakenOk(t, freq, top, last, w) && |h| == |w| && v >= Max(1, last) && v >= Fib(hv + 2)
    requires forall j :: 0 <= j < |w| ==> NodeOk(w[j], h[j], last)
    requires hv > 0 ==> t == 0 || last >= Fib(hv + 1)
    ensures TakenOk(t + 1, freq + v, Max(top, hv), v, w)
    ensures forall j :: 0 <= j < |w| ==> NodeOk(w[j], h[j], v)
  {
    hide Fib;
    if t == 1 {
      var m := Max(top, hv);
      assert Fib(m + 3) == Fib(m + 2) + Fib(m + 1) by { FibNext(m); }
      FibMonotone(m + 1, m + 2);
      FibSmall();
    }
  }

  lemma FibNext(m: nat)
    ensures Fib(m + 3) == Fib(m + 2) + Fib(m + 1)
  {
  }

  lemma FibSmall()
    ensures Fib(0) == 0 && Fib(1) == Fib(2) == 1 && Fib(3) == 2
  {
  }

  lemma GreedyLeaf(s: seq<nat>, num: nat, i: nat, b: nat, e: nat, t: nat, freq: nat, w: seq<nat>, h: seq<nat>, top: nat, last: nat)
    requires Greedy(s, num, i, b, e, t, freq, w, h, top, last) && t < 2 && LeafFirst(s, num, i, b, e)
    ensures Greedy(s[i := Pack(Lo(s[i]), e)], num, i + 1, b, e, t + 1, freq + Hi(s[i]), w, h, top, Hi(s[i]))
  {
    Unpacks(Lo(s[i]), e);
    FibSmall();
    TakenMore(t, freq, top, last, w, h, Hi(s[i]), 0);
    hide Hi, Lo, Pack, Fib, TakenOk, NodeOk, Climbing;
    if b < e {
      assert Hi(s[b]) == w[b];
    }
  }

  lemma GreedyNode(s: seq<nat>, num: nat, i: nat, b: nat, e: nat, t: nat, freq: nat, w: seq<nat>, h: seq<nat>, top: nat, last: nat)
    requires Greedy(s, num, i, b, e, t, freq, w, h, top, last) && t < 2 && !LeafFirst(s, num, i, b, e) && b < e
    ensures Greedy(s[b := Pack(Lo(s[b]), e)], num, i, b + 1, e, t + 1, freq + Hi(s[b]), w, h, Max(top, h[b]), Hi(s[b]))
  {
    Unpacks(Lo(s[b]), e);
    var s' := s[b := Pack(Lo(s[b]), e)];
    assert Hi(s[b]) == w[b] && NodeOk(w[b], h[b], last);
    TakenMore(t, freq, top, last, w, h, w[b], h[b]);
    forall j | 0 <= j < b + 1
      ensures Climbing(Hi(s'[j]), h, Max(top, h[b]), h[j])
    {
      if j < b { assert Climbing(Hi(s[j]), h, top, h[j]); }
    }
    hide Hi, Lo, Pack, Fib, TakenOk, NodeOk, Climbing;
  }

  lemma GreedyMake(s: seq<nat>, num: nat, i: nat, b: nat, e: nat, freq: nat, w: seq<nat>, h: seq<nat>, top: nat, last: nat)
    requires Greedy(s, num, i, b, e, 2, freq, w, h, top, last) && e + 1 < |s|
    ensures Greedy(s[e := Pack(Lo(s[e]), freq)], num, i, b, e + 1, 0, 0, w + [freq], h + [top + 1], 0, last)
  {
    Unpacks(Lo(s[e]), freq);
    var s', h' := s[e := Pack(Lo(s[e]), freq)], h + [top + 1];
    forall j | 0 <= j < b
      ensures Climbing(Hi(s'[j]), h', 0, h'[j])
    {
      assert Climbing(Hi(s[j]), h, top, h[j]);
    }
    hide Hi, Lo, Pack, Fib, Climbing;
    var w' := w + [freq];
    assert TakenOk(0, 0, 0, last, w');
    assert NodeOk(freq, top + 1, last);
    assert forall j :: b <= j < e + 1 ==> Hi(s'[j]) == w'[j];
    assert forall j :: i <= j < num ==> s'[j] == s[j];
    assert forall j, k :: 0 <= j < k < e + 1 ==> w'[j] <= w'[k];
    assert forall j :: 0 <= j < e + 1 ==> NodeOk(w'[j], h'[j], last);
  }

  // ----- steep frequencies -------------------------------------------------------------

  /** Sum of frequencies. */
  function Sum(l: seq<nat>): nat {
    if l == [] then 0 else Sum(l[..|l| - 1]) + l[|l| - 1]
  }

  /** Every frequency from the fourth on exceeds the sum of all but one of those before it. */
  predicate Steep(l: seq<nat>) {
    forall k :: 3 <= k < |l| ==> l[k] > Sum(l[..k - 1])
  }

  /** The upper parts of the first `n` slots. */
  function Weights(s: seq<nat>, n: nat): (l: seq<nat>)
    requires n <= |s|
    ensures |l| == n && forall j :: 0 <= j < n ==> l[j] == Hi(s[j])
  {
    seq(n, j requires 0 <= j < n => Hi(s[j]))
  }

  /** Then every node has the last one and the next leaf for children. */
  ghost predicate Chain(s: seq<nat>, num: nat, i: nat, b: nat, e: nat, t: nat, freq: nat, w: seq<nat>, l: seq<nat>) {
    && i <= num == |l| <= |s| && b <= e < num && |w| == e && t <= 2
    && (forall j :: i <= j < num ==> Hi(s[j]) == l[j])
    && (forall j :: 0 <= j < b ==> Hi(s[j]) == j + 1)
    && (forall j :: b <= j < e ==> Hi(s[j]) == w[j])
    && (if e == 0 then b == 0 && i == t && freq == Sum(l[..t])
        else w[e - 1] == Sum(l[..e + 1]) && ChainTaken(i, b, e, t, freq, w, l))
  }

  predicate ChainTaken(i: nat, b: nat, e: nat, t: nat, freq: nat, w: seq<nat>, l: seq<nat>)
    requires 0 < e == |w| && e < |l|
  {
    match t
    case 0 => i == e + 1 && b == e - 1 && freq == 0
    case 1 => (i == e + 2 && b == e - 1 && e + 1 < |l| && freq == l[e + 1]) || (i == e + 1 && b == e && freq == w[e - 1])
    case _ => i == e + 2 && b == e && e + 1 < |l| && freq == l[e + 1] + w[e - 1]
  }

  lemma SumNext(l: seq<nat>, n: nat)
    requires n < |l|
    ensures Sum(l[..n + 1]) == Sum(l[..n]) + l[n] && Sum(l[..0]) == 0
  {
    assert l[..n + 1][..n] == l[..n];
  }

  lemma SteepAt(l: seq<nat>, k: nat, n: nat)
    requires Steep(l) && 3 <= k < |l| && n == k - 1
    ensures l[k] > Sum(l[..n])
  {
    assert l[..n] == l[..k - 1];
  }

  lemma ChainLeaf(s: seq<nat>, num: nat, i: nat, b: nat, e: nat, t: nat, freq: nat, w: seq<nat>, l: seq<nat>)
    requires Chain(s, num, i, b, e, t, freq, w, l) && Steep(l) && t < 2 && e + 1 < num && e + t <= i && LeafFirst(s, num, i, b, e)
    ensures Chain(s[i := Pack(Lo(s[i]), e)], num, i + 1, b, e, t + 1, freq + Hi(s[i]), w, l)
  {
    Unpacks(Lo(s[i]), e);
    hide Hi, Lo, Pack, Sum, Steep, ChainTaken;
    SumNext(l, i);
    if e > 0 {
      TakenLeaf(i, b, e, t, freq, w, l);
    }
  }

  lemma TakenLeaf(i: nat, b: nat, e: nat, t: nat, freq: nat, w: seq<nat>, l: seq<nat>)
    requires Steep(l) && 0 < e == |w| && e + 1 < |l| && t < 2 && i < |l| && ChainTaken(i, b, e, t, freq, w, l)
    requires w[e - 1] == Sum(l[..e + 1]) && b <= e && (b == e || l[i] <= w[b])
    ensures ChainTaken(i + 1, b, e, t + 1, freq + l[i], w, l)
  {
    if e + 2 < |l| { SteepAt(l, e + 2, e + 1); }
    hide Sum, Steep;
  }

  lemma ChainNode(s: seq<nat>, num: nat, i: nat, b: nat, e: nat, t: nat, freq: nat, w: seq<nat>, l: seq<nat>)
    requires Chain(s, num, i, b, e, t, freq, w, l) && t < 2 && e + 1 < num && e + t <= i && !LeafFirst(s, num, i, b, e) && b < e
    ensures Chain(s[b := Pack(Lo(s[b]), e)], num, i, b + 1, e, t + 1, freq + Hi(s[b]), w, l)
  {
    Unpacks(Lo(s[b]), e);
    hide Hi, Lo, Pack;
  }

  lemma ChainMake(s: seq<nat>, num: nat, i: nat, b: nat, e: nat, freq: nat, w: seq<nat>, l: seq<nat>)
    requires Chain(s, num, i, b, e, 2, freq, w, l) && e + 1 < num
    ensures Chain(s[e := Pack(Lo(s[e]), freq)], num, i, b, e + 1, 0, 0, w + [freq], l)
  {
    Unpacks(Lo(s[e]), freq);
    hide Hi, Lo, Pack;
    SumNext(l, e + 1);
    SumNext(l, e);
    SumNext(l, 0);
  }

  // ----- the two lightest are joined ---------------------------------------------------

  /** Two ascending lists as one; where they tie, the first goes first. */
  function Rest(a: seq<nat>, b: seq<nat>): (r: seq<nat>)
    ensures |r| == |a| + |b|
    decreases |a| + |b|
  {
    if a == [] then b else if b == [] then a
    else if a[0] <= b[0] then [a[0]] + Rest(a[1..], b) else [b[0]] + Rest(a, b[1..])
  }

  /** Something at least as heavy as all of `b` goes where `Insert` puts it. */
  lemma {:induction false} RestInsert(a: seq<nat>, b: seq<nat>, f: nat)
    requires Ascending(a) && Ascending(b) && forall j :: 0 <= j < |b| ==> b[j] <= f
    ensures Rest(a, b + [f]) == Insert(Rest(a, b), f)
    decreases |a| + |b|
  {
    var c := b + [f];
    if b == [] {
      assert c == [f];
      if a != [] {
        if a[0] <= f {
          RestInsert(a[1..], b, f);
        } else {
          assert c[1..] == [];
        }
      }
    } else {
      assert c[0] == b[0] && c[1..] == b[1..] + [f];
      if a == [] {
        RestAppend(b, f);
      } else if a[0] <= b[0] {
        RestInsert(a[1..], b, f);
      } else {
        RestInsert(a, b[1..], f);
      }
    }
  }

  lemma {:induction false} RestAppend(b: seq<nat>, f: nat)
    requires forall j :: 0 <= j < |b| ==> b[j] <= f
    ensures Insert(b, f) == b + [f]
  {
    if b != [] {
      RestAppend(b[1..], f);
    }
  }

  /**
   * Node `x` has two children: the leaves from `ic[x]` to `ic[x + 1]` and the nodes from `bc[x]` to
   * `bc[x + 1]`, and weighs as much as they.
   */
  ghost predicate NodeOf(l: seq<nat>, w: seq<nat>, ic: seq<nat>, bc: seq<nat>, x: nat) {
    && x < |w| && x + 1 < |ic| && x + 1 < |bc|
    && ic[x] <= ic[x + 1] <= |l| && bc[x] <= bc[x + 1] <= x
    && (ic[x + 1] - ic[x]) + (bc[x + 1] - bc[x]) == 2
    && w[x] == Sum(l[ic[x]..ic[x + 1]]) + Sum(w[bc[x]..bc[x + 1]])
  }

  ghost predicate NodesOk(l: seq<nat>, w: seq<nat>, ic: seq<nat>, bc: seq<nat>, e: nat) {
    && |w| == e && |ic| == |bc| == e + 1 && ic[0] == bc[0] == 0
    && forall x :: 0 <= x < e ==> NodeOf(l, w, ic, bc, x)
  }

  /** The slots from `lo` to `hi` name `x` as the parent. */
  predicate Name(s: seq<nat>, x: nat, lo: nat, hi: nat) {
    forall j :: lo <= j < hi && j < |s| ==> Hi(s[j]) == x
  }

  /** What the slots hold: weights from `i` and from `b` on, parents before. */
  ghost predicate SlotsOk(s: seq<nat>, num: nat, i: nat, b: nat, e: nat, w: seq<nat>, l: seq<nat>, bc: seq<nat>) {
    && i <= num == |l| <= |s| && b <= e <= i && e < num && |w| == e < |bc| && bc[e] <= b
    && (forall j :: i <= j < num ==> Hi(s[j]) == l[j]) && (forall j :: b <= j < e ==> Hi(s[j]) == w[j])
    && (forall x :: 0 <= x < e ==> Name(s, x, bc[x], bc[x + 1])) && Name(s, e, bc[e], b)
  }

  /** What was taken for node `e` out of `r`, all that was left before it. */
  ghost predicate TakenOut(i: nat, b: nat, e: nat, t: nat, freq: nat, w: seq<nat>, l: seq<nat>, ic: seq<nat>, bc: seq<nat>, r: seq<nat>) {
    && t <= 2 && e < |ic| && e < |bc| && ic[e] <= i <= |l| && bc[e] <= b <= |w| && (i - ic[e]) + (b - bc[e]) == t
    && freq == Sum(l[ic[e]..i]) + Sum(w[bc[e]..b])
    && t <= |r| && r[t..] == Rest(l[i..], w[b..])
    && freq == (if t == 0 then 0 else if t == 1 then r[0] else r[0] + r[1])
  }

  /** The nodes made so far, and the one being made. */
  ghost predicate Joined(s: seq<nat>, num: nat, i: nat, b: nat, e: nat, t: nat, freq: nat, w: seq<nat>, l: seq<nat>,
                         ic: seq<nat>, bc: seq<nat>, r: seq<nat>) {
    && NodesOk(l, w, ic, bc, e) && SlotsOk(s, num, i, b, e, w, l, bc) && TakenOut(i, b, e, t, freq, w, l, ic, bc, r)
    && Sum(w) + Merged(r) == Merged(l)
  }

  lemma SumGrows(l: seq<nat>, a: nat, i: nat)
    requires a <= i < |l|
    ensures Sum(l[a..i + 1]) == Sum(l[a..i]) + l[i]
  {
    assert l[a..i + 1][..i - a] == l[a..i];
  }

  lemma SumPush(l: seq<nat>, v: nat)
    ensures Sum(l + [v]) == Sum(l) + v
  {
    assert (l + [v])[..|l|] == l;
  }

  lemma RestFirst(a: seq<nat>, b: seq<nat>)
    ensures a != [] && (b == [] || a[0] <= b[0]) ==> Rest(a, b)[0] == a[0] && Rest(a, b)[1..] == Rest(a[1..], b)
    ensures b != [] && (a == [] || a[0] > b[0]) ==> Rest(a, b)[0] == b[0] && Rest(a, b)[1..] == Rest(a, b[1..])
  {
    if b == [] && a != [] {
      assert Rest(a[1..], b) == a[1..];
    }
  }

  lemma JoinLeaf(s: seq<nat>, num: nat, i: nat, b: nat, e: nat, t: nat, freq: nat, w: seq<nat>, l: seq<nat>,
                 ic: seq<nat>, bc: seq<nat>, r: seq<nat>)
    requires Joined(s, num, i, b, e, t, freq, w, l, ic, bc, r) && t < 2 && LeafFirst(s, num, i, b, e)
    ensures Joined(s[i := Pack(Lo(s[i]), e)], num, i + 1, b, e, t + 1, freq + Hi(s[i]), w, l, ic, bc, r)
  {
    CutsRise(l, w, ic, bc, e);
    LeafSlots(s, num, i, b, e, w, l, bc);
    hide Hi, Lo, Pack, SlotsOk, Merged, NodesOk;
    LeafTaken(i, b, e, t, freq, w, l, ic, bc, r);
  }

  lemma LeafSlots(s: seq<nat>, num: nat, i: nat, b: nat, e: nat, w: seq<nat>, l: seq<nat>, bc: seq<nat>)
    requires SlotsOk(s, num, i, b, e, w, l, bc) && LeafFirst(s, num, i, b, e) && forall x :: 0 <= x <= e ==> bc[x] <= bc[e]
    ensures SlotsOk(s[i := Pack(Lo(s[i]), e)], num, i + 1, b, e, w, l, bc) && Hi(s[i]) == l[i]
    ensures b == |w| || (b < |w| && l[i] <= w[b])
  {
    hide Hi, Lo, Pack;
  }

  lemma LeafTaken(i: nat, b: nat, e: nat, t: nat, freq: nat, w: seq<nat>, l: seq<nat>, ic: seq<nat>, bc: seq<nat>, r: seq<nat>)
    requires TakenOut(i, b, e, t, freq, w, l, ic, bc, r) && t < 2 && i < |l| && (b == |w| || l[i] <= w[b])
    ensures TakenOut(i + 1, b, e, t + 1, freq + l[i], w, l, ic, bc, r)
  {
    hide Sum, Rest;
    SumGrows(l, ic[e], i);
    RestFirst(l[i..], w[b..]);
    assert l[i..][1..] == l[i + 1..] && r[t..][1..] == r[t + 1..];
  }

  lemma JoinNode(s: seq<nat>, num: nat, i: nat, b: nat, e: nat, t: nat, freq: nat, w: seq<nat>, l: seq<nat>,
                 ic: seq<nat>, bc: seq<nat>, r: seq<nat>)
    requires Joined(s, num, i, b, e, t, freq, w, l, ic, bc, r) && t < 2 && !LeafFirst(s, num, i, b, e) && b < e
    ensures Joined(s[b := Pack(Lo(s[b]), e)], num, i, b + 1, e, t + 1, freq + Hi(s[b]), w, l, ic, bc, r)
  {
    CutsRise(l, w, ic, bc, e);
    NodeSlots(s, num, i, b, e, w, l, bc);
    hide Hi, Lo, Pack, SlotsOk, Merged, NodesOk;
    NodeTaken(i, b, e, t, freq, w, l, ic, bc, r);
  }

  lemma NodeSlots(s: seq<nat>, num: nat, i: nat, b: nat, e: nat, w: seq<nat>, l: seq<nat>, bc: seq<nat>)
    requires SlotsOk(s, num, i, b, e, w, l, bc) && !LeafFirst(s, num, i, b, e) && b < e
    requires forall x :: 0 <= x <= e ==> bc[x] <= bc[e]
    ensures SlotsOk(s[b := Pack(Lo(s[b]), e)], num, i, b + 1, e, w, l, bc) && Hi(s[b]) == w[b]
    ensures i == |l| || (i < |l| && l[i] > w[b])
  {
    Unpacks(Lo(s[b]), e);
    hide Hi, Lo, Pack;
  }

  lemma NodeTaken(i: nat, b: nat, e: nat, t: nat, freq: nat, w: seq<nat>, l: seq<nat>, ic: seq<nat>, bc: seq<nat>, r: seq<nat>)
    requires TakenOut(i, b, e, t, freq, w, l, ic, bc, r) && t < 2 && b < |w| && (i == |l| || l[i] > w[b])
    ensures TakenOut(i, b + 1, e, t + 1, freq + w[b], w, l, ic, bc, r)
  {
    hide Sum, Rest;
    SumGrows(w, bc[e], b);
    RestFirst(l[i..], w[b..]);
    assert w[b..][1..] == w[b + 1..] && r[t..][1..] == r[t + 1..];
  }

  /** The children of earlier nodes come first. */
  lemma {:induction false} CutsRise(l: seq<nat>, w: seq<nat>, ic: seq<nat>, bc: seq<nat>, e: nat)
    requires e < |ic| && e < |bc| && forall x :: 0 <= x < e ==> NodeOf(l, w, ic, bc, x)
    ensures forall x :: 0 <= x <= e ==> ic[x] <= ic[e] && bc[x] <= bc[e]
  {
    if e > 0 {
      CutsRise(l, w, ic, bc, e - 1);
      assert NodeOf(l, w, ic, bc, e - 1);
    }
  }

  lemma JoinMake(s: seq<nat>, num: nat, i: nat, b: nat, e: nat, freq: nat, w: seq<nat>, l: seq<nat>,
                 ic: seq<nat>, bc: seq<nat>, r: seq<nat>)
    requires Joined(s, num, i, b, e, 2, freq, w, l, ic, bc, r) && e + 1 < num && e < i
    requires Ascending(l) && Ascending(w) && forall j :: 0 <= j < |w| ==> w[j] <= freq
    ensures i <= |l| && b <= |w|
    ensures Joined(s[e := Pack(Lo(s[e]), freq)], num, i, b, e + 1, 0, 0, w + [freq], l, ic + [i], bc + [b],
                   Rest(l[i..], (w + [freq])[b..]))
  {
    hide Hi, Lo, Pack, Sum, Rest, Merged, NodeOf, Ascending, SlotsOk;
    NodesMore(l, w, ic, bc, e, i, b, freq);
    JoinTwo(l, w, i, b, freq, r);
    SlotsFit(s, num, i, b, e, w, l, bc);
    MadeSlots(s, num, i, b, e, w, l, ic, bc, freq);
    SumPush(w, freq);
    NothingTaken(i, b, e + 1, w + [freq], l, ic + [i], bc + [b]);
    hide NodesOk, TakenOut;
  }

  lemma SlotsFit(s: seq<nat>, num: nat, i: nat, b: nat, e: nat, w: seq<nat>, l: seq<nat>, bc: seq<nat>)
    requires SlotsOk(s, num, i, b, e, w, l, bc)
    ensures b <= e == |w| && e < num == |l| <= |s|
  {
  }

  lemma NothingTaken(i: nat, b: nat, e: nat, w: seq<nat>, l: seq<nat>, ic: seq<nat>, bc: seq<nat>)
    requires e < |ic| && e < |bc| && ic[e] == i <= |l| && bc[e] == b <= |w|
    ensures TakenOut(i, b, e, 0, 0, w, l, ic, bc, Rest(l[i..], w[b..]))
  {
    EmptySum(l, i);
    EmptySum(w, b);
    hide Rest, Sum;
  }

  lemma MadeSlots(s: seq<nat>, num: nat, i: nat, b: nat, e: nat, w: seq<nat>, l: seq<nat>, ic: seq<nat>, bc: seq<nat>, freq: nat)
    requires SlotsOk(s, num, i, b, e, w, l, bc) && e < i && e + 1 < num && NodesOk(l, w, ic, bc, e)
    ensures SlotsOk(s[e := Pack(Lo(s[e]), freq)], num, i, b, e + 1, w + [freq], l, bc + [b])
  {
    Unpacks(Lo(s[e]), freq);
    CutsRise(l, w, ic, bc, e);
    hide Hi, Lo, Pack, NodeOf;
  }

  /** What is left once the two lightest have become one. */
  lemma JoinTwo(l: seq<nat>, w: seq<nat>, i: nat, b: nat, freq: nat, r: seq<nat>)
    requires i <= |l| && b <= |w| && |r| >= 2 && r[2..] == Rest(l[i..], w[b..]) && freq == r[0] + r[1]
    requires Ascending(l) && Ascending(w) && forall j :: 0 <= j < |w| ==> w[j] <= freq
    ensures Merged(r) == freq + Merged(Rest(l[i..], (w + [freq])[b..]))
  {
    hide Merged, Rest;
    AscendingFrom(l, i);
    AscendingFrom(w, b);
    hide Ascending;
    assert forall j :: 0 <= j < |w[b..]| ==> w[b..][j] == w[b + j];
    RestJoin(l[i..], w[b..], freq, r);
    assert (w + [freq])[b..] == w[b..] + [freq];
  }

  lemma AscendingFrom(l: seq<nat>, i: nat)
    requires i <= |l| && Ascending(l)
    ensures Ascending(l[i..])
  {
  }

  lemma RestJoin(a: seq<nat>, c: seq<nat>, freq: nat, r: seq<nat>)
    requires |r| >= 2 && r[2..] == Rest(a, c) && freq == r[0] + r[1]
    requires Ascending(a) && Ascending(c) && forall j :: 0 <= j < |c| ==> c[j] <= freq
    ensures Merged(r) == freq + Merged(Rest(a, c + [freq]))
  {
    hide Merged, Rest, Insert, Ascending;
    RestInsert(a, c, freq);
    MergedAfter(r, Rest(a, c), freq);
  }

  lemma MergedAfter(r: seq<nat>, rest: seq<nat>, freq: nat)
    requires |r| >= 2 && r[2..] == rest && freq == r[0] + r[1]
    ensures Merged(r) == freq + Merged(Insert(rest, freq))
  {
    hide Insert;
  }

  lemma NodesMore(l: seq<nat>, w: seq<nat>, ic: seq<nat>, bc: seq<nat>, e: nat, i: nat, b: nat, freq: nat)
    requires NodesOk(l, w, ic, bc, e)
    requires ic[e] <= i <= |l| && bc[e] <= b <= e && (i - ic[e]) + (b - bc[e]) == 2
    requires freq == Sum(l[ic[e]..i]) + Sum(w[bc[e]..b])
    ensures NodesOk(l, w + [freq], ic + [i], bc + [b], e + 1)
  {
    hide Sum;
    var w', ic', bc' := w + [freq], ic + [i], bc + [b];
    forall x | 0 <= x < e + 1
      ensures NodeOf(l, w', ic', bc', x)
    {
      if x < e {
        assert NodeOf(l, w, ic, bc, x);
        assert w'[bc[x]..bc[x + 1]] == w[bc[x]..bc[x + 1]];
      } else {
        assert w'[bc[e]..b] == w[bc[e]..b];
      }
    }
  }

  lemma EmptySum(l: seq<nat>, i: nat)
    requires i <= |l|
    ensures Sum(l[i..i]) == 0
  {
    assert l[i..i] == [];
  }

  // ----- the merge ---------------------------------------------------------------------

  /** All that is known during the merge; `l` are the frequencies of the leaves. */
  ghost predicate Building(s: seq<nat>, num: nat, i: nat, b: nat, e: nat, t: nat, freq: nat, total: nat,
                           w: seq<nat>, h: seq<nat>, top: nat, last: nat, l: seq<nat>) {
    && Merging(s, num, i, b, e, t, freq, total) && Greedy(s, num, i, b, e, t, freq, w, h, top, last)
    && (Steep(l) ==> Chain(s, num, i, b, e, t, freq, w, l))
  }

  lemma TakeKeeps(s: seq<nat>, num: nat, i: nat, b: nat, e: nat, t: nat, freq: nat, total: nat,
                  w: seq<nat>, h: seq<nat>, top: nat, last: nat, l: seq<nat>) returns (top': nat, last': nat)
    requires Building(s, num, i, b, e, t, freq, total, w, h, top, last, l) && t < 2 && e + 1 < num
    ensures LeafFirst(s, num, i, b, e) ==>
              Building(s[i := Pack(Lo(s[i]), e)], num, i + 1, b, e, t + 1, freq + Hi(s[i]), total, w, h, top', last', l)
    ensures !LeafFirst(s, num, i, b, e) ==>
              b < e && Building(s[b := Pack(Lo(s[b]), e)], num, i, b + 1, e, t + 1, freq + Hi(s[b]), total, w, h, top', last', l)
  {
    hide Weight, Parents, Rising, Hi, Lo, Pack, NodeOk, TakenOk, Climbing, Steep, Chain;
    if LeafFirst(s, num, i, b, e) {
      top', last' := top, Hi(s[i]);
      TakeLeaf(s, num, i, b, e, t, freq, total);
      GreedyLeaf(s, num, i, b, e, t, freq, w, h, top, last);
      if Steep(l) { ChainLeaf(s, num, i, b, e, t, freq, w, l); }
    } else {
      top', last' := Max(top, h[b]), Hi(s[b]);
      TakeNode(s, num, i, b, e, t, freq, total);
      GreedyNode(s, num, i, b, e, t, freq, w, h, top, last);
      if Steep(l) { ChainNode(s, num, i, b, e, t, freq, w, l); }
    }
  }

  lemma MakeKeeps(s: seq<nat>, num: nat, i: nat, b: nat, e: nat, freq: nat, total: nat,
                  w: seq<nat>, h: seq<nat>, top: nat, last: nat, l: seq<nat>)
    requires Building(s, num, i, b, e, 2, freq, total, w, h, top, last, l) && e + 1 < num
    ensures Building(s[e := Pack(Lo(s[e]), freq)], num, i, b, e + 1, 0, 0, total, w + [freq], h + [top + 1], 0, last, l)
  {
    hide Weight, Parents, Rising, Hi, Lo, Pack, Greedy, Chain, Steep;
    MakeNode(s, num, i, b, e, freq, total);
    assert e + 1 < |s| by { MergingFits(s, num, i, b, e, 2, freq, total); }
    GreedyMake(s, num, i, b, e, freq, w, h, top, last);
    if Steep(l) { ChainMake(s, num, i, b, e, freq, w, l); }
  }

  lemma MergingFits(s: seq<nat>, num: nat, i: nat, b: nat, e: nat, t: nat, freq: nat, total: nat)
    requires Merging(s, num, i, b, e, t, freq, total)
    ensures num <= |s| && b <= e < num && i <= num && e + t <= i
  {
  }

  /** Takes the lighter of the next leaf and the next internal node and gives it the parent `e`. */
  method Take(p: array<nat>, num: nat, i: nat, b: nat, e: nat, freq: nat, ghost t: nat, ghost total: nat,
              ghost w: seq<nat>, ghost h: seq<nat>, ghost top: nat, ghost last: nat, ghost l: seq<nat>,
              ghost ic: seq<nat>, ghost bc: seq<nat>, ghost r: seq<nat>)
    returns (i': nat, b': nat, freq': nat, ghost top': nat, ghost last': nat)
    requires Building(p[..], num, i, b, e, t, freq, total, w, h, top, last, l) && t < 2 && e + 1 < num
    requires Joined(p[..], num, i, b, e, t, freq, w, l, ic, bc, r)
    modifies p
    ensures Building(p[..], num, i', b', e, t + 1, freq', total, w, h, top', last', l)
    ensures Joined(p[..], num, i', b', e, t + 1, freq', w, l, ic, bc, r)
    ensures forall j :: 0 <= j < p.Length ==> Lo(p[j]) == old(Lo(p[j]))
  {
    hide Weight, Parents, Rising, Merging, Greedy, Chain, Steep, Building, Joined, LeafFirst;
    ghost var s := p[..];
    assert num <= p.Length && b <= e < num && i <= num by { BuildingFits(s, num, i, b, e, t, freq, total, w, h, top, last, l); }
    top', last' := TakeKeeps(s, num, i, b, e, t, freq, total, w, h, top, last, l);
    if LeafFirst(s, num, i, b, e) {
      JoinLeaf(s, num, i, b, e, t, freq, w, l, ic, bc, r);
    } else {
      JoinNode(s, num, i, b, e, t, freq, w, l, ic, bc, r);
    }
    FirstIs(s, num, i, b, e);
    var n;
    if i != num && (b == e || Hi(p[i]) <= Hi(p[b])) {
      n, i', b' := i, i + 1, b;
    } else {
      n, i', b' := b, i, b + 1;
    }
    freq' := freq + Hi(p[n]);
    Unpacks(Lo(p[n]), e);
    p[n] := Pack(Lo(p[n]), e);
    assert p[..] == s[n := Pack(Lo(s[n]), e)];
  }

  lemma FirstIs(s: seq<nat>, num: nat, i: nat, b: nat, e: nat)
    requires i <= num <= |s| && b <= e < |s|
    ensures LeafFirst(s, num, i, b, e) <==> i != num && (b == e || Hi(s[i]) <= Hi(s[b]))
  {
  }

  lemma BuildingFits(s: seq<nat>, num: nat, i: nat, b: nat, e: nat, t: nat, freq: nat, total: nat,
                     w: seq<nat>, h: seq<nat>, top: nat, last: nat, l: seq<nat>)
    requires Building(s, num, i, b, e, t, freq, total, w, h, top, last, l)
    ensures num <= |s| && b <= e < num && i <= num && |w| == |h| == e
    ensures Merging(s, num, i, b, e, t, freq, total) && Greedy(s, num, i, b, e, t, freq, w, h, top, last)
    ensures Steep(l) ==> Chain(s, num, i, b, e, t, freq, w, l)
  {
  }

  /** Leaves that are in use and sorted by frequency. */
  predicate Leaves(s: seq<nat>, num: nat)
    requires num <= |s|
  {
    && (forall j :: 0 <= j < num ==> Hi(s[j]) >= 1)
    && (forall j, k :: 0 <= j < k < num ==> Hi(s[j]) <= Hi(s[k]))
  }

  lemma StartBuilding(s: seq<nat>, num: nat)
    requires 2 <= num <= |s| && num <= RADIX && Weight(s[..num]) < 0x40_0000 && Leaves(s, num)
    ensures Building(s, num, 0, 0, 0, 0, 0, Weight(s[..num]), [], [], 0, 0, Weights(s, num))
  {
    assert s[0..num] == s[..num] && s[0..0] == [];
    EmptyWeight();
    NoParents(Parents(s, 0));
    var l := Weights(s, num);
    assert l[..0] == [];
  }

  lemma StartJoined(s: seq<nat>, num: nat)
    requires 2 <= num <= |s| && Leaves(s, num)
    ensures var l := Weights(s, num); Ascending(l) && Joined(s, num, 0, 0, 0, 0, 0, [], l, [0], [0], l)
  {
    var l := Weights(s, num);
    hide Hi, Merged;
    assert l[0..] == l && l[0..0] == [];
  }

  /** The node being made is the heaviest so far. */
  lemma Heavier(s: seq<nat>, num: nat, i: nat, b: nat, e: nat, freq: nat, total: nat,
                w: seq<nat>, h: seq<nat>, top: nat, last: nat, l: seq<nat>)
    requires Building(s, num, i, b, e, 2, freq, total, w, h, top, last, l)
    ensures Ascending(w) && (forall j :: 0 <= j < |w| ==> w[j] <= freq) && e < i
  {
    hide Hi, Fib, Chain, Steep, Rising, Weight, Climbing, NodeOk;
    MergingFits(s, num, i, b, e, 2, freq, total);
  }

  predicate Children(par: seq<nat>, x: nat, lo: nat, hi: nat) {
    hi <= |par| && forall j :: lo <= j < hi ==> par[j] == x
  }

  /**
   * The tree over leaves of the weights `l`: where the children of each node begin among the leaves and
   * among the nodes, and that its nodes weigh as much as merging the two lightest again and again makes them.
   */
  ghost predicate TreeOf(l: seq<nat>, par: seq<nat>, w: seq<nat>, ic: seq<nat>, bc: seq<nat>) {
    && 2 <= |l| && |par| + 2 == |l| && NodesOk(l, w, ic, bc, |l| - 1)
    && (forall x :: 0 <= x < |l| - 1 ==> Children(par, x, bc[x], bc[x + 1]))
    && ic[|l| - 1] == |l| && bc[|l| - 1] == |l| - 2 && Sum(w) == Merged(l)
  }

  lemma JoinedDone(s: seq<nat>, num: nat, i: nat, b: nat, e: nat, w: seq<nat>, l: seq<nat>,
                   ic: seq<nat>, bc: seq<nat>, r: seq<nat>)
    requires Joined(s, num, i, b, e, 0, 0, w, l, ic, bc, r) && 2 <= num == e + 1 && i == num && b == num - 2
    ensures num - 2 <= |s| && TreeOf(l, Parents(s, num - 2), w, ic, bc)
  {
    hide Hi, NodeOf, Rest;
    CutsRise(l, w, ic, bc, e);
    assert r[0..] == r;
    assert l[i..] == [] && |w[b..]| == 1;
  }

  /** The merge loop. No 32-bit slot overflows, since the frequencies sum to less than `2^22`. */
  method Merge(p: array<nat>, num: nat) returns (ghost w: seq<nat>, ghost ic: seq<nat>, ghost bc: seq<nat>)
    requires 2 <= num <= p.Length && num <= RADIX && Weight(p[..num]) < 0x40_0000 && Leaves(p[..], num)
    modifies p
    ensures Tree(Parents(p[..], num - 2))
    ensures Fib(Depth(Parents(p[..], num - 2), 0) + 3) <= old(Weight(p[..num]))
    ensures old(Steep(Weights(p[..], num))) ==> Depth(Parents(p[..], num - 2), 0) == num - 2
    ensures Hi(p[num - 2]) == old(Weight(p[..num]))
    ensures TreeOf(old(Weights(p[..], num)), Parents(p[..], num - 2), w, ic, bc)
    ensures forall j :: 0 <= j < p.Length ==> Lo(p[j]) == old(Lo(p[j]))
  {
    hide Weight, Rising, Merging, Greedy, Chain, Steep, Building, Leaves, Fib, Depth, Tree, Joined, TreeOf, Ascending, Rest;
    assert p[..][..num] == p[..num];
    ghost var total, l := Weight(p[..num]), Weights(p[..], num);
    ghost var h: seq<nat>, top: nat, last: nat, r: seq<nat> := [], 0, 0, l;
    w, ic, bc := [], [0], [0];
    var i, b, e := 0, 0, 0;
    StartBuilding(p[..], num);
    StartJoined(p[..], num);
    while num - e > 1
      invariant e < num && Building(p[..], num, i, b, e, 0, 0, total, w, h, top, last, l)
      invariant Joined(p[..], num, i, b, e, 0, 0, w, l, ic, bc, r)
      invariant forall j :: 0 <= j < p.Length ==> Lo(p[j]) == old(Lo(p[j]))
      invariant e == 0 ==> top == 0
    {
      var freq := 0;
      i, b, freq, top, last := Take(p, num, i, b, e, freq, 0, total, w, h, top, last, l, ic, bc, r);
      i, b, freq, top, last := Take(p, num, i, b, e, freq, 1, total, w, h, top, last, l, ic, bc, r);
      ghost var s := p[..];
      MakeKeeps(s, num, i, b, e, freq, total, w, h, top, last, l);
      Heavier(s, num, i, b, e, freq, total, w, h, top, last, l);
      JoinMake(s, num, i, b, e, freq, w, l, ic, bc, r);
      r, ic, bc := Rest(l[i..], (w + [freq])[b..]), ic + [i], bc + [b];
      Unpacks(Lo(p[e]), freq);
      p[e] := Pack(Lo(p[e]), freq);
      assert p[..] == s[e := Pack(Lo(s[e]), freq)];
      w, h, top := w + [freq], h + [top + 1], 0;
      e := e + 1;
    }
    BuildingDone(p[..], num, i, b, e, total, w, h, top, last, l);
    JoinedDone(p[..], num, i, b, e, w, l, ic, bc, r);
  }

  /** In the end all leaves and all internal nodes but the root have a parent. */
  lemma MergeDone(par: seq<nat>, num: nat, i: nat, e: nat)
    requires 2 <= num == e + 1 && i <= num && i + |par| == 2 * e && Rising(par, e)
    requires forall j :: 0 <= j < |par| ==> par[j] < e
    ensures |par| == num - 2 && Tree(par)
  {
    if |par| > 0 {
      assert |par| - 1 < par[|par| - 1] < e;
    }
  }

  /** The root weighs all, and no node lies deeper below it than the root is high. */
  lemma BuildingDone(s: seq<nat>, num: nat, i: nat, b: nat, e: nat, total: nat,
                     w: seq<nat>, h: seq<nat>, top: nat, last: nat, l: seq<nat>)
    requires Building(s, num, i, b, e, 0, 0, total, w, h, top, last, l) && e + 1 == num
    ensures Tree(Parents(s, num - 2))
    ensures Fib(Depth(Parents(s, num - 2), 0) + 3) <= total
    ensures Steep(l) ==> Depth(Parents(s, num - 2), 0) == num - 2
    ensures Hi(s[num - 2]) == total && i == num && b == num - 2
  {
    hide Merging, Greedy, Chain, Steep, Fib, Depth, Tree, Rising, Weight, Hi;
    BuildingFits(s, num, i, b, e, 0, 0, total, w, h, top, last, l);
    TreeDone(s, num, i, b, e, total);
    GreedyDone(s, num, i, b, e, w, h, top, last, total);
    if Steep(l) {
      ChainDone(s, num, i, b, e, w, l);
    }
  }

  lemma TreeDone(s: seq<nat>, num: nat, i: nat, b: nat, e: nat, total: nat)
    requires Merging(s, num, i, b, e, 0, 0, total) && e + 1 == num
    ensures 2 <= num <= |s| && b == num - 2 && i == num && Tree(Parents(s, b)) && total == Hi(s[b])
  {
    hide Rising, Weight, Hi;
    assert 2 <= num && i <= num && i + b == 2 * e && Rising(Parents(s, b), e) && forall j :: 0 <= j < b ==> Parents(s, b)[j] < e;
    MergeDone(Parents(s, b), num, i, e);
    RootWeight(s, num, e, total);
  }

  lemma GreedyDone(s: seq<nat>, num: nat, i: nat, b: nat, e: nat, w: seq<nat>, h: seq<nat>, top: nat, last: nat, total: nat)
    requires Greedy(s, num, i, b, e, 0, 0, w, h, top, last) && b + 1 == e && e + 1 == num && b <= |s|
    requires Tree(Parents(s, b)) && total == Hi(s[b])
    ensures Fib(Depth(Parents(s, b), 0) + 3) <= total
  {
    var par := Parents(s, b);
    assert NodeOk(w[b], h[b], last) && NodeOk(w[0], h[0], last) && Hi(s[b]) == w[b];
    forall j | 0 <= j < b
      ensures j < par[j] <= b && h[par[j]] > h[j]
    {
      assert Climbing(Hi(s[j]), h, top, h[j]);
      ParentIs(par, j);
    }
    hide Hi, Fib, Greedy, Climbing, Tree;
    HeightAbove(par, h, 0);
    FibMonotone(Depth(par, 0) + 3, h[b] + 2);
  }

  lemma ChainDone(s: seq<nat>, num: nat, i: nat, b: nat, e: nat, w: seq<nat>, l: seq<nat>)
    requires Chain(s, num, i, b, e, 0, 0, w, l) && b + 1 == e && b <= |s| && Tree(Parents(s, b))
    ensures Depth(Parents(s, b), 0) == b
  {
    hide Hi, Tree, Depth;
    ChainDepth(Parents(s, b), 0);
  }

  lemma ParentIs(par: seq<nat>, j: nat)
    requires Tree(par) && j < |par|
    ensures j < par[j] <= |par|
  {
  }

  lemma RootWeight(s: seq<nat>, num: nat, e: nat, total: nat)
    requires 2 <= num <= |s| && e + 1 == num && Weight(s[num..num]) + Weight(s[e - 1..e]) + 0 == total
    ensures total == Hi(s[e - 1])
  {
    assert s[num..num] == [];
    assert s[e - 1..e] == [s[e - 1]];
    assert [s[e - 1]][..0] == [];
    EmptyWeight();
    WeightPush([], s[e - 1]);
    assert [] + [s[e - 1]] == [s[e - 1]];
  }

  /** Heights grow by at least one with every step towards the root. */
  lemma {:induction false} HeightAbove(par: seq<nat>, h: seq<nat>, j: nat)
    requires Tree(par) && j <= |par| < |h|
    requires forall k :: 0 <= k < |par| ==> k < par[k] <= |par| && h[par[k]] > h[k]
    ensures Depth(par, j) + h[j] <= h[|par|]
    decreases |par| - j
  {
    if j < |par| {
      HeightAbove(par, h, par[j]);
    }
  }

  lemma {:induction false} ChainDepth(par: seq<nat>, j: nat)
    requires Tree(par) && j <= |par| && forall k :: 0 <= k < |par| ==> par[k] == k + 1
    ensures Depth(par, j) == |par| - j
    decreases |par| - j
  {
    if j < |par| {
      ChainDepth(par, j + 1);
    }
  }

  lemma EmptyWeight()
    ensures Weight([]) == 0
  {
  }

  lemma NoParents(par: seq<nat>)
    requires par == []
    ensures Rising(par, 0)
  {
  }

  // ----- depths and code length counters -----------------------------------------------

  /** Depth of internal node `j`, the root being node `|par|`. */
  function Depth(par: seq<nat>, j: nat): nat
    requires Tree(par) && j <= |par|
    decreases |par| - j
  {
    if j == |par| then 0 else 1 + Depth(par, par[j])
  }

  /** Nodes are numbered from the bottom up. */
  lemma {:induction false} DepthFalls(par: seq<nat>, j: nat, k: nat)
    requires Tree(par) && j <= k <= |par|
    ensures Depth(par, j) >= Depth(par, k)
    decreases |par| - j
  {
    if k < |par| {
      DepthFalls(par, par[j], par[k]);
    }
  }

  /** How many of the nodes `a` to `b` lie at depth `d`. */
  function AtDepth(par: seq<nat>, a: nat, b: nat, d: nat): (n: nat)
    requires Tree(par) && a <= b <= |par|
    ensures n <= b - a
  {
    if a == b then 0 else AtDepth(par, a, b - 1, d) + (if Depth(par, b - 1) == d then 1 else 0)
  }

  lemma {:induction false} AtDepthSplit(par: seq<nat>, a: nat, m: nat, b: nat, d: nat)
    requires Tree(par) && a <= m <= b <= |par|
    ensures AtDepth(par, a, b, d) == AtDepth(par, a, m, d) + AtDepth(par, m, b, d)
  {
    if m < b {
      AtDepthSplit(par, a, m, b - 1, d);
    }
  }

  /** First node whose parent is `e` or later. */
  function FirstOpen(par: seq<nat>, e: nat, from: nat): (q: nat)
    requires Tree(par) && from <= e <= |par|
    requires forall j :: from <= j < e ==> par[j] >= e
    ensures q <= from && (forall j :: q <= j < e ==> par[j] >= e) && (forall j :: 0 <= j < q ==> par[j] < e)
  {
    if from == 0 || par[from - 1] < e then from else FirstOpen(par, e, from - 1)
  }

  /** Nodes below `e` at depth `d` whose parent is `e` or later. */
  function OpenAt(par: seq<nat>, e: nat, d: nat): nat
    requires Tree(par) && e <= |par|
  {
    AtDepth(par, FirstOpen(par, e, e), e, d)
  }

  /** Visiting node `e` closes it and opens its children, at most two, one level below. */
  lemma Visit(par: seq<nat>, e: nat, d: nat)
    requires Tree(par) && e < |par|
    ensures OpenAt(par, e, d) <= OpenAt(par, e + 1, d) - (if Depth(par, e) == d then 1 else 0)
                                 + (if Depth(par, e) + 1 == d then 2 else 0)
    ensures OpenAt(par, e + 1, Depth(par, e)) > 0
  {
    var q, q' := FirstOpen(par, e + 1, e + 1), FirstOpen(par, e, e);
    assert par[e] > e;
    if q' > 0 {
      assert par[q' - 1] < e;
    }
    assert q <= e && q' <= q;
    AtDepthSplit(par, q', q, e, d);
    AtDepthSplit(par, q, e, e + 1, Depth(par, e));
    assert forall j :: q' <= j < q ==> par[j] == e;
    AtMostTwo(par, q', q, e);
    Siblings(par, q', q, e, d);
  }

  lemma AtMostTwo(par: seq<nat>, a: nat, b: nat, e: nat)
    requires Tree(par) && a <= b <= |par| && forall j :: a <= j < b ==> par[j] == e
    ensures b <= a + 2
  {
    if a < b - 1 {
      assert par[a] == par[b - 1];
    }
  }

  lemma {:induction false} Siblings(par: seq<nat>, a: nat, b: nat, e: nat, d: nat)
    requires Tree(par) && a <= b <= e < |par| && forall j :: a <= j < b ==> par[j] == e
    ensures Depth(par, e) + 1 != d ==> AtDepth(par, a, b, d) == 0
  {
    if a < b {
      Siblings(par, a, b - 1, e, d);
    }
  }

  /** Sum of `c[l] * 2^(n - l)` for `l` from 1 to `n`: the Kraft sum times `2^n`. */
  function Kraft(c: seq<nat>, n: nat): nat
    requires n < |c|
  {
    if n == 0 then 0 else 2 * Kraft(c, n - 1) + c[n]
  }

  /** Number of codes of length 1 to `n`. */
  function Codes(c: seq<nat>, n: nat): nat
    requires n < |c|
  {
    if n == 0 then 0 else Codes(c, n - 1) + c[n]
  }

  /** A leaf at length `l` becomes an inner node with two leaves. */
  function SplitLeaf(c: seq<nat>, l: nat): (r: seq<nat>)
    requires l + 1 < |c| && c[l] > 0
    ensures |r| == |c|
  {
    c[l := c[l] - 1][l + 1 := c[l + 1] + 2]
  }

  lemma {:induction false} SplitKeepsKraft(c: seq<nat>, l: nat, n: nat)
    requires 0 < l && l + 1 < |c| && c[l] > 0 && n < |c| && n != l
    ensures Kraft(SplitLeaf(c, l), n) == Kraft(c, n)
    ensures Codes(SplitLeaf(c, l), n) == Codes(c, n) + (if n > l then 1 else 0)
    decreases n
  {
    if n == l + 1 {
      if l > 1 { SplitKeepsKraft(c, l, l - 1); }
      var c' := SplitLeaf(c, l);
      assert Kraft(c', l) == 2 * Kraft(c', l - 1) + c'[l];
      assert Codes(c', l) == Codes(c', l - 1) + c'[l];
      assert Kraft(c, l) == 2 * Kraft(c, l - 1) + c[l] && Codes(c, l) == Codes(c, l - 1) + c[l];
    } else if n > 0 {
      SplitKeepsKraft(c, l, n - 1);
    }
  }

  /** With a full code and fewer than `2^n` codes, some code is shorter than `n`. */
  lemma {:induction false} SomeShorter(c: seq<nat>, n: nat, m: nat)
    requires m < n < |c| && forall l :: 1 <= l < n ==> c[l] == 0
    ensures Kraft(c, m) == Codes(c, m) == 0
  {
    if m > 0 {
      SomeShorter(c, n, m - 1);
    }
  }

  /** The state of the pass over the tree: nodes `e` and up hold their depths, nodes below their parents. */
  ghost predicate Counting(s: seq<nat>, par: seq<nat>, e: nat, c: seq<nat>, maxLen: nat) {
    && Tree(par) && e <= |par| < |s| && 1 <= maxLen && maxLen < |c|
    && (forall j :: 0 <= j < e ==> Hi(s[j]) == par[j])
    && (forall j :: e <= j <= |par| ==> Hi(s[j]) == Depth(par, j))
    && CountsOk(par, e, c, maxLen)
  }

  /** The counts once the nodes from `e` on have been visited. */
  ghost predicate CountsOk(par: seq<nat>, e: nat, c: seq<nat>, maxLen: nat)
    requires Tree(par) && e <= |par| && maxLen < |c|
  {
    && Kraft(c, maxLen) == Pow2(maxLen) && Codes(c, maxLen) == |par| - e + 2
    && c[0] == 0 && (forall l :: maxLen < l < |c| ==> c[l] == 0)
    && (Depth(par, e) < maxLen ==> forall l :: 1 <= l < maxLen ==> c[l] >= OpenAt(par, e, l))
    && Deepest(c, Depth(par, e) + 1, maxLen)
    && (Depth(par, e) < maxLen ==> Exact(par, e, c, maxLen))
  }

  /** How many nodes from `e` on lie at depth `d`, the root included. */
  function NodesAt(par: seq<nat>, e: nat, d: nat): nat
    requires Tree(par) && e <= |par|
  {
    AtDepth(par, e, |par|, d) + (if d == 0 then 1 else 0)
  }

  /** Each node from `e` on has two children, of which those that are no nodes are the leaves counted. */
  ghost predicate Exact(par: seq<nat>, e: nat, c: seq<nat>, maxLen: nat)
    requires Tree(par) && e <= |par| && maxLen < |c|
  {
    forall l: nat :: 1 <= l <= maxLen ==> c[l] + AtDepth(par, e, |par|, l) == 2 * NodesAt(par, e, l - 1)
  }

  lemma ExactStep(par: seq<nat>, e: nat, c: seq<nat>, maxLen: nat)
    requires Tree(par) && e < |par| && maxLen < |c| && 1 <= Depth(par, e) < maxLen && c[Depth(par, e)] > 0
    requires Exact(par, e + 1, c, maxLen)
    ensures Exact(par, e, SplitLeaf(c, Depth(par, e)), maxLen)
  {
    hide Depth, Tree, AtDepth, SplitLeaf, NodesAt;
    forall l: nat | 1 <= l <= maxLen
      ensures SplitLeaf(c, Depth(par, e))[l] + AtDepth(par, e, |par|, l) == 2 * NodesAt(par, e, l - 1)
    {
      OneNode(par, e, l);
      OneNode(par, e, l - 1);
      SplitAt(c, Depth(par, e), l);
    }
  }

  lemma SplitAt(c: seq<nat>, d: nat, l: nat)
    requires d + 1 < |c| && c[d] > 0 && l < |c|
    ensures SplitLeaf(c, d)[l] == (if l == d then c[l] - 1 else if l == d + 1 then c[l] + 2 else c[l])
  {
  }

  lemma OneNode(par: seq<nat>, e: nat, d: nat)
    requires Tree(par) && e < |par|
    ensures AtDepth(par, e, |par|, d) == AtDepth(par, e + 1, |par|, d) + (if Depth(par, e) == d then 1 else 0)
    ensures NodesAt(par, e, d) == NodesAt(par, e + 1, d) + (if Depth(par, e) == d then 1 else 0)
  {
    hide Depth, Tree;
    AtDepthSplit(par, e, e + 1, |par|, d);
    assert AtDepth(par, e, e, d) == 0;
  }

  /** No code is longer than `n`, and some are as long unless the limit is in the way. */
  predicate Deepest(c: seq<nat>, n: nat, maxLen: nat)
    requires maxLen < |c|
  {
    (forall l :: n < l < |c| ==> c[l] == 0) && (n <= maxLen ==> c[n] > 0)
  }

  /** The leaf that node `e` replaces: at its depth, or above if the length limit is reached. */
  ghost predicate Replaces(par: seq<nat>, e: nat, c: seq<nat>, maxLen: nat, l: nat)
    requires Tree(par) && e < |par| && maxLen < |c|
  {
    && 1 <= l < maxLen && c[l] > 0
    && (Depth(par, e) < maxLen ==> l == Depth(par, e))
  }

  lemma DeepestStep(c: seq<nat>, l: nat, n: nat, n': nat, maxLen: nat)
    requires maxLen < |c| && Deepest(c, n, maxLen) && n <= n' && l + 1 < |c| && c[l] > 0
    requires l < n' && (n' <= maxLen ==> l + 1 == n')
    ensures Deepest(SplitLeaf(c, l), n', maxLen)
  {
  }

  lemma CountStep(s: seq<nat>, par: seq<nat>, e: nat, c: seq<nat>, maxLen: nat, l: nat)
    requires e < |par| && Counting(s, par, e + 1, c, maxLen) && Replaces(par, e, c, maxLen, l)
    ensures par[e] < |s| && Hi(s[e]) == par[e] && Hi(s[par[e]]) + 1 == Depth(par, e)
    ensures Counting(s[e := Pack(Lo(s[e]), Depth(par, e))], par, e, SplitLeaf(c, l), maxLen)
  {
    Unpacks(Lo(s[e]), Depth(par, e));
    CountsStep(par, e, c, maxLen, l);
    hide Hi, Lo, Pack, Tree, Depth, CountsOk;
    assert Depth(par, e) == 1 + Depth(par, par[e]) && e < par[e] <= |par| by { DepthIs(par, e); }
  }

  lemma CountsStep(par: seq<nat>, e: nat, c: seq<nat>, maxLen: nat, l: nat)
    requires Tree(par) && e < |par| && 1 <= maxLen < |c| && CountsOk(par, e + 1, c, maxLen) && Replaces(par, e, c, maxLen, l)
    ensures CountsOk(par, e, SplitLeaf(c, l), maxLen)
  {
    hide Tree, OpenAt, Depth, Deepest, Exact;
    SplitKeepsKraft(c, l, maxLen);
    DepthFalls(par, e, e + 1);
    DeepestStep(c, l, Depth(par, e + 1) + 1, Depth(par, e) + 1, maxLen);
    if Depth(par, e) < maxLen {
      ExactStep(par, e, c, maxLen);
      OpenStep(par, e, c, maxLen);
    }
  }

  lemma OpenStep(par: seq<nat>, e: nat, c: seq<nat>, maxLen: nat)
    requires Tree(par) && e < |par| && maxLen < |c| && Replaces(par, e, c, maxLen, Depth(par, e))
    requires forall k :: 1 <= k < maxLen ==> c[k] >= OpenAt(par, e + 1, k)
    ensures forall k :: 1 <= k < maxLen ==> SplitLeaf(c, Depth(par, e))[k] >= OpenAt(par, e, k)
  {
    hide Tree, OpenAt, Depth;
    forall k | 1 <= k < maxLen
      ensures SplitLeaf(c, Depth(par, e))[k] >= OpenAt(par, e, k)
    {
      Visit(par, e, k);
      SplitAt(c, Depth(par, e), k);
    }
  }

  lemma DepthIs(par: seq<nat>, e: nat)
    requires Tree(par) && e < |par|
    ensures e < par[e] <= |par| && Depth(par, e) == 1 + Depth(par, par[e])
  {
  }

  /** Before the first visit: the root has two leaves. */
  lemma CountFirst(s: seq<nat>, par: seq<nat>, c: seq<nat>, maxLen: nat)
    requires Tree(par) && |par| < |s| && par == Parents(s, |par|) && Hi(s[|par|]) == 0
    requires 1 <= maxLen < |c| && forall l :: 0 <= l < |c| ==> c[l] == (if l == 1 then 2 else 0)
    ensures Counting(s, par, |par|, c, maxLen)
  {
    var q := FirstOpen(par, |par|, |par|);
    OneLevel(c, maxLen);
    forall l | 1 <= l < maxLen
      ensures c[l] >= OpenAt(par, |par|, l)
    {
      AtMostTwo(par, q, |par|, |par|);
      RootChildren(par, q, |par|, l);
    }
    assert Exact(par, |par|, c, maxLen);
  }

  lemma {:induction false} RootChildren(par: seq<nat>, a: nat, b: nat, d: nat)
    requires Tree(par) && a <= b <= |par| && forall j :: a <= j < b ==> par[j] == |par|
    ensures d != 1 ==> AtDepth(par, a, b, d) == 0
  {
    if a < b {
      DepthIs(par, b - 1);
      RootChildren(par, a, b - 1, d);
    }
  }

  lemma {:induction false} OneLevel(c: seq<nat>, n: nat)
    requires 1 <= n < |c| && forall l :: 0 <= l < |c| ==> c[l] == (if l == 1 then 2 else 0)
    ensures Kraft(c, n) == Pow2(n) && Codes(c, n) == 2
  {
    if n > 1 {
      OneLevel(c, n - 1);
    }
  }

  /** The pass from the root down that counts the lengths of the codes. */
  method CountLengths(p: array<nat>, num: nat, maxLen: nat) returns (counters: seq<nat>)
    requires 2 <= num <= p.Length && 1 <= maxLen <= MAX_LEN && num <= Pow2(maxLen)
    requires Tree(Parents(p[..], num - 2))
    modifies p
    ensures |counters| == MAX_LEN + 1 && counters[0] == 0
    ensures Kraft(counters, maxLen) == Pow2(maxLen) && Codes(counters, maxLen) == num
    ensures forall l :: maxLen < l <= MAX_LEN ==> counters[l] == 0
    ensures Deepest(counters, old(Depth(Parents(p[..], num - 2), 0)) + 1, maxLen)
    ensures old(Depth(Parents(p[..], num - 2), 0)) < maxLen ==> Exact(old(Parents(p[..], num - 2)), 0, counters, maxLen)
    ensures forall j :: 0 <= j < p.Length ==> Lo(p[j]) == old(Lo(p[j]))
  {
    hide Tree, Hi, Lo, Pack, Counting, Deepest, Depth, Exact;
    var lenCounters := new nat[MAX_LEN + 1](_ => 0);
    ghost var par := Parents(p[..], num - 2);
    var e := num - 2;
    ghost var s := p[..];
    Packs(p[e]);
    Unpacks(Lo(p[e]), 0);
    p[e] := Pack(Lo(p[e]), 0);
    lenCounters[1] := 2;
    assert Parents(p[..], num - 2) == par;
    CountFirst(p[..], par, lenCounters[..], maxLen);
    while e > 0
      invariant e <= num - 2 == |par| && Counting(p[..], par, e, lenCounters[..], maxLen)
      invariant forall j :: 0 <= j < p.Length ==> Lo(p[j]) == old(Lo(p[j]))
    {
      e := e - 1;
      s := p[..];
      FindsParent(s, par, e, lenCounters[..], maxLen);
      var len := Hi(p[Hi(p[e])]) + 1;
      Packs(p[e]);
      Unpacks(Lo(p[e]), len);
      p[e] := Pack(Lo(p[e]), len);
      if len >= maxLen {
        len := Shorter(lenCounters, maxLen, num);
      }
      CountStep(s, par, e, lenCounters[..], maxLen, len);
      ghost var c := lenCounters[..];
      lenCounters[len] := lenCounters[len] - 1;
      lenCounters[len + 1] := lenCounters[len + 1] + 2;
      assert lenCounters[..] == SplitLeaf(c, len);
      assert p[..] == s[e := Pack(Lo(s[e]), Depth(par, e))];
    }
    counters := lenCounters[..];
    CountDone(p[..], par, counters, maxLen);
  }

  lemma CountDone(s: seq<nat>, par: seq<nat>, c: seq<nat>, maxLen: nat)
    requires Counting(s, par, 0, c, maxLen)
    ensures Kraft(c, maxLen) == Pow2(maxLen) && Codes(c, maxLen) == |par| + 2
    ensures c[0] == 0 && forall l :: maxLen < l < |c| ==> c[l] == 0
    ensures Deepest(c, Depth(par, 0) + 1, maxLen)
    ensures Depth(par, 0) < maxLen ==> Exact(par, 0, c, maxLen)
  {
    hide Exact;
  }

  /** What the visit of node `e` reads, and why there is a leaf for it to replace. */
  lemma FindsParent(s: seq<nat>, par: seq<nat>, e: nat, c: seq<nat>, maxLen: nat)
    requires e < |par| && Counting(s, par, e + 1, c, maxLen)
    ensures Tree(par) && e < par[e] < |s| && Hi(s[e]) == par[e] && Hi(s[par[e]]) + 1 == Depth(par, e)
    ensures Kraft(c, maxLen) == Pow2(maxLen) && Codes(c, maxLen) <= |par| + 1
    ensures Depth(par, e) < maxLen ==> Replaces(par, e, c, maxLen, Depth(par, e))
  {
    hide Hi;
    DepthIs(par, e);
    DepthFalls(par, e, e + 1);
    Visit(par, e, Depth(par, e));
  }

  /** The longest length below `maxLen` that is in use. */
  method Shorter(c: array<nat>, maxLen: nat, ghost num: nat) returns (len: nat)
    requires 1 <= maxLen < c.Length && num <= Pow2(maxLen)
    requires Kraft(c[..], maxLen) == Pow2(maxLen) && Codes(c[..], maxLen) < num
    ensures 1 <= len < maxLen && c[len] > 0
  {
    len := maxLen - 1;
    if len == 0 || forall l :: 1 <= l < maxLen ==> c[..][l] == 0 {
      SomeShorter(c[..], maxLen, maxLen - 1);
    }
    ghost var w :| 1 <= w < maxLen && c[w] > 0;
    while c[len] == 0
      invariant w <= len < maxLen
      decreases len
    {
      len := len - 1;
    }
  }
}
