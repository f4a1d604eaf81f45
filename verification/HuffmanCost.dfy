/** What the codes of a merged tree cost, and that no other prefix code costs less. */
module HuffmanCost {
  import opened Arithmetic
  import opened Bits
  import opened PrefixCode
  import opened HuffmanTree
  import opened HuffmanOptimal

  // ----- the depths of the leaves ------------------------------------------------------

  function Same(n: nat, v: nat): (s: seq<nat>)
    ensures |s| == n && forall i :: 0 <= i < n ==> s[i] == v
  {
    seq(n, _ => v)
  }

  ghost predicate Rises(ic: seq<nat>, e: nat) {
    e < |ic| && ic[0] == 0 && forall x :: 0 <= x < e ==> ic[x] <= ic[x + 1]
  }

  /** The depths of the leaves under the first `e` nodes. */
  ghost function LeafDepths(par: seq<nat>, ic: seq<nat>, e: nat): (d: seq<nat>)
    requires Tree(par) && e <= |par| + 1 && Rises(ic, e)
    ensures |d| == ic[e]
  {
    if e == 0 then [] else LeafDepths(par, ic, e - 1) + Same(ic[e] - ic[e - 1], 1 + Depth(par, e - 1))
  }

  /** Sum of weight times depth over the first `b` nodes. */
  ghost function NodeCost(par: seq<nat>, w: seq<nat>, b: nat): nat
    requires Tree(par) && b <= |par| + 1 && b <= |w|
  {
    if b == 0 then 0 else NodeCost(par, w, b - 1) + w[b - 1] * Depth(par, b - 1)
  }

  /** Sum of weight times depth of the children over the first `e` nodes. */
  ghost function ChildCost(par: seq<nat>, w: seq<nat>, e: nat): nat
    requires Tree(par) && e <= |par| + 1 && e <= |w|
  {
    if e == 0 then 0 else ChildCost(par, w, e - 1) + w[e - 1] * (1 + Depth(par, e - 1))
  }

  lemma {:induction false} CostSame(ws: seq<nat>, v: nat)
    ensures Cost(ws, Same(|ws|, v)) == Sum(ws) * v
    decreases |ws|
  {
    if ws != [] {
      var n := |ws| - 1;
      CostSame(ws[..n], v);
      CostSplit(ws[..n], Same(n, v), [ws[n]], [v]);
      assert ws == ws[..n] + [ws[n]] && Same(|ws|, v) == Same(n, v) + [v];
      assert [ws[n]][1..] == [] && [v][1..] == [];
      assert Cost([ws[n]], [v]) == ws[n] * v + Cost([], []);
      assert Sum(ws) * v == Sum(ws[..n]) * v + ws[n] * v;
    }
  }

  /** Nodes with one parent lie at one depth. */
  lemma {:induction false} NodeCostSame(par: seq<nat>, w: seq<nat>, a: nat, b: nat, x: nat)
    requires Tree(par) && a <= b && b <= |w| && x <= |par| && Children(par, x, a, b)
    ensures NodeCost(par, w, b) == NodeCost(par, w, a) + Sum(w[a..b]) * (1 + Depth(par, x))
    decreases b
  {
    if a < b {
      NodeCostSame(par, w, a, b - 1, x);
      DepthIs(par, b - 1);
      SumGrows(w, a, b - 1);
      var v := 1 + Depth(par, x);
      assert (Sum(w[a..b - 1]) + w[b - 1]) * v == Sum(w[a..b - 1]) * v + w[b - 1] * v;
    } else {
      EmptySum(w, a);
    }
  }

  ghost predicate Shape(l: seq<nat>, par: seq<nat>, w: seq<nat>, ic: seq<nat>, bc: seq<nat>, e: nat) {
    && Tree(par) && e <= |par| + 1 == |w| && |ic| == |bc| == |w| + 1 && Rises(ic, e) && bc[0] == 0
    && forall x :: 0 <= x < e ==> NodeOf(l, w, ic, bc, x) && Children(par, x, bc[x], bc[x + 1])
  }

  lemma ShapeNext(l: seq<nat>, par: seq<nat>, w: seq<nat>, ic: seq<nat>, bc: seq<nat>, e: nat)
    requires e > 0 && Shape(l, par, w, ic, bc, e)
    ensures Shape(l, par, w, ic, bc, e - 1) && NodeOf(l, w, ic, bc, e - 1) && Children(par, e - 1, bc[e - 1], bc[e])
    ensures ic[e - 1] <= ic[e] <= |l| && bc[e - 1] <= bc[e] <= |par|
    ensures w[e - 1] == Sum(l[ic[e - 1]..ic[e]]) + Sum(w[bc[e - 1]..bc[e]])
    ensures (ic[e] - ic[e - 1]) + (bc[e] - bc[e - 1]) == 2
  {
    hide Sum;
    assert NodeOf(l, w, ic, bc, e - 1);
  }

  /** The children of the first `e` nodes cost what their parents say. */
  lemma {:induction false} CostBelow(l: seq<nat>, par: seq<nat>, w: seq<nat>, ic: seq<nat>, bc: seq<nat>, e: nat)
    requires Shape(l, par, w, ic, bc, e)
    ensures ic[e] <= |l| && bc[e] <= |par|
    ensures Cost(l[..ic[e]], LeafDepths(par, ic, e)) + NodeCost(par, w, bc[e]) == ChildCost(par, w, e)
    decreases e
  {
    hide NodeOf, Tree, Depth, Cost, Sum;
    if e > 0 {
      ShapeNext(l, par, w, ic, bc, e);
      CostBelow(l, par, w, ic, bc, e - 1);
      var a, c, v := ic[e - 1], ic[e], 1 + Depth(par, e - 1);
      CostMore(l, a, c, LeafDepths(par, ic, e - 1), v);
      NodeCostSame(par, w, bc[e - 1], bc[e], e - 1);
      Distribute(Sum(l[a..c]), Sum(w[bc[e - 1]..bc[e]]), v);
    } else {
      assert l[..0] == [];
      NoCost();
    }
  }

  lemma CostMore(l: seq<nat>, a: nat, c: nat, d: seq<nat>, v: nat)
    requires a <= c <= |l| && |d| == a
    ensures Cost(l[..c], d + Same(c - a, v)) == Cost(l[..a], d) + Sum(l[a..c]) * v
  {
    hide Cost, Sum;
    assert l[..c] == l[..a] + l[a..c];
    CostSplit(l[..a], d, l[a..c], Same(c - a, v));
    CostSame(l[a..c], v);
  }

  lemma NoCost()
    ensures Cost([], []) == 0
  {
  }

  lemma Distribute(x: nat, y: nat, v: nat)
    ensures (x + y) * v == x * v + y * v
  {
  }

  lemma {:induction false} ChildCostIs(par: seq<nat>, w: seq<nat>, e: nat)
    requires Tree(par) && e <= |par| + 1 && e <= |w|
    ensures ChildCost(par, w, e) == Sum(w[..e]) + NodeCost(par, w, e)
    decreases e
  {
    if e > 0 {
      ChildCostIs(par, w, e - 1);
      assert w[..e][..e - 1] == w[..e - 1];
      assert w[e - 1] * (1 + Depth(par, e - 1)) == w[e - 1] + w[e - 1] * Depth(par, e - 1);
    }
  }

  // ----- how many leaves lie at each depth ---------------------------------------------

  lemma {:induction false} CountAppend(s: seq<nat>, t: seq<nat>, x: nat)
    ensures Count(s + t, x) == Count(s, x) + Count(t, x)
    decreases |t|
  {
    if t == [] {
      assert s + t == s;
    } else {
      assert (s + t)[..|s + t| - 1] == s + t[..|t| - 1];
      CountAppend(s, t[..|t| - 1], x);
    }
  }

  lemma {:induction false} CountSame(n: nat, v: nat, x: nat)
    ensures Count(Same(n, v), x) == if v == x then n else 0
  {
    if n > 0 {
      assert Same(n, v)[..n - 1] == Same(n - 1, v);
      CountSame(n - 1, v, x);
    }
  }

  lemma {:induction false} AtDepthSame(par: seq<nat>, a: nat, b: nat, x: nat, d: nat)
    requires Tree(par) && a <= b <= |par| && x <= |par| && Children(par, x, a, b)
    ensures AtDepth(par, a, b, d) == if 1 + Depth(par, x) == d then b - a else 0
    decreases b
  {
    if a < b {
      AtDepthSame(par, a, b - 1, x, d);
      DepthIs(par, b - 1);
    }
  }

  /** How many of the first `e` nodes lie at depth `d`. */
  ghost function Before(par: seq<nat>, e: nat, d: nat): nat
    requires Tree(par) && e <= |par| + 1
  {
    if e <= |par| then AtDepth(par, 0, e, d) else NodesAt(par, 0, d)
  }

  lemma BeforeNext(par: seq<nat>, e: nat, d: nat)
    requires Tree(par) && e <= |par|
    ensures Before(par, e + 1, d) == Before(par, e, d) + if Depth(par, e) == d then 1 else 0
    ensures Before(par, 0, d) == 0
  {
  }

  /** Every node has two children, leaves or nodes, one level below it. */
  lemma {:induction false} CountBelow(l: seq<nat>, par: seq<nat>, w: seq<nat>, ic: seq<nat>, bc: seq<nat>, e: nat, d: nat)
    requires Shape(l, par, w, ic, bc, e) && d >= 1
    ensures bc[e] <= |par|
    ensures Count(LeafDepths(par, ic, e), d) + AtDepth(par, 0, bc[e], d) == 2 * Before(par, e, d - 1)
    decreases e
  {
    hide NodeOf, Tree, Depth, Count, AtDepth, Before, Same;
    if e > 0 {
      ShapeNext(l, par, w, ic, bc, e);
      CountBelow(l, par, w, ic, bc, e - 1, d);
      var n, v := ic[e] - ic[e - 1], 1 + Depth(par, e - 1);
      CountAppend(LeafDepths(par, ic, e - 1), Same(n, v), d);
      CountSame(n, v, d);
      AtDepthSplit(par, 0, bc[e - 1], bc[e], d);
      AtDepthSame(par, bc[e - 1], bc[e], e - 1, d);
      BeforeNext(par, e - 1, d - 1);
    } else {
      BeforeNext(par, 0, d - 1);
      NoneBelow(par, d);
    }
  }

  lemma NoneBelow(par: seq<nat>, d: nat)
    requires Tree(par)
    ensures Count([], d) == 0 && AtDepth(par, 0, 0, d) == 0
  {
  }

  predicate Descending(s: seq<nat>) {
    forall i, j :: 0 <= i < j < |s| ==> s[i] >= s[j]
  }

  /** Later leaves hang from later nodes, which lie higher. */
  lemma {:induction false} LeavesDescend(par: seq<nat>, ic: seq<nat>, e: nat)
    requires Tree(par) && e <= |par| + 1 && Rises(ic, e)
    ensures Descending(LeafDepths(par, ic, e))
    ensures forall k :: 0 <= k < ic[e] ==> LeafDepths(par, ic, e)[k] <= Depth(par, 0) + 1
    ensures e > 0 ==> forall k :: 0 <= k < ic[e] ==> LeafDepths(par, ic, e)[k] >= Depth(par, e - 1) + 1
    decreases e
  {
    hide Tree, Depth;
    if e > 0 {
      LeavesDescend(par, ic, e - 1);
      DepthFalls(par, 0, e - 1);
      if e > 1 {
        DepthFalls(par, e - 2, e - 1);
      }
    }
  }

  lemma {:induction false} CountIn(s: seq<nat>, v: nat)
    ensures Count(s, v) > 0 <==> v in s
  {
    if s != [] {
      CountIn(s[..|s| - 1], v);
      assert s == s[..|s| - 1] + [s[|s| - 1]];
    }
  }

  /** A descending sequence is known by its counts. */
  lemma {:induction false} DescendingUnique(a: seq<nat>, d: seq<nat>)
    requires Descending(a) && Descending(d) && |a| == |d| && forall v: nat :: Count(a, v) == Count(d, v)
    ensures a == d
  {
    if a != [] {
      var n := |a| - 1;
      CountIn(a, a[n]);
      CountIn(d, a[n]);
      CountIn(a, d[n]);
      CountIn(d, d[n]);
      assert a[n] == d[n];
      forall v: nat
        ensures Count(a[..n], v) == Count(d[..n], v)
      {
        assert Count(a, v) == Count(d, v);
      }
      DescendingUnique(a[..n], d[..n]);
      assert a == a[..n] + [a[n]] && d == d[..n] + [d[n]];
    }
  }

  // ----- the cost of the tree ----------------------------------------------------------

  lemma TreeShape(l: seq<nat>, par: seq<nat>, w: seq<nat>, ic: seq<nat>, bc: seq<nat>)
    requires Tree(par) && TreeOf(l, par, w, ic, bc)
    ensures Shape(l, par, w, ic, bc, |par| + 1) && ic[|par| + 1] == |l| && bc[|par| + 1] == |par|
  {
    hide Sum, Merged;
    forall x | 0 <= x < |par| + 1
      ensures NodeOf(l, w, ic, bc, x) && ic[x] <= ic[x + 1] && Children(par, x, bc[x], bc[x + 1])
    {
      assert NodeOf(l, w, ic, bc, x);
    }
  }

  /** The leaves of the tree cost what merging adds up to, the deepest are the lightest, and they are counted. */
  lemma TreeCost(l: seq<nat>, par: seq<nat>, w: seq<nat>, ic: seq<nat>, bc: seq<nat>, c: seq<nat>, maxLen: nat)
    returns (d: seq<nat>)
    requires Tree(par) && TreeOf(l, par, w, ic, bc) && maxLen < |c| && Exact(par, 0, c, maxLen) && Depth(par, 0) < maxLen
    ensures |d| == |l| && Cost(l, d) == Merged(l) && Descending(d)
    ensures forall k :: 0 <= k < |d| ==> 1 <= d[k] <= maxLen
    ensures forall x: nat :: 1 <= x <= maxLen ==> Count(d, x) == c[x]
  {
    TreeShape(l, par, w, ic, bc);
    var e := |par| + 1;
    d := LeafDepths(par, ic, e);
    CostBelow(l, par, w, ic, bc, e);
    ChildCostIs(par, w, e);
    LeavesDescend(par, ic, e);
    assert w[..e] == w && l[..ic[e]] == l;
    assert NodeCost(par, w, e) == NodeCost(par, w, |par|) + w[|par|] * Depth(par, |par|);
    assert Depth(par, |par|) == 0;
    forall x: nat | 1 <= x <= maxLen
      ensures Count(d, x) == c[x]
    {
      CountBelow(l, par, w, ic, bc, e, x);
      assert c[x] + AtDepth(par, 0, |par|, x) == 2 * NodesAt(par, 0, x - 1);
    }
  }

  // ----- symbols and their ranking -----------------------------------------------------

  /** Code lengths of some prefix code with codes for all symbols in use; 0 means no code. */
  ghost predicate CodeFor(freqs: seq<nat>, lens: seq<nat>, n: nat) {
    && |lens| == |freqs| && (forall k :: 0 <= k < |lens| ==> lens[k] <= n && (freqs[k] > 0 ==> lens[k] > 0))
    && Used(lens, n) <= Pow2(n)
  }

  /** No prefix code takes fewer bits for symbols that occur as often as `freqs` says. */
  ghost predicate Optimal(freqs: seq<nat>, lens: seq<nat>)
    requires |lens| == |freqs|
  {
    forall other: seq<nat>, n: nat :: CodeFor(freqs, other, n) ==> Cost(freqs, lens) <= Cost(freqs, other)
  }

  function Pick(s: seq<nat>, syms: seq<nat>): (r: seq<nat>)
    requires forall i :: 0 <= i < |syms| ==> syms[i] < |s|
    ensures |r| == |syms| && forall i :: 0 <= i < |syms| ==> r[i] == s[syms[i]]
  {
    seq(|syms|, i requires 0 <= i < |syms| => s[syms[i]])
  }

  /** `syms` are different symbols, and all that have a frequency are among them. */
  ghost predicate Lists(freqs: seq<nat>, syms: seq<nat>) {
    && (forall i :: 0 <= i < |syms| ==> syms[i] < |freqs|)
    && (forall i, j :: 0 <= i < j < |syms| ==> syms[i] != syms[j])
    && (forall k :: 0 <= k < |freqs| && k !in syms ==> freqs[k] == 0)
  }

  lemma CostDrop(ws: seq<nat>, ls: seq<nat>, k: nat)
    requires |ws| == |ls| && k < |ws|
    ensures Cost(ws, ls) == Cost(ws[k := 0], ls) + ws[k] * ls[k]
  {
    hide Cost;
    CostAt(ws, ls, k);
    CostAt(ws[k := 0], ls, k);
    assert ws[k := 0][..k] == ws[..k] && ws[k := 0][k + 1..] == ws[k + 1..];
  }

  lemma {:induction false} CostOfNone(ws: seq<nat>, ls: seq<nat>)
    requires |ws| == |ls| && forall k :: 0 <= k < |ws| ==> ws[k] == 0
    ensures Cost(ws, ls) == 0
  {
    if ws != [] {
      CostOfNone(ws[1..], ls[1..]);
    }
  }

  lemma ListsLess(freqs: seq<nat>, syms: seq<nat>)
    requires Lists(freqs, syms) && syms != []
    ensures Lists(freqs[syms[|syms| - 1] := 0], syms[..|syms| - 1])
    ensures forall i :: 0 <= i < |syms| - 1 ==> syms[i] != syms[|syms| - 1]
  {
    var n := |syms| - 1;
    assert syms == syms[..n] + [syms[n]];
    assert forall k :: k in syms ==> k in syms[..n] || k == syms[n];
  }

  /** The cost is that of the symbols listed. */
  lemma {:induction false} CostListed(freqs: seq<nat>, lens: seq<nat>, syms: seq<nat>)
    requires |lens| == |freqs| && Lists(freqs, syms)
    ensures Cost(freqs, lens) == Cost(Pick(freqs, syms), Pick(lens, syms))
    decreases |syms|
  {
    if syms == [] {
      CostOfNone(freqs, lens);
      NoCost();
      assert Pick(freqs, syms) == [] && Pick(lens, syms) == [];
    } else {
      var n := |syms| - 1;
      var k, init := syms[n], syms[..n];
      ListsLess(freqs, syms);
      CostDrop(freqs, lens, k);
      CostListed(freqs[k := 0], lens, init);
      assert Pick(freqs, syms) == Pick(freqs[k := 0], init) + [freqs[k]];
      assert Pick(lens, syms) == Pick(lens, init) + [lens[k]];
      LastCost(Pick(freqs[k := 0], init), Pick(lens, init), freqs[k], lens[k]);
    }
  }

  lemma LastCost(ws: seq<nat>, ls: seq<nat>, f: nat, v: nat)
    requires |ws| == |ls|
    ensures Cost(ws + [f], ls + [v]) == Cost(ws, ls) + f * v
  {
    CostSplit(ws, ls, [f], [v]);
    assert [f][1..] == [] && [v][1..] == [];
    assert Cost([f], [v]) == f * v + Cost([], []);
  }

  /** A code taken away leaves its share of the Kraft sum. */
  lemma {:induction false} UsedDrop(lens: seq<nat>, k: nat, n: nat)
    requires k < |lens| && lens[k] > 0
    ensures Used(lens, n) == Used(lens[k := 0], n) + if lens[k] <= n then Pow2(n - lens[k]) else 0
  {
    if n > 0 {
      UsedDrop(lens, k, n - 1);
      CountDrop(lens, k, n);
    }
  }

  lemma {:induction false} CountDrop(s: seq<nat>, k: nat, x: nat)
    requires k < |s| && x > 0
    ensures Count(s, x) == Count(s[k := 0], x) + if s[k] == x then 1 else 0
  {
    var n := |s| - 1;
    if k < n {
      CountDrop(s[..n], k, x);
      assert s[k := 0][..n] == s[..n][k := 0];
    } else {
      assert s[k := 0][..n] == s[..n];
    }
  }

  /** Of a prefix code, the codes listed are one as well. */
  lemma {:induction false} KraftListed(lens: seq<nat>, syms: seq<nat>, n: nat)
    requires forall i :: 0 <= i < |syms| ==> syms[i] < |lens| && 0 < lens[syms[i]] <= n
    requires forall i, j :: 0 <= i < j < |syms| ==> syms[i] != syms[j]
    ensures KraftSum(Pick(lens, syms), n) <= Used(lens, n)
    decreases |syms|
  {
    hide Used, Pow2;
    if syms == [] {
      assert Pick(lens, syms) == [];
    } else {
      var m := |syms| - 1;
      var k, init := syms[m], syms[..m];
      UsedDrop(lens, k, n);
      KraftListed(lens[k := 0], init, n);
      assert Pick(lens, syms) == Pick(lens[k := 0], init) + [lens[k]];
      KraftSplit(Pick(lens[k := 0], init), [lens[k]], n);
      assert [lens[k]][1..] == [];
      assert KraftSum([lens[k]], n) == Pow2(n - lens[k]) + KraftSum([], n);
    }
  }

  /** Lengths that cost what merging adds up to are optimal. */
  lemma MergedIsOptimal(freqs: seq<nat>, lens: seq<nat>, syms: seq<nat>)
    requires |lens| == |freqs| && Lists(freqs, syms) && Ascending(Pick(freqs, syms))
    requires forall i :: 0 <= i < |syms| ==> freqs[syms[i]] > 0
    requires Cost(Pick(freqs, syms), Pick(lens, syms)) == Merged(Pick(freqs, syms))
    ensures Optimal(freqs, lens)
  {
    hide Cost, Merged, Used, Pow2, KraftSum;
    CostListed(freqs, lens, syms);
    forall other: seq<nat>, n: nat | CodeFor(freqs, other, n)
      ensures Cost(freqs, lens) <= Cost(freqs, other)
    {
      CostListed(freqs, other, syms);
      KraftListed(other, syms, n);
      AtLeastMerged(Pick(freqs, syms), Pick(other, syms), n);
    }
  }

  /** Codes of one bit cannot be shorter. */
  lemma OneBitIsOptimal(freqs: seq<nat>, lens: seq<nat>)
    requires |lens| == |freqs| && forall k :: 0 <= k < |freqs| && freqs[k] > 0 ==> lens[k] <= 1
    ensures Optimal(freqs, lens)
  {
    hide Used, Pow2;
    forall other: seq<nat>, n: nat | CodeFor(freqs, other, n)
      ensures Cost(freqs, lens) <= Cost(freqs, other)
    {
      CostMonotone(freqs, lens, other);
    }
  }

  lemma {:induction false} CostMonotone(ws: seq<nat>, ls: seq<nat>, ms: seq<nat>)
    requires |ws| == |ls| == |ms| && forall k :: 0 <= k < |ws| && ws[k] > 0 ==> ls[k] <= ms[k]
    ensures Cost(ws, ls) <= Cost(ws, ms)
  {
    if ws != [] {
      CostMonotone(ws[1..], ls[1..], ms[1..]);
      if ws[0] > 0 {
        MulMonotone(ls[0], ms[0], ws[0]);
      }
    }
  }
}
