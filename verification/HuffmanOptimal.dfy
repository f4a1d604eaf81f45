/** Why merging the two lightest gives the least cost: the lower bound for every complete or incomplete code. */
module HuffmanOptimal {
  import opened Arithmetic
  import opened Bits

  /** Sum of weight times length. */
  function Cost(ws: seq<nat>, ls: seq<nat>): nat
    requires |ws| == |ls|
  {
    if ws == [] then 0 else ws[0] * ls[0] + Cost(ws[1..], ls[1..])
  }

  /** The Kraft sum of the lengths, times `2^n`. */
  function KraftSum(ls: seq<nat>, n: nat): nat {
    if ls == [] then 0 else (if ls[0] <= n then Pow2(n - ls[0]) else 0) + KraftSum(ls[1..], n)
  }

  /** Lengths that some prefix code has. */
  predicate Fits(ls: seq<nat>, n: nat) {
    (forall k :: 0 <= k < |ls| ==> ls[k] <= n) && KraftSum(ls, n) <= Pow2(n)
  }

  predicate Ascending(ws: seq<nat>) {
    forall i, j :: 0 <= i < j < |ws| ==> ws[i] <= ws[j]
  }

  /** Puts a weight behind all that are not heavier. */
  function Insert(ws: seq<nat>, f: nat): (r: seq<nat>)
    ensures |r| == |ws| + 1
  {
    if ws == [] || f < ws[0] then [f] + ws else [ws[0]] + Insert(ws[1..], f)
  }

  /** What merging the two lightest until one is left adds up to. */
  function Merged(ws: seq<nat>): nat
    decreases |ws|
  {
    if |ws| < 2 then 0 else ws[0] + ws[1] + Merged(Insert(ws[2..], ws[0] + ws[1]))
  }

  // ----- sums over sequences -----------------------------------------------------------

  lemma {:induction false} CostSplit(ws: seq<nat>, ls: seq<nat>, ws': seq<nat>, ls': seq<nat>)
    requires |ws| == |ls| && |ws'| == |ls'|
    ensures Cost(ws + ws', ls + ls') == Cost(ws, ls) + Cost(ws', ls')
  {
    if ws == [] {
      assert ws + ws' == ws' && ls + ls' == ls';
    } else {
      CostSplit(ws[1..], ls[1..], ws', ls');
      assert (ws + ws')[1..] == ws[1..] + ws' && (ls + ls')[1..] == ls[1..] + ls';
    }
  }

  lemma {:induction false} KraftSplit(ls: seq<nat>, ls': seq<nat>, n: nat)
    ensures KraftSum(ls + ls', n) == KraftSum(ls, n) + KraftSum(ls', n)
  {
    hide Pow2;
    if ls == [] {
      assert ls + ls' == ls';
    } else {
      KraftSplit(ls[1..], ls', n);
      assert (ls + ls')[1..] == ls[1..] + ls';
    }
  }

  /** Around one element. */
  lemma CostAt(ws: seq<nat>, ls: seq<nat>, k: nat)
    requires |ws| == |ls| && k < |ws|
    ensures Cost(ws, ls) == Cost(ws[..k], ls[..k]) + ws[k] * ls[k] + Cost(ws[k + 1..], ls[k + 1..])
  {
    assert ws == ws[..k] + ws[k..] && ls == ls[..k] + ls[k..];
    CostSplit(ws[..k], ls[..k], ws[k..], ls[k..]);
    assert ws[k..][1..] == ws[k + 1..] && ls[k..][1..] == ls[k + 1..];
  }

  lemma KraftAt(ls: seq<nat>, k: nat, n: nat)
    requires k < |ls| && ls[k] <= n
    ensures KraftSum(ls, n) == KraftSum(ls[..k], n) + Pow2(n - ls[k]) + KraftSum(ls[k + 1..], n)
  {
    hide Pow2;
    assert ls == ls[..k] + ls[k..];
    KraftSplit(ls[..k], ls[k..], n);
    assert ls[k..][1..] == ls[k + 1..];
  }

  lemma CostUpdate(ws: seq<nat>, ls: seq<nat>, k: nat, v: nat)
    requires |ws| == |ls| && k < |ws|
    ensures Cost(ws, ls[k := v]) == Cost(ws, ls) - ws[k] * ls[k] + ws[k] * v
  {
    CostAt(ws, ls, k);
    CostAt(ws, ls[k := v], k);
    assert ls[k := v][..k] == ls[..k] && ls[k := v][k + 1..] == ls[k + 1..];
  }

  lemma KraftUpdate(ls: seq<nat>, k: nat, v: nat, n: nat)
    requires k < |ls| && ls[k] <= n && v <= n
    ensures KraftSum(ls[k := v], n) == KraftSum(ls, n) - Pow2(n - ls[k]) + Pow2(n - v)
  {
    hide Pow2;
    KraftAt(ls, k, n);
    KraftAt(ls[k := v], k, n);
    assert ls[k := v][..k] == ls[..k] && ls[k := v][k + 1..] == ls[k + 1..];
  }

  // ----- exchanging lengths ------------------------------------------------------------

  function Swapped(ls: seq<nat>, i: nat, j: nat): (r: seq<nat>)
    requires i < |ls| && j < |ls|
    ensures |r| == |ls|
  {
    ls[i := ls[j]][j := ls[i]]
  }

  /** Giving the longer length to the lighter of two costs no more. */
  lemma SwapHelps(ws: seq<nat>, ls: seq<nat>, i: nat, j: nat, n: nat)
    requires |ws| == |ls| && i < j < |ws| && ws[i] <= ws[j] && ls[i] <= ls[j] && Fits(ls, n)
    ensures Fits(Swapped(ls, i, j), n) && Cost(ws, Swapped(ls, i, j)) <= Cost(ws, ls)
  {
    SwapFits(ls, i, j, n);
    hide Fits, KraftSum, Cost;
    var one := ls[i := ls[j]];
    CostUpdate(ws, ls, i, ls[j]);
    CostUpdate(ws, one, j, ls[i]);
    Exchange(ws[i], ws[j], ls[i], ls[j]);
  }

  lemma SwapFits(ls: seq<nat>, i: nat, j: nat, n: nat)
    requires i < j < |ls| && Fits(ls, n)
    ensures Fits(Swapped(ls, i, j), n)
  {
    hide Pow2, KraftSum;
    KraftUpdate(ls, i, ls[j], n);
    KraftUpdate(ls[i := ls[j]], j, ls[i], n);
  }

  lemma Exchange(a: nat, b: nat, x: nat, y: nat)
    requires a <= b && x <= y
    ensures a * y + b * x <= a * x + b * y
  {
    assert (b - a) * (y - x) >= 0;
    assert (b - a) * (y - x) == b * y - b * x - a * y + a * x;
  }

  lemma {:induction false} SomeLongest(ls: seq<nat>, from: nat) returns (m: nat)
    requires from < |ls|
    ensures from <= m < |ls| && forall k :: from <= k < |ls| ==> ls[k] <= ls[m]
    decreases |ls| - from
  {
    m := from;
    if from + 1 < |ls| {
      var rest := SomeLongest(ls, from + 1);
      m := if ls[rest] >= ls[from] then rest else from;
    }
  }

  /** The two lightest can be given the longest lengths. */
  lemma LongestFirst(ws: seq<nat>, ls: seq<nat>, n: nat) returns (r: seq<nat>)
    requires |ws| == |ls| >= 2 && Ascending(ws) && Fits(ls, n)
    ensures |r| == |ws| && Fits(r, n) && Cost(ws, r) <= Cost(ws, ls)
    ensures forall k :: 1 <= k < |r| ==> r[k] <= r[1] <= r[0]
  {
    hide Fits, Cost;
    r := ls;
    var m := SomeLongest(r, 0);
    if m > 0 {
      SwapHelps(ws, r, 0, m, n);
      r := Swapped(r, 0, m);
    }
    var m' := SomeLongest(r, 1);
    if m' > 1 {
      SwapHelps(ws, r, 1, m', n);
      r := Swapped(r, 1, m');
    }
  }

  // ----- the longest length is not used alone ------------------------------------------

  lemma {:induction false} Multiples(ls: seq<nat>, n: nat, m: nat) returns (q: nat)
    requires m <= n && forall k :: 0 <= k < |ls| ==> ls[k] <= m
    ensures KraftSum(ls, n) == q * Pow2(n - m)
  {
    hide Pow2;
    if ls == [] {
      q := 0;
    } else {
      var q' := Multiples(ls[1..], n, m);
      Pow2Add(m - ls[0], n - m);
      q := q' + Pow2(m - ls[0]);
      assert q * Pow2(n - m) == q' * Pow2(n - m) + Pow2(m - ls[0]) * Pow2(n - m);
    }
  }

  lemma Fewer(q: nat, p: nat, d: nat)
    requires d > 0 && q * d < p * d
    ensures q < p
  {
    if q >= p {
      MulMonotone(p, q, d);
    }
  }

  /** A length that is longer than all others can be shortened to the next longest. */
  lemma Shorten(ls: seq<nat>, n: nat)
    requires |ls| >= 2 && Fits(ls, n) && forall k :: 1 <= k < |ls| ==> ls[k] <= ls[1] <= ls[0]
    ensures Fits(ls[0 := ls[1]], n)
  {
    hide Pow2;
    var m, D := ls[1], Pow2(n - ls[1]);
    var q := Multiples(ls[1..], n, m);
    Pow2Add(m, n - m);
    assert Pow2(n - ls[0]) >= 1 && D >= 1;
    assert KraftSum(ls, n) == Pow2(n - ls[0]) + q * D;
    Fewer(q, Pow2(m), D);
    assert (q + 1) * D == q * D + D;
    MulMonotone(q + 1, Pow2(m), D);
    KraftUpdate(ls, 0, m, n);
    assert KraftSum(ls[0 := m], n) == D + q * D;
  }

  // ----- the bound ---------------------------------------------------------------------

  /** Where `Insert` puts a weight. */
  function Place(ws: seq<nat>, f: nat): (k: nat)
    ensures k <= |ws|
  {
    if ws == [] || f < ws[0] then 0 else 1 + Place(ws[1..], f)
  }

  lemma {:induction false} InsertAt(ws: seq<nat>, f: nat)
    ensures Insert(ws, f) == ws[..Place(ws, f)] + [f] + ws[Place(ws, f)..]
  {
    if ws != [] && f >= ws[0] {
      InsertAt(ws[1..], f);
      var k := Place(ws[1..], f);
      assert ws == [ws[0]] + ws[1..];
      assert ws[..k + 1] == [ws[0]] + ws[1..][..k] && ws[k + 1..] == ws[1..][k..];
    }
  }

  lemma {:induction false} InsertAscends(ws: seq<nat>, f: nat)
    requires Ascending(ws)
    ensures Ascending(Insert(ws, f)) && forall v :: v in Insert(ws, f) ==> v == f || v in ws
  {
    if ws != [] && f >= ws[0] {
      InsertAscends(ws[1..], f);
      var rest := Insert(ws[1..], f);
      assert forall k :: 0 <= k < |rest| ==> rest[k] in rest;
    }
  }

  /** Putting a weight and a length at the same place. */
  lemma PutBoth(ws: seq<nat>, ls: seq<nat>, k: nat, f: nat, m: nat, n: nat)
    requires |ws| == |ls| && k <= |ws| && m <= n
    ensures Cost(ws[..k] + [f] + ws[k..], ls[..k] + [m] + ls[k..]) == Cost(ws, ls) + f * m
    ensures KraftSum(ls[..k] + [m] + ls[k..], n) == KraftSum(ls, n) + Pow2(n - m)
  {
    hide Pow2;
    assert ws == ws[..k] + ws[k..] && ls == ls[..k] + ls[k..];
    CostSplit(ws[..k], ls[..k], ws[k..], ls[k..]);
    CostSplit(ws[..k] + [f], ls[..k] + [m], ws[k..], ls[k..]);
    CostSplit(ws[..k], ls[..k], [f], [m]);
    KraftSplit(ls[..k], ls[k..], n);
    KraftSplit(ls[..k] + [m], ls[k..], n);
    KraftSplit(ls[..k], [m], n);
    assert [f][1..] == [] && [m][1..] == [];
    assert Cost([f], [m]) == f * m + Cost([], []);
    assert KraftSum([m], n) == Pow2(n - m) + KraftSum([], n);
  }

  /** No prefix code costs less than merging does. */
  lemma {:induction false} AtLeastMerged(ws: seq<nat>, ls: seq<nat>, n: nat)
    requires |ws| == |ls| && Ascending(ws) && Fits(ls, n)
    ensures Cost(ws, ls) >= Merged(ws)
    decreases |ws|
  {
    if |ws| >= 2 {
      var r := LongestFirst(ws, ls, n);
      Shorten(r, n);
      var m, s := r[1], r[0 := r[1]];
      CostUpdate(ws, r, 0, m);
      MulMonotone(m, r[0], ws[0]);
      TwoEqual(ws, s, n);
      var f, k := ws[0] + ws[1], Place(ws[2..], ws[0] + ws[1]);
      var ls' := s[2..][..k] + [m - 1] + s[2..][k..];
      JoinTwo(ws, s, n);
      InsertAt(ws[2..], f);
      InsertAscends(ws[2..], f);
      AtLeastMerged(Insert(ws[2..], f), ls', n);
    }
  }

  /** Two codes are not both empty. */
  lemma TwoEqual(ws: seq<nat>, ls: seq<nat>, n: nat)
    requires |ws| == |ls| >= 2 && Fits(ls, n) && ls[0] == ls[1]
    ensures ls[0] >= 1
    ensures Cost(ws, ls) == (ws[0] + ws[1]) * ls[0] + Cost(ws[2..], ls[2..])
    ensures KraftSum(ls, n) == 2 * Pow2(n - ls[0]) + KraftSum(ls[2..], n)
  {
    hide Pow2;
    assert ws[1..][1..] == ws[2..] && ls[1..][1..] == ls[2..];
    assert Cost(ws[1..], ls[1..]) == ws[1] * ls[1] + Cost(ws[2..], ls[2..]);
    assert KraftSum(ls[1..], n) == Pow2(n - ls[1]) + KraftSum(ls[2..], n);
    assert (ws[0] + ws[1]) * ls[0] == ws[0] * ls[0] + ws[1] * ls[0];
  }

  /** The two lightest, with equal lengths, become one that is shorter by one. */
  lemma JoinTwo(ws: seq<nat>, ls: seq<nat>, n: nat)
    requires |ws| == |ls| >= 2 && Fits(ls, n) && ls[0] == ls[1]
    ensures ls[0] >= 1
    ensures var f, m := ws[0] + ws[1], ls[0] - 1;
            var k := Place(ws[2..], f);
            var ls' := ls[2..][..k] + [m] + ls[2..][k..];
            && Fits(ls', n) && |ls'| == |Insert(ws[2..], f)|
            && Cost(ws, ls) == f + Cost(Insert(ws[2..], f), ls')
  {
    TwoEqual(ws, ls, n);
    hide Pow2, KraftSum, Cost, Place, Insert;
    var f, m := ws[0] + ws[1], ls[0] - 1;
    var k := Place(ws[2..], f);
    InsertAt(ws[2..], f);
    PutBoth(ws[2..], ls[2..], k, f, m, n);
    Twice(n - ls[0]);
    TimesOneLess(f, m);
    PutAtMost(ls[2..], k, m, n);
  }

  lemma TimesOneLess(f: nat, m: nat)
    ensures f * (m + 1) == f + f * m
  {
  }

  lemma PutAtMost(ls: seq<nat>, k: nat, m: nat, n: nat)
    requires k <= |ls| && m <= n && forall j :: 0 <= j < |ls| ==> ls[j] <= n
    ensures var r := ls[..k] + [m] + ls[k..]; forall j :: 0 <= j < |r| ==> r[j] <= n
  {
  }

  lemma Twice(n: nat)
    ensures Pow2(n + 1) == 2 * Pow2(n)
  {
  }
}
