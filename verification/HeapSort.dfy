/** The in-place heap sort of `lib/kite_deflate.c`; heap positions are counted from 1, as there. */
module HeapSort {

  function At(s: seq<nat>, j: nat): nat
    requires 1 <= j <= |s|
  {
    s[j - 1]
  }

  /** Positions `from` to `to` (counted from 0) are in order. */
  predicate Sorted(s: seq<nat>, from: nat, to: nat)
    requires to <= |s|
  {
    forall i, j :: from <= i < j < to ==> s[i] <= s[j]
  }

  ghost predicate Permuted(s: seq<nat>, t: seq<nat>) {
    multiset(s) == multiset(t)
  }

  lemma PermutedSame(s: seq<nat>)
    ensures Permuted(s, s)
  {
  }

  lemma PermutedTwice(s: seq<nat>, t: seq<nat>, u: seq<nat>)
    requires Permuted(s, t) && Permuted(t, u)
    ensures Permuted(s, u)
  {
  }

  /** The parent of `j` is not smaller than `j`. */
  predicate Edge(s: seq<nat>, j: nat)
    requires 2 <= j <= |s|
  {
    At(s, j / 2) >= At(s, j)
  }

  /** Positions `lo` to `size` satisfy the heap order. */
  predicate Heap(s: seq<nat>, lo: nat, size: nat)
    requires 1 <= lo && size <= |s|
  {
    forall j :: 2 * lo <= j <= size ==> Edge(s, j)
  }

  /** The heap order holds except below `k`, and the children of `k` fit below its parent. */
  predicate HeapButBelow(s: seq<nat>, lo: nat, size: nat, k: nat)
    requires 1 <= lo <= k <= size <= |s|
  {
    && (forall j :: 2 * lo <= j <= size && j / 2 != k ==> Edge(s, j))
    && (k >= 2 * lo ==> forall c :: 2 * k <= c <= size && c <= 2 * k + 1 ==> At(s, k / 2) >= At(s, c))
  }

  lemma {:induction false} TopIsMax(s: seq<nat>, size: nat, j: nat)
    requires 1 <= j <= size <= |s| && Heap(s, 1, size)
    ensures At(s, j) <= At(s, 1)
  {
    if j >= 2 {
      assert Edge(s, j);
      TopIsMax(s, size, j / 2);
    }
  }

  lemma SwapKeeps(s: seq<nat>, i: nat, j: nat)
    requires i < |s| && j < |s|
    ensures Permuted(s, s[i := s[j]][j := s[i]])
  {
  }

  lemma CycleKeeps(s: seq<nat>, i: nat, j: nat, k: nat)
    requires i < |s| && j < |s| && k < |s| && i != j && j != k && i != k
    ensures Permuted(s, s[i := s[j]][j := s[k]][k := s[i]])
  {
    var t := s[i := s[j]][j := s[i]];
    SwapKeeps(s, i, j);
    SwapKeeps(t, j, k);
    assert s[i := s[j]][j := s[k]][k := s[i]] == t[j := t[k]][k := t[j]];
    PermutedTwice(s, t, t[j := t[k]][k := t[j]]);
  }

  /** Moving a child up into the hole and the hole down to the child. */
  lemma HoleDown(s: seq<nat>, lo: nat, size: nat, k: nat, c: nat, t: seq<nat>)
    requires 1 <= lo <= k <= size <= |s| && HeapButBelow(s, lo, size, k)
    requires 2 * k <= c <= size && c <= 2 * k + 1 && At(s, k) < At(s, c)
    requires forall d :: 2 * k <= d <= size && d <= 2 * k + 1 ==> At(s, d) <= At(s, c)
    requires t == s[k - 1 := s[c - 1]][c - 1 := s[k - 1]]
    ensures HeapButBelow(t, lo, size, c) && Permuted(s, t)
  {
    hide Permuted;
    SwapKeeps(s, k - 1, c - 1);
    assert forall x :: 1 <= x <= |s| ==> At(t, x) == (if x == k then At(s, c) else if x == c then At(s, k) else At(s, x));
    hide At;
    forall j | 2 * lo <= j <= size && j / 2 != c
      ensures Edge(t, j)
    {
      if j == k {
        assert At(s, k / 2) >= At(s, c);
      } else if j / 2 == k {
        assert At(s, j) <= At(s, c);
      } else {
        assert Edge(s, j);
      }
    }
    forall g | 2 * c <= g <= size && g <= 2 * c + 1
      ensures At(t, c / 2) >= At(t, g)
    {
      assert Edge(s, g);
    }
  }

  lemma HoleSettled(s: seq<nat>, lo: nat, size: nat, k: nat)
    requires 1 <= lo <= k <= size <= |s| && HeapButBelow(s, lo, size, k)
    requires forall d :: 2 * k <= d <= size && d <= 2 * k + 1 ==> At(s, d) <= At(s, k)
    ensures Heap(s, lo, size)
  {
    forall j | 2 * lo <= j <= size
      ensures Edge(s, j)
    {
      if j / 2 == k {
        assert At(s, j) <= At(s, k);
      }
    }
  }

  /** `HeapSortDown`: `temp` sinks from the hole at `k`. */
  method SiftDown(p: array<nat>, start: nat, size: nat, temp: nat, ghost lo: nat)
    requires 1 <= lo <= start <= size <= p.Length
    requires HeapButBelow(p[..][start - 1 := temp], lo, size, start)
    modifies p
    ensures Heap(p[..], lo, size)
    ensures Permuted(old(p[..])[start - 1 := temp], p[..])
    ensures forall i :: (0 <= i < start - 1 || size <= i < p.Length) ==> p[i] == old(p[i])
  {
    hide Heap, HeapButBelow, Permuted;
    var k := start;
    ghost var s0 := p[..][start - 1 := temp];
    ghost var s := s0;
    PermutedSame(s0);
    while true
      invariant lo <= k <= size && start <= k && s == p[..][k - 1 := temp]
      invariant HeapButBelow(s, lo, size, k)
      invariant Permuted(s0, s)
      invariant forall i :: (0 <= i < start - 1 || size <= i < p.Length) ==> p[i] == old(p[i])
      decreases size - k
    {
      var c := 2 * k;
      if c > size {
        break;
      }
      if c < size && p[c] > p[c - 1] {
        c := c + 1;
      }
      if temp >= p[c - 1] {
        break;
      }
      ghost var t := s[k - 1 := s[c - 1]][c - 1 := s[k - 1]];
      HoleDown(s, lo, size, k, c, t);
      PermutedTwice(s0, s, t);
      p[k - 1] := p[c - 1];
      k := c;
      s := t;
    }
    HoleSettled(s, lo, size, k);
    p[k - 1] := temp;
    assert p[..] == s;
  }

  /** Building the heap, from the last parent back to the root. */
  method BuildHeap(p: array<nat>, size: nat)
    requires 2 <= size <= p.Length
    modifies p
    ensures Heap(p[..], 1, size)
    ensures Permuted(old(p[..]), p[..])
    ensures forall i :: size <= i < p.Length ==> p[i] == old(p[i])
  {
    hide Permuted;
    PermutedSame(p[..]);
    var i := size / 2;
    while i != 0
      invariant 0 <= i <= size / 2
      invariant Heap(p[..], i + 1, size)
      invariant Permuted(old(p[..]), p[..])
      invariant forall j :: size <= j < p.Length ==> p[j] == old(p[j])
    {
      ghost var s := p[..];
      assert s[i - 1 := p[i - 1]] == s;
      SiftDown(p, i, size, p[i - 1], i);
      PermutedTwice(old(p[..]), s, p[..]);
      i := i - 1;
    }
  }

  /** The top is in place once everything up to `size` is a heap below what follows it. */
  predicate Partition(s: seq<nat>, size: nat, n: nat)
    requires 1 <= size <= n <= |s|
  {
    && Heap(s, 1, size) && Sorted(s, size, n)
    && forall i :: size <= i < n ==> s[0] <= s[i]
  }

  /** Taking the top out leaves a hole below its larger child. */
  lemma TopTaken(s: seq<nat>, size: nat, n: nat, k: nat, t: seq<nat>)
    requires 3 < size <= n <= |s| && Partition(s, size, n)
    requires k == (if s[2] > s[1] then 3 else 2)
    requires t == s[size - 1 := s[0]][0 := s[k - 1]]
    ensures HeapButBelow(t[k - 1 := s[size - 1]], 1, size - 1, k)
    ensures Permuted(s, t[k - 1 := s[size - 1]])
    ensures Sorted(t, size - 1, n) && forall i :: size - 1 <= i < n ==> t[0] <= t[i]
  {
    hide Permuted;
    CycleKeeps(s, size - 1, 0, k - 1);
    HeapWithoutTop(s, size, k, t[k - 1 := s[size - 1]]);
    hide HeapButBelow;
    TopIsMax(s, size, k);
    assert At(s, k) == s[k - 1] && At(s, 1) == s[0];
    hide Heap;
  }

  lemma HeapWithoutTop(s: seq<nat>, size: nat, k: nat, u: seq<nat>)
    requires 3 < size <= |s| && Heap(s, 1, size)
    requires k == (if s[2] > s[1] then 3 else 2)
    requires u == s[size - 1 := s[0]][0 := s[k - 1]][k - 1 := s[size - 1]]
    ensures HeapButBelow(u, 1, size - 1, k)
  {
    assert forall x :: 1 <= x < size ==> At(u, x) == (if x == 1 then At(s, k) else if x == k then At(s, size) else At(s, x));
    ChildrenBound(s, size, k, size);
    forall j | 2 <= j <= size - 1
      ensures At(s, j) <= At(s, k) && Edge(s, j)
    {
      ChildrenBound(s, size, k, j);
    }
    hide At;
    forall j | 2 <= j <= size - 1 && j / 2 != k
      ensures Edge(u, j)
    {
      assert Edge(s, j);
    }
    forall c | 2 * k <= c <= size - 1 && c <= 2 * k + 1
      ensures At(u, k / 2) >= At(u, c)
    {
      assert Edge(s, c);
    }
  }

  /** Every position of the heap is below one of the two children of the root or is the root. */
  lemma {:induction false} ChildrenBound(s: seq<nat>, size: nat, k: nat, j: nat)
    requires 3 <= size <= |s| && 2 <= j <= size && Heap(s, 1, size)
    requires k == (if s[2] > s[1] then 3 else 2)
    ensures At(s, j) <= At(s, k)
  {
    if j > 3 {
      assert Edge(s, j);
      ChildrenBound(s, size, k, j / 2);
    }
  }

  lemma NothingTaken(s: seq<nat>, size: nat)
    requires 1 <= size <= |s| && Heap(s, 1, size)
    ensures Partition(s, size, size)
  {
  }

  lemma StillPartition(s: seq<nat>, t: seq<nat>, m: nat, n: nat, k: nat)
    requires 1 < k <= m <= n <= |s| == |t| && Heap(t, 1, m) && Sorted(s, m, n)
    requires forall i :: m <= i < n ==> s[0] <= s[i]
    requires forall i :: (0 <= i < k - 1 || m <= i < |s|) ==> t[i] == s[i]
    ensures Partition(t, m, n)
  {
  }

  /** The largest value of the heap goes to its end, and the heap shrinks by one. */
  method TakeTop(p: array<nat>, size: nat, ghost n: nat)
    requires 3 < size <= n <= p.Length && Partition(p[..], size, n)
    modifies p
    ensures Partition(p[..], size - 1, n)
    ensures Permuted(old(p[..]), p[..])
    ensures forall i :: n <= i < p.Length ==> p[i] == old(p[i])
  {
    hide Heap, HeapButBelow, Partition, Permuted;
    ghost var s := p[..];
    var temp := p[size - 1];
    var k := if p[2] > p[1] then 3 else 2;
    p[size - 1] := p[0];
    p[0] := p[k - 1];
    ghost var t := p[..];
    assert t == s[size - 1 := s[0]][0 := s[k - 1]];
    TopTaken(s, size, n, k, t);
    SiftDown(p, k, size - 1, temp, 1);
    PermutedTwice(s, t[k - 1 := temp], p[..]);
    StillPartition(t, p[..], size - 1, n, k);
  }

  /** `HeapSort` */
  method HeapSort(p: array<nat>, size: nat)
    requires size <= p.Length
    modifies p
    ensures Sorted(p[..], 0, size)
    ensures Permuted(old(p[..]), p[..])
    ensures forall i :: size <= i < p.Length ==> p[i] == old(p[i])
  {
    hide Heap, Partition, Permuted;
    if size <= 1 {
      PermutedSame(p[..]);
      return;
    }
    BuildHeap(p, size);
    NothingTaken(p[..], size);
    var m := size;
    while m > 3
      invariant 2 <= m <= size && Partition(p[..], m, size)
      invariant Permuted(old(p[..]), p[..])
      invariant forall i :: size <= i < p.Length ==> p[i] == old(p[i])
    {
      ghost var s := p[..];
      TakeTop(p, m, size);
      PermutedTwice(old(p[..]), s, p[..]);
      m := m - 1;
    }
    ghost var s := p[..];
    SortLast(p, m, size);
    PermutedTwice(old(p[..]), s, p[..]);
  }

  /** The last two or three values. */
  method SortLast(p: array<nat>, m: nat, ghost n: nat)
    requires 2 <= m <= 3 && m <= n <= p.Length && Partition(p[..], m, n)
    modifies p
    ensures Sorted(p[..], 0, n) && Permuted(old(p[..]), p[..])
    ensures forall i :: n <= i < p.Length ==> p[i] == old(p[i])
  {
    hide Heap, Partition, Permuted, Sorted;
    ghost var s := p[..];
    var temp := p[m - 1];
    p[m - 1] := p[0];
    ghost var u := s[m - 1 := s[0]];
    assert p[..] == u;
    if m > 2 && p[1] < temp {
      p[0] := p[1];
      p[1] := temp;
      assert p[..] == u[0 := u[1]][1 := s[m - 1]];
    } else {
      p[0] := temp;
      assert p[..] == u[0 := s[m - 1]];
    }
    LastThree(s, m, n, p[..]);
  }

  lemma LastThree(s: seq<nat>, m: nat, n: nat, t: seq<nat>)
    requires 2 <= m <= 3 && m <= n <= |s| && Partition(s, m, n)
    requires var u := s[m - 1 := s[0]];
      t == if m > 2 && u[1] < s[m - 1] then u[0 := u[1]][1 := s[m - 1]] else u[0 := s[m - 1]]
    ensures Sorted(t, 0, n) && Permuted(s, t)
  {
    hide Permuted;
    assert Edge(s, 2) && At(s, 1) == s[0] && At(s, 2) == s[1];
    if m == 3 {
      assert Edge(s, 3) && At(s, 3) == s[2];
      if s[1] < s[2] {
        CycleKeeps(s, 2, 0, 1);
      } else {
        SwapKeeps(s, 2, 0);
      }
    } else {
      SwapKeeps(s, 1, 0);
    }
  }
}
