/**
 * Block arithmetic and powers of two. The non-linear facts are isolated in small lemmas;
 * elsewhere the block functions are hidden and only these lemmas are used.
 */
module Arithmetic {

  function Min(a: int, b: int): int { if a < b then a else b }

  function Max(a: int, b: int): int { if a < b then b else a }

  /** `erofs_blknr` */
  function BlkNr(p: nat, b: nat): nat
    requires b > 0
  {
    p / b
  }

  /** `erofs_blkoff` */
  function BlkOff(p: nat, b: nat): nat
    requires b > 0
  {
    p % b
  }

  /** `erofs_pos` */
  function BlkPos(n: nat, b: nat): nat {
    n * b
  }

  /** `BLK_ROUND_UP` */
  function BlkRoundUp(p: nat, b: nat): nat
    requires b > 0
  {
    (p + b - 1) / b
  }

  /** `round_up(x, y)` and `roundup(x, y)` */
  function RoundUp(x: nat, y: nat): nat
    requires y > 0
  {
    (x + (y - 1)) / y * y
  }

  lemma MulMonotone(a: int, b: int, c: int)
    requires a <= b && c >= 0
    ensures a * c <= b * c
  {
  }

  lemma MulCancels(a: int, b: int, c: int)
    requires c > 0 && a * c <= b * c
    ensures a <= b
  {
    if a > b {
      MulMonotone(b + 1, a, c);
    }
  }

  /** Numbers less than `w` apart have different remainders. */
  lemma ModDistinct(i: nat, n: nat, w: nat)
    requires w > 0 && n - w < i < n
    ensures i % w != n % w
  {
    if i % w == n % w {
      var a, b := i / w, n / w;
      assert i == a * w + i % w && n == b * w + n % w;
      assert n - i == (b - a) * w;
      if b - a >= 1 { MulMonotone(1, b - a, w); } else { MulMonotone(b - a, 0, w); }
    }
  }

  lemma DivModUnique(a: int, b: int, q: int, r: int)
    requires b > 0 && a == q * b + r && 0 <= r < b
    ensures a / b == q && a % b == r
  {
    var q', r' := a / b, a % b;
    assert a == q' * b + r';
    assert (q - q') * b == r' - r && (q' - q) * b == r - r';
    if q > q' {
      MulMonotone(1, q - q', b);
    } else if q < q' {
      MulMonotone(1, q' - q, b);
    }
  }

  /** A position is its block's position plus its offset in the block. */
  lemma BlkSplit(p: nat, b: nat)
    requires b > 0
    ensures p == BlkPos(BlkNr(p, b), b) + BlkOff(p, b)
    ensures BlkOff(p, b) < b
  {
  }

  lemma BlkPosAdd(m: nat, n: nat, b: nat)
    ensures BlkPos(m + n, b) == BlkPos(m, b) + BlkPos(n, b)
  {
  }

  lemma BlkPosNext(n: nat, b: nat)
    ensures BlkPos(n + 1, b) == BlkPos(n, b) + b
    ensures BlkPos(0, b) == 0
  {
  }

  lemma BlkPosMonotone(m: nat, n: nat, b: nat)
    requires m <= n
    ensures BlkPos(m, b) <= BlkPos(n, b)
  {
    MulMonotone(m, n, b);
  }

  lemma BlkUnique(p: nat, b: nat, n: nat, o: nat)
    requires b > 0 && o < b && p == BlkPos(n, b) + o
    ensures BlkNr(p, b) == n && BlkOff(p, b) == o
  {
    DivModUnique(p, b, n, o);
  }

  lemma BlkMonotone(p: nat, q: nat, b: nat)
    requires b > 0 && p <= q
    ensures BlkNr(p, b) <= BlkNr(q, b)
    ensures BlkNr(p, b) == BlkNr(q, b) ==> BlkOff(p, b) <= BlkOff(q, b)
  {
    var x, y := p / b, q / b;
    assert q == y * b + q % b && p == x * b + p % b;
    assert (y + 1) * b == y * b + b;
    if x > y {
      MulMonotone(y + 1, x, b);
    }
  }

  /** Moving `p` forward by `l` moves its block number and its offset in the obvious way. */
  lemma Advance(p: nat, l: nat, b: nat)
    requires b > 0
    ensures BlkNr(p + l, b) == BlkNr(p, b) + BlkNr(BlkOff(p, b) + l, b)
    ensures BlkOff(p + l, b) == BlkOff(BlkOff(p, b) + l, b)
  {
    var s := p % b + l;
    assert p == p / b * b + p % b;
    assert s == s / b * b + s % b;
    assert p + l == (p / b + s / b) * b + s % b;
    DivModUnique(p + l, b, p / b + s / b, s % b);
  }

  /** `n` whole blocks fit below `p` exactly when `n` is at most the block number of `p`. */
  lemma BlkFits(p: nat, b: nat, n: nat)
    requires b > 0
    ensures BlkPos(n, b) <= p <==> n <= BlkNr(p, b)
    ensures BlkPos(1, b) == b && BlkPos(2, b) == 2 * b
  {
    BlkSplit(p, b);
    BlkPosNext(BlkNr(p, b), b);
    if n <= BlkNr(p, b) {
      BlkPosMonotone(n, BlkNr(p, b), b);
    } else {
      BlkPosMonotone(BlkNr(p, b) + 1, n, b);
    }
  }

  lemma BlkRoundUpIs(p: nat, b: nat)
    requires b > 0
    ensures BlkRoundUp(p, b) == BlkNr(p, b) + (if BlkOff(p, b) == 0 then 0 else 1)
  {
    if p % b == 0 {
      DivModUnique(p + b - 1, b, p / b, b - 1);
    } else {
      assert (p / b + 1) * b == p / b * b + b;
      DivModUnique(p + b - 1, b, p / b + 1, p % b - 1);
    }
  }

  function Pow2(n: nat): (p: nat)
    ensures p >= 1
  {
    if n == 0 then 1 else 2 * Pow2(n - 1)
  }

  lemma {:induction false} Pow2Add(m: nat, n: nat)
    ensures Pow2(m + n) == Pow2(m) * Pow2(n)
  {
    if m > 0 {
      Pow2Add(m - 1, n);
      assert Pow2(m + n) == 2 * (Pow2(m - 1) * Pow2(n)) == (2 * Pow2(m - 1)) * Pow2(n);
    }
  }

  lemma {:induction false} Pow2Monotone(m: nat, n: nat)
    requires m <= n
    ensures Pow2(m) <= Pow2(n)
  {
    if m < n {
      Pow2Monotone(m, n - 1);
    }
  }

  /** Bitwise or. */
  function Or(x: nat, y: nat): nat {
    if x == 0 || y == 0 then x + y
    else (if x % 2 == 1 || y % 2 == 1 then 1 else 0) + 2 * Or(x / 2, y / 2)
  }

  /** `v << k` */
  function Shl(v: nat, k: nat): nat {
    if k == 0 then v else 2 * Shl(v, k - 1)
  }

  /** `v >> k` */
  function Shr(v: nat, k: nat): nat {
    if k == 0 then v else Shr(v / 2, k - 1)
  }

  /** The `k` low bits of `v`. */
  function Low(v: nat, k: nat): (r: nat)
    ensures r < Pow2(k)
  {
    if k == 0 then 0 else v % 2 + 2 * Low(v / 2, k - 1)
  }

  lemma {:induction false} ShlAdd(v: nat, j: nat, k: nat)
    ensures Shl(v, j + k) == Shl(Shl(v, j), k)
  {
    if k > 0 {
      ShlAdd(v, j, k - 1);
    }
  }

  lemma {:induction false} ShlSum(v: nat, w: nat, k: nat)
    ensures Shl(v + w, k) == Shl(v, k) + Shl(w, k)
  {
    if k > 0 {
      ShlSum(v, w, k - 1);
    }
  }

  lemma {:induction false} ShlIsTimes(v: nat, k: nat)
    ensures Shl(v, k) == v * Pow2(k)
  {
    if k > 0 {
      ShlIsTimes(v, k - 1);
      assert v * Pow2(k) == 2 * (v * Pow2(k - 1));
    }
  }

  lemma {:induction false} LowHigh(v: nat, k: nat)
    ensures v == Low(v, k) + Shl(Shr(v, k), k)
  {
    if k > 0 {
      LowHigh(v / 2, k - 1);
    }
  }

  lemma {:induction false} ShrBound(v: nat, j: nat, k: nat)
    requires v < Pow2(j + k)
    ensures Shr(v, j) < Pow2(k)
  {
    if j > 0 {
      ShrBound(v / 2, j - 1, k);
    }
  }

  lemma {:induction false} ShlBound(v: nat, j: nat, k: nat)
    requires v < Pow2(j)
    ensures Shl(v, k) + Pow2(k) <= Pow2(j + k)
  {
    if k > 0 {
      ShlBound(v, j, k - 1);
    }
  }

  /** Numbers without common bits are joined by adding them. */
  lemma {:induction false} OrDisjoint(x: nat, y: nat, k: nat)
    requires x < Pow2(k)
    ensures Or(x, Shl(y, k)) == x + Shl(y, k)
  {
    if k > 0 && x > 0 && Shl(y, k) > 0 {
      OrDisjoint(x / 2, y, k - 1);
    }
  }
}
