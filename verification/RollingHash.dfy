/** The rolling hash of deduplication (`lib/rolling_hash.h`), with the signed remainder of C. */
module RollingHash {
  import opened Arithmetic
  import opened Bytes

  /** `PRIME_NUMBER` */
  const MODULUS := 4294967295

  /** `RADIX` */
  const RADIX := 256

  /** The remainder of C, whose sign is that of `a`. */
  function CRem(a: int, b: int): int
    requires b > 0
  {
    if a >= 0 then a % b else -((-a) % b)
  }

  function PowR(n: nat): nat {
    if n == 0 then 1 else RADIX * PowR(n - 1)
  }

  /** The number whose digits are the bytes, the first one the least. */
  function Poly(s: seq<byte>): nat {
    if s == [] then 0 else s[0] as nat + RADIX * Poly(s[1..])
  }

  /** The same with the first byte the greatest. */
  function PolyForward(s: seq<byte>): nat {
    if s == [] then 0 else RADIX * PolyForward(s[..|s| - 1]) + s[|s| - 1] as nat
  }

  /** `erofs_rolling_hash_advance` */
  function Advance(prev: int, rm: nat, toRemove: byte, toAdd: byte): int {
    var removed := (toRemove * rm) % MODULUS;
    var hash := CRem(RADIX * (prev - removed), MODULUS);
    var next := CRem(hash + toAdd, MODULUS);
    if next < 0 then next + MODULUS else next
  }

  // ----- remainders --------------------------------------------------------------------

  /** `a` and `b` leave the same remainder. */
  predicate Same(a: int, b: int) {
    a % MODULUS == b % MODULUS
  }

  lemma SameBy(a: int, b: int, k: int)
    requires a == b + k * MODULUS
    ensures Same(a, b)
  {
    var q := b / MODULUS;
    assert b == q * MODULUS + b % MODULUS;
    assert a == (q + k) * MODULUS + b % MODULUS;
    DivModUnique(a, MODULUS, q + k, b % MODULUS);
  }

  lemma SameIs(a: int, b: int) returns (k: int)
    requires Same(a, b)
    ensures a == b + k * MODULUS
  {
    k := a / MODULUS - b / MODULUS;
    assert a == a / MODULUS * MODULUS + a % MODULUS;
    assert b == b / MODULUS * MODULUS + b % MODULUS;
  }

  lemma SameMod(a: int)
    ensures Same(a % MODULUS, a)
  {
    assert a == a / MODULUS * MODULUS + a % MODULUS;
    SameBy(a % MODULUS, a, -(a / MODULUS));
  }

  lemma CRemIs(a: int)
    ensures -MODULUS < CRem(a, MODULUS) < MODULUS && Same(CRem(a, MODULUS), a)
  {
    if a >= 0 {
      SameMod(a);
    } else {
      var q := (-a) / MODULUS;
      assert -a == q * MODULUS + (-a) % MODULUS;
      SameBy(CRem(a, MODULUS), a, q);
    }
  }

  lemma SameLinear(c: int, a: int, b: int, d: int)
    requires Same(a, b)
    ensures Same(c * a + d, c * b + d)
  {
    var k := SameIs(a, b);
    assert c * a + d == c * b + d + (c * k) * MODULUS;
    SameBy(c * a + d, c * b + d, c * k);
  }

  lemma SameTrans(a: int, b: int, c: int)
    requires Same(a, b) && Same(b, c)
    ensures Same(a, c)
  {
  }

  lemma SameSmall(a: int, b: int)
    requires Same(a, b) && 0 <= a < MODULUS
    ensures a == b % MODULUS
  {
    DivModUnique(a, MODULUS, 0, a);
  }

  // ----- the window moves --------------------------------------------------------------

  /** Advancing is what it looks like, for every old hash and every sign of the difference. */
  lemma AdvanceIs(prev: int, rm: nat, toRemove: byte, toAdd: byte)
    ensures 0 <= Advance(prev, rm, toRemove, toAdd) < MODULUS
    ensures Advance(prev, rm, toRemove, toAdd) == (RADIX * (prev - toRemove * rm) + toAdd) % MODULUS
  {
    hide Same, CRem;
    var p := toRemove * rm;
    var removed := p % MODULUS;
    var d := RADIX * (prev - removed);
    var h := CRem(d, MODULUS);
    var n := CRem(h + toAdd, MODULUS);
    CRemIs(d);
    CRemIs(h + toAdd);
    SameLinear(1, h, d, toAdd as int);
    SameTrans(n, h + toAdd, d + toAdd);
    SameMod(p);
    SameLinear(-RADIX, removed, p, RADIX * prev + toAdd);
    SameTrans(n, d + toAdd, RADIX * (prev - p) + toAdd);
    var r := Advance(prev, rm, toRemove, toAdd);
    SameBy(r, n, if n < 0 then 1 else 0);
    SameTrans(r, n, RADIX * (prev - p) + toAdd);
    SameSmall(r, RADIX * (prev - p) + toAdd);
  }

  lemma {:induction false} PolySplit(s: seq<byte>, n: nat)
    requires n == |s| - 1
    ensures Poly(s) == Poly(s[..n]) + s[n] as nat * PowR(n)
  {
    if n > 0 {
      PolySplit(s[1..], n - 1);
      assert s[1..][..n - 1] == s[..n][1..];
    }
  }

  /** The window moves down by one byte: its hash is that of the bytes it now covers. */
  lemma Slide(s: seq<byte>, add: byte, prev: int, rm: nat)
    requires |s| > 0 && prev == Poly(s) % MODULUS && rm == PowR(|s| - 1) % MODULUS
    ensures Advance(prev, rm, s[|s| - 1], add) == Poly([add] + s[..|s| - 1]) % MODULUS
  {
    hide Same, Poly, PowR, Advance;
    var n := |s| - 1;
    var last, t := s[n] as int, [add] + s[..n];
    AdvanceIs(prev, rm, s[n], add);
    PolySplit(s, n);
    assert Poly(t) == add as nat + RADIX * Poly(s[..n]) by { PolyCons(add, s[..n]); }
    SameMod(Poly(s));
    SameMod(PowR(n));
    SameLinear(-RADIX * last, rm, PowR(n), RADIX * prev + add);
    SameLinear(RADIX, prev, Poly(s), add - RADIX * (last * PowR(n)));
    var x := RADIX * (prev - last * rm) + add;
    assert x == -RADIX * last * rm + (RADIX * prev + add);
    assert -RADIX * last * PowR(n) + (RADIX * prev + add) == RADIX * prev + (add - RADIX * (last * PowR(n)));
    assert Poly(t) == RADIX * Poly(s) + (add - RADIX * (last * PowR(n)));
    SameTrans(x, RADIX * prev + (add - RADIX * (last * PowR(n))), Poly(t));
    SameEq(x, Poly(t));
  }

  lemma SameEq(a: int, b: int)
    requires Same(a, b)
    ensures a % MODULUS == b % MODULUS
  {
  }

  lemma PolyCons(x: byte, s: seq<byte>)
    ensures Poly([x] + s) == x as nat + RADIX * Poly(s)
  {
    assert ([x] + s)[1..] == s;
  }

  // ----- the loops ---------------------------------------------------------------------

  lemma Horner(h: nat, p: nat, x: byte)
    requires h == p % MODULUS
    ensures (RADIX * h + x) % MODULUS == (RADIX * p + x) % MODULUS
  {
    SameMod(p);
    SameLinear(RADIX, h, p, x as int);
  }

  /** `erofs_rolling_hash_init` */
  method HashInit(input: seq<byte>, backwards: bool) returns (hash: nat)
    ensures hash == (if backwards then Poly(input) else PolyForward(input)) % MODULUS
  {
    hash := 0;
    if !backwards {
      for i := 0 to |input|
        invariant hash == PolyForward(input[..i]) % MODULUS
      {
        Horner(hash, PolyForward(input[..i]), input[i]);
        assert input[..i + 1][..i] == input[..i];
        hash := (RADIX * hash + input[i]) % MODULUS;
      }
      assert input[..|input|] == input;
    } else {
      var len: nat := |input|;
      while len > 0
        invariant len <= |input| && hash == Poly(input[len..]) % MODULUS
      {
        Horner(hash, Poly(input[len..]), input[len - 1]);
        assert input[len - 1..] == [input[len - 1]] + input[len..];
        PolyCons(input[len - 1], input[len..]);
        len := len - 1;
        hash := (RADIX * hash + input[len]) % MODULUS;
      }
      assert input[0..] == input;
    }
  }

  /** `erofs_rollinghash_calc_rm` */
  method CalcRm(windowSize: nat) returns (rm: nat)
    ensures rm == PowR(Max(windowSize, 1) - 1) % MODULUS
  {
    rm := 1;
    for i := 0 to Max(windowSize, 1) - 1
      invariant rm == PowR(i) % MODULUS
    {
      Horner(rm, PowR(i), 0);
      rm := (rm * RADIX) % MODULUS;
    }
  }
}
