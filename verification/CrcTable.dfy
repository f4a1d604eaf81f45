/**
 * The table that spreads the third byte of a match over the hash (`crc_ccitt_table`): the CRC of
 * each byte, computed bit by bit with the polynomial 0x8408.
 */
module CrcTable {
  import opened Arithmetic

  const POLYNOMIAL := 0x8408

  /** Bitwise exclusive or. */
  function Xor(x: nat, y: nat): nat {
    if x == 0 then y
    else if y == 0 then x
    else (if x % 2 == y % 2 then 0 else 1) + 2 * Xor(x / 2, y / 2)
  }

  lemma {:induction false} XorCancels(x: nat, y: nat, z: nat)
    requires Xor(x, y) == Xor(x, z)
    ensures y == z
  {
    if x > 0 {
      assert Xor(x, y) == (if x % 2 == y % 2 then 0 else 1) + 2 * Xor(x / 2, y / 2);
      assert Xor(x, z) == (if x % 2 == z % 2 then 0 else 1) + 2 * Xor(x / 2, z / 2);
      XorCancels(x / 2, y / 2, z / 2);
    }
  }

  lemma {:induction false} XorBound(x: nat, y: nat, n: nat)
    requires x < Pow2(n) && y < Pow2(n)
    ensures Xor(x, y) < Pow2(n)
  {
    if n > 0 && x > 0 && y > 0 {
      XorBound(x / 2, y / 2, n - 1);
    }
  }

  lemma {:induction false} XorTop(x: nat, y: nat, n: nat)
    requires x < Pow2(n) && y < Pow2(n)
    ensures Xor(x, y + Pow2(n)) == Xor(x, y) + Pow2(n)
  {
    if n > 0 && x > 0 {
      XorTop(x / 2, y / 2, n - 1);
      assert (y + Pow2(n)) / 2 == y / 2 + Pow2(n - 1);
      assert Xor(x, y) == (if x % 2 == y % 2 then 0 else 1) + 2 * Xor(x / 2, y / 2);
    }
  }

  /** One bit of the CRC. */
  function Shift(x: nat): nat {
    if x % 2 == 1 then Xor(x / 2, POLYNOMIAL) else x / 2
  }

  function Shifts(x: nat, n: nat): nat {
    if n == 0 then x else Shift(Shifts(x, n - 1))
  }

  /** The table entry of byte `c`. */
  function Crc(c: nat): nat {
    Shifts(c, 8)
  }

  lemma ShiftTop(x: nat)
    requires x < 65536
    ensures Shift(x) < 65536 && (x % 2 == 1 <==> Shift(x) >= 32768)
  {
    Fifteen();
    if x % 2 == 1 {
      XorTop(x / 2, 0x408, 15);
      XorBound(x / 2, 0x408, 15);
    }
  }

  lemma Fifteen()
    ensures Pow2(15) == 32768
  {
    assert Pow2(5) == 32;
    Pow2Add(5, 5);
    Pow2Add(5, 10);
  }

  /** The top bit tells which way a shift went, so it can be undone. */
  lemma {:induction false} ShiftsInjective(x: nat, y: nat, n: nat)
    requires x < 65536 && y < 65536
    ensures Shifts(x, n) < 65536 && (Shifts(x, n) == Shifts(y, n) ==> x == y)
    decreases n
  {
    if n > 0 {
      ShiftsInjective(x, y, n - 1);
      ShiftsInjective(y, x, n - 1);
      var a, b := Shifts(x, n - 1), Shifts(y, n - 1);
      ShiftTop(a);
      ShiftTop(b);
      if Shift(a) == Shift(b) && a % 2 == 1 {
        assert Xor(POLYNOMIAL, 0) == POLYNOMIAL;
        XorSwap(a / 2, POLYNOMIAL);
        XorSwap(b / 2, POLYNOMIAL);
        XorCancels(POLYNOMIAL, a / 2, b / 2);
      }
    }
  }

  lemma {:induction false} XorSwap(x: nat, y: nat)
    ensures Xor(x, y) == Xor(y, x)
  {
    if x > 0 && y > 0 {
      XorSwap(x / 2, y / 2);
    }
  }

  /** No two bytes have the same entry. */
  lemma CrcInjective(c: nat, d: nat)
    requires c < 256 && d < 256
    ensures Crc(c) < 65536 && (Crc(c) == Crc(d) ==> c == d)
  {
    ShiftsInjective(c, d, 8);
  }
}
