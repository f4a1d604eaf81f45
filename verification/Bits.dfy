/** Bit sequences, as RFC 1951 section 3.1.1 packs them into bytes, and the bit writer of `lib/kite_deflate.c`. */
module Bits {
  import opened Arithmetic
  import opened Bytes
  import opened Buffers

  /** The `n` low bits of `v`, lowest first. */
  function ToBits(v: nat, n: nat): (s: seq<bool>)
    ensures |s| == n
  {
    if n == 0 then [] else [v % 2 == 1] + ToBits(v / 2, n - 1)
  }

  /** The number whose bits these are, lowest first. */
  function FromBits(s: seq<bool>): nat {
    if s == [] then 0 else (if s[0] then 1 else 0) + 2 * FromBits(s[1..])
  }

  lemma {:induction false} FromToBits(v: nat, n: nat)
    requires v < Pow2(n)
    ensures FromBits(ToBits(v, n)) == v
  {
    if n > 0 {
      FromToBits(v / 2, n - 1);
      assert ToBits(v, n)[1..] == ToBits(v / 2, n - 1);
    }
  }

  lemma {:induction false} ToFromBits(s: seq<bool>)
    ensures FromBits(s) < Pow2(|s|) && ToBits(FromBits(s), |s|) == s
  {
    if s != [] {
      ToFromBits(s[1..]);
    }
  }

  lemma {:induction false} ToBitsSplit(v: nat, m: nat, n: nat)
    ensures ToBits(v, m + n) == ToBits(v, m) + ToBits(Shr(v, m), n)
  {
    if m > 0 {
      ToBitsSplit(v / 2, m - 1, n);
    }
  }

  /** Joining `y` above the `m` bits of `x`. */
  lemma {:induction false} ToBitsJoin(x: nat, y: nat, m: nat, n: nat)
    requires x < Pow2(m)
    ensures ToBits(x + Shl(y, m), m + n) == ToBits(x, m) + ToBits(y, n)
  {
    if m > 0 {
      ToBitsJoin(x / 2, y, m - 1, n);
      assert (x + Shl(y, m)) / 2 == x / 2 + Shl(y, m - 1);
    }
  }

  /** Only the `n` low bits show. */
  lemma {:induction false} ToBitsLow(v: nat, n: nat)
    ensures ToBits(Low(v, n), n) == ToBits(v, n)
  {
    if n > 0 {
      ToBitsLow(v / 2, n - 1);
    }
  }

  /** The bits of a byte string. */
  function BytesBits(s: seq<byte>): (t: seq<bool>)
    ensures |t| == 8 * |s|
  {
    if s == [] then [] else BytesBits(s[..|s| - 1]) + ToBits(s[|s| - 1], 8)
  }

  lemma BytesBitsPush(s: seq<byte>, c: byte)
    ensures BytesBits(s + [c]) == BytesBits(s) + ToBits(c, 8)
  {
    assert (s + [c])[..|s|] == s;
  }

  lemma {:induction false} BytesBitsConcat(s: seq<byte>, t: seq<byte>)
    ensures BytesBits(s + t) == BytesBits(s) + BytesBits(t)
  {
    if t == [] {
      assert s + t == s;
    } else {
      var n := |t| - 1;
      BytesBitsConcat(s, t[..n]);
      BytesBitsPush(s + t[..n], t[n]);
      BytesBitsPush(t[..n], t[n]);
      assert t == t[..n] + [t[n]] && s + t == s + t[..n] + [t[n]];
    }
  }

  /** Storing a number byte by byte, low byte first, stores its bits. */
  lemma {:induction false} BytesBitsLe(s: seq<byte>, t: seq<byte>, v: nat)
    requires forall i :: 0 <= i < |t| ==> t[i] as int == Shr(v, 8 * i) % 256
    ensures BytesBits(s + t) == BytesBits(s) + ToBits(v, 8 * |t|)
  {
    hide BytesBits, ToBits, Shr;
    if t == [] {
      assert s + t == s;
      assert ToBits(v, 0) == [];
    } else {
      var n := |t| - 1;
      BytesBitsLe(s, t[..n], v);
      BytesBitsPush(s + t[..n], t[n]);
      assert s + t == s + t[..n] + [t[n]];
      ToBitsSplit(v, 8 * n, 8);
      ByteBits(Shr(v, 8 * n));
    }
  }

  lemma ByteBits(w: nat)
    ensures ToBits(w % 256, 8) == ToBits(w, 8)
  {
    ToBitsLow(w, 8);
    LowByte(w);
  }

  lemma LowByte(w: nat)
    ensures Low(w, 8) == w % 256
  {
    Pow2Bytes();
    LowHigh(w, 8);
    ShlIsTimes(Shr(w, 8), 8);
    DivModUnique(w, 256, Shr(w, 8), Low(w, 8));
  }

  lemma ShrBytes(v: nat)
    ensures Shr(v, 0) == v && Shr(v, 8) == v / 256 && Shr(v, 16) == v / 65536 && Shr(v, 24) == v / 16777216
  {
    Pow2Bytes();
    ShrIs(v, 8);
    ShrIs(v, 16);
    ShrIs(v, 24);
  }

  lemma ShrIs(v: nat, k: nat)
    ensures Shr(v, k) == v / Pow2(k)
  {
    LowHigh(v, k);
    ShlIsTimes(Shr(v, k), k);
    DivModUnique(v, Pow2(k), Shr(v, k), Low(v, k));
  }

  lemma Pow2Bytes()
    ensures Pow2(0) == 1 && Pow2(8) == 256 && Pow2(16) == 65536 && Pow2(24) == 16777216 && Pow2(32) == 0x1_0000_0000
  {
    assert Pow2(4) == 16;
    Pow2Add(4, 4);
    Pow2Add(8, 8);
    Pow2Add(8, 16);
    Pow2Add(16, 16);
  }

  /** The bit buffer and the output of `struct kite_deflate`. */
  class BitWriter {
    const out: array<byte>
    var posOut: nat
    var inflight: nat
    var bitpos: nat

    ghost predicate Valid()
      reads this
    {
      bitpos <= 32 && inflight < Pow2(bitpos) && posOut <= out.Length
    }

    /** All bits written so far. */
    ghost function Written(): (s: seq<bool>)
      requires Valid()
      reads this, out
      ensures |s| == 8 * posOut + bitpos
    {
      BytesBits(out[..posOut]) + ToBits(inflight, bitpos)
    }

    constructor (out: array<byte>)
      ensures this.out == out && Valid() && Written() == []
    {
      this.out, posOut, inflight, bitpos := out, 0, 0, 0;
    }

    /** Stores the `n` low bytes of the bit buffer at the end of the output. */
    method StoreBytes(n: nat)
      requires n <= 4 && posOut + n <= out.Length
      modifies out
      ensures out[..posOut] == old(out[..posOut])
      ensures BytesBits(out[..posOut + n]) == BytesBits(old(out[..posOut])) + ToBits(inflight, 8 * n)
    {
      hide BytesBits, ToBits, Shr;
      if n > 0 { out[posOut] := inflight % 256; }
      if n > 1 { out[posOut + 1] := inflight / 256 % 256; }
      if n > 2 { out[posOut + 2] := inflight / 65536 % 256; }
      if n > 3 { out[posOut + 3] := inflight / 16777216 % 256; }
      ghost var t := out[posOut..posOut + n];
      assert out[..posOut + n] == old(out[..posOut]) + t;
      ShrBytes(inflight);
      BytesBitsLe(old(out[..posOut]), t, inflight);
    }

    /** `writebits` */
    method WriteBits(v: nat, bits: nat)
      requires Valid() && bits <= 16 && v < Pow2(bits)
      requires 8 * posOut + bitpos + bits <= 8 * out.Length
      modifies this, out
      ensures Valid() && Written() == old(Written()) + ToBits(v, bits)
    {
      hide BytesBits, ToBits, Shr, Shl, Or, Pow2;
      var rem := 32 - bitpos;
      JoinWord(inflight, v, bitpos, bits);
      inflight := Or(inflight, if rem == 0 then 0 else Shl(v, bitpos) % 0x1_0000_0000);
      if bits > rem {
        ghost var a, x := BytesBits(out[..posOut]), ToBits(old(inflight), bitpos);
        StoreBytes(4);
        assert a + ToBits(inflight, 32) + ToBits(Shr(v, rem), bits - rem)
            == a + (ToBits(inflight, 32) + ToBits(Shr(v, rem), bits - rem))
            == a + (x + ToBits(v, bits)) == a + x + ToBits(v, bits);
        posOut := posOut + 4;
        inflight := Shr(v, rem);
        bitpos := bits - rem;
        return;
      }
      bitpos := bitpos + bits;
    }

    /** `flushbits`: pads with zero bits up to a byte boundary. */
    method Flush()
      requires Valid() && 8 * posOut + bitpos <= 8 * out.Length
      modifies this, out
      ensures Valid() && bitpos == 0 && posOut == (|old(Written())| + 7) / 8
      ensures BytesBits(out[..posOut]) == old(Written()) + ToBits(0, 8 * posOut - |old(Written())|)
    {
      hide BytesBits, ToBits, Shr, Shl, Or;
      var n := (bitpos + 7) / 8;
      PadWord(inflight, bitpos, 8 * n - bitpos);
      StoreBytes(n);
      posOut, bitpos, inflight := posOut + n, 0, 0;
    }

    /** `memcpy` to the end of the output, at a byte boundary. */
    method Append(s: seq<byte>)
      requires Valid() && bitpos == 0 && posOut + |s| <= out.Length
      modifies this`posOut, out
      ensures Valid() && bitpos == 0 && Written() == old(Written()) + BytesBits(s)
    {
      hide BytesBits;
      assert ToBits(inflight, 0) == [];
      ghost var was := out[..posOut];
      CopyIn(out, posOut, s);
      BytesBitsConcat(was, s);
      posOut := posOut + |s|;
      assert out[..posOut] == was + s;
    }
  }

  /** What joining `v` to the bit buffer does, whether or not it fits. */
  lemma JoinWord(x: nat, v: nat, bitpos: nat, bits: nat)
    requires bitpos <= 32 && x < Pow2(bitpos) && bits <= 16 && v < Pow2(bits)
    ensures var rem := 32 - bitpos;
      var y := Or(x, if rem == 0 then 0 else Shl(v, bitpos) % 0x1_0000_0000);
      if bits <= rem then
        y < Pow2(bitpos + bits) && ToBits(y, bitpos + bits) == ToBits(x, bitpos) + ToBits(v, bits)
      else
        Shr(v, rem) < Pow2(bits - rem)
        && ToBits(y, 32) + ToBits(Shr(v, rem), bits - rem) == ToBits(x, bitpos) + ToBits(v, bits)
  {
    hide ToBits, Shr, Shl, Or, Pow2;
    var rem := 32 - bitpos;
    Pow2Bytes();
    if bits <= rem {
      ShlBound(v, bits, bitpos);
      Pow2Monotone(bitpos + bits, 32);
      OrDisjoint(x, v, bitpos);
      ToBitsJoin(x, v, bitpos, bits);
      if rem == 0 {
        NoBits(v, bits);
      }
    } else {
      ShlWraps(v, bitpos);
      if rem == 0 {
        ShlIsTimes(0, 32);
      }
      OrDisjoint(x, Low(v, rem), bitpos);
      ToBitsJoin(x, Low(v, rem), bitpos, rem);
      ToBitsLow(v, rem);
      ToBitsSplit(v, rem, bits - rem);
      ShrBound(v, rem, bits - rem);
      assert ToBits(x, bitpos) + ToBits(v, rem) + ToBits(Shr(v, rem), bits - rem)
          == ToBits(x, bitpos) + (ToBits(v, rem) + ToBits(Shr(v, rem), bits - rem));
    }
  }

  lemma NoBits(v: nat, bits: nat)
    requires bits == 0 && v < Pow2(bits)
    ensures v == 0 && Shl(v, 32) == 0
  {
    ShlIsTimes(v, 32);
  }

  /** A 32-bit shift keeps the bits that fit. */
  lemma ShlWraps(v: nat, k: nat)
    requires k <= 32
    ensures Shl(v, k) % 0x1_0000_0000 == Shl(Low(v, 32 - k), k)
  {
    hide Shr, Shl, Pow2, Low;
    var rem := 32 - k;
    var lo, hi := Low(v, rem), Shr(v, rem);
    Pow2Bytes();
    LowHigh(v, rem);
    ShlSum(lo, Shl(hi, rem), k);
    ShlAdd(hi, rem, k);
    ShlIsTimes(hi, 32);
    ShlBound(lo, rem, k);
    DivModUnique(Shl(v, k), 0x1_0000_0000, hi, Shl(lo, k));
  }

  lemma PadWord(x: nat, m: nat, n: nat)
    requires x < Pow2(m)
    ensures ToBits(x, m + n) == ToBits(x, m) + ToBits(0, n)
  {
    ShlIsTimes(0, m);
    ToBitsJoin(x, 0, m, n);
  }

  // ----- codes -------------------------------------------------------------------------

  /** The bits of a Huffman code, most significant first, as they appear in the stream. */
  function CodeBits(code: nat, n: nat): (s: seq<bool>)
    ensures |s| == n
  {
    if n == 0 then [] else CodeBits(code / 2, n - 1) + [code % 2 == 1]
  }

  lemma {:induction false} CodeBitsAt(code: nat, n: nat, i: nat)
    requires i < n
    ensures CodeBits(code, n)[i] == ToBits(code, n)[n - 1 - i]
  {
    if i + 1 < n {
      CodeBitsAt(code / 2, n - 1, i);
    }
  }

  lemma {:induction false} CodeBitsInjective(c: nat, d: nat, n: nat)
    requires c < Pow2(n) && d < Pow2(n) && CodeBits(c, n) == CodeBits(d, n)
    ensures c == d
  {
    if n > 0 {
      assert CodeBits(c, n)[..n - 1] == CodeBits(c / 2, n - 1);
      assert CodeBits(d, n)[..n - 1] == CodeBits(d / 2, n - 1);
      CodeBitsInjective(c / 2, d / 2, n - 1);
      assert CodeBits(c, n)[n - 1] == CodeBits(d, n)[n - 1];
    }
  }

  /** The first bits of a code are the bits of the code shifted down. */
  lemma {:induction false} CodeBitsPrefix(code: nat, m: nat, n: nat)
    requires m <= n
    ensures CodeBits(code, n)[..m] == CodeBits(Shr(code, n - m), m)
  {
    if m < n {
      CodeBitsPrefix(code / 2, m, n - 1);
      assert CodeBits(code, n)[..m] == CodeBits(code / 2, n - 1)[..m];
    } else {
      assert CodeBits(code, n)[..m] == CodeBits(code, n);
    }
  }

  /** Whether bit `i` lies in an odd group of `w` bits. */
  predicate OddGroup(i: nat, w: nat) {
    if w == 1 then i % 2 == 1
    else if w == 2 then i % 4 >= 2
    else if w == 4 then i % 8 >= 4
    else i % 16 >= 8
  }

  /** `x & mask`, for the mask of every other group of `w` bits: 0x5555, 0x3333, 0x0f0f, 0x00ff and their complements. */
  function AndGroups(x: seq<bool>, w: nat, odd: bool): (y: seq<bool>)
    ensures |y| == |x|
  {
    seq(|x|, i requires 0 <= i < |x| => x[i] && OddGroup(i, w) == odd)
  }

  /** `x << w` and `x >> w` within the word. */
  function Up(x: seq<bool>, w: nat): (y: seq<bool>)
    ensures |y| == |x|
  {
    seq(|x|, i requires 0 <= i < |x| => i >= w && x[i - w])
  }

  function Down(x: seq<bool>, w: nat): (y: seq<bool>)
    ensures |y| == |x|
  {
    seq(|x|, i requires 0 <= i < |x| => i + w < |x| && x[i + w])
  }

  function OrWords(x: seq<bool>, y: seq<bool>): (z: seq<bool>)
    requires |x| == |y|
    ensures |z| == |x|
  {
    seq(|x|, i requires 0 <= i < |x| => x[i] || y[i])
  }

  /** `((x & mask) << w) | ((x & ~mask) >> w)` */
  function SwapGroups(x: seq<bool>, w: nat): (y: seq<bool>)
    ensures |y| == |x|
  {
    OrWords(Up(AndGroups(x, w, false), w), Down(AndGroups(x, w, true), w))
  }

  /** `deflate_reversebits_one` on the 16 low bits of a code. */
  function ReverseOne(code: nat, bits: nat): nat
    requires bits <= 16
  {
    FromBits(SwapGroups(SwapGroups(SwapGroups(SwapGroups(ToBits(code, 16), 1), 2), 4), 8)[16 - bits..])
  }

  /** Where the swap of groups of `w` bits takes bit `i` from. */
  function Partner(i: nat, w: nat): nat {
    if OddGroup(i, w) && i >= w then i - w else i + w
  }

  lemma SwappedAt(x: seq<bool>, w: nat, i: nat)
    requires |x| == 16 && (w == 1 || w == 2 || w == 4 || w == 8) && i < 16
    ensures Partner(i, w) < 16 && SwapGroups(x, w)[i] == x[Partner(i, w)]
  {
    var j := Partner(i, w);
    PartnerFlips(i, w);
    var lo, hi := AndGroups(x, w, false), AndGroups(x, w, true);
    assert SwapGroups(x, w)[i] == (Up(lo, w)[i] || Down(hi, w)[i]);
    if OddGroup(i, w) {
      assert Up(lo, w)[i] == lo[j] == x[j];
      if i + w < 16 {
        PartnerFlips(i + w, w);
        assert Down(hi, w)[i] == hi[i + w] == false;
      }
    } else {
      assert Down(hi, w)[i] == hi[j] == x[j];
      if i >= w {
        PartnerFlips(i - w, w);
        assert Up(lo, w)[i] == lo[i - w] == false;
      }
    }
  }

  lemma PartnerFlips(i: nat, w: nat)
    requires (w == 1 || w == 2 || w == 4 || w == 8) && i < 16
    ensures Partner(i, w) < 16 && OddGroup(i, w) != OddGroup(Partner(i, w), w)
    ensures OddGroup(i, w) ==> i >= w
    ensures i >= w ==> OddGroup(i - w, w) != OddGroup(i, w)
    ensures OddGroup(i + w, w) != OddGroup(i, w)
  {
    if w == 1 { Flips1(i); } else if w == 2 { Flips2(i); } else if w == 4 { Flips4(i); } else { Flips8(i); }
  }

  lemma Flips1(i: nat)
    ensures OddGroup(i + 1, 1) != OddGroup(i, 1) && (i >= 1 ==> OddGroup(i - 1, 1) != OddGroup(i, 1))
  {
  }

  lemma Flips2(i: nat)
    ensures OddGroup(i + 2, 2) != OddGroup(i, 2) && (i >= 2 ==> OddGroup(i - 2, 2) != OddGroup(i, 2))
  {
  }

  lemma Flips4(i: nat)
    ensures OddGroup(i + 4, 4) != OddGroup(i, 4) && (i >= 4 ==> OddGroup(i - 4, 4) != OddGroup(i, 4))
  {
  }

  lemma Flips8(i: nat)
    ensures OddGroup(i + 8, 8) != OddGroup(i, 8) && (i >= 8 ==> OddGroup(i - 8, 8) != OddGroup(i, 8))
  {
  }

  /** The four swaps turn the word around. */
  lemma WordReversed(x: seq<bool>, i: nat)
    requires |x| == 16 && i < 16
    ensures SwapGroups(SwapGroups(SwapGroups(SwapGroups(x, 1), 2), 4), 8)[i] == x[15 - i]
  {
    hide SwapGroups, Partner;
    var x1 := SwapGroups(x, 1);
    var x2 := SwapGroups(x1, 2);
    var x4 := SwapGroups(x2, 4);
    SwappedAt(x4, 8, i);
    SwappedAt(x2, 4, Partner(i, 8));
    SwappedAt(x1, 2, Partner(Partner(i, 8), 4));
    SwappedAt(x, 1, Partner(Partner(Partner(i, 8), 4), 2));
    AllFlipped(i);
  }

  lemma AllFlipped(i: nat)
    requires i < 16
    ensures Partner(Partner(Partner(Partner(i, 8), 4), 2), 1) == 15 - i
  {
    var a, b, c, d := FourBits(i);
    hide Partner;
    FlipOne(a, b, c, d, 8);
    FlipOne(1 - a, b, c, d, 4);
    FlipOne(1 - a, 1 - b, c, d, 2);
    FlipOne(1 - a, 1 - b, 1 - c, d, 1);
  }

  lemma FourBits(i: nat) returns (a: nat, b: nat, c: nat, d: nat)
    requires i < 16
    ensures a < 2 && b < 2 && c < 2 && d < 2 && i == 8 * a + 4 * b + 2 * c + d
  {
    a, b, c, d := i / 8, i % 8 / 4, i % 4 / 2, i % 2;
  }

  lemma FlipOne(a: nat, b: nat, c: nat, d: nat, w: nat)
    requires a < 2 && b < 2 && c < 2 && d < 2 && (w == 1 || w == 2 || w == 4 || w == 8)
    ensures Partner(8 * a + 4 * b + 2 * c + d, w) ==
      (if w == 8 then 8 * (1 - a) + 4 * b + 2 * c + d
       else if w == 4 then 8 * a + 4 * (1 - b) + 2 * c + d
       else if w == 2 then 8 * a + 4 * b + 2 * (1 - c) + d
       else 8 * a + 4 * b + 2 * c + 1 - d)
  {
  }

  /** Written lowest bit first, a reversed code appears most significant bit first. */
  lemma ReversedCode(code: nat, n: nat)
    requires n <= 16 && code < Pow2(n)
    ensures ReverseOne(code, n) < Pow2(n) && ToBits(ReverseOne(code, n), n) == CodeBits(code, n)
  {
    hide SwapGroups;
    var x := ToBits(code, 16);
    var y := SwapGroups(SwapGroups(SwapGroups(SwapGroups(x, 1), 2), 4), 8)[16 - n..];
    ToFromBits(y);
    ToBitsSplit(code, n, 16 - n);
    forall i | 0 <= i < n
      ensures y[i] == CodeBits(code, n)[i]
    {
      WordReversed(x, 16 - n + i);
      CodeBitsAt(code, n, i);
      assert x[n - 1 - i] == ToBits(code, n)[n - 1 - i];
    }
    assert y == CodeBits(code, n);
  }
}
