/** The word-at-a-time comparison shared by the match finder and deduplication (`erofs_memcmp2`). */
module ByteCompare {
  import opened Bytes

  const WORD := 8

  /** The first `n` bytes from `i` in `a` and from `j` in `b` agree. */
  predicate Agree(a: seq<byte>, i: nat, b: seq<byte>, j: nat, n: nat)
    requires i + n <= |a| && j + n <= |b|
  {
    a[i..i + n] == b[j..j + n]
  }

  /** `n` is the length of the longest common prefix, looking at no more than `sz` bytes. */
  predicate CommonPrefix(a: seq<byte>, i: nat, b: seq<byte>, j: nat, sz: nat, n: nat)
    requires i + sz <= |a| && j + sz <= |b|
  {
    n <= sz && Agree(a, i, b, j, n) && (n < sz ==> a[i + n] != b[j + n])
  }

  /** Two words are equal if and only if their bytes are. */
  predicate SameWord(a: seq<byte>, i: nat, b: seq<byte>, j: nat)
    requires i + WORD <= |a| && j + WORD <= |b|
  {
    a[i..i + WORD] == b[j..j + WORD]
  }

  lemma AgreeWord(a: seq<byte>, i: nat, b: seq<byte>, j: nat, n: nat)
    requires i + n + WORD <= |a| && j + n + WORD <= |b|
    requires Agree(a, i, b, j, n) && SameWord(a, i + n, b, j + n)
    ensures Agree(a, i, b, j, n + WORD)
  {
    assert a[i..i + n + WORD] == a[i..i + n] + a[i + n..i + n + WORD];
    assert b[j..j + n + WORD] == b[j..j + n] + b[j + n..j + n + WORD];
  }

  lemma AgreeByte(a: seq<byte>, i: nat, b: seq<byte>, j: nat, n: nat)
    requires i + n < |a| && j + n < |b| && Agree(a, i, b, j, n) && a[i + n] == b[j + n]
    ensures Agree(a, i, b, j, n + 1)
  {
    assert a[i..i + n + 1] == a[i..i + n] + [a[i + n]];
    assert b[j..j + n + 1] == b[j..j + n] + [b[j + n]];
  }

  /** Bytes that agree, one by one. */
  lemma AgreeAt(a: seq<byte>, i: nat, b: seq<byte>, j: nat, n: nat, x: nat)
    requires i + n <= |a| && j + n <= |b| && Agree(a, i, b, j, n) && x < n
    ensures a[i + x] == b[j + x]
  {
    assert a[i..i + n][x] == b[j..j + n][x];
  }

  lemma NothingDiffers(a: seq<byte>, i: nat, b: seq<byte>, j: nat)
    requires i <= |a| && j <= |b|
    ensures Agree(a, i, b, j, 0)
  {
  }

  /** `erofs_memcmp2` on data at the addresses `s1` and `s2`. */
  method MemCmp2(a: seq<byte>, i: nat, b: seq<byte>, j: nat, sz: nat, s1: nat, s2: nat) returns (n: nat)
    requires i + sz <= |a| && j + sz <= |b|
    ensures CommonPrefix(a, i, b, j, sz, n)
  {
    hide SameWord, Agree;
    assert Agree(a, i, b, j, 0) by { NothingDiffers(a, i, b, j); }
    n := 0;
    if sz >= WORD {
      if s1 % WORD == s2 % WORD {
        while (s1 + n) % WORD != 0
          invariant n <= (WORD - s1 % WORD) % WORD && Agree(a, i, b, j, n)
          decreases sz - n
        {
          if a[i + n] != b[j + n] {
            break;
          }
          AgreeByte(a, i, b, j, n);
          n := n + 1;
        }
        while sz - n >= WORD
          invariant n <= sz && Agree(a, i, b, j, n)
        {
          if !SameWord(a, i + n, b, j + n) {
            break;
          }
          AgreeWord(a, i, b, j, n);
          n := n + WORD;
        }
      } else {
        while true
          invariant n + WORD <= sz && Agree(a, i, b, j, n)
          decreases sz - n
        {
          if !SameWord(a, i + n, b, j + n) {
            break;
          }
          AgreeWord(a, i, b, j, n);
          n := n + WORD;
          if sz - n < WORD {
            break;
          }
        }
      }
    }
    while n < sz
      invariant n <= sz && Agree(a, i, b, j, n)
    {
      if a[i + n] != b[j + n] {
        break;
      }
      AgreeByte(a, i, b, j, n);
      n := n + 1;
    }
  }
}
