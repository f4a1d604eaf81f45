/** Copying into byte buffers. */
module Buffers {
  import opened Bytes

  /** `memcpy` into a buffer. */
  method CopyIn(buf: array<byte>, at: nat, s: seq<byte>)
    requires at + |s| <= buf.Length
    modifies buf
    ensures buf[..] == old(buf[..at]) + s + old(buf[at + |s|..])
  {
    for i := 0 to |s|
      invariant buf[..at] == old(buf[..at]) && buf[at..at + i] == s[..i] && buf[at + i..] == old(buf[at + i..])
    {
      assert buf[at + i..][1..] == buf[at + i + 1..];
      assert old(buf[at + i..])[1..] == old(buf[at + i + 1..]);
      buf[at + i] := s[i];
      assert buf[at..at + i + 1] == s[..i] + [s[i]] == s[..i + 1];
    }
    assert buf[..] == buf[..at] + buf[at..at + |s|] + buf[at + |s|..];
  }

  /** A copy elsewhere leaves a slice alone. */
  lemma SliceKept(buf: seq<byte>, at: nat, s: seq<byte>, lo: nat, hi: nat)
    requires at + |s| <= |buf| && lo <= hi <= |buf| && (hi <= at || at + |s| <= lo)
    ensures (buf[..at] + s + buf[at + |s|..])[lo..hi] == buf[lo..hi]
  {
    var t := buf[..at] + s + buf[at + |s|..];
    assert forall j :: lo <= j < hi ==> t[j] == buf[j];
  }

  lemma SliceIs(buf: seq<byte>, at: nat, s: seq<byte>)
    requires at + |s| <= |buf|
    ensures (buf[..at] + s + buf[at + |s|..])[at..at + |s|] == s
  {
  }
}
