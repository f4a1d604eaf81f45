/** The hash chain match finder over a cyclic window (`kite_mf_getmatches_hc3` and its helpers). */
module MatchFinder {
  import opened Arithmetic
  import opened Bytes
  import opened ByteCompare
  import opened CrcTable
  import opened Slots

  /** `kHistorySize32` */
  const HISTORY_SIZE := 32768

  datatype Match = Match(len: nat, dist: nat)

  /** `struct kite_matchfinder_cfg` */
  datatype Config = Config(goodLen: nat, maxLazy: nat, niceLen: nat, depth: nat, lazySearch: bool)

  /** `kite_mfcfg`: the settings of the levels 1 to 9. */
  function ConfigOf(level: nat): (c: Config)
    requires 1 <= level <= 9
    ensures ConfigOk(c) && (c.lazySearch <==> level >= 4)
  {
    match level
    case 1 => Config(4, 4, 8, 4, false)
    case 2 => Config(4, 5, 16, 8, false)
    case 3 => Config(4, 6, 32, 32, false)
    case 4 => Config(4, 4, 16, 16, true)
    case 5 => Config(8, 16, 32, 32, true)
    case 6 => Config(8, 16, 128, 128, true)
    case 7 => Config(8, 32, 128, 256, true)
    case 8 => Config(32, 128, 258, 1024, true)
    case _ => Config(32, 258, 258, 4096, true)
  }

  predicate ConfigOk(c: Config) {
    MATCH_MIN_LEN < c.maxLazy <= c.niceLen <= MATCH_MAX_LEN && MATCH_MIN_LEN < c.goodLen
  }

  /** The hash of the three bytes at `i`. */
  function Key(buf: seq<byte>, i: nat): nat
    requires i + 3 <= |buf|
  {
    Xor(U16(buf, i), Crc(buf[i + 2]))
  }

  /** Equal hashes and equal first two bytes leave no room for a different third byte. */
  lemma ThirdByte(buf: seq<byte>, i: nat, j: nat)
    requires i + 3 <= |buf| && j + 3 <= |buf| && Key(buf, i) == Key(buf, j) && U16(buf, i) == U16(buf, j)
    ensures buf[i] == buf[j] && buf[i + 1] == buf[j + 1] && buf[i + 2] == buf[j + 2]
  {
    SameBytes(buf, i, j);
    hide U16;
    XorCancels(U16(buf, i), Crc(buf[i + 2]), Crc(buf[j + 2]));
    CrcInjective(buf[i + 2], buf[j + 2]);
  }

  lemma SameBytes(buf: seq<byte>, i: nat, j: nat)
    requires i + 2 <= |buf| && j + 2 <= |buf| && U16(buf, i) == U16(buf, j)
    ensures buf[i] == buf[j] && buf[i + 1] == buf[j + 1]
  {
  }

  lemma KeyBound(buf: seq<byte>, i: nat)
    requires i + 3 <= |buf|
    ensures Key(buf, i) < 65536
  {
    CrcInjective(buf[i + 2], 0);
    assert Pow2(16) == 65536 by { Fifteen(); }
    XorBound(U16(buf, i), Crc(buf[i + 2]), 16);
  }

  /** A match at `cur`: within the window and the buffer, not too long, and with equal bytes. */
  predicate Sound(buf: seq<byte>, cur: nat, wsiz: nat, limit: nat, m: Match) {
    && 1 <= m.dist < wsiz && m.dist <= cur && cur + m.len <= |buf| && m.len <= limit
    && Agree(buf, cur, buf, cur - m.dist, m.len)
  }

  /** Matches `1` to `n` are sound and longer and longer, all of them longer than `bestlen`. */
  predicate SoundMatches(buf: seq<byte>, cur: nat, wsiz: nat, limit: nat, bestlen: nat, ms: seq<Match>, n: int) {
    && n < |ms|
    && (forall k :: 1 <= k <= n ==> Sound(buf, cur, wsiz, limit, ms[k]) && ms[k].len > bestlen)
    && (forall j, k :: 1 <= j < k <= n ==> ms[j].len < ms[k].len)
  }

  /** Two positions with the same hash. */
  predicate SameKey(buf: seq<byte>, i: nat, j: nat) {
    i + 3 <= |buf| && j + 3 <= |buf| && Key(buf, i) == Key(buf, j)
  }

  /** Within the limit, the bytes at `q` and at `cur` agree on no more than `best`. */
  ghost predicate NotLonger(buf: seq<byte>, cur: nat, q: nat, limit: nat, best: nat)
    requires q < cur && cur + limit <= |buf|
  {
    forall l: nat :: l <= limit && Agree(buf, cur, buf, q, l) ==> l <= best
  }

  /** The positions between `q` and `cur` that a search from `cur` comes by first. */
  function Nearer(buf: seq<byte>, q: nat, cur: nat): set<nat> {
    set r: nat | q < r < cur && SameKey(buf, cur, r)
  }

  /**
   * Nothing longer than `best` is left to find for a search of `depth` steps: every position of the window
   * that fewer than `depth` others come before agrees on no more bytes.
   */
  ghost predicate Exhausted(buf: seq<byte>, cur: nat, wsiz: nat, limit: nat, depth: nat, best: nat)
    requires cur + limit <= |buf|
  {
    forall q: nat :: q < cur < q + wsiz && |Nearer(buf, q, cur)| < depth ==> NotLonger(buf, cur, q, limit, best)
  }

  /** With as many steps as the window has places, nothing in it is longer. */
  lemma WholeWindow(buf: seq<byte>, cur: nat, wsiz: nat, limit: nat, depth: nat, best: nat, q: nat)
    requires cur + limit <= |buf| && wsiz <= depth && Exhausted(buf, cur, wsiz, limit, depth, best)
    requires q < cur < q + wsiz
    ensures NotLonger(buf, cur, q, limit, best)
  {
    hide SameKey, NotLonger;
    FewNearer(buf, q, cur, cur);
  }

  lemma {:induction false} FewNearer(buf: seq<byte>, q: nat, cur: nat, end: nat)
    requires q < end
    ensures |set r: nat | q < r < end && SameKey(buf, cur, r)| <= end - q - 1
    decreases end
  {
    hide SameKey;
    if q + 1 < end {
      FewNearer(buf, q, cur, end - 1);
      var more, fewer := set r: nat | q < r < end && SameKey(buf, cur, r), set r: nat | q < r < end - 1 && SameKey(buf, cur, r);
      assert more == if SameKey(buf, cur, end - 1) then fewer + {end - 1} else fewer;
    } else {
      assert (set r: nat | q < r < end && SameKey(buf, cur, r)) == {};
    }
  }

  lemma {:induction false} Subset(a: set<nat>, b: set<nat>)
    requires a <= b
    ensures |a| <= |b|
  {
    if a != {} {
      var x :| x in a;
      Subset(a - {x}, b - {x});
    }
  }

  /** One step is enough for the nearest position with the same hash. */
  lemma NearestIsFirst(buf: seq<byte>, q: nat, cur: nat)
    requires forall r: nat :: q < r < cur ==> !SameKey(buf, cur, r)
    ensures |Nearer(buf, q, cur)| == 0
  {
    assert Nearer(buf, q, cur) == {};
  }

  /** Different hashes mean different bytes among the first three. */
  lemma DifferentKey(buf: seq<byte>, cur: nat, q: nat, limit: nat, best: nat)
    requires q < cur && cur + limit <= |buf| && 2 <= best && !SameKey(buf, cur, q)
    ensures NotLonger(buf, cur, q, limit, best)
  {
    hide SameKey;
    forall l: nat | best < l <= limit
      ensures !Agree(buf, cur, buf, q, l)
    {
      AgreeSameKey(buf, cur, q, l);
    }
  }

  lemma AgreeSameKey(buf: seq<byte>, i: nat, j: nat, l: nat)
    requires 3 <= l && i + l <= |buf| && j + l <= |buf|
    ensures Agree(buf, i, buf, j, l) ==> SameKey(buf, i, j)
  {
    hide Crc, Xor;
    if Agree(buf, i, buf, j, l) {
      AgreeAt(buf, i, buf, j, l, 0);
      AgreeAt(buf, i, buf, j, l, 1);
      AgreeAt(buf, i, buf, j, l, 2);
    }
  }

  /**
   * `v` names the latest earlier position with hash `h`: a position of this buffer before `end`, or, if
   * there is none, one of an earlier buffer, which is then out of the window.
   */
  predicate Entry(buf: seq<byte>, base: nat, h: nat, end: nat, v: nat) {
    && v < end
    && (v < base ==> v + HISTORY_SIZE < base)
    && (v >= base ==> v - base + 3 <= |buf| && Key(buf, v - base) == h)
    && forall q: nat :: base + q < end && q + 3 <= |buf| && Key(buf, q) == h ==> base + q <= v
  }

  /**
   * `struct kite_matchfinder`; the window size is a power of two, so `& (wsiz - 1)` is a remainder.
   * `matches` is the row of `matches_matrix` in use, `otherMatches` the other one.
   */
  class Finder {
    const wsiz: nat
    const cfg: Config
    const hash: array<nat>
    const chain: array<nat>
    var buffer: seq<byte>
    var base: nat
    var offset: nat
    var cyclicPos: nat
    var matches: seq<Match>
    var otherMatches: seq<Match>

    ghost predicate Shape()
      reads this
    {
      && hash.Length == 65536 && 0 < chain.Length == wsiz <= HISTORY_SIZE && hash != chain
      && ConfigOk(cfg)
      && offset <= |buffer| < 0x7fff_0000 && base <= 0x7fff_ffff && |matches| == |otherMatches| == 4
    }

    ghost predicate Valid()
      reads this, hash, chain
    {
      && Shape()
      && base > HISTORY_SIZE && matches[0].len == otherMatches[0].len == MATCH_MIN_LEN - 1
      && (offset + 3 <= |buffer| ==> cyclicPos == offset % wsiz)
      && (forall h :: 0 <= h < 65536 ==> Entry(buffer, base, h, base + offset, hash[h]))
      && ChainOk(buffer, base, offset, wsiz, chain[..])
    }

    /** What `Reset` needs: every entry names a position that has been passed, in whatever buffer. */
    ghost predicate Reusable()
      reads this, hash
    {
      Shape() && forall h :: 0 <= h < 65536 ==> hash[h] <= base + offset
    }

    /** A finder can be reset after any run. */
    lemma ValidIsReusable()
      requires Valid()
      ensures Reusable()
    {
    }

    /** A new finder; memory that the source leaves uninitialised counts as zero here. */
    constructor (wsiz: nat, cfg: Config)
      requires 0 < wsiz <= HISTORY_SIZE && ConfigOk(cfg)
      ensures Reusable() && this.wsiz == wsiz && this.cfg == cfg && fresh(hash) && fresh(chain)
    {
      this.wsiz, this.cfg := wsiz, cfg;
      hash, chain := new nat[65536](_ => 0), new nat[wsiz];
      buffer, base, offset, cyclicPos := [], 0, 0, 0;
      matches, otherMatches := seq(4, _ => Match(0, 0)), seq(4, _ => Match(0, 0));
    }

    /** `kite_mf_reset`: entries of earlier buffers fall out of the window. */
    method Reset(buf: seq<byte>)
      requires Reusable() && |buf| < 0x7fff_0000
      modifies this, hash
      ensures Valid() && buffer == buf && offset == 0
    {
      buffer := buf;
      base := base + offset + HISTORY_SIZE + 1;
      if base > 0x7fff_ffff {
        base := HISTORY_SIZE + 1;
        forall h | 0 <= h < 65536 {
          hash[h] := 0;
        }
      }
      offset, cyclicPos := 0, 0;
      matches := matches[0 := matches[0].(len := MATCH_MIN_LEN - 1)];
      otherMatches := otherMatches[0 := otherMatches[0].(len := MATCH_MIN_LEN - 1)];
    }

    /** Enters the position into its chain and returns the previous head of the chain. */
    method Insert(hv: nat) returns (curMatch: nat)
      requires Valid() && offset + 3 <= |buffer| && hv == Key(buffer, offset)
      modifies hash, chain
      ensures Shape() && cyclicPos == offset % wsiz && base > HISTORY_SIZE
      ensures matches[0].len == otherMatches[0].len == MATCH_MIN_LEN - 1
      ensures Entry(buffer, base, hv, base + offset, curMatch)
      ensures forall h :: 0 <= h < 65536 ==> Entry(buffer, base, h, base + offset + 1, hash[h])
      ensures ChainOk(buffer, base, offset + 1, wsiz, chain[..])
    {
      hide Key, Entry, ChainOk;
      KeyBound(buffer, offset);
      curMatch := hash[hv];
      ghost var before := chain[..];
      forall h | 0 <= h < 65536
        ensures Entry(buffer, base, h, base + offset + 1, if h == hv then base + offset else hash[h])
      {
        Entered(buffer, base, offset, h, hash[h]);
      }
      hash[hv] := base + offset;
      chain[cyclicPos] := curMatch;
      assert chain[..] == before[offset % wsiz := curMatch];
      Chained(buffer, base, offset, wsiz, before, curMatch);
    }

    /** The matches recorded so far, the longest of length `bestlen`. */
    predicate Searching(limit: nat, start: nat, bestlen: nat, k: nat)
      reads this
    {
      && 1 <= k <= 4 && start <= bestlen
      && SoundMatches(buffer, offset, wsiz, limit, start, matches, k - 1)
      && |matches| == 4 && bestlen == (if k == 1 then start else matches[k - 1].len)
    }

    /** Records the match at `q` if it is longer than the best one; of more than three the last is replaced. */
    method TryCandidate(q: nat, bestlen: nat, k: nat, limit: nat, ghost start: nat) returns (best: nat, k': nat)
      requires 2 <= start && bestlen < limit <= |buffer| - offset && q < offset < q + wsiz && offset + 3 <= |buffer|
      requires Key(buffer, q) == Key(buffer, offset) && Searching(limit, start, bestlen, k)
      modifies this`matches
      ensures best <= limit && Searching(limit, start, best, k') && matches[0] == old(matches[0])
      ensures bestlen <= best && NotLonger(buffer, offset, q, limit, best)
    {
      hide Key, U16, SoundMatches, Agree, NotLonger;
      best, k' := bestlen, k;
      if Passes(buffer, offset, q, bestlen) {
        CandidateAgrees(buffer, offset, q, bestlen);
        var i := MemCmp2(buffer, offset + bestlen + 1, buffer, q + bestlen + 1, limit - bestlen - 1,
                         offset + bestlen + 1, q + bestlen + 1);
        Longer(buffer, offset, q, bestlen + 1, i);
        LongestHere(buffer, offset, q, limit, bestlen + 1, i);
        best := bestlen + 1 + i;
        if k' >= 4 {
          k' := k' - 1;
        }
        Recorded(buffer, offset, wsiz, limit, start, matches, k, k', Match(best, offset - q));
        matches := matches[k' := Match(best, offset - q)];
        k' := k' + 1;
      } else {
        NoCandidate(buffer, offset, q, limit, bestlen);
      }
    }

    /** The entry of an earlier position in the window, and the next entry of its chain. */
    method Follow(hv: nat, curMatch: nat, ghost end: nat) returns (next: nat)
      requires Shape() && cyclicPos == offset % wsiz && ChainOk(buffer, base, offset + 1, wsiz, chain[..])
      requires Entry(buffer, base, hv, end, curMatch) && end <= base + offset && base + offset - curMatch < wsiz
      ensures base <= curMatch && curMatch - base < offset && curMatch - base + 3 <= |buffer|
      ensures Key(buffer, curMatch - base) == hv && Entry(buffer, base, hv, curMatch, next)
    {
      hide Key;
      InWindow(buffer, base, hv, end, curMatch, wsiz, offset);
      FollowChain(buffer, base, offset, wsiz, chain[..], curMatch - base, hv);
      var diff := base + offset - curMatch;
      RingBack(offset, diff, wsiz);
      next := chain[(wsiz + cyclicPos - diff) % wsiz];
    }

    /** The loop along the chain, for at most `depth` candidates. */
    method Search(depth: nat, start: nat, limit: nat, hv: nat, first: nat) returns (k: nat)
      requires Shape() && cyclicPos == offset % wsiz && 2 <= start < limit <= |buffer| - offset && 3 <= |buffer| - offset
      requires hv == Key(buffer, offset) && ChainOk(buffer, base, offset + 1, wsiz, chain[..])
      requires Entry(buffer, base, hv, base + offset, first)
      modifies this`matches
      ensures SoundMatches(buffer, offset, wsiz, limit, start, matches, k - 1) && k >= 1
      ensures |matches| == 4 && matches[0] == old(matches[0])
      ensures Exhausted(buffer, offset, wsiz, limit, depth, if k > 1 then matches[k - 1].len else start)
    {
      hide Key, Entry, ChainOk, SoundMatches, NotLonger, SameKey, Visited, Exhausted, Seen;
      ghost var slots := chain[..];
      NoMatches(buffer, offset, wsiz, limit, start, matches);
      k := 1;
      var curMatch: nat, bestlen: nat, rounds: nat := first, start, depth;
      ghost var end: nat := base + offset;
      NoneVisited(buffer, base, offset, hv, first, limit, start);
      while rounds > 0
        invariant Entry(buffer, base, hv, end, curMatch) && end <= base + offset && chain[..] == slots
        invariant bestlen < limit && Searching(limit, start, bestlen, k) && matches[0] == old(matches[0])
        invariant Seen(buffer, base, offset, curMatch, limit, bestlen, depth - rounds)
        decreases rounds
      {
        if base + offset - curMatch >= wsiz {
          WindowSeen(buffer, base, offset, wsiz, limit, depth, curMatch, bestlen, depth - rounds);
          return;
        }
        var next := Follow(hv, curMatch, end);
        ghost var best := bestlen;
        bestlen, k := TryCandidate(curMatch - base, bestlen, k, limit, start);
        OneSeen(buffer, base, offset, hv, curMatch, next, limit, best, bestlen, depth - rounds);
        end := curMatch;
        curMatch := next;
        if bestlen >= limit {
          LimitReached(buffer, offset, wsiz, limit, depth, bestlen);
          return;
        }
        rounds := rounds - 1;
      }
      DepthReached(buffer, base, offset, wsiz, limit, depth, curMatch, bestlen);
    }

    /** `kite_mf_getmatches_hc3`; -1 means that too little is left for a match. */
    method GetMatches(depth: nat, start: nat) returns (n: int)
      requires Valid() && 2 <= start < cfg.niceLen
      modifies this`offset, this`cyclicPos, this`matches, hash, chain
      ensures Valid() && matches[0] == old(matches[0])
      ensures |buffer| - old(offset) < start + 1 ==> n == -1 && offset == old(offset)
      ensures |buffer| - old(offset) >= start + 1 ==> 0 <= n && offset == old(offset) + 1
      ensures SoundMatches(buffer, old(offset), wsiz, Min(cfg.niceLen, |buffer| - old(offset)), start, matches, n)
      ensures Exhausted(buffer, old(offset), wsiz, Min(cfg.niceLen, |buffer| - old(offset)), depth, if n > 0 then matches[n].len else start)
    {
      hide Key, Entry, ChainOk, U16, SoundMatches, Exhausted;
      NoMatches(buffer, offset, wsiz, Min(cfg.niceLen, |buffer| - offset), start, matches);
      if |buffer| - offset < start + 1 {
        LimitReached(buffer, offset, wsiz, Min(cfg.niceLen, |buffer| - offset), depth, start);
        return -1;
      }
      KeyIs(buffer, offset);
      var hv := Xor(U16(buffer, offset), Crc(buffer[offset + 2]));
      var curMatch := Insert(hv);
      ghost var heads, slots := hash[..], chain[..];
      var k := Search(depth, start, Min(cfg.niceLen, |buffer| - offset), hv, curMatch);
      assert hash[..] == heads && chain[..] == slots;
      n := k - 1;
      Stepped(offset, wsiz);
      offset := offset + 1;
      cyclicPos := (cyclicPos + 1) % wsiz;
    }

    /** Changes rows. */
    method Toggle()
      requires Valid()
      modifies this`matches, this`otherMatches
      ensures Valid() && matches == old(otherMatches) && otherMatches == old(matches)
    {
      matches, otherMatches := otherMatches, matches;
    }

    /** `mf->matches[0].dist = c`: slot 0 stands for a literal. */
    method SetLiteral(c: byte)
      requires Valid()
      modifies this`matches
      ensures Valid() && matches[0] == Match(MATCH_MIN_LEN - 1, c as int) && matches[1..] == old(matches[1..])
    {
      matches := matches[0 := matches[0].(dist := c as int)];
    }

    /** `kite_mf_hc3_skip` */
    method Skip()
      requires Valid() && offset < |buffer|
      modifies this`offset, this`cyclicPos, this`matches, hash, chain
      ensures Valid() && matches[0] == old(matches[0]) && offset == old(offset) + 1
    {
      var n := GetMatches(0, MATCH_MIN_LEN - 1);
      if n >= 0 {
        return;
      }
      offset := offset + 1;
    }
  }

  lemma NoMatches(buf: seq<byte>, cur: nat, wsiz: nat, limit: nat, bestlen: nat, ms: seq<Match>)
    requires |ms| > 0
    ensures SoundMatches(buf, cur, wsiz, limit, bestlen, ms, 0) && SoundMatches(buf, cur, wsiz, limit, bestlen, ms, -1)
  {
  }

  /** A longer match goes behind the others, or replaces the last one when there is no more room. */
  lemma Recorded(buf: seq<byte>, cur: nat, wsiz: nat, limit: nat, bestlen: nat, ms: seq<Match>, k: nat, at: nat, m: Match)
    requires 1 <= at <= k <= at + 1 && at < |ms| && SoundMatches(buf, cur, wsiz, limit, bestlen, ms, k - 1)
    requires Sound(buf, cur, wsiz, limit, m) && m.len > bestlen && (k > 1 ==> m.len > ms[k - 1].len)
    ensures SoundMatches(buf, cur, wsiz, limit, bestlen, ms[at := m], at)
  {
  }

  /** The hash table after the position has been entered. */
  lemma Entered(buf: seq<byte>, base: nat, offset: nat, h: nat, v: nat)
    requires Entry(buf, base, h, base + offset, v)
    ensures offset + 3 <= |buf| ==>
              Entry(buf, base, h, base + offset + 1, if h == Key(buf, offset) then base + offset else v)
    ensures offset + 3 > |buf| ==> Entry(buf, base, h, base + offset + 1, v)
  {
    hide Key;
  }

  lemma Stepped(n: nat, w: nat)
    requires w > 0
    ensures (n % w + 1) % w == (n + 1) % w
  {
    var r := n % w + 1;
    assert n + 1 == n / w * w + r;
    if r < w {
      DivModUnique(n + 1, w, n / w, r);
      DivModUnique(r, w, 0, r);
    } else {
      DivModUnique(n + 1, w, n / w + 1, 0);
      DivModUnique(r, w, 1, 0);
    }
  }

  lemma KeyIs(buf: seq<byte>, i: nat)
    requires i + 3 <= |buf|
    ensures Key(buf, i) == Xor(U16(buf, i), Crc(buf[i + 2]))
  {
  }

  /** Storing the old head of the chain in the slot of the new position keeps the chains right. */
  lemma Chained(buf: seq<byte>, base: nat, offset: nat, wsiz: nat, chain: seq<nat>, head: nat)
    requires |chain| == wsiz > 0 && ChainOk(buf, base, offset, wsiz, chain) && offset + 3 <= |buf|
    requires Entry(buf, base, Key(buf, offset), base + offset, head)
    ensures ChainOk(buf, base, offset + 1, wsiz, chain[offset % wsiz := head])
  {
    hide Entry, Key;
    var after := chain[offset % wsiz := head];
    forall i: nat | offset + 1 - wsiz <= i < offset + 1
      ensures ChainAt(buf, base, wsiz, after, i)
    {
      if i < offset {
        assert ChainAt(buf, base, wsiz, chain, i);
        ModDistinct(i, offset, wsiz);
      }
    }
  }

  /** The positions with the same hash that lie behind `v`. */
  function Visited(buf: seq<byte>, base: nat, cur: nat, v: nat): set<nat> {
    set r: nat | r < cur && base + r > v && SameKey(buf, cur, r)
  }

  /** The search has come as far as `v`, after `steps` candidates: nothing behind it is longer than `best`. */
  ghost predicate Seen(buf: seq<byte>, base: nat, cur: nat, v: nat, limit: nat, best: nat, steps: nat)
    requires cur + limit <= |buf|
  {
    && |Visited(buf, base, cur, v)| == steps
    && forall q: nat :: q < cur && base + q > v ==> NotLonger(buf, cur, q, limit, best)
  }

  lemma NoneVisited(buf: seq<byte>, base: nat, cur: nat, h: nat, v: nat, limit: nat, best: nat)
    requires Entry(buf, base, h, base + cur, v) && cur + limit <= |buf| && cur + 3 <= |buf| && h == Key(buf, cur) && 2 <= best
    ensures Seen(buf, base, cur, v, limit, best, 0)
  {
    hide Key, NotLonger;
    assert Visited(buf, base, cur, v) == {};
    forall q: nat | q < cur && base + q > v
      ensures NotLonger(buf, cur, q, limit, best)
    {
      DifferentKey(buf, cur, q, limit, best);
    }
  }

  lemma OneSeen(buf: seq<byte>, base: nat, cur: nat, h: nat, v: nat, next: nat, limit: nat, best: nat, best': nat, steps: nat)
    requires cur + limit <= |buf| && cur + 3 <= |buf| && h == Key(buf, cur) && 2 <= best <= best'
    requires base <= v && v - base < cur && v - base + 3 <= |buf| && Key(buf, v - base) == h && Entry(buf, base, h, v, next)
    requires Seen(buf, base, cur, v, limit, best, steps) && NotLonger(buf, cur, v - base, limit, best')
    ensures Seen(buf, base, cur, next, limit, best', steps + 1)
  {
    hide Key, NotLonger;
    assert Visited(buf, base, cur, next) == Visited(buf, base, cur, v) + {v - base};
    forall q: nat | q < cur && base + q > next
      ensures NotLonger(buf, cur, q, limit, best')
    {
      if base + q > v {
        StillNotLonger(buf, cur, q, limit, best, best');
      } else if base + q < v {
        DifferentKey(buf, cur, q, limit, best');
      }
    }
  }

  lemma StillNotLonger(buf: seq<byte>, cur: nat, q: nat, limit: nat, best: nat, best': nat)
    requires q < cur && cur + limit <= |buf| && best <= best' && NotLonger(buf, cur, q, limit, best)
    ensures NotLonger(buf, cur, q, limit, best')
  {
  }

  lemma WindowSeen(buf: seq<byte>, base: nat, cur: nat, wsiz: nat, limit: nat, depth: nat, v: nat, best: nat, steps: nat)
    requires cur + limit <= |buf| && base + cur - v >= wsiz && Seen(buf, base, cur, v, limit, best, steps)
    ensures Exhausted(buf, cur, wsiz, limit, depth, best)
  {
    hide NotLonger, SameKey;
  }

  lemma LimitReached(buf: seq<byte>, cur: nat, wsiz: nat, limit: nat, depth: nat, best: nat)
    requires cur + limit <= |buf| && limit <= best
    ensures Exhausted(buf, cur, wsiz, limit, depth, best)
  {
    hide SameKey;
  }

  lemma DepthReached(buf: seq<byte>, base: nat, cur: nat, wsiz: nat, limit: nat, depth: nat, v: nat, best: nat)
    requires cur + limit <= |buf| && Seen(buf, base, cur, v, limit, best, depth)
    ensures Exhausted(buf, cur, wsiz, limit, depth, best)
  {
    hide NotLonger, SameKey;
    forall q: nat | q < cur < q + wsiz && |Nearer(buf, q, cur)| < depth
      ensures NotLonger(buf, cur, q, limit, best)
    {
      if base + q <= v {
        Subset(Visited(buf, base, cur, v), Nearer(buf, q, cur));
      }
    }
  }

  /** An entry within the window is a position of this buffer. */
  lemma InWindow(buf: seq<byte>, base: nat, h: nat, p: nat, v: nat, wsiz: nat, cur: nat)
    requires Entry(buf, base, h, p, v) && p <= base + cur && base + cur - v < wsiz <= HISTORY_SIZE
    ensures v >= base && v - base < cur && v - base + 3 <= |buf| && Key(buf, v - base) == h
  {
  }

  /** The chain slot of a position in the window holds the next position to try. */
  lemma FollowChain(buf: seq<byte>, base: nat, offset: nat, wsiz: nat, chain: seq<nat>, q: nat, h: nat)
    requires |chain| == wsiz > 0 && ChainOk(buf, base, offset + 1, wsiz, chain)
    requires offset - wsiz < q < offset && q + 3 <= |buf| && Key(buf, q) == h
    ensures Entry(buf, base, h, base + q, chain[q % wsiz])
  {
    hide Entry, Key;
    assert ChainAt(buf, base, wsiz, chain, q);
  }

  /** The quick tests, with the hash, show that all bytes up to `bestlen` agree. */
  lemma CandidateAgrees(buf: seq<byte>, cur: nat, q: nat, bestlen: nat)
    requires q < cur && 2 <= bestlen && cur + bestlen < |buf| && SameKey(buf, cur, q) && Passes(buf, cur, q, bestlen)
    ensures Agree(buf, cur, buf, q, bestlen + 1)
  {
    ThirdByte(buf, cur, q);
    if bestlen >= 3 {
      SameBytes(buf, cur + bestlen - 1, q + bestlen - 1);
      hide Key, U16;
      ThreePieces(buf, cur, bestlen);
      ThreePieces(buf, q, bestlen);
    }
    assert buf[cur..cur + 3] == [buf[cur], buf[cur + 1], buf[cur + 2]];
    assert buf[q..q + 3] == [buf[q], buf[q + 1], buf[q + 2]];
  }

  /** The quick tests at `q` for more than `bestlen` bytes. */
  predicate Passes(buf: seq<byte>, cur: nat, q: nat, bestlen: nat)
    requires q < cur && 2 <= bestlen && cur + bestlen < |buf|
  {
    && U16(buf, cur) == U16(buf, q)
    && (bestlen < 3 || (U16(buf, cur + bestlen - 1) == U16(buf, q + bestlen - 1)
                        && buf[cur + 3..cur + bestlen] == buf[q + 3..q + bestlen]))
  }

  /** What fails the quick tests agrees on no more than `bestlen` bytes. */
  lemma NoCandidate(buf: seq<byte>, cur: nat, q: nat, limit: nat, bestlen: nat)
    requires q < cur && 2 <= bestlen < limit && cur + limit <= |buf| && !Passes(buf, cur, q, bestlen)
    ensures NotLonger(buf, cur, q, limit, bestlen)
  {
    hide Passes;
    forall l: nat | bestlen < l <= limit
      ensures !Agree(buf, cur, buf, q, l)
    {
      AgreePasses(buf, cur, q, bestlen, l);
    }
  }

  lemma AgreePasses(buf: seq<byte>, cur: nat, q: nat, bestlen: nat, l: nat)
    requires q < cur && 2 <= bestlen < l && cur + l <= |buf|
    ensures Agree(buf, cur, buf, q, l) ==> Passes(buf, cur, q, bestlen)
  {
    if Agree(buf, cur, buf, q, l) {
      SameU16(buf, cur, q, l, 0);
      SameU16(buf, cur, q, l, bestlen - 1);
      hide U16;
      if bestlen >= 3 {
        AgreePart(buf, cur, q, l, 3, bestlen);
      }
    }
  }

  lemma AgreePart(buf: seq<byte>, i: nat, j: nat, l: nat, lo: nat, hi: nat)
    requires i + l <= |buf| && j + l <= |buf| && Agree(buf, i, buf, j, l) && lo <= hi <= l
    ensures buf[i + lo..i + hi] == buf[j + lo..j + hi]
  {
    Part(buf, i, l, lo, hi);
    Part(buf, j, l, lo, hi);
  }

  lemma Part(buf: seq<byte>, i: nat, l: nat, lo: nat, hi: nat)
    requires i + l <= |buf| && lo <= hi <= l
    ensures buf[i + lo..i + hi] == buf[i..i + l][lo..hi]
  {
    var a, b := buf[i + lo..i + hi], buf[i..i + l][lo..hi];
    assert forall x :: 0 <= x < |a| ==> a[x] == buf[i + lo + x];
    assert |a| == |b| && forall x :: 0 <= x < |b| ==> b[x] == buf[i..i + l][lo + x];
  }

  lemma SameU16(buf: seq<byte>, i: nat, j: nat, l: nat, x: nat)
    requires i + l <= |buf| && j + l <= |buf| && Agree(buf, i, buf, j, l) && x + 2 <= l
    ensures U16(buf, i + x) == U16(buf, j + x)
  {
    AgreeAt(buf, i, buf, j, l, x);
    AgreeAt(buf, i, buf, j, l, x + 1);
  }

  /** Where the comparison stops, the bytes differ or the limit is reached. */
  lemma LongestHere(buf: seq<byte>, cur: nat, q: nat, limit: nat, m: nat, n: nat)
    requires q < cur && m <= limit && cur + limit <= |buf| && CommonPrefix(buf, cur + m, buf, q + m, limit - m, n)
    ensures NotLonger(buf, cur, q, limit, m + n)
  {
    forall l: nat | m + n < l <= limit
      ensures !Agree(buf, cur, buf, q, l)
    {
      Differs(buf, cur, q, l, m + n);
    }
  }

  lemma Differs(buf: seq<byte>, i: nat, j: nat, l: nat, x: nat)
    requires i + l <= |buf| && j + l <= |buf| && x < l && buf[i + x] != buf[j + x]
    ensures !Agree(buf, i, buf, j, l)
  {
    if Agree(buf, i, buf, j, l) {
      AgreeAt(buf, i, buf, j, l, x);
    }
  }

  lemma ThreePieces(buf: seq<byte>, i: nat, n: nat)
    requires 3 <= n && i + n < |buf|
    ensures buf[i..i + n + 1] == [buf[i], buf[i + 1], buf[i + 2]] + buf[i + 3..i + n] + [buf[i + n]]
  {
  }

  lemma Longer(buf: seq<byte>, i: nat, j: nat, m: nat, n: nat)
    requires i + m + n <= |buf| && j + m + n <= |buf|
    requires Agree(buf, i, buf, j, m) && Agree(buf, i + m, buf, j + m, n)
    ensures Agree(buf, i, buf, j, m + n)
  {
    assert buf[i..i + m + n] == buf[i..i + m] + buf[i + m..i + m + n];
    assert buf[j..j + m + n] == buf[j..j + m] + buf[j + m..j + m + n];
  }

  /** The chain slot of a position in the window names an earlier position with the same hash. */
  predicate ChainAt(buf: seq<byte>, base: nat, wsiz: nat, chain: seq<nat>, i: nat)
    requires |chain| == wsiz > 0
  {
    i + 3 <= |buf| ==> Entry(buf, base, Key(buf, i), base + i, chain[i % wsiz])
  }

  predicate ChainOk(buf: seq<byte>, base: nat, offset: nat, wsiz: nat, chain: seq<nat>)
    requires |chain| == wsiz > 0
  {
    forall i: nat :: offset - wsiz <= i < offset ==> ChainAt(buf, base, wsiz, chain, i)
  }

  /** Going back `d` places in the ring. */
  lemma RingBack(n: nat, d: nat, w: nat)
    requires 0 < d < w && d <= n
    ensures (w + n % w - d) % w == (n - d) % w
  {
    var q, r := (n - d) / w, (n - d) % w;
    var s := n % w;
    assert n - d == q * w + r && n == n / w * w + s;
    assert w + s - d == (q - n / w + 1) * w + r;
    DivModUnique(w + s - d, w, q - n / w + 1, r);
  }
}
