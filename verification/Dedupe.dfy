/** Deduplication of compressed extents (`lib/dedupe.c`). */
module Dedupe {
  import opened Arithmetic
  import opened ByteCompare
  import opened Bytes
  import opened Options
  import opened RollingHash

  const BUCKETS := 65536

  /**
   * `struct z_erofs_dedupe_item`: `extra` are the bytes behind the window. `original` is the history
   * of what was inserted.
   */
  datatype Item = Item(hash: nat, xxh: nat, sha: nat, extra: seq<byte>, length: nat,
                       blkaddr: nat, blks: nat, partial: bool, raw: bool, original: seq<byte>)

  /** The outcome of `z_erofs_dedupe_match`: where the match begins, its length, and whose it is. */
  datatype Match = NoEntry | Found(cur: nat, length: nat, partial: bool, item: Item)

  /** The digests, which are assumed functions of the bytes. */
  datatype Digests = Digests(xxh: seq<byte> -> nat, sha: seq<byte> -> nat)

  /** An item is what was computed from its original data. */
  predicate Stored(e: Item, w: nat, d: Digests) {
    && |e.original| == e.length >= w
    && e.hash == Poly(e.original[..w]) % MODULUS
    && e.xxh == d.xxh(e.original[..w]) && e.sha == d.sha(e.original[..w])
    && e.extra == e.original[w..]
  }

  /** Items of one bucket have different hashes of their windows. */
  ghost predicate ItemsOk(items: seq<Item>, w: nat, d: Digests) {
    && (forall i :: 0 <= i < |items| ==> Stored(items[i], w, d))
    && forall i, j :: 0 <= i < j < |items| && items[i].hash % BUCKETS == items[j].hash % BUCKETS ==> items[i].xxh != items[j].xxh
  }

  /** The search of a bucket: the first item with this hash and this window hash. */
  function FindItem(items: seq<Item>, hash: nat, xxh: nat): (r: Option<Item>)
    ensures r.Some? ==> r.value in items && r.value.hash == hash && r.value.xxh == xxh
    ensures r.None? ==> forall e :: e in items && e.hash == hash ==> e.xxh != xxh
  {
    if items == [] then None
    else if items[0].hash == hash && items[0].xxh == xxh then Some(items[0])
    else FindItem(items[1..], hash, xxh)
  }

  /** The length of the longest common prefix of at most `sz` bytes. */
  function Lcp(a: seq<byte>, i: nat, b: seq<byte>, j: nat, sz: nat): (n: nat)
    requires i + sz <= |a| && j + sz <= |b|
    ensures n <= sz
    decreases sz
  {
    if sz == 0 || a[i] != b[j] then 0 else 1 + Lcp(a, i + 1, b, j + 1, sz - 1)
  }

  lemma {:induction false} LcpUnique(a: seq<byte>, i: nat, b: seq<byte>, j: nat, sz: nat, n: nat)
    requires i + sz <= |a| && j + sz <= |b| && CommonPrefix(a, i, b, j, sz, n)
    ensures n == Lcp(a, i, b, j, sz)
    decreases sz
  {
    if n > 0 {
      AgreeAt(a, i, b, j, n, 0);
      assert a[i + 1..i + 1 + (n - 1)] == a[i..i + n][1..];
      assert b[j + 1..j + 1 + (n - 1)] == b[j..j + n][1..];
      LcpUnique(a, i + 1, b, j + 1, sz - 1, n - 1);
    }
  }

  lemma {:induction false} LcpAgrees(a: seq<byte>, i: nat, b: seq<byte>, j: nat, sz: nat)
    requires i + sz <= |a| && j + sz <= |b|
    ensures var n := Lcp(a, i, b, j, sz); a[i..i + n] == b[j..j + n]
    decreases sz
  {
    var n := Lcp(a, i, b, j, sz);
    if n > 0 {
      LcpAgrees(a, i + 1, b, j + 1, sz - 1);
      assert a[i..i + n] == [a[i]] + a[i + 1..i + 1 + (n - 1)];
      assert b[j..j + n] == [b[j]] + b[j + 1..j + 1 + (n - 1)];
    }
  }

  /** The item whose window is found at `c`, if the digests agree. */
  function ItemAt(items: seq<Item>, w: nat, d: Digests, data: seq<byte>, c: nat): Option<Item>
    requires c + w <= |data|
  {
    var x := data[c..c + w];
    var r := FindItem(items, Poly(x) % MODULUS, d.xxh(x));
    if r.Some? && d.sha(x) == r.value.sha then r else None
  }

  /** How far the data at `c` goes on like the item. */
  function LengthAt(e: Item, w: nat, data: seq<byte>, c: nat, end: nat): (n: nat)
    requires c + w <= end <= |data| && |e.extra| + w == e.length
    ensures c + n <= end && w <= n <= e.length
  {
    w + Lcp(data, c + w, e.extra, 0, Min(end - c - w, |e.extra|))
  }

  /** A match at `c` is good if it goes beyond `cur`. */
  ghost predicate Good(items: seq<Item>, w: nat, d: Digests, data: seq<byte>, c: nat, end: nat, cur: nat)
    requires ItemsOk(items, w, d) && c + w <= end <= |data|
  {
    var e := ItemAt(items, w, d, data, c);
    e.Some? && c + LengthAt(e.value, w, data, c, end) > cur
  }

  /** A match is a copy of the beginning of what was inserted, if equal digests mean equal windows. */
  lemma MatchIsCopy(items: seq<Item>, w: nat, d: Digests, data: seq<byte>, c: nat, end: nat)
    requires ItemsOk(items, w, d) && c + w <= end <= |data| && ItemAt(items, w, d, data, c).Some?
    requires forall e :: e in items && d.sha(e.original[..w]) == d.sha(data[c..c + w]) ==> e.original[..w] == data[c..c + w]
    ensures var e := ItemAt(items, w, d, data, c).value;
            |e.extra| + w == e.length &&
            var n := LengthAt(e, w, data, c, end);
            n <= |e.original| && data[c..c + n] == e.original[..n]
  {
    hide Poly, Lcp;
    var e := ItemAt(items, w, d, data, c).value;
    assert Stored(e, w, d);
    var sz := Min(end - c - w, |e.extra|);
    LcpAgrees(data, c + w, e.extra, 0, sz);
    Glue(data, c, w, e.original, Lcp(data, c + w, e.extra, 0, sz));
  }

  /** A window and what follows it. */
  lemma Glue(data: seq<byte>, c: nat, w: nat, original: seq<byte>, n: nat)
    requires c + w + n <= |data| && w + n <= |original|
    requires data[c..c + w] == original[..w] && data[c + w..c + w + n] == original[w..][0..0 + n]
    ensures data[c..c + (w + n)] == original[..w + n]
  {
    assert data[c..c + (w + n)] == data[c..c + w] + data[c + w..c + w + n];
    assert original[..w + n] == original[..w] + original[w..][0..0 + n];
  }

  /** The item of an extent whose data is `original`. */
  function NewItem(original: seq<byte>, w: nat, d: Digests, blkaddr: nat, blks: nat, partial: bool, raw: bool): (e: Item)
    requires w <= |original|
    ensures Stored(e, w, d)
  {
    Item(Poly(original[..w]) % MODULUS, d.xxh(original[..w]), d.sha(original[..w]), original[w..], |original|,
         blkaddr, blks, partial, raw, original)
  }

  /** The bucket of a window has an item with the same window hash. */
  predicate Listed(items: seq<Item>, window: seq<byte>, d: Digests) {
    exists e :: e in items && e.hash % BUCKETS == Poly(window) % MODULUS % BUCKETS && e.xxh == d.xxh(window)
  }

  class DedupeTable {
    const windowSize: nat
    const rm: nat
    var items: seq<Item>
    var committed: nat

    ghost predicate Valid(d: Digests)
      reads this
    {
      && ItemsOk(items, windowSize, d)
      && rm == PowR(Max(windowSize, 1) - 1) % MODULUS && committed <= |items|
    }

    /** `z_erofs_dedupe_init` */
    constructor (wsiz: nat)
      ensures forall d :: Valid(d)
      ensures windowSize == wsiz && items == []
    {
      windowSize := wsiz;
      var x := CalcRm(wsiz);
      rm := x;
      items, committed := [], 0;
    }

    /**
     * `z_erofs_dedupe_match`: the window moves back from `cur` to `start`; `addr` and `extraAddr` are
     * the addresses of the data and of the stored bytes.
     */
    method MatchBackward(d: Digests, data: seq<byte>, start: nat, end: nat, cur: nat, addr: nat, extraAddr: nat) returns (r: Match)
      requires Valid(d) && start <= cur <= end <= |data|
      ensures r.Found? ==>
                && windowSize > 0 && start <= r.cur <= cur && r.cur + windowSize <= end
                && ItemAt(items, windowSize, d, data, r.cur) == Some(r.item)
                && |r.item.extra| + windowSize == r.item.length
                && r.length == LengthAt(r.item, windowSize, data, r.cur, end) && r.cur + r.length > cur
                && r.partial == (r.item.partial || r.length < r.item.length)
      ensures windowSize > 0 ==>
                forall c: nat :: (if r.Found? then r.cur < c else start <= c) && c <= cur && c + windowSize <= end ==>
                                   !Good(items, windowSize, d, data, c, end, cur)
    {
      hide Poly, Lcp, PowR;
      if windowSize == 0 {
        return NoEntry;
      }
      var c := if cur > end - windowSize then end - windowSize else cur;
      var hash := 0;
      var initial := true;
      while c >= start
        invariant c <= cur && c + windowSize <= end
        invariant initial ==> c == Min(cur, end - windowSize)
        invariant !initial ==> -1 <= c && c + 1 + windowSize <= end && hash == Poly(data[c + 1..c + 1 + windowSize]) % MODULUS
        invariant forall k: nat :: c < k <= cur && k + windowSize <= end ==> !Good(items, windowSize, d, data, k, end, cur)
        decreases c - start
      {
        var window := data[c..c + windowSize];
        if initial {
          hash := HashInit(window, true);
          initial := false;
        } else {
          Slide(data[c + 1..c + 1 + windowSize], data[c], hash, rm);
          assert window == [data[c]] + data[c + 1..c + 1 + windowSize][..windowSize - 1];
          hash := RollingHash.Advance(hash, rm, data[c + windowSize], data[c]);
        }
        r := TryAt(d, data, c, end, cur, hash, addr, extraAddr);
        if r.Found? {
          return;
        }
        c := c - 1;
      }
      r := NoEntry;
    }

    /** The look at one window. */
    method TryAt(d: Digests, data: seq<byte>, c: nat, end: nat, cur: nat, hash: nat, addr: nat, extraAddr: nat) returns (r: Match)
      requires Valid(d) && c <= cur && c + windowSize <= end <= |data| && hash == Poly(data[c..c + windowSize]) % MODULUS
      ensures r.Found? <==> Good(items, windowSize, d, data, c, end, cur)
      ensures r.Found? ==>
                && r.cur == c && ItemAt(items, windowSize, d, data, c) == Some(r.item)
                && |r.item.extra| + windowSize == r.item.length
                && r.length == LengthAt(r.item, windowSize, data, c, end)
                && r.partial == (r.item.partial || r.length < r.item.length)
    {
      hide Poly, Lcp, PowR;
      var window := data[c..c + windowSize];
      var found := FindItem(items, hash, d.xxh(window));
      if found.None? || d.sha(window) != found.value.sha {
        return NoEntry;
      }
      var e := found.value;
      assert Stored(e, windowSize, d);
      var sz := Min(end - c - windowSize, e.length - windowSize);
      var extra := MemCmp2(data, c + windowSize, e.extra, 0, sz, addr + c + windowSize, extraAddr);
      LcpUnique(data, c + windowSize, e.extra, 0, sz, extra);
      if windowSize + extra <= cur - c {
        return NoEntry;
      }
      r := Found(c, windowSize + extra, e.partial || windowSize + extra < e.length, e);
    }

    /** `z_erofs_dedupe_insert` */
    method Insert(d: Digests, original: seq<byte>, blkaddr: nat, blks: nat, partial: bool, raw: bool)
      requires Valid(d)
      modifies this`items
      ensures Valid(d)
      ensures items == if windowSize == 0 || |original| < windowSize || Listed(old(items), original[..windowSize], d) then old(items)
                       else old(items) + [NewItem(original, windowSize, d, blkaddr, blks, partial, raw)]
    {
      hide Poly, PowR;
      if windowSize == 0 || |original| < windowSize {
        return;
      }
      var x := original[..windowSize];
      var di := NewItem(original, windowSize, d, blkaddr, blks, partial, raw);
      var hash := HashInit(x, true);
      assert hash == di.hash;
      var i := 0;
      while i < |items|
        invariant i <= |items|
        invariant forall j :: 0 <= j < i ==> !(items[j].hash % BUCKETS == hash % BUCKETS && items[j].xxh == di.xxh)
      {
        if items[i].hash % BUCKETS == hash % BUCKETS && items[i].xxh == di.xxh {
          assert items[i] in items;
          return;
        }
        i := i + 1;
      }
      items := items + [di];
    }

    /** `z_erofs_dedupe_commit`: keeps or drops what was inserted since the last one. */
    method Commit(d: Digests, drop: bool)
      requires Valid(d)
      modifies this`items, this`committed
      ensures Valid(d) && committed == |items|
      ensures items == if drop then old(items)[..old(committed)] else old(items)
    {
      if drop {
        items := items[..committed];
      }
      committed := |items|;
    }
  }
}
