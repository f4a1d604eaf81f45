/** Sizing and writing the extended attributes of an inode (`lib/xattr.c`). */
module XattrBody {
  import opened Arithmetic
  import opened Buffers
  import opened Bytes
  import opened Options

  /** `sizeof(struct erofs_xattr_ibody_header)` */
  const HEADER := 12

  /** `sizeof(struct erofs_xattr_entry)`, also the alignment of entries. */
  const ENTRY := 4

  /** `UCHAR_MAX` */
  const MAX_SHARED := 255

  /** A long name prefix: what follows the short prefix number `base`. */
  datatype Prefix = Prefix(base: nat, infix: seq<byte>)

  /**
   * `struct xattr_item`: the short prefix of its name, the name behind that prefix, its value, the
   * number of its long prefix and its number among the shared attributes, if it has them.
   */
  datatype Item = Item(base: nat, name: seq<byte>, value: seq<byte>, long: Option<nat>, shared: Option<nat>)

  function InfixLen(x: Item, pfs: seq<Prefix>): nat {
    if x.long.Some? && x.long.value < |pfs| then |pfs[x.long.value].infix| else 0
  }

  /** The part of the name that is stored. */
  function StoredName(x: Item, pfs: seq<Prefix>): seq<byte> {
    if InfixLen(x, pfs) <= |x.name| then x.name[InfixLen(x, pfs)..] else []
  }

  /** What the fields of an entry can hold. */
  predicate ItemOk(x: Item, pfs: seq<Prefix>) {
    && 1 <= x.base < 128 && |x.value| < 65536 && |StoredName(x, pfs)| < 256
    && (x.shared.Some? ==> x.shared.value < 0x1_0000_0000)
    && (x.long.Some? ==>
          && x.long.value < |pfs| && x.long.value < 128
          && pfs[x.long.value].base == x.base && pfs[x.long.value].infix <= x.name)
  }

  ghost predicate ItemsOk(items: seq<Item>, pfs: seq<Prefix>) {
    forall i :: 0 <= i < |items| ==> ItemOk(items[i], pfs)
  }

  function NameIndex(x: Item): nat {
    if x.long.Some? then 128 + x.long.value else x.base
  }

  /** The bytes of `erofs_write_xattr_entry`. */
  function EntryBytes(x: Item, pfs: seq<Prefix>): (s: seq<byte>)
    requires ItemOk(x, pfs)
    ensures |s| == ENTRY + |StoredName(x, pfs)| + |x.value|
  {
    [|StoredName(x, pfs)| as byte, NameIndex(x) as byte] + Le16(|x.value|) + StoredName(x, pfs) + x.value
  }

  /** `EROFS_XATTR_ALIGN` */
  function Align(n: nat): (r: nat)
    ensures n <= r < n + ENTRY && r % ENTRY == 0
  {
    (n + 3) / 4 * 4
  }

  function EntrySize(x: Item, pfs: seq<Prefix>): nat {
    Align(ENTRY + |StoredName(x, pfs)| + |x.value|)
  }

  lemma AlignAdd(p: nat, n: nat)
    requires p % ENTRY == 0
    ensures Align(p + n) == p + Align(n)
  {
    DivModUnique(p + n + 3, 4, p / 4 + (n + 3) / 4, (n + 3) % 4);
  }

  // ----- which attributes are shared ---------------------------------------------------

  /** The numbers that the inode stores: those of the first 255 shared attributes. */
  function SharedIds(items: seq<Item>): (r: seq<nat>)
    ensures |r| <= MAX_SHARED
  {
    if items == [] then []
    else
      var r, x := SharedIds(items[..|items| - 1]), items[|items| - 1];
      if x.shared.Some? && |r| < MAX_SHARED then r + [x.shared.value] else r
  }

  /** All others are stored in the inode, the last one first. */
  function Inline(items: seq<Item>): seq<Item> {
    if items == [] then []
    else
      var x := items[|items| - 1];
      if x.shared.Some? && |SharedIds(items[..|items| - 1])| < MAX_SHARED then Inline(items[..|items| - 1])
      else [x] + Inline(items[..|items| - 1])
  }

  lemma SplitNext(items: seq<Item>, i: nat)
    requires i < |items|
    ensures var x, r := items[i], SharedIds(items[..i]);
            && SharedIds(items[..i + 1]) == (if x.shared.Some? && |r| < MAX_SHARED then r + [x.shared.value] else r)
            && Inline(items[..i + 1]) == (if x.shared.Some? && |r| < MAX_SHARED then Inline(items[..i]) else [x] + Inline(items[..i]))
  {
    assert items[..i + 1][..i] == items[..i];
  }

  lemma {:induction false} InlineOk(items: seq<Item>, pfs: seq<Prefix>)
    requires ItemsOk(items, pfs)
    ensures ItemsOk(Inline(items), pfs)
  {
    if items != [] {
      var n := |items| - 1;
      InlineOk(items[..n], pfs);
      assert items[..n + 1] == items;
      SplitNext(items, n);
      hide Inline, SharedIds, ItemOk;
      assert ItemOk(items[n], pfs);
    }
  }

  /** No attribute is lost: every one is inline, or shared and among the numbers that the inode stores. */
  lemma {:induction false} NoneLost(items: seq<Item>, x: Item)
    ensures x in Inline(items) ==> x in items
    ensures x in items ==> x in Inline(items) || (x.shared.Some? && x.shared.value in SharedIds(items))
    ensures |SharedIds(items)| < MAX_SHARED && x in Inline(items) ==> x.shared.None?
  {
    if items != [] {
      var n := |items| - 1;
      var y := items[n];
      NoneLost(items[..n], x);
      assert items[..n + 1] == items && items == items[..n] + [y];
      SplitNext(items, n);
      hide Inline, SharedIds;
    }
  }

  function SizeOf(es: seq<Item>, pfs: seq<Prefix>): (n: nat)
    ensures n % ENTRY == 0
  {
    if es == [] then 0 else EntrySize(es[0], pfs) + SizeOf(es[1..], pfs)
  }

  /** The bytes that the attributes take. */
  function BodySize(items: seq<Item>, pfs: seq<Prefix>): nat {
    if items == [] then 0 else HEADER + ENTRY * |SharedIds(items)| + SizeOf(Inline(items), pfs)
  }

  /** The size loop of `erofs_prepare_xattr_ibody`. */
  method CountBody(items: seq<Item>, pfs: seq<Prefix>) returns (ret: nat)
    ensures ret == BodySize(items, pfs) && ret % ENTRY == 0
  {
    hide SharedIds, Inline, SizeOf, EntrySize, Align;
    ret := 0;
    if items != [] {
      var shared := 0;
      ret := HEADER;
      EmptySplit(items, pfs);
      for i := 0 to |items|
        invariant shared == |SharedIds(items[..i])|
        invariant ret == HEADER + ENTRY * shared + SizeOf(Inline(items[..i]), pfs)
      {
        SplitNext(items, i);
        if items[i].shared.Some? && shared < MAX_SHARED {
          shared := shared + 1;
          ret := ret + ENTRY;
        } else {
          SizeNext(items[i], Inline(items[..i]), pfs);
          AlignAdd(ret, ENTRY + |StoredName(items[i], pfs)| + |items[i].value|);
          EntrySizeIs(items[i], pfs);
          ret := Align(ret + ENTRY + |StoredName(items[i], pfs)| + |items[i].value|);
        }
      }
      assert items[..|items|] == items;
    }
  }

  lemma BodySizeIs(items: seq<Item>, pfs: seq<Prefix>)
    ensures BodySize(items, pfs) == if items == [] then 0 else HEADER + ENTRY * |SharedIds(items)| + SizeOf(Inline(items), pfs)
  {
  }

  /** `erofs_prepare_xattr_ibody`; `target` is the size that is wanted at least. */
  method Prepare(items: seq<Item>, pfs: seq<Prefix>, target: nat, noroom: bool) returns (r: Option<nat>)
    ensures var size := Max(BodySize(items, pfs), Align(target));
            r == if noroom && target > 0 && size > target then None else Some(size)
    ensures BodySize(items, pfs) == if items == [] then 0 else HEADER + ENTRY * |SharedIds(items)| + SizeOf(Inline(items), pfs)
  {
    BodySizeIs(items, pfs);
    hide BodySize;
    var body := CountBody(items, pfs);
    var ret := Pad(body, target);
    r := if noroom && target > 0 && ret > target then None else Some(ret);
  }

  /** The second loop of `erofs_prepare_xattr_ibody`. */
  method Pad(body: nat, target: nat) returns (ret: nat)
    requires body % ENTRY == 0
    ensures ret == Max(body, Align(target))
  {
    hide Align;
    ret := body;
    AlignIs(target, ret);
    while ret < target
      invariant ret % ENTRY == 0 && body <= ret && (ret == body || ret <= Align(target))
      decreases target - ret
    {
      AlignIs(target, ret);
      ret := ret + ENTRY;
      if ret < target {
        AlignIs(target, ret + Min(target - ret, 65535));
        ret := Align(ret + Min(target - ret, 65535));
      }
    }
    AlignIs(target, ret);
  }

  lemma AlignIs(t: nat, n: nat)
    ensures n <= t ==> Align(n) <= Align(t)
    ensures n % ENTRY == 0 && n < t ==> n + ENTRY <= Align(t)
    ensures n % ENTRY == 0 && t <= n ==> Align(t) <= n
  {
  }

  lemma SizeNext(x: Item, es: seq<Item>, pfs: seq<Prefix>)
    ensures SizeOf([x] + es, pfs) == EntrySize(x, pfs) + SizeOf(es, pfs)
  {
    assert ([x] + es)[1..] == es;
  }

  lemma EntrySizeIs(x: Item, pfs: seq<Prefix>)
    ensures EntrySize(x, pfs) == Align(ENTRY + |StoredName(x, pfs)| + |x.value|)
  {
  }

  lemma EmptySplit(items: seq<Item>, pfs: seq<Prefix>)
    ensures SharedIds(items[..0]) == [] && Inline(items[..0]) == [] && SizeOf([], pfs) == 0
  {
    assert items[..0] == [];
  }

  // ----- writing -----------------------------------------------------------------------

  ghost predicate EntryAt(buf: seq<byte>, p: nat, x: Item, pfs: seq<Prefix>) {
    ItemOk(x, pfs) && p + |EntryBytes(x, pfs)| <= |buf| && buf[p..p + |EntryBytes(x, pfs)|] == EntryBytes(x, pfs)
  }

  /** The entries are one behind the other, each aligned. */
  ghost predicate EntriesAt(buf: seq<byte>, p: nat, es: seq<Item>, pfs: seq<Prefix>)
    decreases |es|
  {
    es == [] || (EntryAt(buf, p, es[0], pfs) && EntriesAt(buf, p + EntrySize(es[0], pfs), es[1..], pfs))
  }

  /** The numbers of shared attributes behind the header. */
  ghost predicate IdsAt(buf: seq<byte>, ids: seq<nat>) {
    && HEADER + ENTRY * |ids| <= |buf|
    && forall i :: 0 <= i < |ids| ==> buf[HEADER + ENTRY * i..HEADER + ENTRY * i + ENTRY] == Le32(ids[i])
  }

  ghost predicate ZeroFrom(buf: seq<byte>, p: nat) {
    forall k :: p <= k < |buf| ==> buf[k] == 0
  }

  /** The attributes of an inode as they are stored. */
  ghost predicate IsBody(buf: seq<byte>, items: seq<Item>, pfs: seq<Prefix>) {
    var ids := SharedIds(items);
    && |buf| >= HEADER + ENTRY * |ids| + SizeOf(Inline(items), pfs)
    && IdsAt(buf, ids) && buf[4] == |ids|
    && EntriesAt(buf, HEADER + ENTRY * |ids|, Inline(items), pfs)
    && ZeroFrom(buf, HEADER + ENTRY * |ids| + SizeOf(Inline(items), pfs))
  }

  lemma {:induction false} EntriesKept(buf: seq<byte>, buf': seq<byte>, p: nat, es: seq<Item>, pfs: seq<Prefix>)
    requires EntriesAt(buf, p, es, pfs) && |buf'| == |buf|
    requires forall k :: p <= k < p + SizeOf(es, pfs) && k < |buf| ==> buf'[k] == buf[k]
    ensures EntriesAt(buf', p, es, pfs)
    decreases |es|
  {
    if es != [] {
      var n := |EntryBytes(es[0], pfs)|;
      assert EntryAt(buf, p, es[0], pfs);
      assert buf'[p..p + n] == buf[p..p + n];
      EntriesKept(buf, buf', p + EntrySize(es[0], pfs), es[1..], pfs);
    }
  }

  lemma {:induction false} EntriesSnoc(buf: seq<byte>, p: nat, es: seq<Item>, x: Item, pfs: seq<Prefix>)
    requires EntriesAt(buf, p, es, pfs) && EntryAt(buf, p + SizeOf(es, pfs), x, pfs)
    ensures EntriesAt(buf, p, es + [x], pfs) && SizeOf(es + [x], pfs) == SizeOf(es, pfs) + EntrySize(x, pfs)
    decreases |es|
  {
    hide EntryAt, EntrySize;
    if es == [] {
      assert es + [x] == [x] && [x][1..] == [];
      assert EntriesAt(buf, p + EntrySize(x, pfs), [], pfs);
      assert SizeOf([], pfs) == 0;
    } else {
      EntriesSnoc(buf, p + EntrySize(es[0], pfs), es[1..], x, pfs);
      assert (es + [x])[1..] == es[1..] + [x];
    }
  }

  /** `erofs_write_xattr_entry` */
  method WriteEntry(buf: array<byte>, p: nat, x: Item, pfs: seq<Prefix>)
    requires ItemOk(x, pfs) && p + |EntryBytes(x, pfs)| <= buf.Length
    modifies buf
    ensures buf[..] == old(buf[..p]) + EntryBytes(x, pfs) + old(buf[p + |EntryBytes(x, pfs)|..])
  {
    var name := StoredName(x, pfs);
    var head := [|name| as byte, NameIndex(x) as byte] + Le16(|x.value|);
    ghost var e := EntryBytes(x, pfs);
    assert e == head + name + x.value;
    CopyThree(buf, p, head, name, x.value);
  }

  /** Three copies, one behind the other. */
  method CopyThree(buf: array<byte>, p: nat, a: seq<byte>, b: seq<byte>, c: seq<byte>)
    requires p + |a| + |b| + |c| <= buf.Length
    modifies buf
    ensures buf[..] == old(buf[..p]) + (a + b + c) + old(buf[p + |a + b + c|..])
  {
    ghost var s := buf[..];
    CopyIn(buf, p, a);
    ghost var t := buf[..];
    assert t == s[..p] + a + s[p + |a|..];
    CopyIn(buf, p + |a|, b);
    ghost var u := buf[..];
    assert u == t[..p + |a|] + b + t[p + |a| + |b|..];
    CopyIn(buf, p + |a| + |b|, c);
    ThreeCopies(s, p, a, b, c);
  }

  lemma ThreeCopies(s: seq<byte>, p: nat, a: seq<byte>, b: seq<byte>, c: seq<byte>)
    requires p + |a| + |b| + |c| <= |s|
    ensures var t := s[..p] + a + s[p + |a|..];
            var u := t[..p + |a|] + b + t[p + |a| + |b|..];
            u[..p + |a| + |b|] + c + u[p + |a| + |b| + |c|..] == s[..p] + (a + b + c) + s[p + |a + b + c|..]
  {
    var t := s[..p] + a + s[p + |a|..];
    var u := t[..p + |a|] + b + t[p + |a| + |b|..];
    assert u[..p + |a| + |b|] == s[..p] + a + b;
    assert u[p + |a| + |b| + |c|..] == s[p + |a| + |b| + |c|..];
  }

  /** One number of a shared attribute, and the count in the header. */
  method WriteId(buf: array<byte>, p: nat, id: nat, ghost ids: seq<nat>)
    requires IdsAt(buf[..], ids) && p == HEADER + ENTRY * |ids| && p + ENTRY <= buf.Length && ZeroFrom(buf[..], p)
    requires buf[4] as nat == |ids| < MAX_SHARED
    modifies buf
    ensures IdsAt(buf[..], ids + [id]) && buf[4] as nat == |ids| + 1 && ZeroFrom(buf[..], p + ENTRY)
    ensures buf[..4] == old(buf[..4])
  {
    hide IdsAt, Le32;
    ghost var was := buf[..];
    CopyIn(buf, p, Le32(id));
    ghost var t := buf[..];
    assert t == was[..p] + Le32(id) + was[p + ENTRY..];
    IdsNext(was, ids, id);
    SpliceAt(was, p, Le32(id));
    buf[4] := buf[4] + 1;
    IdsCount(t, buf[..], ids + [id]);
    assert buf[..4] == t[..4] == was[..4];
  }

  lemma NoIds(buf: seq<byte>)
    requires HEADER <= |buf|
    ensures IdsAt(buf, [])
  {
  }

  /** The first loop of `erofs_export_xattr_ibody`: numbers are stored and all other attributes are put aside. */
  method WriteIds(buf: array<byte>, items: seq<Item>, pfs: seq<Prefix>) returns (p: nat, ilst: seq<Item>)
    requires buf.Length >= HEADER + ENTRY * |SharedIds(items)| && buf[4] == 0 && ZeroFrom(buf[..], HEADER)
    modifies buf
    ensures p == HEADER + ENTRY * |SharedIds(items)| && ilst == Inline(items)
    ensures IdsAt(buf[..], SharedIds(items)) && buf[4] == |SharedIds(items)| && ZeroFrom(buf[..], p)
    ensures buf[..4] == old(buf[..4])
  {
    hide SharedIds, Inline, IdsAt, ZeroFrom;
    EmptySplit(items, pfs);
    assert IdsAt(buf[..], []) by { NoIds(buf[..]); }
    p, ilst := HEADER, [];
    for i := 0 to |items|
      invariant p == HEADER + ENTRY * |SharedIds(items[..i])| && ilst == Inline(items[..i])
      invariant IdsAt(buf[..], SharedIds(items[..i])) && buf[4] == |SharedIds(items[..i])| && ZeroFrom(buf[..], p)
      invariant buf[..4] == old(buf[..4])
    {
      SplitNext(items, i);
      if items[i].shared.None? || buf[4] >= MAX_SHARED {
        ilst := [items[i]] + ilst;
      } else {
        IdsMonotone(items, i + 1);
        WriteId(buf, p, items[i].shared.value, SharedIds(items[..i]));
        p := p + ENTRY;
      }
    }
    assert items[..|items|] == items;
  }

  lemma {:induction false} IdsMonotone(items: seq<Item>, i: nat)
    requires i <= |items|
    ensures |SharedIds(items[..i])| <= |SharedIds(items)|
    decreases |items| - i
  {
    if i < |items| {
      IdsMonotone(items, i + 1);
      SplitNext(items, i);
    } else {
      assert items[..i] == items;
    }
  }

  lemma IdsNext(buf: seq<byte>, ids: seq<nat>, id: nat)
    requires IdsAt(buf, ids) && HEADER + ENTRY * |ids| + ENTRY <= |buf|
    ensures var p := HEADER + ENTRY * |ids|; IdsAt(buf[..p] + Le32(id) + buf[p + ENTRY..], ids + [id])
  {
    hide Le32;
    var p := HEADER + ENTRY * |ids|;
    var t := buf[..p] + Le32(id) + buf[p + ENTRY..];
    forall i | 0 <= i < |ids| + 1
      ensures t[HEADER + ENTRY * i..HEADER + ENTRY * i + ENTRY] == Le32((ids + [id])[i])
    {
      if i < |ids| {
        SliceKept(buf, p, Le32(id), HEADER + ENTRY * i, HEADER + ENTRY * i + ENTRY);
      } else {
        SliceIs(buf, p, Le32(id));
      }
    }
  }

  /** The count is in front of the numbers. */
  lemma IdsCount(buf: seq<byte>, buf': seq<byte>, ids: seq<nat>)
    requires IdsAt(buf, ids) && |buf'| == |buf| && forall k :: HEADER <= k < |buf| ==> buf'[k] == buf[k]
    ensures IdsAt(buf', ids)
  {
    hide Le32;
    forall i | 0 <= i < |ids|
      ensures buf'[HEADER + ENTRY * i..HEADER + ENTRY * i + ENTRY] == Le32(ids[i])
    {
      assert buf'[HEADER + ENTRY * i..HEADER + ENTRY * i + ENTRY] == buf[HEADER + ENTRY * i..HEADER + ENTRY * i + ENTRY];
    }
  }

  lemma SpliceAt(buf: seq<byte>, p: nat, e: seq<byte>)
    requires p + |e| <= |buf|
    ensures var t := buf[..p] + e + buf[p + |e|..];
            |t| == |buf| && forall k :: 0 <= k < |buf| && !(p <= k < p + |e|) ==> t[k] == buf[k]
  {
  }

  /** One more entry behind those that are there. */
  lemma EntryAdded(buf: seq<byte>, t: seq<byte>, p0: nat, es: seq<Item>, x: Item, ids: seq<nat>, pfs: seq<Prefix>, n: nat)
    requires EntriesAt(buf, p0, es, pfs) && IdsAt(buf, ids) && p0 == HEADER + ENTRY * |ids| && HEADER <= |buf|
    requires |t| == |buf| && EntryAt(t, p0 + SizeOf(es, pfs), x, pfs) && n <= EntrySize(x, pfs)
    requires var p := p0 + SizeOf(es, pfs); forall k :: 0 <= k < |buf| && !(p <= k < p + n) ==> t[k] == buf[k]
    requires ZeroFrom(buf, p0 + SizeOf(es, pfs))
    ensures EntriesAt(t, p0, es + [x], pfs) && IdsAt(t, ids) && t[4] == buf[4]
    ensures SizeOf(es + [x], pfs) == SizeOf(es, pfs) + EntrySize(x, pfs)
    ensures ZeroFrom(t, p0 + SizeOf(es + [x], pfs))
  {
    hide EntryAt, EntriesAt, IdsAt, SizeOf, EntrySize;
    EntriesKept(buf, t, p0, es, pfs);
    EntriesSnoc(t, p0, es, x, pfs);
    IdsKept(buf, t, ids, p0 + SizeOf(es, pfs));
  }

  lemma EntryFits(x: Item, pfs: seq<Prefix>)
    requires ItemOk(x, pfs)
    ensures |EntryBytes(x, pfs)| <= EntrySize(x, pfs)
  {
  }

  lemma EntryPlaced(buf: seq<byte>, p: nat, x: Item, pfs: seq<Prefix>)
    requires ItemOk(x, pfs) && p + |EntryBytes(x, pfs)| <= |buf|
    ensures EntryAt(buf[..p] + EntryBytes(x, pfs) + buf[p + |EntryBytes(x, pfs)|..], p, x, pfs)
  {
    hide EntryBytes, ItemOk;
    SliceIs(buf, p, EntryBytes(x, pfs));
  }

  lemma IdsKept(buf: seq<byte>, buf': seq<byte>, ids: seq<nat>, p: nat)
    requires IdsAt(buf, ids) && HEADER + ENTRY * |ids| <= p && |buf'| == |buf|
    requires forall k :: 0 <= k < p && k < |buf| ==> buf'[k] == buf[k]
    ensures IdsAt(buf', ids)
  {
    hide Le32;
    forall i | 0 <= i < |ids|
      ensures buf'[HEADER + ENTRY * i..HEADER + ENTRY * i + ENTRY] == Le32(ids[i])
    {
      assert buf'[HEADER + ENTRY * i..HEADER + ENTRY * i + ENTRY] == buf[HEADER + ENTRY * i..HEADER + ENTRY * i + ENTRY];
    }
  }

  lemma {:induction false} SizeMonotone(es: seq<Item>, i: nat, pfs: seq<Prefix>)
    requires i <= |es|
    ensures SizeOf(es[..i], pfs) <= SizeOf(es, pfs)
    ensures i < |es| ==> SizeOf(es[..i], pfs) + EntrySize(es[i], pfs) <= SizeOf(es, pfs)
    decreases |es|
  {
    hide EntrySize;
    if i == 0 {
      assert es[..0] == [];
      assert SizeOf([], pfs) == 0;
    } else {
      SizeMonotone(es[1..], i - 1, pfs);
      assert es[..i][1..] == es[1..][..i - 1];
    }
  }

  /** A word as a number. */
  function Number(v: bv32): (n: nat)
    ensures n < 0x1_0000_0000 && (n == 0 <==> v == 0)
  {
    v as nat
  }

  /** Bit `k` of a word. */
  predicate HasBit(v: bv32, k: bv32)
    requires k < 32
  {
    (v >> k) & 1 == 1
  }

  /** The bit of the name filter that an attribute has; `hash` is `xxh32`, seeded with the short prefix. */
  function FilterBit(x: Item, hash: (nat, seq<byte>) -> bv32): (k: bv32)
    ensures k < 32
  {
    hash(x.base, x.name) & 31
  }

  /** A bit of the filter says that no attribute has it: so the filter never denies one that is there. */
  ghost predicate FilterOk(filter: bv32, items: seq<Item>, hash: (nat, seq<byte>) -> bv32) {
    forall k: bv32 :: k < 32 ==> (HasBit(filter, k) <==> forall x :: x in items ==> FilterBit(x, hash) != k)
  }

  lemma BitAdded(v: bv32, h: bv32, k: bv32)
    requires h < 32 && k < 32
    ensures HasBit(v | (1 << h), k) <==> HasBit(v, k) || k == h
  {
  }

  lemma BitsTurned(v: bv32, k: bv32)
    requires k < 32
    ensures HasBit(0xFFFF_FFFF & !v, k) <==> !HasBit(v, k)
    ensures !HasBit(0, k)
  {
  }

  /** The name filter of `erofs_export_xattr_ibody`. */
  method NameFilter(items: seq<Item>, hash: (nat, seq<byte>) -> bv32) returns (filter: bv32)
    ensures FilterOk(filter, items, hash)
  {
    hide HasBit, FilterBit;
    var seen: bv32 := 0;
    forall k: bv32 | k < 32
      ensures !HasBit(0, k)
    {
      BitsTurned(0, k);
    }
    for i := 0 to |items|
      invariant forall k: bv32 :: k < 32 ==> (HasBit(seen, k) <==> exists x :: x in items[..i] && FilterBit(x, hash) == k)
    {
      var was, bit := seen, FilterBit(items[i], hash);
      seen := seen | (1 << bit);
      assert items[..i + 1] == items[..i] + [items[i]];
      forall k: bv32 | k < 32
        ensures HasBit(seen, k) <==> exists x :: x in items[..i + 1] && FilterBit(x, hash) == k
      {
        BitAdded(was, bit, k);
        if k == bit {
          assert items[i] in items[..i + 1] && FilterBit(items[i], hash) == k;
        }
      }
    }
    filter := 0xFFFF_FFFF & !seen;
    assert items[..|items|] == items;
    forall k: bv32 | k < 32
      ensures HasBit(filter, k) <==> forall x :: x in items ==> FilterBit(x, hash) != k
    {
      BitsTurned(seen, k);
    }
  }

  /**
   * `erofs_export_xattr_ibody`, into the size that was prepared. `named` says that name filters are
   * wanted, `mark` that the superblock is to tell of one.
   */
  method Export(items: seq<Item>, pfs: seq<Prefix>, size: nat, named: bool, hash: (nat, seq<byte>) -> bv32)
    returns (buf: array<byte>, mark: bool, ghost filter: bv32)
    requires ItemsOk(items, pfs) && size >= HEADER + ENTRY * |SharedIds(items)| + SizeOf(Inline(items), pfs)
    ensures fresh(buf) && buf.Length == size && IsBody(buf[..], items, pfs)
    ensures U32(buf[..], 0) == Number(filter) && (mark <==> filter != 0)
    ensures if named then FilterOk(filter, items, hash) else filter == 0
  {
    hide SharedIds, Inline, IdsAt, EntriesAt, EntryAt, EntryBytes, SizeOf, EntrySize, Le32, ItemOk, FilterOk, U32;
    buf, mark, filter := WriteHeader(items, size, named, hash);
    ghost var front := buf[..4];
    var p, ilst := WriteIds(buf, items, pfs);
    InlineOk(items, pfs);
    ghost var p0, ids := p, SharedIds(items);
    NoEntries(buf[..], p0, ilst, pfs);
    for i := 0 to |ilst|
      invariant EntriesAt(buf[..], p0, ilst[..i], pfs) && IdsAt(buf[..], ids) && buf[4] == |ids|
      invariant p == p0 + SizeOf(ilst[..i], pfs) && ZeroFrom(buf[..], p) && buf[..4] == front
    {
      SizeMonotone(ilst, i, pfs);
      ghost var was, e := buf[..], EntryBytes(ilst[i], pfs);
      EntryFits(ilst[i], pfs);
      EntryPlaced(was, p, ilst[i], pfs);
      SpliceAt(was, p, e);
      WriteEntry(buf, p, ilst[i], pfs);
      assert buf[..] == was[..p] + e + was[p + |e|..];
      EntryAdded(was, buf[..], p0, ilst[..i], ilst[i], ids, pfs, |e|);
      assert ilst[..i + 1] == ilst[..i] + [ilst[i]];
      p := p + EntrySize(ilst[i], pfs);
    }
    assert ilst[..|ilst|] == ilst;
    if p < size {
      ghost var was := buf[..];
      CopyIn(buf, p, seq(size - p, _ => 0));
      assert buf[..] == was;
    }
    FrontReads(buf[..], front);
  }

  /** The first bytes hold a number. */
  lemma FrontReads(buf: seq<byte>, front: seq<byte>)
    requires |buf| >= 4 && |front| == 4 && buf[..4] == front
    ensures U32(buf, 0) == U32(front, 0)
  {
  }

  /** The body before anything but its filter is filled in. */
  method WriteHeader(items: seq<Item>, size: nat, named: bool, hash: (nat, seq<byte>) -> bv32)
    returns (buf: array<byte>, mark: bool, ghost filter: bv32)
    requires size >= HEADER
    ensures fresh(buf) && buf.Length == size && buf[4] == 0 && ZeroFrom(buf[..], HEADER)
    ensures U32(buf[..4], 0) == Number(filter) && (mark <==> filter != 0)
    ensures if named then FilterOk(filter, items, hash) else filter == 0
  {
    hide Le32, FilterOk, U32, Number;
    buf := new byte[size](_ => 0);
    var word: bv32 := 0;
    if named {
      word := NameFilter(items, hash);
    }
    filter, mark := word, word != 0;
    CopyIn(buf, 0, Le32(Number(word)));
    assert buf[..4][0..4] == Le32(Number(word));
    ReadLe32(buf[..4], 0, Number(word));
  }

  lemma NoEntries(buf: seq<byte>, p: nat, es: seq<Item>, pfs: seq<Prefix>)
    ensures EntriesAt(buf, p, es[..0], pfs) && SizeOf(es[..0], pfs) == 0
  {
    assert es[..0] == [];
  }
}
