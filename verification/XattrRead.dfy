/** Reading the extended attributes of an inode (`lib/xattr.c`). */
module XattrRead {
  import opened Arithmetic
  import opened Bytes
  import opened Options
  import opened XattrBody

  // ----- one entry ---------------------------------------------------------------------

  function NameLen(dev: seq<byte>, p: nat): nat { DevRead(dev, p, ENTRY)[0] }

  function IndexAt(dev: seq<byte>, p: nat): nat { DevRead(dev, p, ENTRY)[1] }

  function ValueSize(dev: seq<byte>, p: nat): nat { U16(DevRead(dev, p, ENTRY), 2) }

  /** `erofs_xattr_entry_size` */
  function RawSize(dev: seq<byte>, p: nat): nat {
    Align(ENTRY + NameLen(dev, p) + ValueSize(dev, p))
  }

  /** `xattr_entrymatch`: how much of the name the long prefix covers, if the entry may be the one. */
  function EntryMatch(index: nat, len: nat, pfs: seq<Prefix>, target: nat, name: seq<byte>): Option<nat> {
    if index >= 128 then
      if index - 128 < |pfs| && target == pfs[index - 128].base && |name| == len + |pfs[index - 128].infix|
         && pfs[index - 128].infix <= name
      then Some(|pfs[index - 128].infix|) else None
    else if target == index && |name| == len then Some(0) else None
  }

  /** The entry at `p` is that of the name. */
  predicate RawMatch(dev: seq<byte>, p: nat, pfs: seq<Prefix>, target: nat, name: seq<byte>) {
    var m := EntryMatch(IndexAt(dev, p), NameLen(dev, p), pfs, target, name);
    m.Some? && m.value <= |name| && DevRead(dev, p + ENTRY, NameLen(dev, p)) == name[m.value..]
  }

  /** What a search gives: `Size` if no buffer was passed, `Range` if it is too small. */
  datatype Answer = NoAttr | Range | Size(n: nat) | Got(value: seq<byte>) | Corrupted

  /** The answer when the value has been found; `buffer` is the size of the buffer, if there is one. */
  function Deliver(value: seq<byte>, buffer: Option<nat>): Answer {
    if buffer.None? then Size(|value|) else if buffer.value < |value| then Range else Got(value)
  }

  // ----- the iterator ------------------------------------------------------------------

  /** `struct xattr_iter`: an offset behind the start of a block, of which only one is in memory. */
  class XattrIter {
    const dev: seq<byte>
    const b: nat
    var blkaddr: nat
    var ofs: nat

    ghost predicate Valid() {
      b > 0 && b % ENTRY == 0
    }

    ghost function Pos(): nat
      reads this
    {
      BlkPos(blkaddr, b) + ofs
    }

    constructor (dev: seq<byte>, b: nat, pos: nat)
      requires b > 0 && b % ENTRY == 0
      ensures Valid() && this.dev == dev && this.b == b && Pos() == pos && ofs < b
    {
      this.dev, this.b := dev, b;
      blkaddr, ofs := BlkNr(pos, b), BlkOff(pos, b);
      new;
      BlkSplit(pos, b);
    }

    /** `xattr_iter_fixup` */
    method Fixup()
      requires Valid()
      modifies this`blkaddr, this`ofs
      ensures Pos() == old(Pos()) && ofs < b
    {
      if ofs >= b {
        BlkSplit(ofs, b);
        BlkPosAdd(blkaddr, BlkNr(ofs, b), b);
        blkaddr := blkaddr + BlkNr(ofs, b);
        ofs := BlkOff(ofs, b);
      }
    }

    /** Bytes of the block in memory. */
    method Peek(len: nat) returns (s: seq<byte>)
      requires Valid() && ofs + len <= b
      ensures s == DevRead(dev, Pos(), len)
    {
      var page := DevRead(dev, BlkPos(blkaddr, b), b);
      DevReadPart(dev, BlkPos(blkaddr, b), b, ofs, len);
      s := page[ofs..ofs + len];
    }

    /** The name loop of `xattr_foreach`; it ends behind the name whether it is the one or not. */
    method MatchName(name: seq<byte>) returns (same: bool)
      requires Valid()
      modifies this`blkaddr, this`ofs
      ensures same <==> DevRead(dev, old(Pos()), |name|) == name
      ensures Pos() == old(Pos()) + |name|
    {
      ghost var p := Pos();
      var processed := 0;
      while processed < |name|
        invariant processed <= |name| && Pos() == p + processed
        invariant DevRead(dev, p, processed) == name[..processed]
      {
        Fixup();
        var slice := Min(b - ofs, |name| - processed);
        var s := Peek(slice);
        Compare(dev, p, processed, slice, name);
        if s != name[processed..processed + slice] {
          ofs := ofs + |name| - processed;
          return false;
        }
        ofs := ofs + slice;
        processed := processed + slice;
      }
      assert name[..|name|] == name;
      same := true;
    }

    /** The value loop of `xattr_foreach`. */
    method CopyValue(n: nat) returns (value: seq<byte>)
      requires Valid()
      modifies this`blkaddr, this`ofs
      ensures value == DevRead(dev, old(Pos()), n)
      ensures Pos() == old(Pos()) + n
    {
      ghost var p := Pos();
      value := [];
      while |value| < n
        invariant |value| <= n && Pos() == p + |value| && value == DevRead(dev, p, |value|)
      {
        Fixup();
        var slice := Min(b - ofs, n - |value|);
        var s := Peek(slice);
        ReadOn(dev, p, |value|, slice);
        ofs := ofs + slice;
        value := value + s;
      }
    }

    /** The end of `xattr_foreach`: the next entry is aligned. */
    method Realign(ghost p: nat)
      requires Valid() && p % ENTRY == 0 && p <= Pos()
      modifies this`ofs
      ensures Pos() == p + Align(old(Pos()) - p)
    {
      PosAligned(blkaddr, b);
      AlignAdd(BlkPos(blkaddr, b), ofs);
      AlignAdd(p, Pos() - p);
      ofs := Align(ofs);
    }

    /** One round of the loop of `init_inode_xattrs`. */
    method NextId() returns (id: nat)
      requires Valid() && Pos() % ENTRY == 0 && ofs <= b
      modifies this`blkaddr, this`ofs
      ensures id == U32(DevRead(dev, old(Pos()), ENTRY), 0) && Pos() == old(Pos()) + ENTRY && ofs <= b
    {
      hide BlkPos, DevRead, U32;
      if ofs >= b {
        BlkPosNext(blkaddr, b);
        blkaddr, ofs := blkaddr + 1, 0;
      }
      EntryInBlock(blkaddr, ofs, b);
      var s := Peek(ENTRY);
      id := U32(s, 0);
      ofs := ofs + ENTRY;
    }

    /** `xattr_foreach` with the handlers of a search; `limit` is what is left of the attributes. */
    method Foreach(pfs: seq<Prefix>, target: nat, name: seq<byte>, buffer: Option<nat>, limit: nat) returns (r: Answer, left: nat)
      requires Valid() && Pos() % ENTRY == 0
      modifies this`blkaddr, this`ofs
      ensures r.Corrupted? <==> limit < RawSize(dev, old(Pos()))
      ensures !r.Corrupted? ==>
                && left == limit - RawSize(dev, old(Pos())) && Pos() == old(Pos()) + RawSize(dev, old(Pos()))
                && r == if RawMatch(dev, old(Pos()), pfs, target, name)
                        then Deliver(DevRead(dev, old(Pos()) + ENTRY + NameLen(dev, old(Pos())), ValueSize(dev, old(Pos()))), buffer)
                        else NoAttr
    {
      hide Align, BlkPos;
      ghost var p := Pos();
      Fixup();
      EntryInBlock(blkaddr, ofs, b);
      var entry := Peek(ENTRY);
      var len, size: nat := entry[0] as nat, U16(entry, 2);
      if limit < Align(ENTRY + len + size) {
        return Corrupted, limit;
      }
      left := limit - Align(ENTRY + len + size);
      ofs := ofs + ENTRY;
      var m := EntryMatch(entry[1] as nat, len, pfs, target, name);
      r := NoAttr;
      if m.None? {
        ofs := ofs + len + size;
      } else {
        MatchBound(entry[1] as nat, len, pfs, target, name);
        var same := MatchName(name[m.value..]);
        if !same {
          ofs := ofs + size;
        } else if buffer.None? {
          r := Size(size);
          ofs := ofs + size;
        } else if buffer.value < size {
          r := Range;
          ofs := ofs + size;
        } else {
          var value := CopyValue(size);
          r := Got(value);
        }
      }
      Realign(p);
    }
  }

  lemma Compare(dev: seq<byte>, p: nat, processed: nat, slice: nat, name: seq<byte>)
    requires processed + slice <= |name| && DevRead(dev, p, processed) == name[..processed]
    ensures DevRead(dev, p + processed, slice) == name[processed..processed + slice] <==>
            DevRead(dev, p, processed + slice) == name[..processed + slice]
    ensures DevRead(dev, p + processed, slice) != name[processed..processed + slice] ==> DevRead(dev, p, |name|) != name
  {
    ReadOn(dev, p, processed, slice);
    var x, y := DevRead(dev, p, processed), DevRead(dev, p + processed, slice);
    assert name[..processed + slice] == name[..processed] + name[processed..processed + slice];
    assert (x + y)[processed..] == y;
    assert (name[..processed] + name[processed..processed + slice])[processed..] == name[processed..processed + slice];
    if DevRead(dev, p, |name|) == name {
      DevReadPart(dev, p, |name|, processed, slice);
    }
  }

  lemma ReadOn(dev: seq<byte>, p: nat, n: nat, m: nat)
    ensures DevRead(dev, p, n + m) == DevRead(dev, p, n) + DevRead(dev, p + n, m)
  {
  }

  lemma PosAligned(n: nat, b: nat)
    requires b > 0 && b % ENTRY == 0
    ensures BlkPos(n, b) % ENTRY == 0
  {
    assert b == b / 4 * 4;
    assert n * b == n * (b / 4) * 4;
    DivModUnique(n * b, 4, n * (b / 4), 0);
  }

  /** An aligned offset within a block has room for the fixed part of an entry. */
  lemma EntryInBlock(blkaddr: nat, ofs: nat, b: nat)
    requires b > 0 && b % ENTRY == 0 && ofs < b && (BlkPos(blkaddr, b) + ofs) % ENTRY == 0
    ensures ofs + ENTRY <= b
  {
    PosAligned(blkaddr, b);
  }

  lemma MatchBound(index: nat, len: nat, pfs: seq<Prefix>, target: nat, name: seq<byte>)
    requires EntryMatch(index, len, pfs, target, name).Some?
    ensures EntryMatch(index, len, pfs, target, name).value + len == |name|
  {
  }

  // ----- the attributes of an inode ----------------------------------------------------

  /** The attributes are stored at `at`. */
  ghost predicate BodyOn(dev: seq<byte>, at: nat, isize: nat, items: seq<Item>, pfs: seq<Prefix>) {
    && ItemsOk(items, pfs) && isize % ENTRY == 0 && at % 32 == 0
    && IsBody(DevRead(dev, at, isize), items, pfs)
  }

  /** The inline attribute of this name. */
  function Find(es: seq<Item>, target: nat, name: seq<byte>): (r: Option<Item>)
    ensures r.Some? ==> r.value in es && r.value.base == target && r.value.name == name
    ensures r.None? ==> forall x :: x in es && x.base == target ==> x.name != name
  {
    if es == [] then None
    else if es[0].base == target && es[0].name == name then Some(es[0])
    else Find(es[1..], target, name)
  }

  /** The answer for a name: that of the inline attribute of this name, if there is one. */
  function Lookup(items: seq<Item>, target: nat, name: seq<byte>, buffer: Option<nat>): Answer {
    var x := Find(Inline(items), target, name);
    if x.Some? then Deliver(x.value.value, buffer) else NoAttr
  }

  lemma EntryFields(s: seq<byte>, x: Item, pfs: seq<Prefix>)
    requires ItemOk(x, pfs) && s == EntryBytes(x, pfs)
    ensures s[0] as nat == |StoredName(x, pfs)| && s[1] as nat == NameIndex(x) && U16(s, 2) == |x.value|
    ensures s[ENTRY..ENTRY + |StoredName(x, pfs)|] == StoredName(x, pfs)
    ensures s[ENTRY + |StoredName(x, pfs)|..ENTRY + |StoredName(x, pfs)| + |x.value|] == x.value
  {
    var n := StoredName(x, pfs);
    assert s == [|n| as byte, NameIndex(x) as byte] + Le16(|x.value|) + n + x.value;
    hide Le16, StoredName;
    assert s[2..4] == Le16(|x.value|);
    ReadLe16(s, 2, |x.value|);
    DivModUnique(|x.value|, 65536, 0, |x.value|);
  }

  /** An entry of the body is read as it was written. */
  lemma EntryReads(dev: seq<byte>, at: nat, isize: nat, q: nat, x: Item, pfs: seq<Prefix>)
    requires EntryAt(DevRead(dev, at, isize), q, x, pfs)
    ensures NameLen(dev, at + q) == |StoredName(x, pfs)| && IndexAt(dev, at + q) == NameIndex(x) && ValueSize(dev, at + q) == |x.value|
    ensures DevRead(dev, at + q + ENTRY, |StoredName(x, pfs)|) == StoredName(x, pfs)
    ensures DevRead(dev, at + q + ENTRY + |StoredName(x, pfs)|, |x.value|) == x.value
    ensures RawSize(dev, at + q) == EntrySize(x, pfs)
  {
    hide StoredName, EntryBytes, U16;
    var e, n, v := EntryBytes(x, pfs), |StoredName(x, pfs)|, |x.value|;
    DevReadPart(dev, at, isize, q, |e|);
    assert DevRead(dev, at + q, |e|) == e;
    EntryFields(e, x, pfs);
    DevReadPart(dev, at + q, |e|, 0, ENTRY);
    DevReadPart(dev, at + q, |e|, ENTRY, n);
    DevReadPart(dev, at + q, |e|, ENTRY + n, v);
    assert DevRead(dev, at + q, ENTRY) == e[0..ENTRY];
    PrefixFields(e);
  }

  lemma PrefixFields(e: seq<byte>)
    requires |e| >= ENTRY
    ensures e[0..ENTRY][0] == e[0] && e[0..ENTRY][1] == e[1] && U16(e[0..ENTRY], 2) == U16(e, 2)
  {
  }

  /** An entry matches exactly the name that it was written for, with or without a long prefix. */
  lemma MatchIs(dev: seq<byte>, p: nat, x: Item, pfs: seq<Prefix>, target: nat, name: seq<byte>)
    requires ItemOk(x, pfs) && 1 <= target < 128
    requires NameLen(dev, p) == |StoredName(x, pfs)| && IndexAt(dev, p) == NameIndex(x)
    requires DevRead(dev, p + ENTRY, |StoredName(x, pfs)|) == StoredName(x, pfs)
    ensures RawMatch(dev, p, pfs, target, name) <==> x.base == target && x.name == name
  {
    hide NameLen, IndexAt;
    var n := InfixLen(x, pfs);
    assert x.name == x.name[..n] + x.name[n..];
    if n <= |name| { assert name == name[..n] + name[n..]; }
  }

  /** Zeroed space reads as entries that match no name. */
  lemma ZeroEntry(dev: seq<byte>, at: nat, isize: nat, q: nat, pfs: seq<Prefix>, target: nat, name: seq<byte>)
    requires q + ENTRY <= isize && ZeroFrom(DevRead(dev, at, isize), q) && 1 <= target
    ensures RawSize(dev, at + q) == ENTRY && !RawMatch(dev, at + q, pfs, target, name)
  {
    DevReadPart(dev, at, isize, q, ENTRY);
    assert DevRead(dev, at + q, ENTRY) == [0, 0, 0, 0];
  }

  /** What is still to be searched, from `q` on. */
  ghost predicate Rest(body: seq<byte>, q: nat, rest: seq<Item>, pfs: seq<Prefix>) {
    && q % ENTRY == 0 && q + SizeOf(rest, pfs) <= |body| && |body| % ENTRY == 0
    && EntriesAt(body, q, rest, pfs) && ZeroFrom(body, q + SizeOf(rest, pfs))
  }

  lemma RestNext(body: seq<byte>, q: nat, rest: seq<Item>, pfs: seq<Prefix>)
    requires Rest(body, q, rest, pfs) && rest != []
    ensures EntryAt(body, q, rest[0], pfs) && q + EntrySize(rest[0], pfs) <= |body|
    ensures Rest(body, q + EntrySize(rest[0], pfs), rest[1..], pfs)
  {
    hide EntryAt, ZeroFrom;
    var n := EntrySize(rest[0], pfs);
    assert n % ENTRY == 0;
    assert SizeOf(rest, pfs) == n + SizeOf(rest[1..], pfs);
  }

  lemma RestZero(body: seq<byte>, q: nat, pfs: seq<Prefix>)
    requires Rest(body, q, [], pfs) && q < |body|
    ensures q + ENTRY <= |body| && ZeroFrom(body, q) && Rest(body, q + ENTRY, [], pfs)
  {
  }

  lemma RestStart(dev: seq<byte>, at: nat, isize: nat, items: seq<Item>, pfs: seq<Prefix>)
    requires BodyOn(dev, at, isize, items, pfs)
    ensures Rest(DevRead(dev, at, isize), HEADER + ENTRY * |SharedIds(items)|, Inline(items), pfs)
    ensures at % ENTRY == 0
  {
    hide EntriesAt, SharedIds, Inline;
  }

  /** One step of the search. */
  lemma SearchStep(dev: seq<byte>, at: nat, isize: nat, q: nat, rest: seq<Item>, pfs: seq<Prefix>, target: nat, name: seq<byte>)
    returns (next: seq<Item>)
    requires Rest(DevRead(dev, at, isize), q, rest, pfs) && q < isize && 1 <= target < 128
    ensures RawSize(dev, at + q) <= isize - q && Rest(DevRead(dev, at, isize), q + RawSize(dev, at + q), next, pfs)
    ensures RawMatch(dev, at + q, pfs, target, name) ==>
              && Find(rest, target, name).Some?
              && DevRead(dev, at + q + ENTRY + NameLen(dev, at + q), ValueSize(dev, at + q)) == Find(rest, target, name).value.value
    ensures !RawMatch(dev, at + q, pfs, target, name) ==> Find(rest, target, name) == Find(next, target, name)
  {
    hide Rest, RawSize, RawMatch, NameLen, IndexAt, ValueSize;
    if rest == [] {
      next := [];
      RestZero(DevRead(dev, at, isize), q, pfs);
      ZeroEntry(dev, at, isize, q, pfs, target, name);
    } else {
      next := rest[1..];
      RestNext(DevRead(dev, at, isize), q, rest, pfs);
      EntryReads(dev, at, isize, q, rest[0], pfs);
      assert ItemOk(rest[0], pfs);
      MatchIs(dev, at + q, rest[0], pfs, target, name);
    }
  }

  /** Before the entry at `q` of the body, of which `rest` are still to be searched. */
  ghost predicate Searching(dev: seq<byte>, at: nat, isize: nat, q: nat, rest: seq<Item>, pfs: seq<Prefix>,
                            target: nat, name: seq<byte>, items: seq<Item>) {
    Rest(DevRead(dev, at, isize), q, rest, pfs) && Find(rest, target, name) == Find(Inline(items), target, name)
  }

  /** One round of the loop of `inline_getxattr`. */
  method SearchOne(it: XattrIter, pfs: seq<Prefix>, target: nat, name: seq<byte>, buffer: Option<nat>, remaining: nat,
                   ghost at: nat, ghost isize: nat, ghost q: nat, ghost rest: seq<Item>, ghost items: seq<Item>)
    returns (r: Answer, left: nat, ghost q': nat, ghost next: seq<Item>)
    requires it.Valid() && it.Pos() == at + q && at % ENTRY == 0 && q % ENTRY == 0
    requires 0 < remaining == isize - q && 1 <= target < 128
    modifies it`blkaddr, it`ofs
    ensures r.NoAttr? ==> it.Pos() == at + q' && q' % ENTRY == 0 && left == isize - q' && left < remaining
    ensures Searching(it.dev, at, isize, q, rest, pfs, target, name, items) ==>
              if r.NoAttr? then Searching(it.dev, at, isize, q', next, pfs, target, name, items)
              else r == Lookup(items, target, name, buffer)
  {
    hide Rest, RawSize, RawMatch, NameLen, ValueSize, Find, Inline, DevRead, Deliver, BlkPos;
    next := [];
    if Searching(it.dev, at, isize, q, rest, pfs, target, name, items) {
      next := SearchStep(it.dev, at, isize, q, rest, pfs, target, name);
    }
    SizeSome(it.dev, at + q);
    q' := q + RawSize(it.dev, at + q);
    r, left := it.Foreach(pfs, target, name, buffer, remaining);
    DeliverIs(DevRead(it.dev, at + q + ENTRY + NameLen(it.dev, at + q), ValueSize(it.dev, at + q)), buffer);
  }

  lemma DeliverIs(value: seq<byte>, buffer: Option<nat>)
    ensures !Deliver(value, buffer).NoAttr? && !Deliver(value, buffer).Corrupted?
  {
  }

  lemma StartSearch(dev: seq<byte>, at: nat, isize: nat, items: seq<Item>, pfs: seq<Prefix>, target: nat, name: seq<byte>)
    requires BodyOn(dev, at, isize, items, pfs)
    ensures Searching(dev, at, isize, HEADER + ENTRY * |SharedIds(items)|, Inline(items), pfs, target, name, items)
  {
    hide Rest, BodyOn, Find, SharedIds, Inline;
    RestStart(dev, at, isize, items, pfs);
  }

  lemma SearchEnds(dev: seq<byte>, at: nat, isize: nat, q: nat, rest: seq<Item>, pfs: seq<Prefix>,
                   target: nat, name: seq<byte>, items: seq<Item>)
    requires Searching(dev, at, isize, q, rest, pfs, target, name, items) && q >= isize
    ensures forall buffer :: Lookup(items, target, name, buffer) == NoAttr
  {
    hide Rest, Find, Inline;
    NoneLeft(DevRead(dev, at, isize), q, rest, pfs, target, name);
  }

  /**
   * `inline_getxattr`: the value of every attribute stored in the inode, whatever block boundaries it
   * crosses, and nothing for every other name.
   */
  method InlineGet(dev: seq<byte>, b: nat, at: nat, isize: nat, shared: nat, pfs: seq<Prefix>,
                   target: nat, name: seq<byte>, buffer: Option<nat>, ghost items: seq<Item>) returns (r: Answer)
    requires b > 0 && b % 32 == 0 && 1 <= target < 128 && at % 32 == 0
    ensures BodyOn(dev, at, isize, items, pfs) && shared == |SharedIds(items)| ==>
              r == Lookup(items, target, name, buffer)
  {
    hide BodyOn, Searching, Lookup, SharedIds, Inline, BlkPos;
    ghost var good := BodyOn(dev, at, isize, items, pfs) && shared == |SharedIds(items)|;
    ghost var q: nat, rest := HEADER + ENTRY * shared, Inline(items);
    if good { StartSearch(dev, at, isize, items, pfs, target, name); }
    r := NoAttr;
    if HEADER + ENTRY * shared < isize {
      var it := new XattrIter(dev, b, at + HEADER + ENTRY * shared);
      var remaining := isize - (HEADER + ENTRY * shared);
      while remaining > 0
        invariant it.Valid() && it.dev == dev && it.Pos() == at + q && q % ENTRY == 0 && remaining == isize - q && r.NoAttr?
        invariant good ==> Searching(dev, at, isize, q, rest, pfs, target, name, items)
      {
        r, remaining, q, rest := SearchOne(it, pfs, target, name, buffer, remaining, at, isize, q, rest, items);
        if !r.NoAttr? {
          return;
        }
      }
    }
    if good { SearchEnds(dev, at, isize, q, rest, pfs, target, name, items); }
  }

  lemma SizeSome(dev: seq<byte>, p: nat)
    ensures RawSize(dev, p) >= ENTRY && RawSize(dev, p) % ENTRY == 0
  {
  }

  lemma NoneLeft(body: seq<byte>, q: nat, rest: seq<Item>, pfs: seq<Prefix>, target: nat, name: seq<byte>)
    requires Rest(body, q, rest, pfs) && q >= |body|
    ensures Find(rest, target, name).None?
  {
    SomeSize(rest, pfs);
  }

  lemma SomeSize(es: seq<Item>, pfs: seq<Prefix>)
    ensures es != [] ==> SizeOf(es, pfs) >= ENTRY
  {
  }

  // ----- the shared attributes ---------------------------------------------------------

  /** What `init_inode_xattrs` says: no attributes, a body that it does not know, or the shared numbers. */
  datatype Init = NoXattrs | Unsupported | Bogus | Ids(ids: seq<nat>)

  /** Number `i` of the shared attributes is read as it was written. */
  lemma IdReads(dev: seq<byte>, at: nat, isize: nat, ids: seq<nat>, i: nat)
    requires IdsAt(DevRead(dev, at, isize), ids) && i < |ids| && ids[i] < 0x1_0000_0000
    ensures U32(DevRead(dev, at + HEADER + ENTRY * i, ENTRY), 0) == ids[i]
  {
    hide Le32, U32;
    DevReadPart(dev, at, isize, HEADER + ENTRY * i, ENTRY);
    var s := DevRead(dev, at + HEADER + ENTRY * i, ENTRY);
    assert s[0..0 + 4] == s == Le32(ids[i]);
    ReadLe32(s, 0, ids[i]);
    DivModUnique(ids[i], 0x1_0000_0000, 0, ids[i]);
  }

  lemma {:induction false} IdsFit(items: seq<Item>, pfs: seq<Prefix>, i: nat)
    requires ItemsOk(items, pfs) && i < |SharedIds(items)|
    ensures SharedIds(items)[i] < 0x1_0000_0000
  {
    if items != [] {
      var n := |items| - 1;
      assert items[..n + 1] == items;
      SplitNext(items, n);
      assert ItemOk(items[n], pfs);
      if i < |SharedIds(items[..n])| { IdsFit(items[..n], pfs, i); }
    }
  }

  lemma BodyIds(dev: seq<byte>, at: nat, isize: nat, items: seq<Item>, pfs: seq<Prefix>)
    requires BodyOn(dev, at, isize, items, pfs)
    ensures isize >= HEADER && DevRead(dev, at, HEADER)[4] as nat == |SharedIds(items)|
    ensures IdsAt(DevRead(dev, at, isize), SharedIds(items)) && ItemsOk(items, pfs)
  {
    hide SharedIds, Inline, EntriesAt, IdsAt;
    assert isize >= HEADER by { IdsSize(DevRead(dev, at, isize), SharedIds(items)); }
    DevReadPart(dev, at, isize, 0, HEADER);
    assert DevRead(dev, at, HEADER) == DevRead(dev, at, isize)[0..HEADER];
  }

  lemma IdsSize(buf: seq<byte>, ids: seq<nat>)
    requires IdsAt(buf, ids)
    ensures |buf| >= HEADER
  {
  }

  /** `init_inode_xattrs`: the numbers of the shared attributes come back as they were stored. */
  method InitXattrs(dev: seq<byte>, b: nat, at: nat, isize: nat, ghost items: seq<Item>, ghost pfs: seq<Prefix>) returns (r: Init)
    requires b > 0 && b % 32 == 0 && at % 32 == 0
    ensures r.NoXattrs? <==> isize == 0
    ensures BodyOn(dev, at, isize, items, pfs) && isize > HEADER ==> r == Ids(SharedIds(items))
  {
    hide BodyOn, SharedIds, DevRead, BlkPos, U32, IdsAt;
    if isize == HEADER {
      return Unsupported;
    } else if isize < HEADER {
      return if isize > 0 then Bogus else NoXattrs;
    }
    ghost var good := BodyOn(dev, at, isize, items, pfs);
    var it := new XattrIter(dev, b, at);
    HeaderInBlock(it.blkaddr, it.ofs, b);
    var header := it.Peek(HEADER);
    if good { BodyIds(dev, at, isize, items, pfs); }
    var count: nat := header[4] as nat;
    it.ofs := it.ofs + HEADER;
    var ids := [];
    while |ids| < count
      invariant it.Valid() && it.dev == dev && it.Pos() == at + HEADER + ENTRY * |ids| && it.ofs <= b && |ids| <= count
      invariant good ==> count == |SharedIds(items)| && ids == SharedIds(items)[..|ids|]
    {
      var id := it.NextId();
      if good { IdsBody(dev, at, isize, items, pfs, |ids|); }
      ids := ids + [id];
    }
    r := Ids(ids);
  }

  lemma HeaderInBlock(blkaddr: nat, ofs: nat, b: nat)
    requires b > 0 && b % 32 == 0 && ofs < b && (BlkPos(blkaddr, b) + ofs) % 32 == 0
    ensures ofs + HEADER <= b
  {
    assert blkaddr * b == blkaddr * (b / 32) * 32;
    DivModUnique(blkaddr * b, 32, blkaddr * (b / 32), 0);
  }

  lemma IdsBody(dev: seq<byte>, at: nat, isize: nat, items: seq<Item>, pfs: seq<Prefix>, i: nat)
    requires BodyOn(dev, at, isize, items, pfs) && i < |SharedIds(items)|
    ensures U32(DevRead(dev, at + HEADER + ENTRY * i, ENTRY), 0) == SharedIds(items)[i]
    ensures SharedIds(items)[..i + 1] == SharedIds(items)[..i] + [SharedIds(items)[i]]
  {
    hide BodyOn, ItemsOk, IdsAt, U32, DevRead, SharedIds;
    BodyIds(dev, at, isize, items, pfs);
    IdsFit(items, pfs, i);
    IdReads(dev, at, isize, SharedIds(items), i);
  }
}
