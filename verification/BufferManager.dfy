/** The operations of the buffer-block allocator (`lib/cache.c`). */
module BufferManager {
  import opened Arithmetic
  import opened BufferBlocks
  import opened Options

  datatype Kind = Data | Meta | Inode | Dira | Xattr | Devt

  /** `get_alignsize` */
  function AlignSize(kind: Kind, b: nat): nat {
    match kind
    case Data => b
    case Inode => 32
    case Dira => b
    case Xattr => 4
    case Devt => 128
    case Meta => 1
  }

  /** Block sizes are powers of two from 512 on. */
  ghost predicate BlockSize(b: nat) {
    exists k: nat :: 9 <= k && b == Pow2(k)
  }

  /** The alignment divides the block size. */
  predicate AlignOk(align: nat, b: nat) {
    align > 0 && b % align == 0
  }

  lemma AlignDivides(kind: Kind, b: nat)
    requires BlockSize(b)
    ensures b > 0 && AlignSize(kind, b) > 0 && AlignOk(AlignSize(kind, b), b)
  {
    var k: nat :| 9 <= k && b == Pow2(k);
    Pow2Add(9, k - 9);
    assert Pow2(9) == 512;
    var n := Pow2(k - 9);
    assert b == 512 * n;
    match kind
    case Data => DivModUnique(b, b, 1, 0);
    case Inode => DivModUnique(b, 32, 16 * n, 0);
    case Dira => DivModUnique(b, b, 1, 0);
    case Xattr => DivModUnique(b, 4, 128 * n, 0);
    case Devt => DivModUnique(b, 128, 4 * n, 0);
    case Meta => DivModUnique(b, 1, b, 0);
  }

  /** The first block of a bucket. */
  function FirstIn(links: seq<Link>, data: bool, rem: nat): (r: Option<nat>)
    ensures r.Some? ==> Link(r.value, data, rem) in links
    ensures r.None? ==> forall id :: Link(id, data, rem) !in links
  {
    if links == [] then None
    else if links[0].data == data && links[0].rem == rem then Some(links[0].id)
    else FirstIn(links[1..], data, rem)
  }

  function IndexOf(blocks: seq<Block>, id: nat): (i: nat)
    ensures i <= |blocks| && (i < |blocks| ==> blocks[i].id == id)
    ensures forall j :: 0 <= j < i ==> blocks[j].id != id
  {
    if blocks == [] || blocks[0].id == id then 0 else 1 + IndexOf(blocks[1..], id)
  }

  /** The first block of a bucket is what the debug assertions of the search say. */
  lemma BucketHolds(m: Mgr, data: bool, rem: nat)
    requires Valid(m) && FirstIn(m.links, data, rem).Some?
    ensures var i := IndexOf(m.blocks, FirstIn(m.links, data, rem).value);
            && i < m.last && m.blocks[i].data == data && m.blocks[i].off % m.b == rem
            && (!NextMapped(m, i) ==> i == m.last - 1)
  {
    hide OwnersOk, GrantsOk;
    var l := Link(FirstIn(m.links, data, rem).value, data, rem);
    var j :| 0 <= j < m.last && l == KeyOf(m.blocks[j], m.b);
    var i := IndexOf(m.blocks, l.id);
    assert i <= j && m.blocks[i].id == m.blocks[j].id;
  }

  /** A request for at most the rest of a block fits behind the bucket's offset, and stays in the block. */
  lemma BucketFits(m: Mgr, i: nat, size: nat, align: nat, ext: nat, rem: nat)
    requires m.b > 0 && align > 0 && m.b % align == 0 && i < |m.blocks| && m.blocks[i].off % m.b == rem > 0
    requires size + ext < m.b && rem <= (m.b - (size + ext)) / align * align
    ensures CanAttach(m, i, size, align, ext)
    ensures Fill(RoundUp(m.blocks[i].off, align) + size, m.b) == RoundUp(rem, align) + size
    ensures Fill(RoundUp(m.blocks[i].off, align) + size, m.b) + ext <= m.b
  {
    hide RoundUp, BlkRoundUp;
    var off, b := m.blocks[i].off, m.b;
    var room, f := b - (size + ext), Fill(off, b);
    assert f == rem;
    DivModUnique(room / align * align, align, room / align, 0);
    RoundUpLeast(f, align, room / align * align);
    assert room == room / align * align + room % align;
    RoundUpIs(f, align);
    RoundUpInBlock(off, align, b);
    FillUnique(BlkRoundUp(off, b), RoundUp(f, align) + size, b);
  }

  lemma UsedWhole(ret: nat, req: nat, inl: nat, b: nat)
    requires 0 < ret && ret + req + inl <= b
    ensures (ret + req) % b + inl == ret + req + inl || (ret + req + inl == b && (ret + req) % b + inl == 0)
  {
    if ret + req < b {
      DivModUnique(ret + req, b, 0, ret + req);
    } else {
      DivModUnique(b, b, 1, 0);
    }
  }

  lemma AllInBlock(ret: nat, req: nat, inl: nat, b: nat)
    requires 0 < ret && ret + req + inl <= b
    ensures (ret + req) % b + inl <= b
  {
    if ret + req < b {
      DivModUnique(ret + req, b, 0, ret + req);
    } else {
      DivModUnique(b, b, 1, 0);
    }
  }

  /** `used0` is what a new block would have. */
  function UsedNew(size: nat, req: nat, inl: nat, b: nat): nat
    requires b > 0
  {
    (size + req) % b + inl
  }

  /** A block that the second pass of the search considers. */
  predicate Candidate(m: Mgr, i: nat, data: bool, size: nat, align: nat, req: nat, inl: nat)
    requires m.b > 0 && align > 0
  {
    && i < |m.blocks| && m.last <= i + 1
    && m.blocks[i].off % m.b > 0 && m.blocks[i].data == data
    && Usable(m, i, size, align, req, inl)
    && (UsedAfter(m, i, size, align, req, inl) >= m.blocks[i].off % m.b
        || UsedAfter(m, i, size, align, req, inl) >= UsedNew(size, req, inl, m.b))
  }

  lemma CandidatesFrom(m: Mgr, cur: nat, data: bool, size: nat, align: nat, req: nat, inl: nat)
    requires m.b > 0 && align > 0 && cur + 1 <= Max(m.last, 1)
    ensures forall k: nat :: k < cur && Candidate(m, k, data, size, align, req, inl) ==> false
  {
  }

  /**
   * A mapped block that the first pass must not pass over: its bucket is among those searched, and does
   * not begin with the last mapped block, which may still grow and is left to the second pass.
   */
  predicate MappedCandidate(m: Mgr, i: nat, data: bool, size: nat, align: nat, req: nat, inl: nat)
    requires m.b > 0 && align > 0
  {
    && i < m.last <= |m.blocks| && m.blocks[i].data == data && size + req + inl < m.b
    && 0 < m.blocks[i].off % m.b <= (m.b - (size + req + inl)) / align * align
    && FirstIn(m.links, data, m.blocks[i].off % m.b) != Some(m.blocks[m.last - 1].id)
  }

  /** The bucket of such a block gives a block that is not the last. */
  lemma CandidateBucket(m: Mgr, i: nat, data: bool, size: nat, align: nat, req: nat, inl: nat)
    requires Valid(m) && align > 0 && MappedCandidate(m, i, data, size, align, req, inl)
    ensures var f := FirstIn(m.links, data, m.blocks[i].off % m.b);
            f.Some? && NextMapped(m, IndexOf(m.blocks, f.value))
  {
    hide OwnersOk, GrantsOk;
    var rem := m.blocks[i].off % m.b;
    assert KeyOf(m.blocks[i], m.b) in m.links;
    assert FirstIn(m.links, data, rem).Some?;
    BucketHolds(m, data, rem);
  }

  lemma BucketIsCandidate(m: Mgr, i: nat, data: bool, size: nat, align: nat, req: nat, inl: nat)
    requires ListOk(m) && align > 0 && size + req + inl < m.b && NextMapped(m, i) && m.blocks[i].data == data
    requires 0 < m.blocks[i].off % m.b <= (m.b - (size + req + inl)) / align * align
    requires FirstIn(m.links, data, m.blocks[i].off % m.b) == Some(m.blocks[i].id)
    ensures MappedCandidate(m, i, data, size, align, req, inl)
  {
    hide GrantsOk;
  }

  lemma NoneMapped(m: Mgr, data: bool, size: nat, align: nat, req: nat, inl: nat)
    requires m.b > 0 && align > 0 && size + req + inl >= m.b
    ensures forall k: nat :: !MappedCandidate(m, k, data, size, align, req, inl)
  {
  }

  /** `used` is how full the block's last disk block will be; a full one counts as such, not as empty. */
  predicate UsedIs(m: Mgr, i: nat, size: nat, align: nat, req: nat, inl: nat, used: nat)
    requires m.b > 0 && i < |m.blocks| && align > 0
  {
    var u := UsedAfter(m, i, size, align, req, inl);
    used == u || (used == m.b && u == 0)
  }

  /** The fuller the block before, the fuller it is afterwards. */
  lemma FullerBefore(m: Mgr, i: nat, j: nat, data: bool, size: nat, align: nat, req: nat, inl: nat)
    requires m.b > 0 && AlignOk(align, m.b) && MappedCandidate(m, i, data, size, align, req, inl)
    requires j < |m.blocks| && m.blocks[i].off % m.b <= m.blocks[j].off % m.b <= (m.b - (size + req + inl)) / align * align
    ensures UsedAfter(m, i, size, align, req, inl) <= Fill(RoundUp(m.blocks[j].off, align) + size, m.b) + req + inl
  {
    hide RoundUp, Fill;
    var r, q := m.blocks[i].off % m.b, m.blocks[j].off % m.b;
    BucketFits(m, i, size, align, req + inl, r);
    BucketFits(m, j, size, align, req + inl, q);
    RoundUpIs(q, align);
    RoundUpLeast(r, align, RoundUp(q, align));
    ModAtMost(Fill(RoundUp(m.blocks[i].off, align) + size, m.b) + req, m.b);
  }

  lemma ModAtMost(x: nat, b: nat)
    requires b > 0
    ensures x % b <= x
  {
    assert x == x / b * b + x % b;
  }

  /** A block that one of the two passes may choose. */
  predicate Choice(m: Mgr, i: nat, data: bool, size: nat, align: nat, req: nat, inl: nat)
    requires m.b > 0 && align > 0
  {
    Candidate(m, i, data, size, align, req, inl) || MappedCandidate(m, i, data, size, align, req, inl)
  }

  /** How far the disk block at the end of a block would be filled. */
  function Filled(m: Mgr, i: nat, size: nat, align: nat, req: nat, inl: nat): nat
    requires m.b > 0 && i < |m.blocks| && align > 0
  {
    RoundUp(m.blocks[i].off % m.b, align) + size + req + inl
  }

  /** The request is less than what is left of the block's last disk block; other than the last, its bucket must be searched. */
  predicate HasRoom(m: Mgr, i: nat, data: bool, size: nat, align: nat, req: nat, inl: nat)
    requires m.b > 0 && align > 0
  {
    && i < |m.blocks| && m.last <= |m.blocks| && m.blocks[i].data == data
    && m.blocks[i].off % m.b > 0 && Filled(m, i, size, align, req, inl) < m.b
    && (i + 1 < m.last ==> FirstIn(m.links, data, m.blocks[i].off % m.b) != Some(m.blocks[m.last - 1].id))
  }

  lemma HasRoomIsChoice(m: Mgr, i: nat, data: bool, size: nat, align: nat, req: nat, inl: nat)
    requires m.b > 0 && AlignOk(align, m.b) && HasRoom(m, i, data, size, align, req, inl)
    ensures Choice(m, i, data, size, align, req, inl) && UsedNew(size, req, inl, m.b) <= m.b
    ensures UsedAfter(m, i, size, align, req, inl) == Filled(m, i, size, align, req, inl)
  {
    hide RoundUp, Fill, FirstIn;
    var rem, b := m.blocks[i].off % m.b, m.b;
    RoundUpIs(rem, align);
    RoundDownMost(RoundUp(rem, align), align, b - (size + req + inl));
    BucketFits(m, i, size, align, req + inl, rem);
    DivModUnique(size + req, b, 0, size + req);
    DivModUnique(RoundUp(rem, align) + size + req, b, 0, RoundUp(rem, align) + size + req);
  }

  lemma RoundDownMost(x: nat, a: nat, room: nat)
    requires a > 0 && x % a == 0 && x <= room
    ensures x <= room / a * a
  {
    var p, q := x / a, room / a;
    assert x == p * a && room == q * a + room % a;
    if p > q {
      MulMonotone(q + 1, p, a);
    }
  }

  /**
   * Which block is taken: one of the choices, and of these the one whose last disk block will be
   * fullest (the source counts an exactly filled one as empty), or a new one if there is no choice.
   */
  ghost predicate Chosen(m: Mgr, i: nat, added: bool, data: bool, size: nat, align: nat, req: nat, inl: nat)
    requires m.b > 0 && align > 0
  {
    && (added <==> align == m.b || UsedNew(size, req, inl, m.b) == 0
                   || forall k: nat :: !Choice(m, k, data, size, align, req, inl))
    && (!added ==> Fullest(m, i, data, size, align, req, inl))
  }

  ghost predicate Fullest(m: Mgr, i: nat, data: bool, size: nat, align: nat, req: nat, inl: nat)
    requires m.b > 0 && align > 0
  {
    && i < |m.blocks| && Choice(m, i, data, size, align, req, inl)
    && forall k: nat :: Choice(m, k, data, size, align, req, inl) ==>
                          || UsedAfter(m, k, size, align, req, inl) <= UsedAfter(m, i, size, align, req, inl)
                          || UsedAfter(m, i, size, align, req, inl) == 0
  }

  /** No block is added while there is one with room for the request. */
  ghost predicate NoWaste(m: Mgr, i: nat, added: bool, data: bool, size: nat, align: nat, req: nat, inl: nat)
    requires m.b > 0 && align > 0
  {
    align != m.b && size + req + inl > 0 ==>
      forall k: nat :: HasRoom(m, k, data, size, align, req, inl) ==> !added && i < |m.blocks|
  }

  lemma ChosenWastesNothing(m: Mgr, i: nat, added: bool, data: bool, size: nat, align: nat, req: nat, inl: nat)
    requires m.b > 0 && AlignOk(align, m.b) && Chosen(m, i, added, data, size, align, req, inl)
    ensures NoWaste(m, i, added, data, size, align, req, inl)
  {
    hide Choice, HasRoom, UsedAfter, Filled;
    forall k: nat | HasRoom(m, k, data, size, align, req, inl) && align != m.b && size + req + inl > 0
      ensures !added && i < |m.blocks|
    {
      HasRoomIsChoice(m, k, data, size, align, req, inl);
      SomeUsed(m, k, data, size, align, req, inl);
    }
  }

  lemma SomeUsed(m: Mgr, i: nat, data: bool, size: nat, align: nat, req: nat, inl: nat)
    requires m.b > 0 && align > 0 && HasRoom(m, i, data, size, align, req, inl) && size + req + inl > 0
    ensures UsedNew(size, req, inl, m.b) > 0
  {
    hide RoundUp, FirstIn;
    DivModUnique(size + req, m.b, 0, size + req);
  }

  lemma NoRoom(m: Mgr, data: bool, size: nat, align: nat, req: nat, inl: nat)
    requires m.b > 0 && AlignOk(align, m.b) && size + req + inl > 0
    requires UsedNew(size, req, inl, m.b) == 0 || UsedNew(size, req, inl, m.b) > m.b
    ensures forall k: nat :: !HasRoom(m, k, data, size, align, req, inl)
  {
    hide HasRoom, UsedNew, Choice, UsedAfter, Filled;
    forall k: nat | HasRoom(m, k, data, size, align, req, inl)
      ensures false
    {
      HasRoomIsChoice(m, k, data, size, align, req, inl);
      SomeUsed(m, k, data, size, align, req, inl);
    }
  }

  /** What the two passes find together. */
  lemma ChosenIs(m: Mgr, bb: Option<nat>, used: nat, data: bool, size: nat, align: nat, req: nat, inl: nat)
    requires m.b > 0 && AlignOk(align, m.b) && align != m.b && UsedNew(size, req, inl, m.b) > 0
    requires bb.Some? ==> bb.value < |m.blocks| && UsedIs(m, bb.value, size, align, req, inl, used)
                          && Choice(m, bb.value, data, size, align, req, inl)
    requires forall k: nat :: Choice(m, k, data, size, align, req, inl) ==>
                                bb.Some? && UsedAfter(m, k, size, align, req, inl) <= used
    ensures Chosen(m, if bb.Some? then bb.value else 0, bb.None?, data, size, align, req, inl)
    ensures forall k: nat :: HasRoom(m, k, data, size, align, req, inl) ==>
                               bb.Some? && Filled(m, k, size, align, req, inl) <= used
  {
    hide UsedNew, Choice, UsedAfter, RoundUp, FirstIn;
    forall k: nat | HasRoom(m, k, data, size, align, req, inl)
      ensures bb.Some? && Filled(m, k, size, align, req, inl) <= used
    {
      HasRoomIsChoice(m, k, data, size, align, req, inl);
    }
  }

  datatype Found = NoSpace | Fresh | Reuse(i: nat, used: nat)

  /** Whatever had been handed out on disk before still is, but for the block that was rolled back. */
  ghost predicate OwnersStay(m: Mgr, t: Mgr, i: nat, revoke: bool)
    requires m.b > 0 && m.last <= |m.blocks| && i < |m.blocks|
  {
    forall p :: 0 <= p < |Owners(m)| && (RollsBack(m, i, revoke) ==> Owners(m)[p].id != m.blocks[i].id) ==> Stays(Owners(m)[p], t)
  }

  lemma DropOwnersStay(m: Mgr, i: nat, h: nat, revoke: bool)
    requires Valid(m) && i < |m.blocks| && h < |m.blocks[i].heads|
    ensures OwnersStay(m, Dropped(m, i, h, revoke), i, revoke)
  {
    hide Stays, OwnersOk, LinksOk, GrantsOk, Dropped;
    forall p | 0 <= p < |Owners(m)| && (RollsBack(m, i, revoke) ==> Owners(m)[p].id != m.blocks[i].id)
      ensures Stays(Owners(m)[p], Dropped(m, i, h, revoke))
    {
      DropKeepsOwners(m, i, h, revoke, p);
    }
  }

  /**
   * Only with the last head of a mapped block does the tail come back, and only on request and if nothing
   * was placed behind that block: then to where the block began, and all else on disk ends there.
   */
  ghost predicate GivenBack(m: Mgr, t: Mgr, i: nat, revoke: bool)
    requires m.b > 0 && i < |m.blocks|
  {
    var x := m.blocks[i];
    && t.b == m.b && t.last <= |t.blocks|
    && if revoke && |x.heads| == 1 && x.addr.Some? && m.tail == x.addr.value + BlkRoundUp(x.off, m.b) then
         && t.tail == x.addr.value && t.kept == m.kept
         && forall p :: 0 <= p < |Owners(t)| ==> EndsBy(Owners(t)[p], x.addr.value, m.b)
       else t.tail == m.tail
  }

  predicate EndsBy(x: Block, at: nat, b: nat)
    requires b > 0
  {
    x.addr.Some? && (Blocks(x, b) > 0 ==> End(x, b) <= at)
  }

  lemma DropGivesBack(m: Mgr, i: nat, h: nat, revoke: bool)
    requires Valid(m) && i < |m.blocks| && h < |m.blocks[i].heads|
    ensures GivenBack(m, Dropped(m, i, h, revoke), i, revoke)
  {
    DropKeeps(m, i, h, revoke);
    hide BlkRoundUp, Remove, LinksOk, GrantsOk;
  }

  /** The tail moves by as many disk blocks as the topmost block grows, and for no other block. */
  lemma TailFollows(m: Mgr, i: nat, head: bool, incr: nat, align: nat, extra: nat)
    requires m.b > 0 && i < |m.blocks| && AlignOk(align, m.b)
    ensures var t := Attached(m, i, head, incr, align, extra);
            t.tail - m.tail == if AtTail(m, i) then Blocks(t.blocks[i], m.b) - Blocks(m.blocks[i], m.b) else 0
  {
    hide BlkRoundUp, RoundUp, Relink;
    GrownBlocks(m, i, head, incr, align);
  }

  /** A block that is mapped and then dropped with its only head leaves no trace on disk. */
  lemma MapThenDrop(m: Mgr)
    requires Valid(m) && m.last < |m.blocks| && |m.blocks[m.last].heads| == 1
    ensures m.last < |Mapped(m).blocks| && |Mapped(m).blocks[m.last].heads| == 1
    ensures Dropped(Mapped(m), m.last, 0, true) == Dropped(m, m.last, 0, true)
    ensures Dropped(m, m.last, 0, true).tail == m.tail && Dropped(m, m.last, 0, true).kept == m.kept
  {
    hide BlkRoundUp, GrantsOk, OwnersOk;
    var x := m.blocks[m.last];
    assert Without(Mapped(m).blocks, m.last) == Without(m.blocks, m.last);
    assert forall l :: l in m.links ==> l.id != x.id;
    NotIn(m.links, x.id);
    Unlinked(m.links, KeyOf(x.(addr := Some(m.tail)), m.b));
  }

  lemma {:induction false} NotIn(links: seq<Link>, id: nat)
    requires forall l :: l in links ==> l.id != id
    ensures Remove(links, id) == links
  {
    if links != [] {
      NotIn(links[1..], id);
    }
  }

  lemma {:induction false} Unlinked(links: seq<Link>, l: Link)
    ensures Remove(links + [l], l.id) == Remove(links, l.id)
  {
    if links == [] {
      assert Remove([l], l.id) == Remove([], l.id);
    } else {
      assert (links + [l])[1..] == links[1..] + [l];
      Unlinked(links[1..], l);
    }
  }

  /** An allocation attached to a block, after adding one or not. */
  ghost predicate Allocated(m: Mgr, t: Mgr, i: nat, data: bool, size: nat, align: nat, ext: nat)
    requires align > 0
  {
    && m.b > 0 && m.last <= |m.blocks| && i < |t.blocks| && t.blocks[i].data == data
    && ((i < |m.blocks| && t == Attached(m, i, true, size, align, ext))
        || (i < |Added(m, data).blocks| && Added(m, data).blocks[i].id == m.nextId
            && t == Attached(Added(m, data), i, true, size, align, ext)))
  }

  /** Where the new buffer head is. */
  lemma AllocatedAt(m: Mgr, t: Mgr, i: nat, data: bool, size: nat, align: nat, ext: nat)
    requires align > 0 && Allocated(m, t, i, data, size, align, ext)
    ensures var x := t.blocks[i];
            && |x.heads| > 0 && x.heads[|x.heads| - 1] % align == 0
            && x.off == x.heads[|x.heads| - 1] + size
  {
    hide RoundUp, BlkRoundUp, Added, Relink;
    if i < |m.blocks| && t == Attached(m, i, true, size, align, ext) {
      RoundUpIs(m.blocks[i].off, align);
    } else {
      RoundUpIs(Added(m, data).blocks[i].off, align);
    }
  }

  lemma UsableCan(m: Mgr, i: nat, size: nat, align: nat, req: nat, inl: nat)
    requires m.b > 0 && align > 0 && Usable(m, i, size, align, req, inl)
    ensures i < |m.blocks| && CanAttach(m, i, size, align, req + inl)
  {
  }

  /** The block to attach to is one that there was, or a new one. */
  ghost predicate Reserved(m: Mgr, t: Mgr, i: nat, data: bool) {
    && m.b > 0 && m.last <= |m.blocks| && i < |t.blocks| && t.blocks[i].data == data
    && (t == m || (t == Added(m, data) && t.blocks[i].id == m.nextId))
  }

  lemma ReservedReuse(m: Mgr, i: nat, data: bool, size: nat, align: nat, req: nat, inl: nat)
    requires ListOk(m) && align > 0 && Usable(m, i, size, align, req, inl) && m.blocks[i].data == data
    ensures Reserved(m, m, i, data)
  {
  }

  lemma ReservedFresh(m: Mgr, data: bool)
    requires ListOk(m)
    ensures Reserved(m, Added(m, data), if data then m.last else |m.blocks|, data)
  {
    AddedAt(m, data);
    hide GrantsOk, Added;
  }

  lemma ReservedAllocated(m: Mgr, t: Mgr, i: nat, data: bool, size: nat, align: nat, ext: nat)
    requires align > 0 && Reserved(m, t, i, data) && t.b == m.b
    ensures i < |t.blocks| && Allocated(m, Attached(t, i, true, size, align, ext), i, data, size, align, ext)
    ensures i < |Attached(t, i, true, size, align, ext).blocks|
  {
    hide RoundUp, BlkRoundUp, Relink, Added;
  }

  lemma InlineFollows(m: Mgr, i: nat, size: nat, align: nat, inl: nat)
    requires m.b > 0 && align > 0 && AlignOk(align, m.b) && Usable(m, i, size, align, 0, inl)
    ensures i < |Attached(m, i, true, size, align, inl).blocks|
    ensures InlineReady(Attached(m, i, true, size, align, inl), i, inl)
  {
    hide CanAttach, RoundUp, Fill, BlkRoundUp;
    InlineTail(m, i, size, align, inl);
  }

  lemma FillPlus(size: nat, req: nat, b: nat)
    requires b > 0
    ensures (Fill(size, b) + req) % b == (size + req) % b
  {
    FillIs(size, b);
    var q, u := BlkRoundUp(size, b) - 1, Fill(size, b) + req;
    assert size + req == q * b + u;
    assert u == u / b * b + u % b;
    assert size + req == (q + u / b) * b + u % b;
    DivModUnique(size + req, b, q + u / b, u % b);
  }

  lemma AddedAt(m: Mgr, data: bool)
    requires ListOk(m)
    ensures var t, i := Added(m, data), if data then m.last else |m.blocks|;
            && i < |t.blocks| && t.blocks[i] == Block(m.nextId, None, data, 0, [], [])
            && !NextMapped(t, i) && t.b == m.b
  {
    hide GrantsOk;
  }

  /** A new block takes any request that leaves room for its inline data. */
  lemma FreshUsable(m: Mgr, data: bool, size: nat, align: nat, req: nat, inl: nat)
    requires Valid(m) && align > 0 && UsedNew(size, req, inl, m.b) <= m.b
    ensures Usable(Added(m, data), if data then m.last else |m.blocks|, size, align, req, inl)
  {
    AddedAt(m, data);
    DivModUnique(align - 1, align, 0, align - 1);
    assert RoundUp(0, align) == 0;
    hide Valid, Added, RoundUp, BlkRoundUp, Fill;
    FillPlus(size, req, m.b);
  }

  /** The inline data went right behind what was attached before. */
  lemma InlinePlaced(m: Mgr, i: nat, idata: nat)
    requires m.b > 0 && i < |m.blocks| && InlineReady(m, i, idata)
    ensures var x, y := m.blocks[i], Attached(m, i, true, idata, 1, 0).blocks[i];
            y.heads == x.heads + [x.off] && y.off == x.off + idata && x.off % m.b + idata <= m.b
  {
    hide RoundUp, BlkRoundUp, Relink;
  }

  lemma InlineCan(m: Mgr, i: nat, idata: nat)
    requires m.b > 0 && i < |m.blocks| && InlineReady(m, i, idata)
    ensures CanAttach(m, i, idata, 1, 0)
  {
  }

  lemma AttachedBlock(m: Mgr, i: nat, idata: nat)
    requires m.b > 0 && i < |m.blocks|
    ensures i < |Attached(m, i, true, idata, 1, 0).blocks|
  {
  }

  /** Block `k` got the address behind its predecessor, the first one the tail. */
  predicate MappedBehind(m: Mgr, t: Mgr, k: nat)
    requires m.b > 0 && t.b == m.b && k < |m.blocks| == |t.blocks|
  {
    t.blocks[k] == m.blocks[k].(addr := Some(if k <= m.last then m.tail else EndAt(t, k - 1)))
  }

  /** The blocks behind the last mapped one, up to some point, were mapped one behind the other. */
  ghost predicate MappedUpTo(m: Mgr, t: Mgr) {
    && m.b > 0 && t.b == m.b && |t.blocks| == |m.blocks| && m.last <= t.last <= |m.blocks|
    && t.kept == m.kept && t.nextId == m.nextId
    && (forall k :: 0 <= k < m.last || t.last <= k < |m.blocks| ==> t.blocks[k] == m.blocks[k])
    && (forall k: nat :: m.last <= k < t.last ==> MappedBehind(m, t, k))
    && t.tail == if t.last == m.last then m.tail else EndAt(t, t.last - 1)
  }

  function EndAt(m: Mgr, k: nat): nat
    requires m.b > 0 && k < |m.blocks|
  {
    if m.blocks[k].addr.Some? then End(m.blocks[k], m.b) else 0
  }

  lemma MappedStep(m: Mgr, t: Mgr)
    requires MappedUpTo(m, t) && t.last < |t.blocks|
    ensures MappedUpTo(m, Mapped(t))
  {
    hide BlkRoundUp, Relink, End;
    var u := Mapped(t);
    assert forall k :: 0 <= k < t.last ==> u.blocks[k] == t.blocks[k] && EndAt(u, k) == EndAt(t, k);
    hide EndAt;
    assert MappedBehind(m, u, t.last);
    forall k: nat | m.last <= k < t.last
      ensures MappedBehind(m, u, k)
    {
      assert MappedBehind(m, t, k);
    }
    hide MappedBehind;
  }

  datatype Alloc = Failed | Got(i: nat)

  /** `struct erofs_bufmgr` */
  class BufMgr {
    const b: nat
    var blocks: seq<Block>
    var last: nat
    var tail: nat
    var links: seq<Link>
    var kept: seq<Block>
    var nextId: nat

    function Snapshot(): Mgr
      reads this
    {
      Mgr(b, blocks, last, tail, links, kept, nextId)
    }

    /** `erofs_buffer_init` */
    constructor (b: nat, start: nat)
      requires BlockSize(b)
      ensures Valid(Snapshot()) && this.b == b && blocks == [] && kept == [] && tail == start
    {
      AlignDivides(Data, b);
      this.b := b;
      blocks, last, tail, links, kept, nextId := [], 0, start, [], [], 0;
    }

    /** `__erofs_battach` as a dry run; refusing is `None`. */
    method DryAttach(i: nat, incr: nat, align: nat, extra: nat) returns (ret: Option<nat>, tailupdate: bool)
      requires Valid(Snapshot()) && i < |blocks| && align > 0
      ensures ret.Some? <==> CanAttach(Snapshot(), i, incr, align, extra)
      ensures ret.Some? ==> ret.value == Fill(RoundUp(blocks[i].off, align) + incr, b)
      ensures ret.Some? ==> (tailupdate <==> Oob(Snapshot(), i, incr, align, extra) >= 0 && AtTail(Snapshot(), i))
    {
      hide RoundUp, BlkRoundUp, Fill, GrantsOk, OwnersOk, LinksOk;
      var boff := blocks[i].off;
      var oob := RoundUp(Fill(boff, b), align) + incr + extra - b;
      tailupdate := false;
      if oob >= 0 {
        if oob > 0 && NextMapped(Snapshot(), i) {
          return None, false;
        }
        if blocks[i].addr.Some? {
          tailupdate := tail == blocks[i].addr.value + BlkRoundUp(boff, b);
          if oob > 0 && !tailupdate {
            return None, false;
          }
        }
      }
      ret := Some(Fill(RoundUp(boff, align) + incr, b));
    }

    /** `__erofs_battach` */
    method Attach(i: nat, head: bool, incr: nat, align: nat, extra: nat) returns (ret: Option<nat>)
      requires Valid(Snapshot()) && i < |blocks| && align > 0 && AlignOk(align, b)
      modifies this`blocks, this`links, this`tail
      ensures ret.Some? <==> CanAttach(old(Snapshot()), i, incr, align, extra)
      ensures ret.Some? ==> ret.value == Fill(RoundUp(old(blocks[i].off), align) + incr, b)
      ensures ret.None? ==> Snapshot() == old(Snapshot())
      ensures ret.Some? ==> Snapshot() == Attached(old(Snapshot()), i, head, incr, align, extra)
      ensures Valid(Snapshot())
    {
      hide RoundUp, BlkRoundUp, Fill, GrantsOk, OwnersOk, LinksOk, Relink;
      ghost var m := Snapshot();
      var tailupdate;
      ret, tailupdate := DryAttach(i, incr, align, extra);
      if ret.Some? {
        AttachKeeps(m, i, head, incr, align, extra);
        var at := RoundUp(blocks[i].off, align);
        var x := blocks[i];
        x := x.(off := at + incr, heads := if head then x.heads + [at] else x.heads, grants := x.grants + [Grant(at, incr, align)]);
        blocks := blocks[i := x];
        if tailupdate {
          tail := x.addr.value + BlkRoundUp(x.off, b);
        }
        links := Relink(links, x, b);
      }
    }

    /** `erofs_bfind_for_attach` */
    method FindForAttach(data: bool, size: nat, req: nat, inl: nat, align: nat) returns (r: Found)
      requires Valid(Snapshot()) && align > 0 && AlignOk(align, b)
      ensures r.NoSpace? <==> UsedNew(size, req, inl, b) > b
      ensures r.Reuse? ==> Usable(Snapshot(), r.i, size, align, req, inl) && blocks[r.i].data == data
      ensures r.Reuse? ==> UsedIs(Snapshot(), r.i, size, align, req, inl, r.used)
      ensures !r.NoSpace? ==> Chosen(Snapshot(), if r.Reuse? then r.i else 0, r.Fresh?, data, size, align, req, inl)
      ensures align != b && size + req + inl > 0 ==>
                forall k: nat :: HasRoom(Snapshot(), k, data, size, align, req, inl) ==>
                                   r.Reuse? && Filled(Snapshot(), k, size, align, req, inl) <= r.used
    {
      assert b > 0;
      hide OwnersOk, GrantsOk, ListOk, LinksOk, RoundUp, BlkRoundUp, Fill, Candidate, Usable, UsedAfter, MappedCandidate, UsedIs, HasRoom, Filled, Fullest;
      var used0 := (size + req) % b + inl;
      if size + req + inl > 0 && (used0 == 0 || used0 > b) {
        NoRoom(Snapshot(), data, size, align, req, inl);
      }
      if used0 > b {
        return NoSpace;
      }
      if used0 == 0 || align == b {
        return Fresh;
      }
      var usedmax := 0;
      var bb: Option<nat> := None;
      if size + req + inl < b {
        bb, usedmax := FindMapped(data, size, req, inl, align);
      } else {
        NoneMapped(Snapshot(), data, size, align, req, inl);
      }
      bb, usedmax := FindLast(data, size, req, inl, align, bb, usedmax);
      ChosenIs(Snapshot(), bb, usedmax, data, size, align, req, inl);
      r := if bb.Some? then Reuse(bb.value, usedmax) else Fresh;
    }

    /** The first pass: a mapped block other than the last whose disk block takes all, the fullest first. */
    method FindMapped(data: bool, size: nat, req: nat, inl: nat, align: nat) returns (bb: Option<nat>, usedmax: nat)
      requires Valid(Snapshot()) && align > 0 && AlignOk(align, b) && size + req + inl < b
      ensures bb.None? ==> usedmax == 0
      ensures bb.Some? ==> Usable(Snapshot(), bb.value, size, align, req, inl) && blocks[bb.value].data == data
      ensures bb.Some? ==> UsedIs(Snapshot(), bb.value, size, align, req, inl, usedmax)
      ensures bb.Some? ==> MappedCandidate(Snapshot(), bb.value, data, size, align, req, inl)
      ensures forall k: nat :: MappedCandidate(Snapshot(), k, data, size, align, req, inl) ==>
                                 bb.Some? && UsedAfter(Snapshot(), k, size, align, req, inl) <= usedmax
    {
      hide OwnersOk, GrantsOk, ListOk, LinksOk, RoundUp, BlkRoundUp, Fill;
      ghost var m := Snapshot();
      bb, usedmax := None, 0;
      var room := b - (size + req + inl);
      var usedBefore := room / align * align;
      while usedBefore > 0
        invariant bb.None? && usedmax == 0
        invariant usedBefore <= room / align * align
        invariant forall k: nat :: MappedCandidate(m, k, data, size, align, req, inl) ==> blocks[k].off % b <= usedBefore
        decreases usedBefore
      {
        var first := FirstIn(links, data, usedBefore);
        if first.Some? {
          var cur := IndexOf(blocks, first.value);
          BucketHolds(Snapshot(), data, usedBefore);
          if NextMapped(Snapshot(), cur) {
            BucketFits(Snapshot(), cur, size, align, req + inl, usedBefore);
            var ret, _ := DryAttach(cur, size, align, req + inl);
            assert ret.Some? && ret.value + req + inl <= b;
            AllInBlock(ret.value, req, inl, b);
            UsedWhole(ret.value, req, inl, b);
            forall k: nat | MappedCandidate(m, k, data, size, align, req, inl)
              ensures UsedAfter(m, k, size, align, req, inl) <= ret.value + req + inl
            {
              FullerBefore(m, k, cur, data, size, align, req, inl);
            }
            BucketIsCandidate(m, cur, data, size, align, req, inl);
            return Some(cur), ret.value + req + inl;
          }
        }
        forall k: nat | MappedCandidate(m, k, data, size, align, req, inl)
          ensures blocks[k].off % b != usedBefore
        {
          CandidateBucket(m, k, data, size, align, req, inl);
        }
        usedBefore := usedBefore - 1;
      }
    }

    /** What the second pass thinks of one block. */
    method Consider(cur: nat, data: bool, size: nat, align: nat, req: nat, inl: nat) returns (r: Option<nat>)
      requires Valid(Snapshot()) && align > 0 && cur < |blocks| && last <= cur + 1
      requires UsedNew(size, req, inl, b) > 0
      ensures r.Some? <==> Candidate(Snapshot(), cur, data, size, align, req, inl)
      ensures r.Some? ==> r.value == UsedAfter(Snapshot(), cur, size, align, req, inl) && r.value > 0
      ensures r.Some? ==> Usable(Snapshot(), cur, size, align, req, inl) && blocks[cur].data == data
    {
      assert b > 0;
      hide OwnersOk, GrantsOk, ListOk, LinksOk, RoundUp, BlkRoundUp, Fill;
      var usedBefore := blocks[cur].off % b;
      if usedBefore == 0 || blocks[cur].data != data {
        return None;
      }
      var ret, _ := DryAttach(cur, size, align, req + inl);
      if ret.None? {
        return None;
      }
      var used := (ret.value + req) % b + inl;
      if used > b || (used < usedBefore && used < (size + req) % b + inl) {
        return None;
      }
      r := Some(used);
    }

    /** The second pass: the last mapped block and the unmapped ones. */
    method FindLast(data: bool, size: nat, req: nat, inl: nat, align: nat, first: Option<nat>, firstUsed: nat)
      returns (bb: Option<nat>, usedmax: nat)
      requires Valid(Snapshot()) && align > 0 && AlignOk(align, b)
      requires UsedNew(size, req, inl, b) > 0 && (first.None? ==> firstUsed == 0)
      requires first.Some? ==> Usable(Snapshot(), first.value, size, align, req, inl) && blocks[first.value].data == data
      requires first.Some? ==> UsedIs(Snapshot(), first.value, size, align, req, inl, firstUsed)
      requires first.Some? ==> MappedCandidate(Snapshot(), first.value, data, size, align, req, inl)
      ensures bb.Some? ==> Choice(Snapshot(), bb.value, data, size, align, req, inl)
      ensures first.Some? ==> bb.Some? && firstUsed <= usedmax
      ensures bb.Some? ==> bb.value < |blocks| && UsedIs(Snapshot(), bb.value, size, align, req, inl, usedmax)
      ensures bb.None? ==> usedmax == 0
      ensures bb.Some? ==> Usable(Snapshot(), bb.value, size, align, req, inl) && blocks[bb.value].data == data
      ensures forall k: nat :: Candidate(Snapshot(), k, data, size, align, req, inl) ==>
                            bb.Some? && UsedAfter(Snapshot(), k, size, align, req, inl) <= usedmax
    {
      assert b > 0;
      hide OwnersOk, GrantsOk, ListOk, LinksOk, RoundUp, BlkRoundUp, Fill, Candidate, MappedCandidate, Usable, UsedAfter;
      bb, usedmax := first, firstUsed;
      var cur := if last == 0 then 0 else last - 1;
      CandidatesFrom(Snapshot(), cur, data, size, align, req, inl);
      while cur < |blocks|
        invariant last <= cur + 1 && cur <= |blocks|
        invariant bb.None? ==> usedmax == 0
        invariant first.Some? ==> bb.Some? && firstUsed <= usedmax
        invariant bb.Some? ==> bb.value < |blocks| && UsedIs(Snapshot(), bb.value, size, align, req, inl, usedmax)
        invariant bb.Some? ==> Choice(Snapshot(), bb.value, data, size, align, req, inl)
        invariant bb.Some? ==> Usable(Snapshot(), bb.value, size, align, req, inl) && blocks[bb.value].data == data
        invariant forall k: nat :: k < cur && Candidate(Snapshot(), k, data, size, align, req, inl) ==>
                                     bb.Some? && UsedAfter(Snapshot(), k, size, align, req, inl) <= usedmax
      {
        var used := Consider(cur, data, size, align, req, inl);
        if used.Some? && usedmax < used.value {
          bb := Some(cur);
          usedmax := used.value;
        }
        cur := cur + 1;
      }
    }

    /** The part of `erofs_balloc` that adds a block. */
    method AddBlock(data: bool) returns (i: nat)
      requires Valid(Snapshot())
      modifies this`blocks, this`nextId
      ensures Valid(Snapshot()) && Snapshot() == Added(old(Snapshot()), data)
      ensures i == old(if data then last else |blocks|) && i < |blocks|
    {
      hide OwnersOk, GrantsOk, LinksOk;
      AddKeeps(Snapshot(), data);
      AddedAt(Snapshot(), data);
      i := if data then last else |blocks|;
      var bb := Block(nextId, None, data, 0, [], []);
      blocks := if data then blocks[..last] + [bb] + blocks[last..] else blocks + [bb];
      nextId := nextId + 1;
    }

    /** The part of `erofs_balloc` that finds or adds a block. */
    method Reserve(data: bool, size: nat, req: nat, inl: nat, align: nat) returns (r: Alloc)
      requires Valid(Snapshot()) && align > 0 && AlignOk(align, b)
      modifies this`blocks, this`nextId
      ensures Valid(Snapshot())
      ensures r.Failed? <==> UsedNew(size, req, inl, b) > b
      ensures r.Failed? ==> Snapshot() == old(Snapshot())
      ensures r.Got? ==> Usable(Snapshot(), r.i, size, align, req, inl) && Reserved(old(Snapshot()), Snapshot(), r.i, data)
      ensures r.Got? ==> Chosen(old(Snapshot()), r.i, |blocks| > old(|blocks|), data, size, align, req, inl)
    {
      assert b > 0;
      ghost var m := Snapshot();
      hide Valid, Usable, Candidate, UsedAfter, Reserved, Fullest, Choice, HasRoom, Filled, UsedIs;
      var found := FindForAttach(data, size, req, inl, align);
      if found.NoSpace? {
        return Failed;
      }
      if found.Reuse? {
        ReservedReuse(m, found.i, data, size, align, req, inl);
        return Got(found.i);
      }
      FreshUsable(m, data, size, align, req, inl);
      ReservedFresh(m, data);
      var i := AddBlock(data);
      r := Got(i);
    }

    /** The part of `erofs_balloc` that attaches a new buffer head to the block found or added. */
    method AttachReserved(i: nat, data: bool, size: nat, align: nat, req: nat, inl: nat, ghost m: Mgr)
      requires Valid(Snapshot()) && align > 0 && AlignOk(align, b) && m.b == b
      requires Usable(Snapshot(), i, size, align, req, inl) && Reserved(m, Snapshot(), i, data)
      modifies this`blocks, this`links, this`tail
      ensures Valid(Snapshot()) && i < |blocks|
      ensures Allocated(m, Snapshot(), i, data, size, align, req + inl) && |blocks| == old(|blocks|)
      ensures req == 0 ==> InlineReady(Snapshot(), i, inl)
    {
      ghost var t := Snapshot();
      UsableCan(t, i, size, align, req, inl);
      ReservedAllocated(m, t, i, data, size, align, req + inl);
      if req == 0 {
        InlineFollows(t, i, size, align, inl);
      }
      hide AlignOk, Valid, InlineReady, Usable, Reserved, Allocated, CanAttach, Attached, RoundUp, Fill;
      var ret := Attach(i, true, size, align, req + inl);
    }

    /** `erofs_balloc`; the new buffer head is the last of block `r.i`. */
    method Balloc(kind: Kind, size: nat, req: nat, inl: nat) returns (r: Alloc)
      requires Valid(Snapshot()) && BlockSize(b)
      modifies this`blocks, this`links, this`tail, this`nextId
      ensures Valid(Snapshot())
      ensures r.Failed? <==> UsedNew(size, req, inl, b) > b
      ensures r.Failed? ==> Snapshot() == old(Snapshot())
      ensures AlignSize(kind, b) > 0
      ensures r.Got? ==> r.i < |blocks|
      ensures r.Got? ==> Allocated(old(Snapshot()), Snapshot(), r.i, kind == Data, size, AlignSize(kind, b), req + inl)
      ensures r.Got? && req == 0 ==> InlineReady(Snapshot(), r.i, inl)
      ensures r.Got? ==> Chosen(old(Snapshot()), r.i, |blocks| > old(|blocks|), kind == Data, size, AlignSize(kind, b), req, inl)
      ensures r.Got? ==> NoWaste(old(Snapshot()), r.i, |blocks| > old(|blocks|), kind == Data, size, AlignSize(kind, b), req, inl)
    {
      AlignDivides(kind, b);
      ghost var m := Snapshot();
      var align := AlignSize(kind, b);
      hide AlignOk, Valid, InlineReady, AlignSize, BlockSize, Usable, Reserved, Allocated, CanAttach, Attached, UsedNew, RoundUp, Fill, Chosen, NoWaste;
      r := Reserve(kind == Data, size, req, inl, align);
      if r.Got? {
        ChosenWastesNothing(m, r.i, |blocks| > |m.blocks|, kind == Data, size, align, req, inl);
        AttachReserved(r.i, kind == Data, size, align, req, inl, m);
      }
    }

    /** `erofs_bh_balloon` of buffer head `h` of block `i`. */
    method Balloon(i: nat, h: nat, incr: nat) returns (ret: Option<nat>)
      requires Valid(Snapshot()) && i < |blocks| && h < |blocks[i].heads|
      modifies this`blocks, this`links, this`tail
      ensures Valid(Snapshot())
      ensures ret.Some? <==> h + 1 == old(|blocks[i].heads|) && CanAttach(old(Snapshot()), i, incr, 1, 0)
      ensures ret.Some? ==> ret.value == Fill(old(blocks[i].off) + incr, b)
      ensures ret.Some? ==> Snapshot() == Attached(old(Snapshot()), i, false, incr, 1, 0)
      ensures ret.None? ==> Snapshot() == old(Snapshot())
    {
      hide OwnersOk, GrantsOk, LinksOk, RoundUp, BlkRoundUp, Fill;
      if h + 1 != |blocks[i].heads| {
        return None;
      }
      RoundUpOne(blocks[i].off);
      ret := Attach(i, false, incr, 1, 0);
    }

    /** `erofs_battach` to buffer head `h` of block `i`; the new head is the last of that block. */
    method Battach(i: nat, h: nat, kind: Kind, size: nat) returns (ok: bool)
      requires Valid(Snapshot()) && BlockSize(b) && i < |blocks| && h < |blocks[i].heads|
      modifies this`blocks, this`links, this`tail
      ensures Valid(Snapshot()) && AlignSize(kind, b) > 0
      ensures ok <==> h + 1 == old(|blocks[i].heads|) && CanAttach(old(Snapshot()), i, size, AlignSize(kind, b), 0)
      ensures Snapshot() == if ok then Attached(old(Snapshot()), i, true, size, AlignSize(kind, b), 0) else old(Snapshot())
    {
      AlignDivides(kind, b);
      hide OwnersOk, GrantsOk, LinksOk, RoundUp, BlkRoundUp, Fill, AlignSize, BlockSize;
      if h + 1 != |blocks[i].heads| {
        return false;
      }
      var ret := Attach(i, true, size, AlignSize(kind, b), 0);
      ok := ret.Some?;
    }

    /** `__erofs_mapbh` of the first unmapped block. */
    method MapOne()
      requires Valid(Snapshot()) && last < |blocks|
      modifies this`blocks, this`last, this`tail, this`links
      ensures Valid(Snapshot()) && Snapshot() == Mapped(old(Snapshot()))
      ensures |blocks| == old(|blocks|) && last == old(last) + 1
    {
      ghost var m := Snapshot();
      assert b > 0;
      MapKeeps(m);
      hide Valid, BlkRoundUp, Relink;
      var t := blocks[last].(addr := Some(tail));
      var end := tail + BlkRoundUp(t.off, b);
      links := Relink(links, t, b);
      blocks := blocks[last := t];
      last := last + 1;
      tail := if end > tail then end else tail;
      assert Snapshot() == Mapped(m);
    }

    /** `erofs_mapbh` of block `bb`, or of all blocks. */
    method MapBh(bb: Option<nat>) returns (addr: nat)
      requires Valid(Snapshot()) && (bb.Some? ==> bb.value < |blocks|)
      modifies this`blocks, this`last, this`tail, this`links
      ensures Valid(Snapshot())
      ensures MappedUpTo(old(Snapshot()), Snapshot())
      ensures last == Max(old(last), if bb.Some? then bb.value + 1 else |blocks|)
      ensures addr == if bb.Some? && bb.value < old(last) then EndAt(Snapshot(), bb.value) - Blocks(blocks[bb.value], b) else tail
    {
      hide OwnersOk, GrantsOk, LinksOk, BlkRoundUp, Relink;
      ghost var m := Snapshot();
      if bb.Some? && blocks[bb.value].addr.Some? {
        return blocks[bb.value].addr.value;
      }
      assert MappedUpTo(m, m) && last <= |blocks|;
      hide ListOk, MappedUpTo, Mapped;
      while last < |blocks| && !(bb.Some? && last == bb.value + 1)
        invariant Valid(Snapshot()) && MappedUpTo(m, Snapshot())
        invariant |blocks| == |m.blocks| && m.last <= last <= |blocks| && (bb.Some? ==> last <= bb.value + 1)
        decreases |blocks| - last
      {
        MappedStep(m, Snapshot());
        MapOne();
      }
      addr := tail;
    }

    /** `erofs_bfree` */
    method Bfree(i: nat)
      requires i < |blocks|
      modifies this`blocks, this`last, this`links
      ensures blocks == Without(old(blocks), i) && links == Remove(old(links), old(blocks[i].id))
      ensures last == if i < old(last) then old(last) - 1 else old(last)
    {
      if i < last {
        last := last - 1;
      }
      links := Remove(links, blocks[i].id);
      blocks := Without(blocks, i);
    }

    /** `erofs_bdrop` of buffer head `h` of block `i`. */
    method Bdrop(i: nat, h: nat, tryrevoke: bool)
      requires Valid(Snapshot()) && i < |blocks| && h < |blocks[i].heads|
      modifies this`blocks, this`last, this`tail, this`links, this`kept
      ensures Valid(Snapshot())
      ensures Snapshot() == Dropped(old(Snapshot()), i, h, tryrevoke)
      ensures OwnersStay(old(Snapshot()), Snapshot(), i, tryrevoke)
      ensures GivenBack(old(Snapshot()), Snapshot(), i, tryrevoke)
    {
      ghost var m := Snapshot();
      DropKeeps(m, i, h, tryrevoke);
      DropOwnersStay(m, i, h, tryrevoke);
      DropGivesBack(m, i, h, tryrevoke);
      assert b > 0;
      hide Valid, BlkRoundUp, Without, Remove, OwnersStay, GivenBack;
      var x := blocks[i];
      var rollback := tryrevoke && x.addr.Some? && tail == x.addr.value + BlkRoundUp(x.off, b);
      x := x.(heads := Without(x.heads, h));
      if x.heads != [] {
        blocks := blocks[i := x];
        assert Snapshot() == Dropped(m, i, h, tryrevoke);
      } else {
        if x.addr.Some? && !rollback {
          kept := kept + [x];
        }
        Bfree(i);
        if rollback {
          tail := x.addr.value;
        }
        assert Snapshot() == Dropped(m, i, h, tryrevoke);
      }
    }

    /**
     * The allocations of `erofs_prepare_inode_buffer` for an inode that may hold its tail: the tail
     * follows the inode and lies in one disk block, or the inode gets no tail.
     */
    method PrepareInode(size: nat, idata: nat) returns (i: nat, inlined: bool)
      requires Valid(Snapshot()) && BlockSize(b)
      modifies this`blocks, this`links, this`tail, this`nextId
      ensures Valid(Snapshot()) && i < |blocks|
      ensures inlined <==> idata > 0 && size % b + idata <= b
      ensures var x := blocks[i];
              var n := |x.heads|;
              && n >= (if inlined then 2 else 1)
              && x.heads[if inlined then n - 2 else n - 1] % 32 == 0
              && (inlined ==> x.heads[n - 1] == x.heads[n - 2] + size && x.heads[n - 1] + idata == x.off)
              && (inlined ==> x.heads[n - 1] % b + idata <= b)
    {
      AlignDivides(Inode, b);
      ghost var m := Snapshot();
      hide OwnersOk, GrantsOk, ListOk, LinksOk, RoundUp, BlkRoundUp, Fill, BlockSize, Allocated, Attached, InlineReady, CanAttach;
      var bh := Balloc(Inode, size, 0, idata);
      if bh.Failed? {
        bh := Balloc(Inode, size, 0, 0);
        i, inlined := bh.i, false;
        AllocatedAt(m, Snapshot(), i, false, size, 32, 0);
        return;
      }
      i := bh.i;
      AllocatedAt(m, Snapshot(), i, false, size, 32, idata);
      inlined := idata > 0;
      if inlined {
        ghost var t := Snapshot();
        InlineCan(t, i, idata);
        InlinePlaced(t, i, idata);
        var ok := Battach(i, |blocks[i].heads| - 1, Meta, idata);
        assert ok;
        AttachedBlock(t, i, idata);
      }
    }
  }
}
