/**
 * The state of the buffer-block allocator (`lib/cache.c`) and what each of its updates keeps. A
 * pointer to a buffer block is modelled by its position in the list. All buckets are one sequence of
 * links in their order of insertion; a bucket is the links with its key.
 */
module BufferBlocks {
  import opened Arithmetic
  import opened Options

  // ----- block arithmetic --------------------------------------------------------------

  /** How far the last block is filled: `((off - 1) & blkmask) + 1`, which for 0 is a whole block. */
  function Fill(off: nat, b: nat): (r: nat)
    requires b > 0
    ensures 1 <= r <= b
  {
    if off % b == 0 then b else off % b
  }

  lemma FillIs(off: nat, b: nat)
    requires b > 0
    ensures off == (BlkRoundUp(off, b) - 1) * b + Fill(off, b)
  {
    BlkRoundUpIs(off, b);
    assert off == off / b * b + off % b;
    if off % b == 0 {
      assert (off / b - 1) * b == off / b * b - b;
    }
  }

  lemma FillUnique(r: int, f: nat, b: nat)
    requires b > 0 && 1 <= f <= b && (r - 1) * b + f >= 0
    ensures BlkRoundUp((r - 1) * b + f, b) == r && Fill((r - 1) * b + f, b) == f
  {
    var off := (r - 1) * b + f;
    BlkRoundUpIs(off, b);
    if f == b {
      assert off == r * b by { assert (r - 1) * b + b == r * b; }
      DivModUnique(off, b, r, 0);
    } else {
      DivModUnique(off, b, r - 1, f);
    }
  }

  lemma RoundUpIs(x: nat, a: nat)
    requires a > 0
    ensures x <= RoundUp(x, a) < x + a && RoundUp(x, a) % a == 0
  {
    var q := (x + (a - 1)) / a;
    assert x + (a - 1) == q * a + (x + (a - 1)) % a;
    DivModUnique(q * a, a, q, 0);
  }

  lemma RoundUpLeast(x: nat, a: nat, y: nat)
    requires a > 0 && x <= y && y % a == 0
    ensures RoundUp(x, a) <= y
  {
    RoundUpIs(x, a);
    var p, q := RoundUp(x, a) / a, y / a;
    assert RoundUp(x, a) == p * a && y == q * a;
    if p > q { MulMonotone(q + 1, p, a); }
  }

  /** Rounding up to an alignment that divides the block size stays within the block. */
  lemma RoundUpInBlock(off: nat, a: nat, b: nat)
    requires a > 0 && b > 0 && b % a == 0
    ensures RoundUp(Fill(off, b), a) <= b
    ensures RoundUp(off, a) == (BlkRoundUp(off, b) - 1) * b + RoundUp(Fill(off, b), a)
  {
    var f, base := Fill(off, b), (BlkRoundUp(off, b) - 1) * b;
    FillIs(off, b);
    RoundUpLeast(f, a, b);
    var k, m := b / a, BlkRoundUp(off, b) - 1;
    assert b == k * a;
    assert base == m * k * a;
    var q := (f + (a - 1)) / a;
    assert f + (a - 1) == q * a + (f + (a - 1)) % a;
    assert off + (a - 1) == (m * k + q) * a + (f + (a - 1)) % a;
    DivModUnique(off + (a - 1), a, m * k + q, (f + (a - 1)) % a);
    assert (m * k + q) * a == m * k * a + q * a;
  }

  // ----- the state ---------------------------------------------------------------------

  /** Bytes that were handed out, from the start of the block on, and the alignment they were asked with. */
  datatype Grant = Grant(off: nat, size: nat, align: nat)

  /**
   * `struct erofs_buffer_block`: `heads` are the offsets of its buffer heads. `id` tells blocks apart
   * and `grants` is the history of what was handed out of it.
   */
  datatype Block = Block(id: nat, addr: Option<nat>, data: bool, off: nat, heads: seq<nat>, grants: seq<Grant>)

  /** A block in the bucket of its type and of its offset modulo the block size. */
  datatype Link = Link(id: nat, data: bool, rem: nat)

  /**
   * `struct erofs_bufmgr`: `last` is the position behind `last_mapped_block`, 0 if that is the list
   * head. `kept` is the history of mapped blocks freed without rollback.
   */
  datatype Mgr = Mgr(b: nat, blocks: seq<Block>, last: nat, tail: nat, links: seq<Link>, kept: seq<Block>, nextId: nat)

  function Blocks(x: Block, b: nat): nat
    requires b > 0
  {
    BlkRoundUp(x.off, b)
  }

  /** The address behind a mapped block. */
  function End(x: Block, b: nat): nat
    requires b > 0 && x.addr.Some?
  {
    x.addr.value + Blocks(x, b)
  }

  predicate NextMapped(m: Mgr, i: nat) {
    i + 1 < |m.blocks| && m.blocks[i + 1].addr.Some?
  }

  /** What `extra` bytes more than the request leave of the block that the request starts in: `oob`. */
  function Oob(m: Mgr, i: nat, incr: nat, align: nat, extra: nat): int
    requires m.b > 0 && i < |m.blocks| && align > 0
  {
    RoundUp(Fill(m.blocks[i].off, m.b), align) + incr + extra - m.b
  }

  predicate AtTail(m: Mgr, i: nat)
    requires m.b > 0 && i < |m.blocks|
  {
    m.blocks[i].addr.Some? && m.tail == End(m.blocks[i], m.b)
  }

  /** `__erofs_battach` does not refuse. */
  predicate CanAttach(m: Mgr, i: nat, incr: nat, align: nat, extra: nat)
    requires m.b > 0 && i < |m.blocks| && align > 0
  {
    Oob(m, i, incr, align, extra) > 0 ==> !NextMapped(m, i) && (m.blocks[i].addr.Some? ==> AtTail(m, i))
  }

  function Remove(links: seq<Link>, id: nat): (r: seq<Link>) {
    if links == [] then []
    else if links[0].id == id then Remove(links[1..], id)
    else [links[0]] + Remove(links[1..], id)
  }

  function KeyOf(x: Block, b: nat): Link
    requires b > 0
  {
    Link(x.id, x.data, x.off % b)
  }

  /** `erofs_bupdate_mapped` */
  function Relink(links: seq<Link>, x: Block, b: nat): seq<Link>
    requires b > 0
  {
    if x.addr.None? then links else Remove(links, x.id) + [KeyOf(x, b)]
  }

  function Grown(x: Block, head: bool, incr: nat, align: nat): Block
    requires align > 0
  {
    var at := RoundUp(x.off, align);
    x.(off := at + incr, heads := if head then x.heads + [at] else x.heads, grants := x.grants + [Grant(at, incr, align)])
  }

  /** The effect of `__erofs_battach`; `grow` is its `tailupdate`. */
  function Attached(m: Mgr, i: nat, head: bool, incr: nat, align: nat, extra: nat): Mgr
    requires m.b > 0 && i < |m.blocks| && align > 0
  {
    var x := Grown(m.blocks[i], head, incr, align);
    m.(blocks := m.blocks[i := x], links := Relink(m.links, x, m.b),
       tail := if Oob(m, i, incr, align, extra) >= 0 && AtTail(m, i) then End(x, m.b) else m.tail)
  }

  /** A new empty block: behind the last mapped one for file data, else at the end of the list. */
  function Added(m: Mgr, data: bool): Mgr
    requires m.last <= |m.blocks|
  {
    var x := Block(m.nextId, None, data, 0, [], []);
    m.(blocks := if data then m.blocks[..m.last] + [x] + m.blocks[m.last..] else m.blocks + [x], nextId := m.nextId + 1)
  }

  /** `__erofs_mapbh` of the first unmapped block. */
  function Mapped(m: Mgr): Mgr
    requires m.b > 0 && m.last < |m.blocks|
  {
    var x := m.blocks[m.last].(addr := Some(m.tail));
    m.(blocks := m.blocks[m.last := x], last := m.last + 1, links := Relink(m.links, x, m.b), tail := End(x, m.b))
  }

  function Without<T>(s: seq<T>, i: nat): seq<T>
    requires i < |s|
  {
    s[..i] + s[i + 1..]
  }

  /** `erofs_bdrop` of buffer head `h`. */
  function Dropped(m: Mgr, i: nat, h: nat, revoke: bool): Mgr
    requires m.b > 0 && i < |m.blocks| && h < |m.blocks[i].heads|
  {
    var x := m.blocks[i].(heads := Without(m.blocks[i].heads, h));
    if x.heads != [] then m.(blocks := m.blocks[i := x])
    else
      var rollback := revoke && AtTail(m, i);
      m.(blocks := Without(m.blocks, i), last := if i < m.last then m.last - 1 else m.last,
         links := Remove(m.links, x.id),
         kept := if x.addr.None? || rollback then m.kept else m.kept + [x],
         tail := if rollback then x.addr.value else m.tail)
  }

  // ----- what every update keeps -------------------------------------------------------

  /** The grants of a block follow one another, each aligned. */
  ghost predicate GrantsOk(x: Block, b: nat)
    requires b > 0
  {
    && (forall j :: 0 <= j < |x.grants| ==> GrantOk(x.grants[j], b) && x.grants[j].off + x.grants[j].size <= x.off)
    && (forall j, k :: 0 <= j < k < |x.grants| ==> x.grants[j].off + x.grants[j].size <= x.grants[k].off)
  }

  predicate GrantOk(g: Grant, b: nat)
    requires b > 0
  {
    g.align > 0 && b % g.align == 0 && g.off % g.align == 0
  }

  /** Two blocks share no disk block. */
  predicate Apart(x: Block, y: Block, b: nat)
    requires b > 0 && x.addr.Some? && y.addr.Some?
  {
    Blocks(x, b) == 0 || Blocks(y, b) == 0 || End(x, b) <= y.addr.value || End(y, b) <= x.addr.value
  }

  /** The blocks that own disk blocks: the mapped ones and those freed without rollback. */
  function Owners(m: Mgr): seq<Block>
    requires m.last <= |m.blocks|
  {
    m.blocks[..m.last] + m.kept
  }

  ghost predicate OwnersOk(s: seq<Block>, tail: nat, b: nat)
    requires b > 0
  {
    && (forall i :: 0 <= i < |s| ==> s[i].addr.Some? && GrantsOk(s[i], b) && (Blocks(s[i], b) > 0 ==> End(s[i], b) <= tail))
    && (forall i, j :: 0 <= i < j < |s| ==> s[i].id != s[j].id && Apart(s[i], s[j], b))
  }

  predicate Distinct(links: seq<Link>) {
    forall i, j :: 0 <= i < j < |links| ==> links[i].id != links[j].id
  }

  /** Every mapped block is in the bucket of its type and offset, and in no other. */
  ghost predicate LinksOk(m: Mgr)
    requires m.b > 0 && m.last <= |m.blocks|
  {
    && (forall i :: 0 <= i < m.last ==> KeyOf(m.blocks[i], m.b) in m.links)
    && (forall l :: l in m.links ==> exists i :: 0 <= i < m.last && l == KeyOf(m.blocks[i], m.b))
    && Distinct(m.links)
  }

  /** The list: mapped blocks come first, and `id` tells all blocks apart. */
  ghost predicate ListOk(m: Mgr) {
    && m.b > 0 && m.last <= |m.blocks|
    && (forall i :: 0 <= i < |m.blocks| ==> m.blocks[i].id < m.nextId && (m.blocks[i].addr.Some? <==> i < m.last) && GrantsOk(m.blocks[i], m.b))
    && (forall i, j :: 0 <= i < j < |m.blocks| ==> m.blocks[i].id != m.blocks[j].id)
    && (forall j :: 0 <= j < |m.kept| ==> m.kept[j].id < m.nextId)
    && (forall i, j :: 0 <= i < |m.blocks| && 0 <= j < |m.kept| ==> m.blocks[i].id != m.kept[j].id)
  }

  ghost predicate Valid(m: Mgr) {
    ListOk(m) && OwnersOk(Owners(m), m.tail, m.b) && LinksOk(m)
  }

  lemma {:induction false} RemoveIs(links: seq<Link>, id: nat)
    ensures forall l :: l in Remove(links, id) <==> l in links && l.id != id
    ensures Distinct(links) ==> Distinct(Remove(links, id))
  {
    if links != [] {
      RemoveIs(links[1..], id);
      var r := Remove(links[1..], id);
      assert forall l :: l in links <==> l == links[0] || l in links[1..];
      if Distinct(links) {
        assert forall j :: 0 <= j < |r| ==> r[j] in links[1..];
        assert Distinct(links[1..]);
      }
    }
  }

  lemma RelinkIs(links: seq<Link>, x: Block, b: nat)
    requires b > 0 && x.addr.Some?
    ensures forall l :: l in Relink(links, x, b) <==> l == KeyOf(x, b) || (l in links && l.id != x.id)
    ensures Distinct(links) ==> Distinct(Relink(links, x, b))
  {
    RemoveIs(links, x.id);
    var r := Remove(links, x.id);
    assert forall j :: 0 <= j < |r| ==> r[j] in r;
  }

  lemma GrownOk(x: Block, head: bool, incr: nat, align: nat, b: nat)
    requires b > 0 && align > 0 && b % align == 0 && GrantsOk(x, b)
    ensures GrantsOk(Grown(x, head, incr, align), b)
  {
    RoundUpIs(x.off, align);
  }

  /** A block grows, and does so only if the request leaves the disk block that it starts in. */
  lemma GrownBlocks(m: Mgr, i: nat, head: bool, incr: nat, align: nat)
    requires m.b > 0 && i < |m.blocks| && align > 0 && m.b % align == 0
    ensures var x := Grown(m.blocks[i], head, incr, align);
            && Blocks(x, m.b) >= Blocks(m.blocks[i], m.b)
            && (Oob(m, i, incr, align, 0) <= 0 ==> Blocks(x, m.b) == Blocks(m.blocks[i], m.b))
  {
    var off, b := m.blocks[i].off, m.b;
    var r, f := BlkRoundUp(off, b), RoundUp(Fill(off, b), align);
    RoundUpIs(Fill(off, b), align);
    RoundUpInBlock(off, align, b);
    if f + incr <= b {
      FillUnique(r, f + incr, b);
    } else {
      FillIs(off, b);
      RoundUpIs(off, align);
      assert Grown(m.blocks[i], head, incr, align).off >= off;
      BlkRoundUpIs(off, b);
      BlkRoundUpIs(Grown(m.blocks[i], head, incr, align).off, b);
      BlkMonotone(off, Grown(m.blocks[i], head, incr, align).off, b);
    }
  }

  // ----- the owners of disk blocks -----------------------------------------------------

  lemma OwnersUpdate(s: seq<Block>, i: nat, x: Block, tail: nat, tail': nat, b: nat)
    requires b > 0 && i < |s| && OwnersOk(s, tail, b)
    requires x.id == s[i].id && x.addr == s[i].addr && GrantsOk(x, b)
    requires || (Blocks(x, b) == Blocks(s[i], b) && tail' == tail)
             || (Blocks(x, b) >= Blocks(s[i], b) && tail == End(s[i], b) && tail' == End(x, b))
    ensures OwnersOk(s[i := x], tail', b)
  {
    hide GrantsOk, BlkRoundUp;
  }

  lemma OwnersInsert(s: seq<Block>, i: nat, x: Block, tail: nat, b: nat)
    requires b > 0 && i <= |s| && OwnersOk(s, tail, b)
    requires x.addr == Some(tail) && GrantsOk(x, b) && forall j :: 0 <= j < |s| ==> s[j].id != x.id
    ensures OwnersOk(s[..i] + [x] + s[i..], End(x, b), b)
  {
    hide GrantsOk, BlkRoundUp;
  }

  lemma OwnersRemove(s: seq<Block>, i: nat, tail: nat, tail': nat, b: nat)
    requires b > 0 && i < |s| && OwnersOk(s, tail, b)
    requires tail' == tail || (tail == End(s[i], b) && tail' == s[i].addr.value)
    ensures OwnersOk(Without(s, i), tail', b)
  {
    hide GrantsOk, BlkRoundUp;
    var t := Without(s, i);
    assert forall j :: 0 <= j < |t| ==> t[j] == if j < i then s[j] else s[j + 1];
    forall j | 0 <= j < |t| && Blocks(t[j], b) > 0
      ensures End(t[j], b) <= tail'
    {
      assert Apart(s[i], t[j], b) || Apart(t[j], s[i], b);
    }
  }

  lemma OwnersAppend(s: seq<Block>, i: nat, tail: nat, b: nat)
    requires b > 0 && i < |s| && OwnersOk(s, tail, b)
    ensures OwnersOk(Without(s, i) + [s[i]], tail, b)
  {
    hide GrantsOk, BlkRoundUp;
    OwnersRemove(s, i, tail, tail, b);
    var t := Without(s, i);
    assert forall j :: 0 <= j < |t| ==> t[j] == if j < i then s[j] else s[j + 1];
  }

  // ----- the updates -------------------------------------------------------------------

  lemma AttachKeeps(m: Mgr, i: nat, head: bool, incr: nat, align: nat, extra: nat)
    requires Valid(m) && i < |m.blocks| && align > 0 && m.b % align == 0 && CanAttach(m, i, incr, align, extra)
    ensures Valid(Attached(m, i, head, incr, align, extra))
  {
    hide GrantsOk, BlkRoundUp, RoundUp, Grown, OwnersOk, LinksOk, Fill;
    var t, x := Attached(m, i, head, incr, align, extra), Grown(m.blocks[i], head, incr, align);
    GrownOk(m.blocks[i], head, incr, align, m.b);
    GrownBlocks(m, i, head, incr, align);
    GrownIs(m.blocks[i], head, incr, align);
    if i < m.last {
      assert Owners(m)[i] == m.blocks[i];
      assert Owners(t) == Owners(m)[i := x];
      OwnersUpdate(Owners(m), i, x, m.tail, t.tail, m.b);
      RelinkKeeps(m, i, x, t);
    } else {
      assert Owners(t) == Owners(m);
      UnmappedLinks(m, t);
    }
  }

  lemma GrownIs(x: Block, head: bool, incr: nat, align: nat)
    requires align > 0
    ensures var y := Grown(x, head, incr, align); y.id == x.id && y.addr == x.addr && y.data == x.data
  {
  }

  /** One mapped block changed and its link was renewed. */
  lemma RelinkKeeps(m: Mgr, i: nat, x: Block, t: Mgr)
    requires m.b > 0 && m.last <= |m.blocks| && LinksOk(m) && i < m.last
    requires forall j, k :: 0 <= j < k < |m.blocks| ==> m.blocks[j].id != m.blocks[k].id
    requires x.id == m.blocks[i].id && x.addr.Some?
    requires t.b == m.b && t.last == m.last && t.blocks == m.blocks[i := x] && t.links == Relink(m.links, x, m.b)
    ensures LinksOk(t)
  {
    RelinkIs(m.links, x, m.b);
    hide Relink;
    forall l | l in t.links
      ensures exists j :: 0 <= j < t.last && l == KeyOf(t.blocks[j], t.b)
    {
      if l == KeyOf(x, m.b) {
        assert l == KeyOf(t.blocks[i], t.b);
      } else {
        var j :| 0 <= j < m.last && l == KeyOf(m.blocks[j], m.b);
        assert l == KeyOf(t.blocks[j], t.b);
      }
    }
    forall j | 0 <= j < t.last
      ensures KeyOf(t.blocks[j], t.b) in t.links
    {
      if j != i { assert KeyOf(m.blocks[j], m.b) in m.links; }
    }
  }

  /** Nothing changed for the mapped blocks. */
  lemma UnmappedLinks(m: Mgr, t: Mgr)
    requires m.b > 0 && m.last <= |m.blocks| && LinksOk(m)
    requires t.b == m.b && t.last == m.last <= |t.blocks| && t.links == m.links
    requires forall j :: 0 <= j < m.last ==> t.blocks[j] == m.blocks[j]
    ensures LinksOk(t)
  {
    forall l | l in t.links
      ensures exists j :: 0 <= j < t.last && l == KeyOf(t.blocks[j], t.b)
    {
      var j :| 0 <= j < m.last && l == KeyOf(m.blocks[j], m.b);
      assert l == KeyOf(t.blocks[j], t.b);
    }
  }

  lemma AddKeeps(m: Mgr, data: bool)
    requires Valid(m)
    ensures Valid(Added(m, data))
  {
    hide OwnersOk, LinksOk;
    var t, x, at := Added(m, data), Block(m.nextId, None, data, 0, [], []), if data then m.last else |m.blocks|;
    hide Added;
    assert t == m.(blocks := m.blocks[..at] + [x] + m.blocks[at..], nextId := m.nextId + 1) by { AddedIs(m, data); }
    AddedList(m, at, x, t);
    assert Owners(t) == Owners(m);
    UnmappedLinks(m, t);
  }

  lemma AddedIs(m: Mgr, data: bool)
    requires m.last <= |m.blocks|
    ensures var at := if data then m.last else |m.blocks|;
            Added(m, data)
              == m.(blocks := m.blocks[..at] + [Block(m.nextId, None, data, 0, [], [])] + m.blocks[at..], nextId := m.nextId + 1)
  {
    assert m.blocks[..|m.blocks|] == m.blocks && m.blocks[|m.blocks|..] == [];
  }

  lemma AddedList(m: Mgr, at: nat, x: Block, t: Mgr)
    requires ListOk(m) && m.last <= at <= |m.blocks| && x.id == m.nextId && x.addr.None? && x.grants == []
    requires t == m.(blocks := m.blocks[..at] + [x] + m.blocks[at..], nextId := m.nextId + 1)
    ensures ListOk(t)
  {
    assert GrantsOk(x, m.b);
    hide GrantsOk;
    assert forall j :: 0 <= j < |t.blocks| ==> t.blocks[j] == if j < at then m.blocks[j] else if j == at then x else m.blocks[j - 1];
  }

  lemma MapKeeps(m: Mgr)
    requires Valid(m) && m.last < |m.blocks|
    ensures Valid(Mapped(m))
  {
    hide BlkRoundUp, GrantsOk, OwnersOk, LinksOk, Relink;
    var t, x := Mapped(m), m.blocks[m.last].(addr := Some(m.tail));
    assert Owners(t) == Owners(m)[..m.last] + [x] + Owners(m)[m.last..];
    SameGrants(m.blocks[m.last], x, m.b);
    assert forall j :: 0 <= j < |Owners(m)| ==> Owners(m)[j] == if j < m.last then m.blocks[j] else m.kept[j - m.last];
    OwnersInsert(Owners(m), m.last, x, m.tail, m.b);
    MapLinks(m);
  }

  lemma SameGrants(x: Block, y: Block, b: nat)
    requires b > 0 && GrantsOk(x, b) && y.grants == x.grants && y.off == x.off
    ensures GrantsOk(y, b)
  {
  }

  lemma MapLinks(m: Mgr)
    requires m.b > 0 && m.last < |m.blocks| && LinksOk(m)
    requires forall j, k :: 0 <= j < k < |m.blocks| ==> m.blocks[j].id != m.blocks[k].id
    ensures LinksOk(Mapped(m))
  {
    var t, x := Mapped(m), m.blocks[m.last].(addr := Some(m.tail));
    RelinkIs(m.links, x, m.b);
    hide Relink;
    forall l | l in t.links
      ensures exists j :: 0 <= j < t.last && l == KeyOf(t.blocks[j], t.b)
    {
      if l == KeyOf(x, m.b) {
        assert l == KeyOf(t.blocks[m.last], t.b);
      } else {
        var j :| 0 <= j < m.last && l == KeyOf(m.blocks[j], m.b);
        assert l == KeyOf(t.blocks[j], t.b);
      }
    }
    forall j | 0 <= j < t.last
      ensures KeyOf(t.blocks[j], t.b) in t.links
    {
      if j != m.last { assert KeyOf(m.blocks[j], m.b) in m.links; }
    }
  }

  lemma DropKeeps(m: Mgr, i: nat, h: nat, revoke: bool)
    requires Valid(m) && i < |m.blocks| && h < |m.blocks[i].heads|
    ensures Valid(Dropped(m, i, h, revoke))
  {
    hide BlkRoundUp, GrantsOk, OwnersOk, LinksOk, Remove, Without;
    var t, x := Dropped(m, i, h, revoke), m.blocks[i].(heads := Without(m.blocks[i].heads, h));
    SameGrants(m.blocks[i], x, m.b);
    if x.heads != [] {
      if i < m.last {
        assert Owners(t) == Owners(m)[i := x];
        OwnersUpdate(Owners(m), i, x, m.tail, m.tail, m.b);
        SameLinks(m, i, x, t);
      } else {
        assert Owners(t) == Owners(m);
        UnmappedLinks(m, t);
      }
    } else {
      FreeKeeps(m, i, x, t, revoke);
    }
  }

  /** The change of a block did not concern its bucket. */
  lemma SameLinks(m: Mgr, i: nat, x: Block, t: Mgr)
    requires m.b > 0 && m.last <= |m.blocks| && LinksOk(m) && i < m.last
    requires KeyOf(x, m.b) == KeyOf(m.blocks[i], m.b)
    requires t.b == m.b && t.last == m.last && t.blocks == m.blocks[i := x] && t.links == m.links
    ensures LinksOk(t)
  {
    forall l | l in t.links
      ensures exists j :: 0 <= j < t.last && l == KeyOf(t.blocks[j], t.b)
    {
      var j :| 0 <= j < m.last && l == KeyOf(m.blocks[j], m.b);
      assert l == KeyOf(t.blocks[j], t.b);
    }
    assert forall j :: 0 <= j < t.last ==> KeyOf(t.blocks[j], t.b) == KeyOf(m.blocks[j], m.b);
  }

  lemma FreeKeeps(m: Mgr, i: nat, x: Block, t: Mgr, revoke: bool)
    requires Valid(m) && i < |m.blocks| && x == m.blocks[i].(heads := [])
    requires t == m.(blocks := Without(m.blocks, i), last := if i < m.last then m.last - 1 else m.last,
                     links := Remove(m.links, x.id),
                     kept := if x.addr.None? || (revoke && AtTail(m, i)) then m.kept else m.kept + [x],
                     tail := if revoke && AtTail(m, i) then x.addr.value else m.tail)
    ensures Valid(t)
  {
    hide BlkRoundUp, GrantsOk, OwnersOk, LinksOk, Remove;
    SameGrants(m.blocks[i], x, m.b);
    WithoutAt(m.blocks, i);
    FreeLinks(m, i, t);
    FreeList(m, i, x, t);
    hide ListOk;
    if i < m.last {
      var s := Owners(m)[i := x];
      OwnersUpdate(Owners(m), i, x, m.tail, m.tail, m.b);
      OwnersRemove(s, i, m.tail, t.tail, m.b);
      if revoke && AtTail(m, i) {
        assert Owners(t) == Without(s, i);
      } else {
        OwnersAppend(s, i, m.tail, m.b);
        assert Owners(t) == Without(s, i) + [x];
      }
    } else {
      assert Owners(t) == Owners(m);
    }
  }

  lemma WithoutAt<T>(s: seq<T>, i: nat)
    requires i < |s|
    ensures |Without(s, i)| == |s| - 1
    ensures forall j :: 0 <= j < |s| - 1 ==> Without(s, i)[j] == s[if j < i then j else j + 1]
  {
  }

  lemma FreeList(m: Mgr, i: nat, x: Block, t: Mgr)
    requires ListOk(m) && i < |m.blocks| && x.id == m.blocks[i].id
    requires t.b == m.b && t.nextId == m.nextId && t.blocks == Without(m.blocks, i)
    requires t.kept == m.kept || t.kept == m.kept + [x]
    requires t.last == if i < m.last then m.last - 1 else m.last
    ensures ListOk(t)
  {
    hide GrantsOk;
    WithoutAt(m.blocks, i);
    hide Without;
  }

  lemma FreeLinks(m: Mgr, i: nat, t: Mgr)
    requires ListOk(m) && LinksOk(m) && i < |m.blocks|
    requires t.b == m.b && t.blocks == Without(m.blocks, i) && t.links == Remove(m.links, m.blocks[i].id)
    requires t.last == if i < m.last then m.last - 1 else m.last
    ensures LinksOk(t)
  {
    hide GrantsOk;
    RemoveIs(m.links, m.blocks[i].id);
    WithoutAt(m.blocks, i);
    hide Remove, Without;
    forall l | l in t.links
      ensures exists j :: 0 <= j < t.last && l == KeyOf(t.blocks[j], t.b)
    {
      var j :| 0 <= j < m.last && l == KeyOf(m.blocks[j], m.b);
      var k := if j < i then j else j - 1;
      assert j != i && t.blocks[k] == m.blocks[j];
      assert l == KeyOf(t.blocks[k], t.b);
    }
    forall j | 0 <= j < t.last
      ensures KeyOf(t.blocks[j], t.b) in t.links
    {
      assert KeyOf(m.blocks[if j < i then j else j + 1], m.b) in m.links;
    }
  }

  // ----- what a valid state promises ---------------------------------------------------

  /** The first byte of a grant on disk. */
  function Lo(x: Block, g: Grant, b: nat): nat
    requires x.addr.Some?
  {
    x.addr.value * b + g.off
  }

  function Hi(x: Block, g: Grant, b: nat): nat
    requires x.addr.Some?
  {
    Lo(x, g, b) + g.size
  }

  /**
   * No two grants share a byte, be they of one block, of two, or of blocks freed long ago; `s` are the
   * owners of a valid state.
   */
  lemma GrantsApart(s: seq<Block>, tail: nat, b: nat, p: nat, j: nat, q: nat, k: nat)
    requires b > 0 && OwnersOk(s, tail, b) && p < |s| && q < |s|
    requires j < |s[p].grants| && k < |s[q].grants| && (p != q || j != k)
    requires s[p].grants[j].size > 0 && s[q].grants[k].size > 0
    ensures || Hi(s[p], s[p].grants[j], b) <= Lo(s[q], s[q].grants[k], b)
            || Hi(s[q], s[q].grants[k], b) <= Lo(s[p], s[p].grants[j], b)
  {
    hide BlkRoundUp, Lo, Hi;
    assert GrantsOk(s[p], b) && GrantsOk(s[q], b);
    if p == q {
      SameBlock(s[p], j, k, b);
    } else {
      assert Apart(s[p], s[q], b) || Apart(s[q], s[p], b);
      TwoBlocks(s[p], s[p].grants[j], s[q], s[q].grants[k], b);
    }
  }

  lemma SameBlock(x: Block, j: nat, k: nat, b: nat)
    requires b > 0 && x.addr.Some? && GrantsOk(x, b) && j < |x.grants| && k < |x.grants| && j != k
    ensures Hi(x, x.grants[j], b) <= Lo(x, x.grants[k], b) || Hi(x, x.grants[k], b) <= Lo(x, x.grants[j], b)
  {
    if j < k {
      assert x.grants[j].off + x.grants[j].size <= x.grants[k].off;
    } else {
      assert x.grants[k].off + x.grants[k].size <= x.grants[j].off;
    }
  }

  lemma TwoBlocks(x: Block, g: Grant, y: Block, h: Grant, b: nat)
    requires b > 0 && x.addr.Some? && y.addr.Some? && (Apart(x, y, b) || Apart(y, x, b))
    requires g.off + g.size <= x.off && h.off + h.size <= y.off && g.size > 0 && h.size > 0
    ensures Hi(x, g, b) <= Lo(y, h, b) || Hi(y, h, b) <= Lo(x, g, b)
  {
    WithinBlock(x, g, b);
    WithinBlock(y, h, b);
    hide BlkRoundUp;
    if End(x, b) <= y.addr.value {
      MulMonotone(End(x, b), y.addr.value, b);
    } else {
      MulMonotone(End(y, b), x.addr.value, b);
    }
  }

  lemma WithinBlock(x: Block, g: Grant, b: nat)
    requires b > 0 && x.addr.Some? && g.off + g.size <= x.off && g.size > 0
    ensures Hi(x, g, b) <= End(x, b) * b && Blocks(x, b) > 0
  {
    BlkRoundUpIs(x.off, b);
    BlkSplit(x.off, b);
    assert (BlkNr(x.off, b) + 1) * b == BlkNr(x.off, b) * b + b;
    assert x.off <= Blocks(x, b) * b;
    assert End(x, b) * b == x.addr.value * b + Blocks(x, b) * b;
  }

  /** Every grant is aligned on disk and lies below the tail. */
  lemma GrantsPlaced(s: seq<Block>, tail: nat, b: nat, p: nat, j: nat)
    requires b > 0 && OwnersOk(s, tail, b) && p < |s| && j < |s[p].grants|
    ensures var g := s[p].grants[j];
            && g.align > 0 && Lo(s[p], g, b) % g.align == 0
            && (g.size > 0 ==> Hi(s[p], g, b) <= tail * b)
  {
    hide BlkRoundUp;
    var x, g := s[p], s[p].grants[j];
    assert GrantsOk(x, b);
    assert GrantOk(g, b);
    AlignedSum(x.addr.value, b, g.off, g.align);
    if g.size > 0 {
      WithinBlock(x, g, b);
      MulMonotone(End(x, b), tail, b);
    }
  }

  lemma AlignedSum(n: nat, b: nat, off: nat, a: nat)
    requires a > 0 && b % a == 0 && off % a == 0
    ensures (n * b + off) % a == 0
  {
    var u, v := b / a, off / a;
    assert b == u * a && off == v * a;
    assert n * b == n * u * a;
    assert n * b + off == (n * u + v) * a + 0;
    DivModUnique(n * b + off, a, n * u + v, 0);
  }

  /** A block still owns its place and all that was handed out of it. */
  ghost predicate Stays(o: Block, t: Mgr) {
    t.last <= |t.blocks| && exists y :: y in Owners(t) && y.id == o.id && y.addr == o.addr && y.grants == o.grants
  }

  /** Dropping buffer head `h` gives the place of its block back: it was the last head of the topmost block. */
  predicate RollsBack(m: Mgr, i: nat, revoke: bool)
    requires m.b > 0 && i < |m.blocks|
  {
    revoke && AtTail(m, i) && |m.blocks[i].heads| == 1
  }

  /** What was handed out on disk stays so in every update but the one that rolls its block back. */
  lemma DropKeepsOwners(m: Mgr, i: nat, h: nat, revoke: bool, p: nat)
    requires Valid(m) && i < |m.blocks| && h < |m.blocks[i].heads| && p < |Owners(m)|
    requires RollsBack(m, i, revoke) ==> Owners(m)[p].id != m.blocks[i].id
    ensures Stays(Owners(m)[p], Dropped(m, i, h, revoke))
  {
    hide LinksOk, OwnersOk, BlkRoundUp, Remove, GrantsOk;
    var t, o := Dropped(m, i, h, revoke), Owners(m)[p];
    var x := m.blocks[i].(heads := Without(m.blocks[i].heads, h));
    WithoutAt(m.blocks, i);
    WithoutAt(m.blocks[i].heads, h);
    hide Without;
    if p >= m.last {
      assert o == m.kept[p - m.last];
      assert o in t.kept;
      assert o in Owners(t);
    } else if p != i {
      var q := if x.heads != [] || p < i then p else p - 1;
      assert t.blocks[q] == o && q < t.last;
      assert Owners(t)[q] == o;
    } else if x.heads != [] {
      assert Owners(t)[p] == x;
    } else {
      assert t.kept == m.kept + [x];
      assert x in t.kept;
      assert x in Owners(t);
    }
  }

  // ----- inline tails ------------------------------------------------------------------

  /** `used` of the search: how full the last block will be with the inline data. */
  function UsedAfter(m: Mgr, i: nat, size: nat, align: nat, req: nat, inl: nat): nat
    requires m.b > 0 && i < |m.blocks| && align > 0
  {
    (Fill(RoundUp(m.blocks[i].off, align) + size, m.b) + req) % m.b + inl
  }

  /** A block that the search may return. */
  predicate Usable(m: Mgr, i: nat, size: nat, align: nat, req: nat, inl: nat)
    requires m.b > 0 && align > 0
  {
    i < |m.blocks| && CanAttach(m, i, size, align, req + inl) && UsedAfter(m, i, size, align, req, inl) <= m.b
  }

  /** Right behind what was attached there is room for `inl` bytes in one disk block. */
  predicate InlineReady(m: Mgr, i: nat, inl: nat)
    requires m.b > 0 && i < |m.blocks|
  {
    && CanAttach(m, i, inl, 1, 0)
    && RoundUp(m.blocks[i].off, 1) == m.blocks[i].off
    && m.blocks[i].off % m.b + inl <= m.b
  }

  /** After a request that reserved inline space, attaching the inline data cannot fail. */
  lemma InlineTail(m: Mgr, i: nat, size: nat, align: nat, inl: nat)
    requires m.b > 0 && align > 0 && m.b % align == 0 && Usable(m, i, size, align, 0, inl)
    ensures InlineReady(Attached(m, i, true, size, align, inl), i, inl)
  {
    hide RoundUp, BlkRoundUp;
    var t, off, b := Attached(m, i, true, size, align, inl), m.blocks[i].off, m.b;
    var at := RoundUp(off, align) + size;
    RoundUpOne(at);
    RoundUpOne(Fill(at, b));
    RoundUpInBlock(off, align, b);
    RoundUpIs(Fill(off, b), align);
    var f := RoundUp(Fill(off, b), align) + size;
    assert t.blocks[i].off == at;
    FillSplit(at, b);
    if f <= b {
      FillUnique(BlkRoundUp(off, b), f, b);
      assert Fill(at, b) == f;
    }
  }

  lemma RoundUpOne(x: nat)
    ensures RoundUp(x, 1) == x
  {
  }

  lemma FillSplit(off: nat, b: nat)
    requires b > 0
    ensures off % b == Fill(off, b) % b && off % b == if Fill(off, b) == b then 0 else Fill(off, b)
  {
    if off % b != 0 {
      DivModUnique(off % b, b, 0, off % b);
    } else {
      DivModUnique(b, b, 1, 0);
    }
  }

  /**
   * `erofs_map_flatmode`: the tail of a file of `isize` bytes begins at `pos`. Then the address that
   * is read for `offset` is that of its byte, and the check against crossing a block does not fire.
   */
  lemma InlineReads(pos: nat, isize: nat, offset: nat, b: nat)
    requires b > 0 && isize % b > 0 && pos % b + isize % b <= b
    requires isize - isize % b <= offset < isize
    ensures pos + offset % b == pos + (offset - (isize - isize % b))
    ensures (pos + offset % b) % b + (isize - offset) <= b
  {
    var q, r := isize / b, isize % b;
    assert isize == q * b + r;
    DivModUnique(offset, b, q, offset - q * b);
    assert pos == pos / b * b + pos % b;
    DivModUnique(pos + offset % b, b, pos / b, pos % b + offset % b);
  }
}
