/** Iterating over a directory (`lib/dir.c`) and looking up a name (`lib/namei.c`). */
module DirRead {
  import opened Arithmetic
  import opened Bytes
  import opened DirBlock
  import opened DirWrite
  import opened Options

  /** `EROFS_FT_MAX` */
  const FT_MAX := 8

  const DOT: byte := 46

  const SLASH: byte := 47

  // ----- one dirent --------------------------------------------------------------------

  /** Dirent `i` of a block; what lies past its end reads as zeroes. */
  function NidAt(buf: seq<byte>, i: nat): nat { U64(DevRead(buf, DIRENT * i, DIRENT), 0) }

  function NameoffAt(buf: seq<byte>, i: nat): nat { U16(DevRead(buf, DIRENT * i, DIRENT), 8) }

  function TypeAt(buf: seq<byte>, i: nat): byte { DevRead(buf, DIRENT * i, DIRENT)[10] }

  /** `strnlen` */
  function StrNLen(buf: seq<byte>, at: nat): (n: nat)
    ensures at <= |buf| ==> at + n <= |buf|
    decreases |buf| - at
  {
    if at >= |buf| || buf[at] == 0 then 0 else 1 + StrNLen(buf, at + 1)
  }

  /** The length of name `i`; the last dirent is the one that ends at `end`. */
  function NameLenAt(buf: seq<byte>, i: nat, end: nat): int {
    if DIRENT * (i + 1) >= end then StrNLen(buf, NameoffAt(buf, i)) else NameoffAt(buf, i + 1) - NameoffAt(buf, i)
  }

  lemma {:induction false} StrNLenIs(buf: seq<byte>, at: nat, name: Name)
    requires at + |name| <= |buf| && buf[at..at + |name|] == name && forall i :: 0 <= i < |name| ==> name[i] != 0
    requires at + |name| < |buf| ==> buf[at + |name|] == 0
    ensures StrNLen(buf, at) == |name|
    decreases |name|
  {
    if name != [] {
      assert buf[at] == buf[at..at + |name|][0] == name[0];
      assert buf[at + 1..at + 1 + (|name| - 1)] == buf[at..at + |name|][1..];
      StrNLenIs(buf, at + 1, name[1..]);
    }
  }

  lemma DirentFields(s: seq<byte>, e: Entry, nameoff: nat)
    requires s == Dirent(e, nameoff) && EntryOk(e) && nameoff < 65536
    ensures U64(s, 0) == e.nid && U16(s, 8) == nameoff && s[10] == e.ftype
  {
    assert s[0..8] == Le64(e.nid) by { assert s == Le64(e.nid) + (Le16(nameoff) + [e.ftype, 0]); }
    assert s[8..10] == Le16(nameoff);
    ReadLe64(s, 0, e.nid);
    ReadLe16(s, 8, nameoff);
    DivModUnique(nameoff, 65536, 0, nameoff);
  }

  /** Entry `i` of a block is read as it was written. */
  lemma EntryReads(buf: seq<byte>, es: seq<Entry>, i: nat)
    requires IsBlock(buf, es) && EntriesOk(es) && i < |es| && |buf| <= MAX_BLOCK
    ensures NidAt(buf, i) == es[i].nid && NameoffAt(buf, i) == NameOff(es, i) && TypeAt(buf, i) == es[i].ftype
    ensures NameOff(es, i) + |es[i].name| <= |buf|
    ensures buf[NameOff(es, i)..NameOff(es, i) + |es[i].name|] == es[i].name
  {
    assert Placed(buf, es, i);
    assert EntryOk(es[i]);
    hide NameBytes;
    DevReadInside(buf, DIRENT * i, DIRENT);
    DirentFields(DevRead(buf, DIRENT * i, DIRENT), es[i], NameOff(es, i));
  }

  lemma NameLenReads(buf: seq<byte>, es: seq<Entry>, i: nat)
    requires IsBlock(buf, es) && EntriesOk(es) && i < |es| && |buf| <= MAX_BLOCK
    ensures NameLenAt(buf, i, NameOff(es, 0)) == |es[i].name| && NameOff(es, 0) == DIRENT * |es|
  {
    EntryReads(buf, es, i);
    NameOffNext(es, i);
    assert EntryOk(es[i]);
    if i + 1 < |es| {
      EntryReads(buf, es, i + 1);
    } else {
      StrNLenIs(buf, NameOff(es, i), es[i].name);
    }
  }

  // ----- names -------------------------------------------------------------------------

  /** The order of `strcmp`. */
  predicate Less(a: Name, b: Name) {
    b != [] && (a == [] || a[0] < b[0] || (a[0] == b[0] && Less(a[1..], b[1..])))
  }

  /** `strncmp` of the first `n` bytes. */
  function StrNCmp(a: Name, b: Name, n: nat): int
    requires n <= |a| && n <= |b|
  {
    if n == 0 then 0
    else if a[0] != b[0] then a[0] as int - b[0] as int
    else if a[0] == 0 then 0
    else StrNCmp(a[1..], b[1..], n - 1)
  }

  ghost predicate NoZeros(a: Name) {
    forall i :: 0 <= i < |a| ==> a[i] != 0
  }

  /** The order check of fsck. */
  predicate Ordered(a: Name, b: Name) {
    var c := StrNCmp(a, b, Min(|a|, |b|));
    !(c > 0 || (c == 0 && |a| >= |b|))
  }

  /** The order check of fsck accepts names in the order of `strcmp`, and no others. */
  lemma {:induction false} OrderCheck(a: Name, b: Name)
    requires NoZeros(a) && NoZeros(b)
    ensures Ordered(a, b) <==> Less(a, b)
    decreases |a|
  {
    if a != [] && b != [] && a[0] == b[0] {
      OrderCheck(a[1..], b[1..]);
    }
  }

  lemma {:induction false} LessIrreflexive(a: Name)
    ensures !Less(a, a)
  {
    if a != [] { LessIrreflexive(a[1..]); }
  }

  lemma {:induction false} LessTransitive(a: Name, b: Name, c: Name)
    requires Less(a, b) && Less(b, c)
    ensures Less(a, c)
  {
    if a != [] && a[0] == b[0] == c[0] { LessTransitive(a[1..], b[1..], c[1..]); }
  }

  /** `is_dot_dotdot_len` */
  predicate IsDots(name: Name) {
    name == [DOT] || name == [DOT, DOT]
  }

  /** `erofs_validate_filename`: what follows a NUL is not looked at. */
  predicate ValidName(name: Name) {
    name == [] || name[0] == 0 || (name[0] != SLASH && ValidName(name[1..]))
  }

  lemma {:induction false} ValidIs(name: Name)
    requires NoZeros(name)
    ensures ValidName(name) <==> SLASH !in name
  {
    if name != [] {
      ValidIs(name[1..]);
      assert name == [name[0]] + name[1..];
    }
  }

  // ----- what fsck accepts -------------------------------------------------------------

  /** An entry by itself: "." names the directory, ".." the parent if that is known, and other names are valid. */
  predicate EntryChecked(e: Entry, nid: nat, parent: Option<nat>) {
    && e.ftype < FT_MAX
    && (e.name == [DOT] ==> e.nid == nid)
    && (e.name == [DOT, DOT] ==> parent == None || parent == Some(e.nid))
    && (!IsDots(e.name) ==> ValidName(e.name))
  }

  ghost predicate AllChecked(es: seq<Entry>, nid: nat, parent: Option<nat>) {
    forall i :: 0 <= i < |es| ==> EntryChecked(es[i], nid, parent)
  }

  /** Every name comes behind the one before it. */
  ghost predicate Sorted(es: seq<Entry>) {
    forall i :: 0 < i < |es| ==> Ordered(es[i - 1].name, es[i].name)
  }

  ghost predicate Has(es: seq<Entry>, name: Name) {
    exists i :: 0 <= i < |es| && es[i].name == name
  }

  /** The name occurs at most once, and not at all if it was `found` before. */
  ghost predicate AtMostOnce(es: seq<Entry>, found: bool, name: Name) {
    && (found ==> !Has(es, name))
    && forall i, j :: 0 <= i < j < |es| && es[i].name == name ==> es[j].name != name
  }

  /** The entries of one block, after "." or ".." were found or not. */
  ghost predicate PartOk(es: seq<Entry>, nid: nat, parent: Option<nat>, dot: bool, dotdot: bool) {
    && Sorted(es) && AllChecked(es, nid, parent)
    && AtMostOnce(es, dot, [DOT]) && AtMostOnce(es, dotdot, [DOT, DOT])
  }

  /** What fsck accepts: each block is in order, and "." and ".." occur exactly once. */
  ghost predicate FsckOk(parts: seq<seq<Entry>>, nid: nat, parent: Option<nat>) {
    PartsOk(parts, nid, parent) && Has(Flatten(parts), [DOT]) && Has(Flatten(parts), [DOT, DOT])
  }

  ghost predicate PartsOk(parts: seq<seq<Entry>>, nid: nat, parent: Option<nat>) {
    && (forall j :: 0 <= j < |parts| ==> Sorted(parts[j]))
    && AllChecked(Flatten(parts), nid, parent)
    && AtMostOnce(Flatten(parts), false, [DOT]) && AtMostOnce(Flatten(parts), false, [DOT, DOT])
  }

  lemma HasMore(es: seq<Entry>, more: seq<Entry>, name: Name)
    ensures Has(es + more, name) <==> Has(es, name) || Has(more, name)
  {
    var all := es + more;
    if Has(es, name) {
      var i :| 0 <= i < |es| && es[i].name == name;
      assert all[i].name == name;
    }
    if Has(more, name) {
      var i :| 0 <= i < |more| && more[i].name == name;
      assert all[|es| + i].name == name;
    }
  }

  lemma OnceMore(es: seq<Entry>, more: seq<Entry>, found: bool, name: Name)
    ensures AtMostOnce(es + more, found, name) <==> AtMostOnce(es, found, name) && AtMostOnce(more, found || Has(es, name), name)
  {
    HasMore(es, more, name);
    var all := es + more;
    if AtMostOnce(all, found, name) {
      assert forall i :: 0 <= i < |es| ==> all[i] == es[i];
      assert forall i :: 0 <= i < |more| ==> all[|es| + i] == more[i];
    }
  }

  lemma CheckedMore(es: seq<Entry>, more: seq<Entry>, nid: nat, parent: Option<nat>)
    ensures AllChecked(es + more, nid, parent) <==> AllChecked(es, nid, parent) && AllChecked(more, nid, parent)
  {
    hide EntryChecked;
    var all := es + more;
    assert forall i :: 0 <= i < |es| ==> all[i] == es[i];
    assert forall i :: 0 <= i < |more| ==> all[|es| + i] == more[i];
  }

  lemma SortedMore(es: seq<Entry>, e: Entry)
    ensures Sorted(es + [e]) <==> Sorted(es) && (es != [] ==> Ordered(es[|es| - 1].name, e.name))
  {
    hide Ordered;
    var all := es + [e];
    assert all[|es|] == e;
    assert forall i :: 0 <= i < |es| ==> all[i] == es[i];
    if Sorted(all) {
      forall i | 0 < i < |es|
        ensures Ordered(es[i - 1].name, es[i].name)
      {
        assert Ordered(all[i - 1].name, all[i].name);
      }
    }
  }

  lemma HasOne(e: Entry, name: Name)
    ensures Has([e], name) <==> e.name == name
    ensures AtMostOnce([e], false, name) && (AtMostOnce([e], true, name) <==> e.name != name)
  {
    assert [e][0] == e;
  }

  /** One entry more in a block. */
  lemma PartMore(es: seq<Entry>, e: Entry, nid: nat, parent: Option<nat>, dot: bool, dotdot: bool)
    ensures PartOk(es + [e], nid, parent, dot, dotdot) <==>
              && PartOk(es, nid, parent, dot, dotdot) && EntryChecked(e, nid, parent)
              && (es != [] ==> Ordered(es[|es| - 1].name, e.name))
              && (dot || Has(es, [DOT]) ==> e.name != [DOT])
              && (dotdot || Has(es, [DOT, DOT]) ==> e.name != [DOT, DOT])
    ensures Has(es + [e], [DOT]) <==> Has(es, [DOT]) || e.name == [DOT]
    ensures Has(es + [e], [DOT, DOT]) <==> Has(es, [DOT, DOT]) || e.name == [DOT, DOT]
  {
    hide Sorted, AllChecked, AtMostOnce, Has, EntryChecked, Ordered;
    SortedMore(es, e);
    CheckedMore(es, [e], nid, parent);
    OneChecked(e, nid, parent);
    OnceMore(es, [e], dot, [DOT]);
    OnceMore(es, [e], dotdot, [DOT, DOT]);
    HasMore(es, [e], [DOT]);
    HasMore(es, [e], [DOT, DOT]);
    HasOne(e, [DOT]);
    HasOne(e, [DOT, DOT]);
  }

  lemma OneChecked(e: Entry, nid: nat, parent: Option<nat>)
    ensures AllChecked([e], nid, parent) <==> EntryChecked(e, nid, parent)
  {
    hide EntryChecked;
    assert [e][0] == e;
  }

  lemma NoPart(nid: nat, parent: Option<nat>, dot: bool, dotdot: bool)
    ensures PartOk([], nid, parent, dot, dotdot) && !Has([], [DOT]) && !Has([], [DOT, DOT])
    ensures PartsOk([], nid, parent)
  {
  }

  /** What is wrong with the beginning of a block is wrong with the block. */
  lemma {:induction false} PrefixOk(es: seq<Entry>, i: nat, nid: nat, parent: Option<nat>, dot: bool, dotdot: bool)
    requires i <= |es| && PartOk(es, nid, parent, dot, dotdot)
    ensures PartOk(es[..i], nid, parent, dot, dotdot)
    decreases |es|
  {
    if i < |es| {
      var n := |es| - 1;
      assert es == es[..n] + [es[n]];
      PartMore(es[..n], es[n], nid, parent, dot, dotdot);
      PrefixOk(es[..n], i, nid, parent, dot, dotdot);
      assert es[..n][..i] == es[..i];
    } else {
      assert es[..i] == es;
    }
  }

  /** One block more. */
  lemma PartsMore(parts: seq<seq<Entry>>, es: seq<Entry>, nid: nat, parent: Option<nat>)
    ensures var flat := Flatten(parts);
            PartsOk(parts + [es], nid, parent) <==>
              PartsOk(parts, nid, parent) && PartOk(es, nid, parent, Has(flat, [DOT]), Has(flat, [DOT, DOT]))
    ensures Has(Flatten(parts + [es]), [DOT]) <==> Has(Flatten(parts), [DOT]) || Has(es, [DOT])
    ensures Has(Flatten(parts + [es]), [DOT, DOT]) <==> Has(Flatten(parts), [DOT, DOT]) || Has(es, [DOT, DOT])
    ensures Flatten(parts + [es]) == Flatten(parts) + es
  {
    hide Sorted, AllChecked, AtMostOnce, Has, Flatten;
    var flat := Flatten(parts);
    FlattenSnoc(parts, es);
    CheckedMore(flat, es, nid, parent);
    OnceMore(flat, es, false, [DOT]);
    OnceMore(flat, es, false, [DOT, DOT]);
    HasMore(flat, es, [DOT]);
    HasMore(flat, es, [DOT, DOT]);
    var more := parts + [es];
    assert more[|parts|] == es;
    assert forall j :: 0 <= j < |parts| ==> more[j] == parts[j];
  }

  /** What is wrong with the first blocks is wrong with the directory. */
  lemma {:induction false} FirstPartsOk(parts: seq<seq<Entry>>, j: nat, nid: nat, parent: Option<nat>)
    requires j <= |parts| && PartsOk(parts, nid, parent)
    ensures PartsOk(parts[..j], nid, parent)
    decreases |parts|
  {
    if j < |parts| {
      var n := |parts| - 1;
      assert parts == parts[..n] + [parts[n]];
      PartsMore(parts[..n], parts[n], nid, parent);
      FirstPartsOk(parts[..n], j, nid, parent);
      assert parts[..n][..j] == parts[..j];
    } else {
      assert parts[..j] == parts;
    }
  }

  // ----- iteration ---------------------------------------------------------------------

  datatype Outcome = Ok | Corrupted

  /** `struct erofs_dir_context`; `visited` records the callbacks. */
  class DirContext {
    const nid: nat
    const root: nat
    var pnid: nat
    var validPnid: bool
    var dotFound: bool
    var dotdotFound: bool
    var visited: seq<Entry>

    constructor (nid: nat, root: nat)
      ensures this.nid == nid && this.root == root && !validPnid && visited == []
    {
      this.nid, this.root := nid, root;
      pnid, validPnid, dotFound, dotdotFound, visited := 0, false, false, false, [];
    }

    /** The parent that ".." must name: the root is its own parent. */
    function Parent(): Option<nat>
      reads this`pnid, this`validPnid
    {
      if nid == root then Some(root) else if validPnid then Some(pnid) else None
    }

    /** The entries of `part` were visited in a directory with this parent. */
    ghost predicate Visited(before: seq<Entry>, part: seq<Entry>, parent: Option<nat>, dot: bool, dotdot: bool)
      reads this
    {
      && visited == before + part && Parent() == parent
      && (dotFound <==> dot || Has(part, [DOT])) && (dotdotFound <==> dotdot || Has(part, [DOT, DOT]))
    }

    /** The checks of `traverse_dirents` on special names, and the callback. */
    method Visit(e: Entry, fsck: bool) returns (r: Outcome)
      requires fsck ==> e.ftype < FT_MAX
      modifies this`pnid, this`validPnid, this`dotFound, this`dotdotFound, this`visited
      ensures r.Ok? <==> !fsck || (EntryChecked(e, nid, old(Parent())) && (e.name == [DOT] ==> !old(dotFound))
                                   && (e.name == [DOT, DOT] ==> !old(dotdotFound)))
      ensures r.Ok? ==> visited == old(visited) + [e] && Parent() == old(Parent())
      ensures r.Ok? ==> dotFound == (old(dotFound) || e.name == [DOT])
      ensures r.Ok? ==> dotdotFound == (old(dotdotFound) || e.name == [DOT, DOT])
    {
      hide ValidName;
      if e.name == [DOT, DOT] {
        if fsck && dotdotFound {
          return Corrupted;
        }
        dotdotFound := true;
        if root == nid {
          pnid := root;
          validPnid := true;
        }
        if fsck && validPnid && e.nid != pnid {
          return Corrupted;
        }
      } else if e.name == [DOT] {
        if fsck && dotFound {
          return Corrupted;
        }
        dotFound := true;
        if fsck && e.nid != nid {
          return Corrupted;
        }
      } else if fsck && !ValidName(e.name) {
        return Corrupted;
      }
      visited := visited + [e];
      r := Ok;
    }

    /**
     * `traverse_dirents` of a block whose dirents end at `end`. Whatever the block holds, fsck lets nothing
     * pass but what it must; a block with the entries `es` passes exactly if these are right.
     */
    method Traverse(buf: seq<byte>, end: nat, fsck: bool, ghost all: seq<Entry>, ghost n: nat, ghost es: seq<Entry>)
      returns (r: Outcome, ghost part: seq<Entry>)
      modifies this`pnid, this`validPnid, this`dotFound, this`dotdotFound, this`visited
      ensures r.Ok? ==> Visited(old(visited), part, old(Parent()), old(dotFound), old(dotdotFound))
      ensures r.Ok? && fsck ==> PartOk(part, nid, old(Parent()), old(dotFound), old(dotdotFound))
      ensures BlockGood(buf, end, all, n, es) ==>
                && (r.Ok? ==> part == es)
                && (r.Ok? <==> !fsck || PartOk(es, nid, old(Parent()), old(dotFound), old(dotdotFound)))
    {
      ghost var good := BlockGood(buf, end, all, n, es);
      ghost var before, parent, dot, dotdot := visited, Parent(), dotFound, dotdotFound;
      hide PartOk, Ordered, EntryChecked, Has, NidAt, NameoffAt, TypeAt, NameLenAt, NameOff, BlockGood;
      var i, next := 0, end;
      var prev: Option<Name> := None;
      part := [];
      NoPart(nid, parent, dot, dotdot);
      if good { GoodStart(buf, end, all, n, es); }
      while DIRENT * i < end
        invariant good ==> i <= |es| && next == NameOff(es, i) && end == DIRENT * |es| && part == es[..i]
        invariant |part| == i && prev == if i == 0 then None else Some(part[i - 1].name)
        invariant Visited(before, part, parent, dot, dotdot)
        invariant fsck ==> PartOk(part, nid, parent, dot, dotdot)
        decreases end - DIRENT * i
      {
        if good {
          GoodEntry(buf, end, all, n, es, i);
          NextOk(es, i, nid, parent, dot, dotdot);
        }
        var nameoff, len := NameoffAt(buf, i), NameLenAt(buf, i, end);
        if nameoff != next || nameoff + len > |buf| || len <= 0 || len > NAME_LEN {
          return Corrupted, [];
        }
        var name := buf[nameoff..nameoff + len];
        var e := Entry(name, NidAt(buf, i), TypeAt(buf, i));
        assert good ==> e == es[i];
        if fsck && prev.Some? && !Ordered(prev.value, name) {
          return Corrupted, [];
        }
        if fsck && TypeAt(buf, i) >= FT_MAX {
          assert good ==> !EntryChecked(es[i], nid, parent) by { TypeIsChecked(e, nid, parent); }
          return Corrupted, [];
        }
        PartMore(part, e, nid, parent, dot, dotdot);
        r := Visit(e, fsck);
        if r.Corrupted? {
          return;
        }
        assert good ==> es[..i + 1] == es[..i] + [es[i]];
        assert before + (part + [e]) == before + part + [e];
        part := part + [e];
        prev := Some(name);
        next := next + len;
        i := i + 1;
      }
      assert good ==> es[..|es|] == es;
      r := Ok;
    }

    /** One round of the loop of `erofs_iterate_dir`. */
    method IterateOne(data: seq<byte>, b: nat, fsck: bool, pos: nat,
                      ghost all: seq<Entry>, ghost main: seq<byte>, ghost j: nat, ghost n: nat)
      returns (r: Outcome, next: nat, ghost n': nat, ghost part: seq<Entry>)
      requires b > 0 && pos < |data|
      modifies this`pnid, this`validPnid, this`dotFound, this`dotdotFound, this`visited
      ensures pos < next <= |data|
      ensures r.Ok? ==> Visited(old(visited), part, old(Parent()), old(dotFound), old(dotdotFound))
      ensures r.Ok? && fsck ==> PartOk(part, nid, old(Parent()), old(dotFound), old(dotdotFound))
      ensures DirGood(data, all, main, b) && Progress(data, all, b, j, n, pos) ==>
                && j < |Pack(all, b)| && (r.Ok? ==> part == Pack(all, b)[j]) && Progress(data, all, b, j + 1, n', next)
                && (r.Ok? <==> !fsck || PartOk(Pack(all, b)[j], nid, old(Parent()), old(dotFound), old(dotdotFound)))
    {
      ghost var good := DirGood(data, all, main, b) && Progress(data, all, b, j, n, pos);
      hide PartOk, Has, Pack, NameoffAt, DirGood, BlockGood, Progress;
      var buf := data[pos..pos + Min(|data| - pos, b)];
      var nameoff := NameoffAt(buf, 0);
      next := pos + |buf|;
      ghost var es := [];
      if good {
        es := NextBlock(data, all, main, b, j, n, pos);
      }
      n', part := n + |es|, [];
      if nameoff < DIRENT || nameoff >= b {
        r := Corrupted;
      } else {
        r, part := Traverse(buf, nameoff, fsck, all, n, es);
      }
    }

    /** The loop of `erofs_iterate_dir`. */
    method IterateBlocks(data: seq<byte>, b: nat, fsck: bool, ghost all: seq<Entry>, ghost main: seq<byte>)
      returns (r: Outcome, ghost parts: seq<seq<Entry>>)
      requires b > 0 && !dotFound && !dotdotFound
      modifies this`pnid, this`validPnid, this`dotFound, this`dotdotFound, this`visited
      ensures r.Ok? ==> Visited(old(visited), Flatten(parts), old(Parent()), false, false)
      ensures r.Ok? && fsck ==> PartsOk(parts, nid, old(Parent()))
      ensures DirGood(data, all, main, b) ==>
                && (r.Ok? ==> parts == Pack(all, b))
                && (r.Ok? <==> !fsck || PartsOk(Pack(all, b), nid, old(Parent())))
    {
      ghost var good := DirGood(data, all, main, b);
      ghost var before, parent := visited, Parent();
      ghost var j: nat, n: nat := 0, 0;
      NothingVisited();
      hide PartOk, PartsOk, Has, Pack, DirGood, Progress, Flatten, Visited;
      if good { StartProgress(data, all, main, b); }
      NoPart(nid, parent, false, false);
      parts := [];
      var pos := 0;
      while pos < |data|
        invariant good ==> Progress(data, all, b, j, n, pos) && FirstOf(parts, Pack(all, b), j)
        invariant Visited(before, Flatten(parts), parent, false, false)
        invariant fsck ==> PartsOk(parts, nid, parent)
        decreases |data| - pos
      {
        ghost var n', part;
        ghost var was, dot, dotdot := visited, dotFound, dotdotFound;
        VisitedFacts(before, parts, parent);
        r, pos, n', part := IterateOne(data, b, fsck, pos, all, main, j, n);
        if good {
          BlockDecides(Pack(all, b), parts, j, nid, parent);
        }
        if r.Corrupted? {
          return;
        }
        PartsMore(parts, part, nid, parent);
        VisitedMore(before, was, parts, part, parent, dot, dotdot);
        parts := parts + [part];
        j, n := j + 1, n';
      }
      if good {
        AllBlocks(data, all, b, j, n, pos);
        AllOf(parts, Pack(all, b));
      }
      r := Ok;
    }

    lemma NothingVisited()
      requires !dotFound && !dotdotFound
      ensures Visited(visited, Flatten([]), Parent(), false, false)
    {
    }

    lemma VisitedFacts(before: seq<Entry>, parts: seq<seq<Entry>>, parent: Option<nat>)
      requires Visited(before, Flatten(parts), parent, false, false)
      ensures visited == before + Flatten(parts) && Parent() == parent
      ensures dotFound <==> Has(Flatten(parts), [DOT])
      ensures dotdotFound <==> Has(Flatten(parts), [DOT, DOT])
    {
    }

    lemma VisitedMore(before: seq<Entry>, was: seq<Entry>, parts: seq<seq<Entry>>, part: seq<Entry>, parent: Option<nat>,
                      dot: bool, dotdot: bool)
      requires Visited(was, part, parent, dot, dotdot) && was == before + Flatten(parts)
      requires (dot <==> Has(Flatten(parts), [DOT])) && (dotdot <==> Has(Flatten(parts), [DOT, DOT]))
      ensures Visited(before, Flatten(parts + [part]), parent, false, false)
    {
      hide Has, Flatten;
      FlattenSnoc(parts, part);
      HasMore(Flatten(parts), part, [DOT]);
      HasMore(Flatten(parts), part, [DOT, DOT]);
      assert before + (Flatten(parts) + part) == before + Flatten(parts) + part;
    }

    /**
     * `erofs_iterate_dir`: the entries of a written directory are visited once each and in order. In fsck
     * mode nothing passes whose blocks are out of order, or whose names are repeated in a block or invalid,
     * whatever the data; and a written directory passes exactly if it has none of these faults.
     */
    method IterateDir(data: seq<byte>, b: nat, fsck: bool, ghost all: seq<Entry>, ghost main: seq<byte>)
      returns (r: Outcome, ghost parts: seq<seq<Entry>>)
      requires b > 0
      modifies this`pnid, this`validPnid, this`dotFound, this`dotdotFound, this`visited
      ensures r.Ok? ==> visited == old(visited) + Flatten(parts)
      ensures r.Ok? && fsck ==> FsckOk(parts, nid, old(Parent()))
      ensures DirGood(data, all, main, b) ==>
                && (r.Ok? ==> visited == old(visited) + all)
                && (r.Ok? <==> !fsck || FsckOk(Pack(all, b), nid, old(Parent())))
    {
      hide PartsOk, Has, Pack, DirGood;
      dotFound, dotdotFound := false, false;
      PackFlat(all, b);
      r, parts := IterateBlocks(data, b, fsck, all, main);
      if r.Ok? && fsck && !(dotFound && dotdotFound) {
        r := Corrupted;
      }
    }
  }

  lemma TypeIsChecked(e: Entry, nid: nat, parent: Option<nat>)
    ensures EntryChecked(e, nid, parent) ==> e.ftype < FT_MAX
  {
  }

  /** What fsck finds: names are in the order of `strcmp` within each block, and contain no slash. */
  lemma FsckFinds(parts: seq<seq<Entry>>, nid: nat, parent: Option<nat>)
    requires FsckOk(parts, nid, parent) && EntriesOk(Flatten(parts))
    ensures forall j, k, l :: 0 <= j < |parts| && 0 <= k < l < |parts[j]| ==> Less(parts[j][k].name, parts[j][l].name)
    ensures forall e :: e in Flatten(parts) ==> SLASH !in e.name
  {
    hide Less, Ordered, Has, AtMostOnce;
    forall j, k, l | 0 <= j < |parts| && 0 <= k < l < |parts[j]|
      ensures Less(parts[j][k].name, parts[j][l].name)
    {
      FlattenPart(parts, j);
      InPart(Flatten(parts), |Flatten(parts[..j])|, parts[j]);
      SortedLess(parts[j], k, l);
    }
    forall e | e in Flatten(parts)
      ensures SLASH !in e.name
    {
      assert EntryOk(e) && EntryChecked(e, nid, parent);
      ValidIs(e.name);
    }
  }

  lemma InPart(flat: seq<Entry>, n: nat, part: seq<Entry>)
    requires EntriesOk(flat) && n + |part| <= |flat| && flat[n..n + |part|] == part
    ensures EntriesOk(part)
  {
    hide EntryOk;
    forall i | 0 <= i < |part|
      ensures EntryOk(part[i])
    {
      assert part[i] == flat[n + i];
    }
  }

  lemma {:induction false} SortedLess(es: seq<Entry>, k: nat, l: nat)
    requires Sorted(es) && EntriesOk(es) && k < l < |es|
    ensures Less(es[k].name, es[l].name)
    decreases l
  {
    hide Less, Ordered;
    assert EntryOk(es[l - 1]) && EntryOk(es[l]);
    OrderCheck(es[l - 1].name, es[l].name);
    if k + 1 < l {
      SortedLess(es, k, l - 1);
      LessTransitive(es[k].name, es[l - 1].name, es[l].name);
    }
  }

  /** A directory as mkfs builds it, in strict order throughout, passes. */
  lemma GoodDirPasses(es: seq<Entry>, b: nat, nid: nat, parent: Option<nat>)
    requires EntriesOk(es) && AllChecked(es, nid, parent) && Has(es, [DOT]) && Has(es, [DOT, DOT])
    requires forall i, j :: 0 <= i < j < |es| ==> Less(es[i].name, es[j].name)
    ensures FsckOk(Pack(es, b), nid, parent)
  {
    hide Less, Ordered, Pack, Has, EntryChecked;
    var bs := Pack(es, b);
    PackFlat(es, b);
    forall j | 0 <= j < |bs|
      ensures Sorted(bs[j])
    {
      FlattenPart(bs, j);
      PartIsSorted(es, |Flatten(bs[..j])|, bs[j]);
    }
    forall i, j | 0 <= i < j < |es| && es[i].name == es[j].name
      ensures false
    {
      LessIrreflexive(es[i].name);
    }
  }

  lemma PartIsSorted(es: seq<Entry>, n: nat, part: seq<Entry>)
    requires EntriesOk(es) && n + |part| <= |es| && es[n..n + |part|] == part
    requires forall i, j :: 0 <= i < j < |es| ==> Less(es[i].name, es[j].name)
    ensures Sorted(part)
  {
    hide Less, Ordered;
    forall i | 0 < i < |part|
      ensures Ordered(part[i - 1].name, part[i].name)
    {
      assert part[i - 1] == es[n + i - 1] && part[i] == es[n + i];
      assert EntryOk(es[n + i - 1]) && EntryOk(es[n + i]);
      OrderCheck(part[i - 1].name, part[i].name);
    }
  }

  /** The order of names in different blocks is not checked: `y` comes behind `x` although it is less. */
  lemma MisorderedPasses(nid: nat, parent: nat) returns (es: seq<Entry>)
    requires nid < 0x1_0000_0000_0000_0000 && parent < 0x1_0000_0000_0000_0000
    ensures EntriesOk(es) && FsckOk(Pack(es, 512), nid, Some(parent))
    ensures |es| == 4 && Less(es[3].name, es[2].name)
  {
    var x, y: Name := seq(NAME_LEN, _ => 98), seq(NAME_LEN, _ => 97);
    var dot, dots := Entry([DOT], nid, 2), Entry([DOT, DOT], parent, 2);
    var e, f := Entry(x, 0, 1), Entry(y, 0, 1);
    es := [dot, dots, e, f];
    TwoBlocks(dot, dots, e, f);
    PackFlat(es, 512);
    NoSlash(x);
    NoSlash(y);
    assert es[0].name == [DOT] && es[1].name == [DOT, DOT];
    OrderCheck([DOT], [DOT, DOT]);
    OrderCheck([DOT, DOT], x);
    assert Less([DOT][1..], [DOT, DOT][1..]);
    hide Pack, Ordered, ValidName, Flatten;
    assert forall i :: 0 <= i < 4 ==> EntryChecked(es[i], nid, Some(parent));
    var bs := Pack(es, 512);
    assert Sorted(bs[0]) && Sorted(bs[1]);
  }

  lemma NoSlash(name: Name)
    requires forall i :: 0 <= i < |name| ==> name[i] == 97 || name[i] == 98
    ensures ValidName(name)
  {
    ValidIs(name);
  }

  lemma TwoBlocks(a: Entry, b: Entry, c: Entry, d: Entry)
    requires |a.name| == 1 && |b.name| == 2 && |c.name| == |d.name| == NAME_LEN
    ensures Pack([a, b, c, d], 512) == [[a, b, c], [d]]
  {
    assert Pack([], 512) == [];
    hide Pack, Used;
    UsedAppend([], a);
    UsedAppend([a], b);
    UsedAppend([a, b], c);
    assert [] + [a] == [a] && [a] + [b] == [a, b] && [a, b] + [c] == [a, b, c] && [a, b, c] + [d] == [a, b, c, d];
    PackOneMore([], a, 512);
    PackOneMore([a], b, 512);
    PackOneMore([a, b], c, 512);
    PackOneMore([a, b, c], d, 512);
  }

  lemma PackOneMore(es: seq<Entry>, e: Entry, b: nat)
    ensures var bs := Pack(es, b);
            Pack(es + [e], b)
              == if bs == [] || Used(Last(bs)) + DIRENT + |e.name| > b then bs + [[e]] else bs[..|bs| - 1] + [Last(bs) + [e]]
  {
    hide Pack, Used;
    PackSnoc(es + [e], b);
    assert (es + [e])[..|es|] == es;
  }

  /** What a block that passes says of each of its entries. */
  lemma NextOk(es: seq<Entry>, i: nat, nid: nat, parent: Option<nat>, dot: bool, dotdot: bool)
    requires i < |es|
    ensures PartOk(es, nid, parent, dot, dotdot) ==>
              && EntryChecked(es[i], nid, parent) && (i > 0 ==> Ordered(es[i - 1].name, es[i].name))
              && (dot || Has(es[..i], [DOT]) ==> es[i].name != [DOT])
              && (dotdot || Has(es[..i], [DOT, DOT]) ==> es[i].name != [DOT, DOT])
  {
    hide PartOk, Ordered, EntryChecked, Has;
    if PartOk(es, nid, parent, dot, dotdot) {
      PrefixOk(es, i + 1, nid, parent, dot, dotdot);
      assert es[..i + 1] == es[..i] + [es[i]];
      PartMore(es[..i], es[i], nid, parent, dot, dotdot);
    }
  }

  ghost predicate FirstOf<T(!new)>(parts: seq<T>, bs: seq<T>, j: nat) {
    j <= |bs| && parts == bs[..j]
  }

  lemma AllOf<T(!new)>(parts: seq<T>, bs: seq<T>)
    requires FirstOf(parts, bs, |bs|)
    ensures parts == bs
  {
  }

  /** If the next block does not pass, the directory does not. */
  lemma BlockDecides(bs: seq<seq<Entry>>, parts: seq<seq<Entry>>, j: nat, nid: nat, parent: Option<nat>)
    requires j < |bs| && FirstOf(parts, bs, j)
    ensures FirstOf(parts + [bs[j]], bs, j + 1)
    ensures PartsOk(bs, nid, parent) ==>
              PartOk(bs[j], nid, parent, Has(Flatten(parts), [DOT]), Has(Flatten(parts), [DOT, DOT]))
  {
    hide PartsOk, PartOk, Has, Flatten;
    assert bs[..j + 1] == parts + [bs[j]];
    if PartsOk(bs, nid, parent) {
      FirstPartsOk(bs, j + 1, nid, parent);
      PartsMore(parts, bs[j], nid, parent);
    }
  }

  lemma AllBlocks(data: seq<byte>, all: seq<Entry>, b: nat, j: nat, n: nat, pos: nat)
    requires Progress(data, all, b, j, n, pos) && pos >= |data|
    ensures j == |Pack(all, b)|
  {
    hide Pack;
  }

  /** Before block `j`, at `pos`, `n` entries have been read. */
  ghost predicate Progress(data: seq<byte>, all: seq<Entry>, b: nat, j: nat, n: nat, pos: nat) {
    var bs := Pack(all, b);
    && j <= |bs| && n == |Flatten(bs[..j])| && (pos < |data| <==> j < |bs|) && (j < |bs| ==> pos == BlkPos(j, b))
  }

  lemma StartProgress(data: seq<byte>, all: seq<Entry>, main: seq<byte>, b: nat)
    requires DirGood(data, all, main, b)
    ensures Progress(data, all, b, 0, 0, 0)
  {
    hide DirGood, Pack;
    GoodPos(data, all, main, b, 0);
    FlattenNone(Pack(all, b));
  }

  lemma NextBlock(data: seq<byte>, all: seq<Entry>, main: seq<byte>, b: nat, j: nat, n: nat, pos: nat) returns (es: seq<Entry>)
    requires DirGood(data, all, main, b) && Progress(data, all, b, j, n, pos) && pos < |data|
    ensures b > 0
    ensures var size := Min(|data| - pos, b);
            var buf := data[pos..pos + size];
            && BlockGood(buf, NameoffAt(buf, 0), all, n, es) && DIRENT <= NameoffAt(buf, 0) < b
            && Progress(data, all, b, j + 1, n + |es|, pos + size)
            && n + |es| <= |all| && all[..n + |es|] == all[..n] + es
            && j < |Pack(all, b)| && es == Pack(all, b)[j]
  {
    hide DirGood, Pack, Flatten, NameoffAt;
    var bs := Pack(all, b);
    GoodBlock(data, all, main, b, j);
    es := bs[j];
    BlockPart(data[pos..pos + Min(|data| - pos, b)], NameoffAt(data[pos..pos + Min(|data| - pos, b)], 0), all, n, es);
  }

  lemma BlockPart(buf: seq<byte>, end: nat, all: seq<Entry>, n: nat, es: seq<Entry>)
    requires BlockGood(buf, end, all, n, es)
    ensures n + |es| <= |all| && all[..n + |es|] == all[..n] + es
  {
    hide IsBlock, EntriesOk;
  }

  lemma LastBlock(data: seq<byte>, all: seq<Entry>, main: seq<byte>, b: nat, j: nat, n: nat, pos: nat)
    requires Progress(data, all, b, j, n, pos) && pos >= |data|
    ensures n == |all| && all[..n] == all
  {
    AllFlat(all, Pack(all, b), b, j);
  }

  // ----- whole directories -------------------------------------------------------------

  /** What `erofs_write_dir_file` leaves: `main` are the whole blocks. */
  ghost predicate DirGood(data: seq<byte>, all: seq<Entry>, main: seq<byte>, b: nat) {
    DirBlockSize(b) && EntriesOk(all) && main <= data && Written(main, data[|main|..], Pack(all, b), b)
  }

  /** What `erofs_write_dir_file` wrote can be read, whatever its number of blocks and its tail. */
  lemma WrittenIsGood(es: seq<Entry>, main: seq<byte>, idata: seq<byte>, b: nat)
    requires EntriesOk(es) && DirBlockSize(b) && Written(main, idata, Pack(es, b), b)
    ensures DirGood(main + idata, es, main, b)
  {
    hide Pack, Written;
    assert (main + idata)[|main|..] == idata;
  }

  lemma FlattenNone<T>(bs: seq<seq<T>>)
    ensures Flatten(bs[..0]) == []
  {
    assert bs[..0] == [];
  }

  lemma AllFlat(all: seq<Entry>, bs: seq<seq<Entry>>, b: nat, j: nat)
    requires bs == Pack(all, b) && j == |bs|
    ensures Flatten(bs[..j]) == all
  {
    PackFlat(all, b);
    assert bs[..j] == bs;
  }

  /** The blocks before block `j`, and block `j`, are consecutive parts of the whole. */
  lemma {:induction false} FlattenPart<T>(bs: seq<seq<T>>, j: nat)
    requires j < |bs|
    ensures var n := |Flatten(bs[..j])|;
            n + |bs[j]| <= |Flatten(bs)| && Flatten(bs)[n..n + |bs[j]|] == bs[j] && Flatten(bs[..j + 1]) == Flatten(bs[..j]) + bs[j]
    decreases |bs|
  {
    var init := bs[..|bs| - 1];
    assert bs[..j + 1][..j] == bs[..j];
    if j < |bs| - 1 {
      FlattenPart(init, j);
      assert init[..j] == bs[..j] && init[..j + 1] == bs[..j + 1];
      var n := |Flatten(bs[..j])|;
      assert Flatten(bs) == Flatten(init) + Last(bs);
      assert Flatten(bs)[n..n + |bs[j]|] == Flatten(init)[n..n + |bs[j]|];
    } else {
      assert init == bs[..j] && bs[..j + 1] == bs;
    }
  }

  /** Where block `j` is. */
  lemma GoodPos(data: seq<byte>, all: seq<Entry>, main: seq<byte>, b: nat, j: nat)
    requires DirGood(data, all, main, b) && j <= |Pack(all, b)|
    ensures BlkPos(0, b) == 0 && b > 0
    ensures BlkPos(j, b) < |data| <==> j < |Pack(all, b)|
    ensures j < |Pack(all, b)| ==> |data| - BlkPos(j, b) >= Used(Pack(all, b)[j])
    ensures j + 1 < |Pack(all, b)| ==> BlkPos(j, b) + b == BlkPos(j + 1, b) <= |data|
    ensures j + 1 == |Pack(all, b)| ==> |data| <= BlkPos(j, b) + b
  {
    hide Pack, Used, IsBlock, BlkPos;
    var bs := Pack(all, b);
    PackOk(all, b);
    BlkPosNext(0, b);
    WrittenSize(main, data[|main|..], bs, b);
    if bs != [] {
      UsedSome(Last(bs));
      BlkPosNext(j, b);
      BlkPosNext(|bs| - 1, b);
      if j + 1 < |bs| {
        BlkPosMonotone(j + 1, |bs| - 1, b);
        assert Used(bs[j]) <= b;
      } else if j == |bs| {
        assert Used(Last(bs)) <= b;
      }
    }
  }

  lemma UsedSome(es: seq<Entry>)
    requires es != []
    ensures Used(es) >= DIRENT * |es| > 0
  {
  }

  /** Block `j` of a written directory. */
  lemma GoodBlock(data: seq<byte>, all: seq<Entry>, main: seq<byte>, b: nat, j: nat)
    requires DirGood(data, all, main, b) && j < |Pack(all, b)|
    ensures b > 0 && BlkPos(j, b) < |data|
    ensures var bs, pos := Pack(all, b), BlkPos(j, b);
            var size, n := Min(|data| - pos, b), |Flatten(bs[..j])|;
            var buf := data[pos..pos + size];
            && BlockGood(buf, NameoffAt(buf, 0), all, n, bs[j])
            && DIRENT <= NameoffAt(buf, 0) < b
            && Flatten(bs[..j + 1]) == Flatten(bs[..j]) + bs[j] && n + |bs[j]| == |Flatten(bs[..j + 1])|
            && (pos + size < |data| <==> j + 1 < |bs|) && (j + 1 < |bs| ==> pos + size == BlkPos(j + 1, b))
  {
    hide Pack, Used, BlkPos, Flatten, NameoffAt;
    var bs, pos := Pack(all, b), BlkPos(j, b);
    GoodPos(data, all, main, b, j);
    if j + 1 < |bs| { GoodPos(data, all, main, b, j + 1); }
    PackOk(all, b);
    PackFlat(all, b);
    FlattenPart(bs, j);
    var size := Min(|data| - pos, b);
    var buf := data[pos..pos + size];
    assert IsBlock(buf, bs[j]) by { BlockOfData(data, main, bs, b, j); }
    EntryReads(buf, bs[j], 0);
    NameOffNext(bs[j], 0);
    FirstName(bs[j]);
  }

  lemma FirstName(es: seq<Entry>)
    requires es != [] && EntriesOk(es)
    ensures DIRENT <= NameOff(es, 0) < Used(es)
  {
    NameOffNext(es, 0);
    assert EntryOk(es[0]);
    NameOffMonotone(es, 1, |es|);
    NameOffNext(es, |es| - 1);
  }

  lemma BlockOfData(data: seq<byte>, main: seq<byte>, bs: seq<seq<Entry>>, b: nat, j: nat)
    requires b > 0 && main <= data && Written(main, data[|main|..], bs, b) && j < |bs| && BlkPos(j, b) <= |data|
    ensures var pos := BlkPos(j, b); IsBlock(data[pos..pos + Min(|data| - pos, b)], bs[j])
  {
    hide IsBlock, Used, BlkPos;
    var idata, pos := data[|main|..], BlkPos(j, b);
    if idata == [] || j < |bs| - 1 {
      var ms := if idata == [] then bs else bs[..|bs| - 1];
      assert BlockIn(main, j, ms[j], b);
      assert data[pos..pos + b] == main[pos..pos + b];
    } else {
      assert pos == |main|;
      assert data[pos..pos + Min(|data| - pos, b)] == idata;
    }
  }

  /** A block of a directory: entries `n` and following. */
  ghost predicate BlockGood(buf: seq<byte>, end: nat, all: seq<Entry>, n: nat, es: seq<Entry>) {
    && IsBlock(buf, es) && EntriesOk(es) && |buf| <= MAX_BLOCK && end == DIRENT * |es|
    && n + |es| <= |all| && all[n..n + |es|] == es
  }

  lemma GoodStart(buf: seq<byte>, end: nat, all: seq<Entry>, n: nat, es: seq<Entry>)
    requires BlockGood(buf, end, all, n, es)
    ensures NameOff(es, 0) == end == DIRENT * |es| && n + |es| <= |all|
  {
    NameOffNext(es, 0);
  }

  lemma GoodEntry(buf: seq<byte>, end: nat, all: seq<Entry>, n: nat, es: seq<Entry>, i: nat)
    requires BlockGood(buf, end, all, n, es) && DIRENT * i < end
    ensures i < |es| && n + i < |all| && all[n + i] == es[i]
    ensures NameoffAt(buf, i) == NameOff(es, i) && NameLenAt(buf, i, end) == |es[i].name| && 1 <= |es[i].name| <= NAME_LEN
    ensures NidAt(buf, i) == es[i].nid && TypeAt(buf, i) == es[i].ftype
    ensures NameOff(es, i) + |es[i].name| <= |buf| && buf[NameOff(es, i)..NameOff(es, i) + |es[i].name|] == es[i].name
    ensures NameOff(es, i + 1) == NameOff(es, i) + |es[i].name|
  {
    hide IsBlock;
    EntryReads(buf, es, i);
    NameLenReads(buf, es, i);
    NameOffNext(es, i);
    assert EntryOk(es[i]);
    assert all[n..n + |es|][i] == all[n + i];
  }

  // ----- lookup ------------------------------------------------------------------------

  datatype Lookup = Missing | Bogus | Hit(nid: nat)

  /** The answer that the entries give. */
  ghost predicate Answers(r: Lookup, es: seq<Entry>, name: Name) {
    && !r.Bogus?
    && (r.Hit? <==> exists i :: 0 <= i < |es| && es[i].name == name)
    && (r.Hit? ==> exists i :: 0 <= i < |es| && es[i].name == name && es[i].nid == r.nid)
  }

  /** `find_target_dirent`, for dirents that end at `end`. */
  method FindTarget(buf: seq<byte>, end: nat, name: Name, ghost all: seq<Entry>, ghost n: nat, ghost es: seq<Entry>) returns (r: Lookup)
    ensures BlockGood(buf, end, all, n, es) ==> Answers(r, es, name)
  {
    hide NidAt, NameoffAt, NameLenAt, NameOff, BlockGood;
    ghost var good := BlockGood(buf, end, all, n, es);
    if good { GoodStart(buf, end, all, n, es); }
    var i := 0;
    while DIRENT * i < end
      invariant good ==> i <= |es| && end == DIRENT * |es|
      invariant good ==> forall j :: 0 <= j < i ==> es[j].name != name
      decreases end - DIRENT * i
    {
      if good { GoodEntry(buf, end, all, n, es, i); }
      var nameoff, len := NameoffAt(buf, i), NameLenAt(buf, i, end);
      if nameoff + len > |buf| || len < 0 || len > NAME_LEN {
        return Bogus;
      }
      if |name| == len && buf[nameoff..nameoff + len] == name {
        assert good ==> es[i].name == name;
        return Hit(NidAt(buf, i));
      }
      i := i + 1;
    }
    r := Missing;
  }

  lemma AnswerEarly(r: Lookup, all: seq<Entry>, n: nat, es: seq<Entry>, name: Name)
    requires n + |es| <= |all| && all[n..n + |es|] == es && Answers(r, es, name) && r.Hit?
    ensures Answers(r, all, name)
  {
    var i :| 0 <= i < |es| && es[i].name == name && es[i].nid == r.nid;
    assert all[n..n + |es|][i] == all[n + i];
  }

  lemma StillMissing(r: Lookup, all: seq<Entry>, n: nat, es: seq<Entry>, name: Name)
    requires n + |es| <= |all| && all[n..n + |es|] == es && Answers(r, es, name) && r.Missing?
    requires Answers(Missing, all[..n], name)
    ensures Answers(Missing, all[..n + |es|], name)
  {
    var s, t := all[..n], all[..n + |es|];
    assert t == s + es;
    forall i | 0 <= i < |t|
      ensures t[i].name != name
    {
      if i < n {
        assert t[i] == s[i];
      } else {
        assert t[i] == es[i - n];
      }
    }
  }

  lemma GoodPart(buf: seq<byte>, end: nat, all: seq<Entry>, n: nat, es: seq<Entry>)
    requires BlockGood(buf, end, all, n, es)
    ensures n + |es| <= |all| && all[n..n + |es|] == es
  {
  }

  /** `erofs_namei`: a name of a written directory is found with its node number, and no other name is found. */
  method Namei(data: seq<byte>, b: nat, name: Name, ghost all: seq<Entry>, ghost main: seq<byte>) returns (r: Lookup)
    requires b > 0
    ensures DirGood(data, all, main, b) ==> Answers(r, all, name)
  {
    hide NameoffAt, DirGood, BlockGood, Progress, Answers;
    ghost var good := DirGood(data, all, main, b);
    ghost var j: nat, n: nat := 0, 0;
    if good { StartProgress(data, all, main, b); }
    assert Answers(Missing, all[..0], name) by { NoAnswer(name); assert all[..0] == []; }
    var offset := 0;
    while offset < |data|
      invariant good ==> Progress(data, all, b, j, n, offset) && n <= |all| && Answers(Missing, all[..n], name)
      decreases |data| - offset
    {
      var buf := data[offset..offset + Min(|data| - offset, b)];
      var nameoff := NameoffAt(buf, 0);
      ghost var es := [];
      if good { es := NextBlock(data, all, main, b, j, n, offset); }
      if nameoff < DIRENT || nameoff >= b {
        return Bogus;
      }
      r := FindTarget(buf, nameoff, name, all, n, es);
      if good { Decide(r, buf, nameoff, all, n, es, name); }
      if !r.Missing? {
        return;
      }
      offset := offset + |buf|;
      j, n := j + 1, n + |es|;
    }
    if good { LastBlock(data, all, main, b, j, n, offset); }
    r := Missing;
  }

  lemma NoAnswer(name: Name)
    ensures Answers(Missing, [], name)
  {
  }

  /** What the answer of one block means for the whole. */
  lemma Decide(r: Lookup, buf: seq<byte>, end: nat, all: seq<Entry>, n: nat, es: seq<Entry>, name: Name)
    requires BlockGood(buf, end, all, n, es) && Answers(r, es, name) && n <= |all| && Answers(Missing, all[..n], name)
    ensures n + |es| <= |all|
    ensures r.Hit? ==> Answers(r, all, name)
    ensures !r.Hit? ==> r.Missing? && Answers(Missing, all[..n + |es|], name)
  {
    GoodPart(buf, end, all, n, es);
    if r.Hit? {
      AnswerEarly(r, all, n, es, name);
    } else {
      StillMissing(r, all, n, es, name);
    }
  }
}
