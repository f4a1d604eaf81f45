/** Directory blocks: how they are filled (`lib/inode.c`). */
module DirBlock {
  import opened Arithmetic
  import opened Buffers
  import opened Bytes

  /** `sizeof(struct erofs_dirent)` */
  const DIRENT := 12

  /** `EROFS_NAME_LEN` */
  const NAME_LEN := 255

  const MAX_BLOCK := 65536

  type Name = seq<byte>

  /** `struct erofs_dentry` */
  datatype Entry = Entry(name: Name, nid: nat, ftype: byte)

  /** What the format can hold: a name of 1 to 255 bytes without NUL and a 64-bit node number. */
  predicate EntryOk(e: Entry) {
    1 <= |e.name| <= NAME_LEN && e.nid < 0x1_0000_0000_0000_0000 && forall i :: 0 <= i < |e.name| ==> e.name[i] != 0
  }

  ghost predicate EntriesOk(es: seq<Entry>) {
    forall i :: 0 <= i < |es| ==> EntryOk(es[i])
  }

  function NameBytes(es: seq<Entry>): nat {
    if es == [] then 0 else NameBytes(es[..|es| - 1]) + |es[|es| - 1].name|
  }

  /** The bytes that a block of these entries uses. */
  function Used(es: seq<Entry>): nat {
    DIRENT * |es| + NameBytes(es)
  }

  /** Where name `i` begins; the names follow one another behind all dirents. */
  function NameOff(es: seq<Entry>, i: nat): nat
    requires i <= |es|
  {
    DIRENT * |es| + NameBytes(es[..i])
  }

  lemma NameOffNext(es: seq<Entry>, i: nat)
    requires i < |es|
    ensures NameOff(es, i + 1) == NameOff(es, i) + |es[i].name|
    ensures NameOff(es, 0) == DIRENT * |es| && NameOff(es, |es|) == Used(es)
  {
    assert es[..i + 1][..i] == es[..i];
    assert es[..|es|] == es;
  }

  lemma {:induction false} NameOffMonotone(es: seq<Entry>, i: nat, j: nat)
    requires i <= j <= |es|
    ensures NameOff(es, i) <= NameOff(es, j)
    decreases j
  {
    if i < j {
      NameOffMonotone(es, i, j - 1);
      NameOffNext(es, j - 1);
    }
  }

  /** `struct erofs_dirent` */
  function Dirent(e: Entry, nameoff: nat): (s: seq<byte>)
    ensures |s| == DIRENT
  {
    Le64(e.nid) + Le16(nameoff) + [e.ftype, 0]
  }

  /** Entry `i` of a block: its dirent and its name. */
  ghost predicate Placed(buf: seq<byte>, es: seq<Entry>, i: nat)
    requires i < |es|
  {
    && DIRENT * i + DIRENT <= |buf| && NameOff(es, i) + |es[i].name| <= |buf|
    && buf[DIRENT * i..DIRENT * i + DIRENT] == Dirent(es[i], NameOff(es, i))
    && buf[NameOff(es, i)..NameOff(es, i) + |es[i].name|] == es[i].name
  }

  /** A block that holds the entries; what is left is zeroed. */
  ghost predicate IsBlock(buf: seq<byte>, es: seq<Entry>) {
    && es != [] && Used(es) <= |buf|
    && (forall i :: 0 <= i < |es| ==> Placed(buf, es, i))
    && forall j :: Used(es) <= j < |buf| ==> buf[j] == 0
  }

  /** A copy that touches neither its dirent nor its name leaves an entry in place. */
  lemma PlacedKept(buf: seq<byte>, at: nat, s: seq<byte>, es: seq<Entry>, i: nat)
    requires at + |s| <= |buf| && i < |es| && Placed(buf, es, i)
    requires DIRENT * i + DIRENT <= at || at + |s| <= DIRENT * i
    requires NameOff(es, i) + |es[i].name| <= at || at + |s| <= NameOff(es, i)
    ensures Placed(buf[..at] + s + buf[at + |s|..], es, i)
  {
    SliceKept(buf, at, s, DIRENT * i, DIRENT * i + DIRENT);
    SliceKept(buf, at, s, NameOff(es, i), NameOff(es, i) + |es[i].name|);
  }

  /** Writing the dirent and then the name of entry `k` keeps all entries before it and places it. */
  lemma PlaceOne(buf: seq<byte>, es: seq<Entry>, k: nat)
    requires k < |es| && Used(es) <= |buf|
    requires forall i :: 0 <= i < k ==> Placed(buf, es, i)
    ensures NameOff(es, k) + |es[k].name| <= |buf| && DIRENT * k + DIRENT <= DIRENT * |es| <= NameOff(es, k)
    ensures var d, n := Dirent(es[k], NameOff(es, k)), es[k].name;
            var t := buf[..DIRENT * k] + d + buf[DIRENT * k + DIRENT..];
            var u := t[..NameOff(es, k)] + n + t[NameOff(es, k) + |n|..];
            |u| == |buf| && forall i :: 0 <= i <= k ==> Placed(u, es, i)
  {
    hide NameOff, NameBytes, Dirent, Placed;
    NameOffNext(es, k);
    NameOffMonotone(es, k + 1, |es|);
    NameOffMonotone(es, 0, k);
    var d, n := Dirent(es[k], NameOff(es, k)), es[k].name;
    var t := buf[..DIRENT * k] + d + buf[DIRENT * k + DIRENT..];
    var u := t[..NameOff(es, k)] + n + t[NameOff(es, k) + |n|..];
    forall i | 0 <= i < k
      ensures Placed(u, es, i)
    {
      NameOffNext(es, i);
      NameOffMonotone(es, i + 1, k);
      NameOffMonotone(es, 0, i);
      PlacedFits(buf, es, i);
      PlacedKept(buf, DIRENT * k, d, es, i);
      PlacedKept(t, NameOff(es, k), n, es, i);
    }
    SliceIs(buf, DIRENT * k, d);
    SliceKept(t, NameOff(es, k), n, DIRENT * k, DIRENT * k + DIRENT);
    SliceIs(t, NameOff(es, k), n);
    PlacedIs(u, es, k);
  }

  lemma PlacedFits(buf: seq<byte>, es: seq<Entry>, i: nat)
    requires i < |es| && Placed(buf, es, i)
    ensures DIRENT * i + DIRENT <= |buf| && NameOff(es, i) + |es[i].name| <= |buf|
  {
  }

  lemma PlacedIs(buf: seq<byte>, es: seq<Entry>, i: nat)
    requires i < |es| && DIRENT * i + DIRENT <= |buf| && NameOff(es, i) + |es[i].name| <= |buf|
    requires buf[DIRENT * i..DIRENT * i + DIRENT] == Dirent(es[i], NameOff(es, i))
    requires buf[NameOff(es, i)..NameOff(es, i) + |es[i].name|] == es[i].name
    ensures Placed(buf, es, i)
  {
  }

  /** `fill_dirblock`; `q` is where the names begin. */
  method FillDirblock(size: nat, q0: nat, es: seq<Entry>) returns (buf: array<byte>)
    requires es != [] && q0 == DIRENT * |es| && Used(es) <= size
    ensures fresh(buf) && buf.Length == size && IsBlock(buf[..], es)
  {
    hide NameOff, NameBytes, Dirent, Placed;
    buf := new byte[size];
    NameOffNext(es, 0);
    var p, q := 0, q0;
    for k := 0 to |es|
      invariant p == DIRENT * k && q == NameOff(es, k)
      invariant forall i :: 0 <= i < k ==> Placed(buf[..], es, i)
    {
      PlaceOne(buf[..], es, k);
      NameOffNext(es, k);
      CopyIn(buf, p, Dirent(es[k], q));
      CopyIn(buf, q, es[k].name);
      p := p + DIRENT;
      q := q + |es[k].name|;
    }
    NameOffNext(es, |es| - 1);
    ghost var was := buf[..];
    CopyIn(buf, q, seq(size - q, _ => 0));
    forall i | 0 <= i < |es|
      ensures Placed(buf[..], es, i)
    {
      NameOffNext(es, i);
      NameOffMonotone(es, i + 1, |es|);
      NameOffMonotone(es, 0, |es|);
      PlacedKept(was, q, seq(size - q, _ => 0), es, i);
    }
  }
}
