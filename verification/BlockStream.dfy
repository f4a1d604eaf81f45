/** Blocks one after the other, and what a decoder makes of them. */
module BlockStream {
  import opened Arithmetic
  import opened Bytes
  import opened ByteCompare
  import opened Bits
  import opened Options
  import opened CodeWriter
  import opened Slots
  import opened Inflate
  import opened MatchFinder
  import opened DeflateBlock
  import opened DynamicBlock
  import opened BlockTables
  import opened StoredBlock

  // ----- symbols and the data they describe --------------------------------------------

  /** How many bytes a symbol stands for. */
  function Length(m: Match): nat {
    if IsLiteral(m) then 1 else m.len
  }

  lemma StartsBeforeEnd(data: seq<byte>, at: nat, syms: seq<Match>)
    requires AllDescribe(data, at, syms) && at <= |data|
    ensures at <= EndOf(at, syms)
  {
    EndsWithin(data, at, syms, |syms|);
    assert syms[..|syms|] == syms;
  }

  lemma NothingDescribed(data: seq<byte>, at: nat)
    requires at <= |data|
    ensures DescribedBy(data, at, [], at)
  {
  }

  lemma DescribedFacts(data: seq<byte>, at: nat, syms: seq<Match>, end: nat)
    requires DescribedBy(data, at, syms, end)
    ensures at <= end <= |data| && (syms != [] ==> at < end)
  {
    StartsBeforeEnd(data, at, syms);
    if syms != [] {
      var init := syms[..|syms| - 1];
      EndsWithin(data, at, syms, |syms| - 1);
      assert Describes(data, EndOf(at, syms[..|syms| - 1]), syms[|syms| - 1]);
    }
  }

  ghost predicate DescribedBy(data: seq<byte>, at: nat, syms: seq<Match>, end: nat) {
    at <= |data| && AllDescribe(data, at, syms) && EndOf(at, syms) == end <= |data|
  }

  /** No more symbols than bytes. */
  lemma DescribedFew(data: seq<byte>, at: nat, syms: seq<Match>, end: nat)
    requires DescribedBy(data, at, syms, end)
    ensures |syms| <= |data|
  {
    EndGrows(at, syms);
  }

  lemma {:induction false} EndGrows(at: nat, syms: seq<Match>)
    ensures EndOf(at, syms) >= at + |syms|
  {
    if syms != [] {
      EndGrows(at, syms[..|syms| - 1]);
    }
  }

  lemma DescribedMore(data: seq<byte>, at: nat, syms: seq<Match>, end: nat, m: Match)
    requires DescribedBy(data, at, syms, end) && Describes(data, end, m)
    ensures DescribedBy(data, at, syms + [m], end + Length(m))
    ensures !IsLiteral(m) ==> m.len >= MATCH_MIN_LEN && end + m.len <= |data|
  {
    hide Describes;
    assert (syms + [m])[..|syms|] == syms;
    forall i | 0 <= i < |syms + [m]|
      ensures Describes(data, EndOf(at, (syms + [m])[..i]), (syms + [m])[i])
    {
      if i < |syms| {
        assert (syms + [m])[..i] == syms[..i];
        assert Describes(data, EndOf(at, syms[..i]), syms[i]);
      }
    }
    EndAfter(data, end, m);
  }

  lemma EndAfter(data: seq<byte>, end: nat, m: Match)
    requires Describes(data, end, m)
    ensures end + Length(m) <= |data|
  {
  }

  // ----- blocks ------------------------------------------------------------------------

  /** A block that was written: its codes, its flag and its symbols or bytes. */
  datatype Record =
    | FixedBlock(final: bool, syms: seq<Match>)
    | DynamicBlock(t: Table, final: bool, syms: seq<Match>)
    | PlainBlock(final: bool, data: seq<byte>)

  ghost predicate RecordOk(r: Record) {
    if r.PlainBlock? then |r.data| <= 65535
    else AllRecordable(r.syms) && (r.DynamicBlock? ==> TableFor(r.t, r.syms))
  }

  /** The bits of a block that begins after `off` bits. */
  ghost function RecordBits(r: Record, off: nat): seq<bool>
    requires RecordOk(r)
  {
    match r
    case FixedBlock(final, syms) => FixedBits(final, syms)
    case DynamicBlock(t, final, syms) => DynamicBits(t, final, syms)
    case PlainBlock(final, data) => StoredBits(off, final, data)
  }

  ghost predicate AllOk(rs: seq<Record>) {
    forall i :: 0 <= i < |rs| ==> RecordOk(rs[i])
  }

  /** The bits of blocks written one after the other. */
  ghost function BlocksBits(rs: seq<Record>): seq<bool>
    requires AllOk(rs)
  {
    if rs == [] then []
    else
      var before := BlocksBits(rs[..|rs| - 1]);
      before + RecordBits(rs[|rs| - 1], |before|)
  }

  /** No code is longer than the standard allows. */
  predicate Standard(r: Record) {
    r.DynamicBlock? ==> WithinStandard(r.t)
  }

  predicate AllStandard(rs: seq<Record>) {
    forall i :: 0 <= i < |rs| ==> Standard(rs[i])
  }

  /** The bits are those of the blocks. */
  ghost predicate Wrote(bits: seq<bool>, rs: seq<Record>) {
    AllOk(rs) && bits == BlocksBits(rs)
  }

  /**
   * A block that begins after `off` bits keeps within `8 * outlen`: a stored one by its size, any
   * other, which the encoder has made sure of unless it is empty, if ten bits are left.
   */
  predicate KeepsLimit(r: Record, off: nat, outlen: nat) {
    off + (if r.PlainBlock? then StoredSize(off, |r.data|) else 10) <= 8 * outlen
  }

  ghost predicate LastKeepsLimit(outlen: nat, rs: seq<Record>)
    requires rs != [] && AllOk(rs)
  {
    KeepsLimit(rs[|rs| - 1], |BlocksBits(rs[..|rs| - 1])|, outlen)
  }

  /** The bytes hold the bits of the blocks and fewer than eight zero bits. */
  ghost predicate Flushed(bytes: seq<byte>, rs: seq<Record>) {
    && AllOk(rs)
    && 0 <= 8 * |bytes| - |BlocksBits(rs)| < 8
    && BytesBits(bytes) == BlocksBits(rs) + ToBits(0, 8 * |bytes| - |BlocksBits(rs)|)
  }

  lemma ShortIsStandard(r: Record)
    requires RecordOk(r) && (r.PlainBlock? || |r.syms| < SURELY_STANDARD)
    ensures Standard(r)
  {
    hide WithinStandard, TableOk, AllCoded;
  }

  lemma WroteMore(bits: seq<bool>, rs: seq<Record>, r: Record)
    requires Wrote(bits, rs) && RecordOk(r)
    ensures Wrote(bits + RecordBits(r, |bits|), rs + [r])
    ensures AllStandard(rs + [r]) <==> AllStandard(rs) && Standard(r)
    ensures forall outlen: nat :: LastKeepsLimit(outlen, rs + [r]) <==> KeepsLimit(r, |bits|, outlen)
  {
    hide RecordOk, RecordBits, Standard, KeepsLimit;
    var all := rs + [r];
    assert all[..|rs|] == rs;
    assert forall i :: 0 <= i < |rs| ==> all[i] == rs[i];
    assert all[|rs|] == r;
  }

  lemma NothingWrote(bits: seq<bool>)
    requires bits == []
    ensures Wrote(bits, []) && AllStandard([])
  {
  }

  // ----- decoding ----------------------------------------------------------------------

  /** A decoder that has read `bits` has `data`, whatever follows. */
  ghost predicate ReadsTo(bits: seq<bool>, data: seq<byte>) {
    forall more: seq<bool> :: Decode(bits + more, 0, []) == Decode(bits + more, |bits|, data)
  }

  /** A decoder that reads `bits` ends with `data`, whatever follows. */
  ghost predicate ReadsAll(bits: seq<bool>, data: seq<byte>) {
    forall more: seq<bool> :: Decode(bits + more, 0, []) == Some(data)
  }

  lemma NothingRead(bits: seq<bool>, data: seq<byte>)
    requires bits == [] && data == []
    ensures ReadsTo(bits, data)
  {
  }

  lemma StreamRead(bits: seq<bool>, more: seq<bool>, data: seq<byte>)
    requires ReadsAll(bits, data)
    ensures Decode(bits + more, 0, []) == Some(data)
  {
  }

  /** Wherever the bits of the block stand, if only as far into a byte, they read as the data from `from` to `to`. */
  ghost predicate BlockReads(block: seq<bool>, off: nat, data: seq<byte>, from: nat, to: nat, last: bool) {
    && from <= to <= |data|
    && forall bits: seq<bool>, pos: nat :: BitsAt(bits, pos, block) && pos % 8 == off % 8 ==>
         ReadBlock(bits, pos, data[..from]) == Some((data[..to], pos + |block|, last))
  }

  lemma BlockStands(bits: seq<bool>, block: seq<bool>, more: seq<bool>)
    ensures BitsAt(bits + block + more, |bits|, block) && bits + block + more == bits + (block + more)
  {
  }

  /** After one more block that is not the last. */
  lemma BlockRead(bits: seq<bool>, block: seq<bool>, data: seq<byte>, from: nat, to: nat)
    requires from <= |data| && ReadsTo(bits, data[..from])
    requires BlockReads(block, |bits|, data, from, to, false) && |block| >= 1
    ensures ReadsTo(bits + block, data[..to])
  {
    hide ReadBlock, BitsAt;
    forall more: seq<bool>
      ensures Decode(bits + block + more, 0, []) == Decode(bits + block + more, |bits + block|, data[..to])
    {
      BlockStands(bits, block, more);
      assert Decode(bits + (block + more), 0, []) == Decode(bits + (block + more), |bits|, data[..from]);
    }
  }

  /** After the last block. */
  lemma LastBlockRead(bits: seq<bool>, block: seq<bool>, data: seq<byte>, from: nat, to: nat)
    requires from <= |data| && ReadsTo(bits, data[..from]) && BlockReads(block, |bits|, data, from, to, true)
    ensures ReadsAll(bits + block, data[..to])
  {
    hide ReadBlock, BitsAt;
    forall more: seq<bool>
      ensures Decode(bits + block + more, 0, []) == Some(data[..to])
    {
      BlockStands(bits, block, more);
      assert Decode(bits + (block + more), 0, []) == Decode(bits + (block + more), |bits|, data[..from]);
    }
  }

  /** The block has the data from `from` to `to`. */
  ghost predicate Holds(r: Record, data: seq<byte>, from: nat, to: nat) {
    if r.PlainBlock? then from <= to <= |data| && r.data == data[from..to]
    else DescribedBy(data, from, r.syms, to)
  }

  /** Stored blocks, and others with codes of at most 15 bits, can be read. */
  lemma BlockIsRead(r: Record, off: nat, data: seq<byte>, from: nat, to: nat)
    requires RecordOk(r) && Standard(r) && Holds(r, data, from, to)
    ensures BlockReads(RecordBits(r, off), off, data, from, to, r.final)
  {
    hide BitsAt, ReadBlock, FixedBits, DynamicBits, AllRecordable, AllDescribe, WithinStandard, AllCoded, TableOk;
    hide StoredBits, StoredSize;
    if !r.PlainBlock? {
      StartsBeforeEnd(data, from, r.syms);
    }
    var block := RecordBits(r, off);
    forall bits: seq<bool>, pos: nat | BitsAt(bits, pos, block) && pos % 8 == off % 8
      ensures ReadBlock(bits, pos, data[..from]) == Some((data[..to], pos + |block|, r.final))
    {
      match r
      case FixedBlock(final, syms) => ReadsFixedBlock(final, syms, bits, pos, data, from);
      case DynamicBlock(t, final, syms) => ReadsDynamicBlock(t, final, syms, bits, pos, data, from);
      case PlainBlock(final, more) =>
        ReadsStoredBlock(off, final, more, bits, pos, data[..from]);
        StoredBitsSize(off, final, more);
        assert data[..from] + more == data[..to];
    }
  }
}
