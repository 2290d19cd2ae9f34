/** The content of the journal cache as a value: blocks of 64 bytes by number, and the flat file that
    they stand for. */
module BlockStore {
  import opened Bits

  /** Blocks that are stored. A block that is not stored reads as zeros. */
  type Store = map<nat, seq<byte>>

  predicate WellFormed(m: Store) {
    forall id | id in m :: |m[id]| == 64
  }

  function ByteAt(m: Store, p: nat): byte
    requires WellFormed(m)
  {
    if p / 64 in m then m[p / 64][p % 64] else 0
  }

  function ZeroBlock(): (r: seq<byte>)
    ensures |r| == 64 && forall i | 0 <= i < 64 :: r[i] == 0
  {
    seq(64, _ => 0)
  }

  function Patch(b: seq<byte>, at: nat, d: seq<byte>): (r: seq<byte>)
    requires at + |d| <= |b|
    ensures |r| == |b|
    ensures forall i | 0 <= i < |b| :: r[i] == if at <= i < at + |d| then d[i - at] else b[i]
  {
    b[..at] + d + b[at + |d|..]
  }

  /** `!memcmp(data, blank, CACHEBLOCKSZ)`: all 64 bytes are compared, however short the chunk is. */
  predicate Blank(window: seq<byte>) {
    |window| >= 64 && forall i | 0 <= i < 64 :: window[i] == 0
  }

  /** What storing a chunk of `n` bytes does; `mem` is the memory from the chunk on. */
  function StoreChunk(m: Store, offset: nat, n: nat, mem: seq<byte>): (r: Store)
    requires WellFormed(m) && offset % 64 + n <= 64 && |mem| >= n
    ensures WellFormed(r)
  {
    if Blank(mem) then m
    else
      var id := offset / 64;
      m[id := Patch(if id in m then m[id] else ZeroBlock(), offset % 64, mem[..n])]
  }

  /** Where in the buffer the chunk starts that holds file position `p`. */
  function ChunkStart(offset: nat, p: nat): (r: nat)
    requires offset <= p
    ensures r <= p - offset < r + 64
    ensures r == 0 || (offset + r) % 64 == 0
    ensures (offset + r) / 64 == p / 64
  {
    if p / 64 * 64 <= offset then 0 else p / 64 * 64 - offset
  }

  /** The effect of the chunks that make up the first `r` bytes of a write. */
  function PushTo(m: Store, offset: nat, r: nat, mem: seq<byte>): (m': Store)
    requires WellFormed(m) && |mem| >= r + 64
    ensures WellFormed(m')
    decreases r
  {
    if r == 0 then m
    else
      var s := ChunkStart(offset, offset + r - 1);
      SameBlock(offset + s, r - s);
      StoreChunk(PushTo(m, offset, s, mem), offset + s, r - s, mem[s..])
  }

  lemma SameBlock(p: nat, n: nat)
    ensures n > 0 && p / 64 == (p + n - 1) / 64 ==> p % 64 + n <= 64
  {
  }

  /** The chunk that would hold position `p` is blank and is left out of the write. */
  predicate Skips(offset: nat, mem: seq<byte>, p: nat)
    requires offset <= p && p - offset < |mem|
  {
    Blank(mem[ChunkStart(offset, p)..])
  }

  lemma StoreChunkByte(m: Store, offset: nat, n: nat, mem: seq<byte>, p: nat)
    requires WellFormed(m) && offset % 64 + n <= 64 && |mem| >= n
    ensures ByteAt(StoreChunk(m, offset, n, mem), p)
            == if !Blank(mem) && offset <= p < offset + n then mem[p - offset] else ByteAt(m, p)
  {
    var id := offset / 64;
    if p / 64 == id {
      assert p % 64 - offset % 64 == p - offset;
    } else {
      assert !(offset <= p < offset + n);
    }
  }

  /** A write changes exactly the bytes of its range, except in blank chunks, and those not at all. */
  lemma {:induction false} PushByte(m: Store, offset: nat, r: nat, mem: seq<byte>, p: nat)
    requires WellFormed(m) && |mem| >= r + 64
    ensures ByteAt(PushTo(m, offset, r, mem), p)
            == if offset <= p < offset + r && !Skips(offset, mem, p) then mem[p - offset] else ByteAt(m, p)
    decreases r
  {
    hide ByteAt, StoreChunk, Blank, ChunkStart;
    if r > 0 {
      var s := ChunkStart(offset, offset + r - 1);
      SameBlock(offset + s, r - s);
      StoreChunkByte(PushTo(m, offset, s, mem), offset + s, r - s, mem[s..], p);
      PushByte(m, offset, s, mem, p);
      if offset + s <= p < offset + r {
        SameStart(offset, p, offset + r - 1);
        assert mem[s..][p - (offset + s)] == mem[p - offset];
      }
    }
  }

  /** The same, spelt out. The chunk that holds position `p` starts `s` bytes into the buffer: at the start of the
      buffer, or where the block of `p` starts. If the 64 bytes of memory from there on are zero, the byte at
      `p` stays, and otherwise the buffer's byte is put there. */
  lemma PushByteSpelt(m: Store, offset: nat, r: nat, mem: seq<byte>, p: nat, s: nat)
    requires WellFormed(m) && |mem| >= r + 64 && offset <= p < offset + r
    requires s == if p / 64 * 64 <= offset then 0 else p / 64 * 64 - offset
    ensures ByteAt(PushTo(m, offset, r, mem), p)
            == if forall i | s <= i < s + 64 :: mem[i] == 0 then ByteAt(m, p) else mem[p - offset]
    ensures forall q: nat | q < offset || q >= offset + r :: ByteAt(PushTo(m, offset, r, mem), q) == ByteAt(m, q)
  {
    hide PushTo, ByteAt;
    PushByte(m, offset, r, mem, p);
    forall q: nat | q < offset || q >= offset + r
      ensures ByteAt(PushTo(m, offset, r, mem), q) == ByteAt(m, q)
    {
      PushByte(m, offset, r, mem, q);
    }
    assert ChunkStart(offset, p) == s;
    assert forall i | 0 <= i < 64 :: mem[s..][i] == mem[s + i];
    assert Blank(mem[s..]) ==> forall i | s <= i < s + 64 :: mem[i] == mem[s..][i - s] == 0;
  }

  lemma SameStart(offset: nat, p: nat, q: nat)
    requires offset <= p <= q && ChunkStart(offset, q) <= p - offset
    ensures ChunkStart(offset, p) == ChunkStart(offset, q)
  {
  }

  /** A write makes the store the flat file with the buffer written over it if and only if every byte in
      a blank chunk was zero before. */
  lemma PushIsFlat(m: Store, offset: nat, len: nat, mem: seq<byte>)
    requires WellFormed(m) && |mem| >= len + 64
    ensures (forall p: nat :: ByteAt(PushTo(m, offset, len, mem), p)
                              == if offset <= p < offset + len then mem[p - offset] else ByteAt(m, p))
            <==> (forall p | offset <= p < offset + len && Skips(offset, mem, p) :: ByteAt(m, p) == 0)
  {
    forall p: nat
      ensures ByteAt(PushTo(m, offset, len, mem), p)
              == if offset <= p < offset + len && !Skips(offset, mem, p) then mem[p - offset] else ByteAt(m, p)
    {
      PushByte(m, offset, len, mem, p);
    }
    forall p | offset <= p < offset + len && Skips(offset, mem, p)
      ensures mem[p - offset] == 0
    {
      var s := ChunkStart(offset, p);
      assert mem[s..][p - offset - s] == 0;
    }
  }

  /** Where block `id` starts, or where a write at `offset` enters it. */
  function Entry(offset: nat, id: nat): (a: nat)
    ensures a >= offset
  {
    if 64 * id <= offset then offset else 64 * id
  }

  /** The 64 bytes of memory from `at` on are not all zero. */
  predicate NotAllZero(mem: seq<byte>, at: nat)
    requires |mem| >= at + 64
  {
    exists i :: at <= i < at + 64 && mem[i] != 0
  }

  /** A write stores exactly the blocks in which it has a chunk whose 64 bytes of memory are not all zero. */
  lemma {:induction false} PushBlocks(m: Store, offset: nat, r: nat, mem: seq<byte>, id: nat)
    requires WellFormed(m) && |mem| >= r + 64
    ensures var a := Entry(offset, id);
            id in PushTo(m, offset, r, mem)
            <==> id in m || (a < offset + r && a < 64 * (id + 1) && NotAllZero(mem, a - offset))
    decreases r
  {
    hide Blank, ChunkStart, StoreChunk, NotAllZero, Entry;
    if r > 0 {
      var s := ChunkStart(offset, offset + r - 1);
      SameBlock(offset + s, r - s);
      StoreChunkBlocks(PushTo(m, offset, s, mem), offset + s, r - s, mem[s..], id);
      PushBlocks(m, offset, s, mem, id);
      EntryOfLast(offset, r, s, id);
      NotBlank(mem, s);
    }
  }

  lemma StoreChunkBlocks(m: Store, offset: nat, n: nat, mem: seq<byte>, id: nat)
    requires WellFormed(m) && offset % 64 + n <= 64 && |mem| >= n
    ensures id in StoreChunk(m, offset, n, mem) <==> id in m || (!Blank(mem) && id == offset / 64)
  {
  }

  lemma NotBlank(mem: seq<byte>, s: nat)
    requires |mem| >= s + 64
    ensures !Blank(mem[s..]) <==> NotAllZero(mem, s)
  {
    assert forall i | 0 <= i < 64 :: mem[s..][i] == mem[s + i];
    assert forall i | s <= i < s + 64 :: mem[i] == mem[s..][i - s];
  }

  lemma EntryOfLast(offset: nat, r: nat, s: nat, id: nat)
    requires 0 < r && s == ChunkStart(offset, offset + r - 1)
    ensures var a := Entry(offset, id);
            && (id == (offset + s) / 64 ==> a == offset + s && a < 64 * (id + 1))
            && (id != (offset + s) / 64 && a < 64 * (id + 1) ==> (a < offset + r <==> a < offset + s))
  {
  }

  // ----- runs of writes -----

  /** A write of `len` bytes at `offset`; `mem` is the buffer and the memory that the comparison reads
      behind it. */
  datatype AnyOp = Op(offset: nat, len: nat, mem: seq<byte>)

  type Op = o: AnyOp | |o.mem| >= o.len + 64 witness Op(0, 0, seq(64, _ => 0))

  /** The store after a run of writes, starting empty. */
  function Run(ops: seq<Op>): (m: Store)
    ensures WellFormed(m)
  {
    if ops == [] then map[]
    else
      var o := ops[|ops| - 1];
      PushTo(Run(ops[..|ops| - 1]), o.offset, o.len, o.mem)
  }

  /** The flat file after a run of writes: the last write that covers a position decides. */
  function FlatByte(ops: seq<Op>, p: nat): byte
  {
    if ops == [] then 0
    else
      var o := ops[|ops| - 1];
      if o.offset <= p < o.offset + o.len then o.mem[p - o.offset] else FlatByte(ops[..|ops| - 1], p)
  }

  /** The cache is the flat file. */
  ghost predicate IsFlat(ops: seq<Op>) {
    forall p: nat :: ByteAt(Run(ops), p) == FlatByte(ops, p)
  }

  /** The blank chunks of the last write fall on bytes that are zero already. */
  ghost predicate LastOnZeros(ops: seq<Op>)
    requires ops != []
  {
    var o := ops[|ops| - 1];
    forall p: nat | o.offset <= p < o.offset + o.len && Skips(o.offset, o.mem, p) :: FlatByte(ops[..|ops| - 1], p) == 0
  }

  /** Every blank chunk of the run falls on bytes that are zero already. */
  ghost predicate BlankOnZeros(ops: seq<Op>) {
    ops != [] ==> BlankOnZeros(ops[..|ops| - 1]) && LastOnZeros(ops)
  }

  /** The cache has been the flat file after every write of a run ... */
  ghost predicate FlatThroughout(ops: seq<Op>) {
    IsFlat(ops) && (ops != [] ==> FlatThroughout(ops[..|ops| - 1]))
  }

  /** ... if and only if blank chunks only ever fell on zeros. */
  lemma {:induction false} RunIsFlat(ops: seq<Op>)
    ensures FlatThroughout(ops) <==> BlankOnZeros(ops)
    decreases |ops|
  {
    hide IsFlat, LastOnZeros;
    if ops == [] {
      EmptyIsFlat();
    } else {
      RunIsFlat(ops[..|ops| - 1]);
      if FlatThroughout(ops[..|ops| - 1]) {
        LastIsFlat(ops);
      }
    }
  }

  lemma EmptyIsFlat()
    ensures IsFlat([])
  {
  }

  /** The last write is right at a position unless it leaves out a blank chunk over other data. */
  lemma LastByte(ops: seq<Op>, p: nat)
    requires ops != []
    requires ByteAt(Run(ops[..|ops| - 1]), p) == FlatByte(ops[..|ops| - 1], p)
    ensures var o := ops[|ops| - 1];
            ByteAt(Run(ops), p) == FlatByte(ops, p)
            <==> (o.offset <= p < o.offset + o.len && Skips(o.offset, o.mem, p) ==> FlatByte(ops[..|ops| - 1], p) == 0)
  {
    hide PushTo, ByteAt, ChunkStart;
    var o := ops[|ops| - 1];
    PushByte(Run(ops[..|ops| - 1]), o.offset, o.len, o.mem, p);
    if o.offset <= p < o.offset + o.len && Skips(o.offset, o.mem, p) {
      var s := ChunkStart(o.offset, p);
      assert o.mem[s..][p - o.offset - s] == 0;
    }
  }

  lemma LastIsFlat(ops: seq<Op>)
    requires ops != [] && IsFlat(ops[..|ops| - 1])
    ensures IsFlat(ops) <==> LastOnZeros(ops)
  {
    hide PushTo, Skips, ByteAt, Run, FlatByte;
    var o := ops[|ops| - 1];
    if IsFlat(ops) {
      forall p: nat | o.offset <= p < o.offset + o.len && Skips(o.offset, o.mem, p)
        ensures FlatByte(ops[..|ops| - 1], p) == 0
      {
        LastByte(ops, p);
      }
    }
    if LastOnZeros(ops) {
      forall p: nat
        ensures ByteAt(Run(ops), p) == FlatByte(ops, p)
      {
        LastByte(ops, p);
      }
    }
  }

  /** The end of the file: the greatest end of a write. */
  function End(ops: seq<Op>): nat {
    if ops == [] then 0
    else
      var o, e := ops[|ops| - 1], End(ops[..|ops| - 1]);
      if o.len > 0 && o.offset + o.len > e then o.offset + o.len else e
  }

  /** At and beyond the end of the file, flat file and store are zero, blank chunks or not. */
  lemma {:induction false} ZeroTail(ops: seq<Op>, p: nat)
    requires p >= End(ops)
    ensures FlatByte(ops, p) == 0 && ByteAt(Run(ops), p) == 0
    decreases |ops|
  {
    if ops != [] {
      var o, before := ops[|ops| - 1], ops[..|ops| - 1];
      ZeroTail(before, p);
      PushByte(Run(before), o.offset, o.len, o.mem, p);
    }
  }

  /** Each write starts at the end of what has been written, or behind it. */
  predicate AppendOnly(ops: seq<Op>) {
    ops != [] ==>
      AppendOnly(ops[..|ops| - 1]) && ops[|ops| - 1].offset >= End(ops[..|ops| - 1])
  }

  /** Appending is always faithful to the flat file. */
  lemma {:induction false} AppendIsFlat(ops: seq<Op>)
    requires AppendOnly(ops)
    ensures BlankOnZeros(ops)
    decreases |ops|
  {
    if ops != [] {
      var o, before := ops[|ops| - 1], ops[..|ops| - 1];
      AppendIsFlat(before);
      forall p: nat | o.offset <= p < o.offset + o.len && Skips(o.offset, o.mem, p)
        ensures FlatByte(before, p) == 0
      {
        ZeroTail(before, p);
      }
    }
  }

  /** Overwriting data with zeros is not: after these two writes of one byte the zero is not there. */
  lemma ZerosAreLost()
    ensures var ops: seq<Op> := [Op(0, 1, [1] + seq(64, _ => 0)), Op(0, 1, seq(65, _ => 0))];
            FlatByte(ops, 0) == 0 && ByteAt(Run(ops), 0) == 1
  {
    var one: Op, zero: Op := Op(0, 1, [1] + seq(64, _ => 0)), Op(0, 1, seq(65, _ => 0));
    var ops: seq<Op> := [one, zero];
    assert ops[..|ops| - 1] == [one] && [one][..0] == [];
    assert one.mem[0..] == one.mem && zero.mem[0..] == zero.mem;
    PushByte(map[], 0, 1, one.mem, 0);
    PushByte(Run([one]), 0, 1, zero.mem, 0);
    assert one.mem[0] == 1;
    assert !Skips(0, one.mem, 0) && Skips(0, zero.mem, 0);
  }
}
