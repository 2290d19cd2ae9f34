/** How reads and writes of the journal cache are cut into chunks, and what a write does to the store. */
module Chunks {
  import opened Bits
  import opened BlockStore

  /** Offsets are kept below 2^22 - 64, where block numbers fit in 16 bits and floats are exact. */
  const OFFSET_LIMIT: nat := 0x40_0000 - 64

  // ----- cutting a range into chunks -----

  /** `blocks` after rounding up, as the float arithmetic computes it. */
  function BlockCount(offset: nat, len: nat): (r: nat)
    requires offset + len <= OFFSET_LIMIT
    ensures r == (offset % 64 + len + 63) / 64 < 0x10000
  {
    var blocks := (offset % 64 + len) as real / 64.0;
    FloorOfQuotient(offset % 64 + len);
    var up := if blocks - blocks.Floor as real > 0.0 then blocks + 1.0 else blocks;
    up.Floor
  }

  lemma FloorOfQuotient(t: nat)
    ensures (t as real / 64.0).Floor == t / 64
    ensures t as real / 64.0 - (t / 64) as real > 0.0 <==> t % 64 > 0
    ensures (t as real / 64.0 + 1.0).Floor == t / 64 + 1
  {
    assert t == t / 64 * 64 + t % 64;
    assert t as real / 64.0 == (t / 64) as real + (t % 64) as real / 64.0;
  }

  /** How many bytes have been passed after `i` chunks. */
  function Cut(offset: nat, len: nat, i: nat): (r: nat)
    ensures r <= len
  {
    if 64 * i <= offset % 64 then 0
    else if 64 * i - offset % 64 < len then 64 * i - offset % 64
    else len
  }

  /** For a nonempty range, the loop cuts it into that many nonempty chunks, each within one block, which
      together are the range. */
  lemma ChunksCover(offset: nat, len: nat, i: nat)
    requires 0 < len && offset + len <= OFFSET_LIMIT && i < BlockCount(offset, len)
    ensures Cut(offset, len, 0) == 0 && Cut(offset, len, BlockCount(offset, len)) == len
    ensures Cut(offset, len, i) < Cut(offset, len, i + 1) <= len
    ensures (offset + Cut(offset, len, i)) / 64 == (offset + Cut(offset, len, i + 1) - 1) / 64
  {
  }

  /** The length of the chunk that starts `r` bytes into the range. */
  function ChunkLength(offset: nat, len: nat, r: nat): nat
    requires r <= len
  {
    var room := 64 - (offset + r) % 64;
    if len - r > room then room else len - r
  }

  lemma CutStep(offset: nat, len: nat, i: nat)
    requires offset + len <= OFFSET_LIMIT && i < BlockCount(offset, len)
    ensures Cut(offset, len, i) <= Cut(offset, len, i + 1) <= len
    ensures Cut(offset, len, i + 1) == Cut(offset, len, i) + ChunkLength(offset, len, Cut(offset, len, i))
    ensures Cut(offset, len, i) == 0 || (offset + Cut(offset, len, i)) % 64 == 0
    ensures len > 0 ==> ChunkLength(offset, len, Cut(offset, len, i)) > 0
    ensures (offset + Cut(offset, len, i)) % 64 + ChunkLength(offset, len, Cut(offset, len, i)) <= 64
  {
    hide BlockCount;
    CutAt(offset, len, i);
  }

  /** Every chunk but the first starts at the start of a block. */
  lemma CutAt(offset: nat, len: nat, i: nat)
    requires offset + len <= OFFSET_LIMIT && i < BlockCount(offset, len)
    ensures Cut(offset, len, i) == if i == 0 then 0 else 64 * i - offset % 64
    ensures (offset + Cut(offset, len, i)) % 64 == if i == 0 then offset % 64 else 0
    ensures len > 0 ==> Cut(offset, len, i) < len
  {
    assert 64 * i < offset % 64 + len || len == 0;
    if i > 0 {
      assert offset + (64 * i - offset % 64) == 64 * (offset / 64 + i);
    }
  }

  /** Some chunk of the range is seven bytes long: the whole range, its first part or its last one. */
  predicate HasChunkOfSeven(offset: nat, len: nat) {
    || (len == 7 && offset % 64 <= 57)
    || (len >= 7 && (offset % 64 == 57 || (offset + len) % 64 == 7))
  }

  lemma ChunkOfSeven(offset: nat, len: nat)
    requires offset + len <= OFFSET_LIMIT
    ensures HasChunkOfSeven(offset, len)
            <==> exists i :: 0 <= i < BlockCount(offset, len) && ChunkLength(offset, len, Cut(offset, len, i)) == 7
  {
    hide BlockCount, Cut, ChunkLength, HasChunkOfSeven;
    if HasChunkOfSeven(offset, len) {
      var i := SevenIndex(offset, len);
      SevenAt(offset, len, i);
    }
    forall i | 0 <= i < BlockCount(offset, len) && ChunkLength(offset, len, Cut(offset, len, i)) == 7
      ensures HasChunkOfSeven(offset, len)
    {
      CutAt(offset, len, i);
      OnlyEndsAreShort(offset, len, i);
    }
  }

  function SevenIndex(offset: nat, len: nat): nat {
    if offset % 64 == 57 || (len == 7 && offset % 64 <= 57) then 0 else (offset % 64 + len) / 64
  }

  lemma SevenAt(offset: nat, len: nat, i: nat)
    requires offset + len <= OFFSET_LIMIT && HasChunkOfSeven(offset, len) && i == SevenIndex(offset, len)
    ensures i < BlockCount(offset, len) && ChunkLength(offset, len, Cut(offset, len, i)) == 7
  {
    if i > 0 {
      assert (offset + len) % 64 == 7;
      SumRemainder(offset, len);
      assert offset % 64 + len == 64 * i + 7;
      CutAt(offset, len, i);
    }
  }

  lemma SumRemainder(a: nat, b: nat)
    ensures (a + b) % 64 == (a % 64 + b) % 64
  {
  }

  lemma OnlyEndsAreShort(offset: nat, len: nat, i: nat)
    requires Cut(offset, len, i) == if i == 0 then 0 else 64 * i - offset % 64
    requires (offset + Cut(offset, len, i)) % 64 == if i == 0 then offset % 64 else 0
    requires ChunkLength(offset, len, Cut(offset, len, i)) == 7
    ensures HasChunkOfSeven(offset, len)
    ensures i == 0 || SevenIndex(offset, len) == 0 || SevenIndex(offset, len) == i
    ensures i == 0 ==> SevenIndex(offset, len) == 0
  {
    hide Cut;
    if i > 0 {
      assert offset + len == 64 * (offset / 64 + i) + 7;
    }
  }

  /** The first such chunk. */
  lemma FirstOfSeven(offset: nat, len: nat, i: nat)
    requires offset + len <= OFFSET_LIMIT && i < BlockCount(offset, len)
    requires ChunkLength(offset, len, Cut(offset, len, i)) == 7
    requires forall j | 0 <= j < i :: ChunkLength(offset, len, Cut(offset, len, j)) != 7
    ensures HasChunkOfSeven(offset, len) && i == SevenIndex(offset, len)
  {
    hide BlockCount, Cut, ChunkLength, HasChunkOfSeven;
    CutAt(offset, len, i);
    OnlyEndsAreShort(offset, len, i);
    SevenAt(offset, len, SevenIndex(offset, len));
  }

  /** One more chunk is one more step of the specification. */
  lemma PushOneMore(m: Store, offset: nat, r: nat, n: nat, mem: seq<byte>)
    requires WellFormed(m) && n > 0 && |mem| >= r + n + 64
    requires r == 0 || (offset + r) % 64 == 0
    requires (offset + r) % 64 + n <= 64
    ensures PushTo(m, offset, r + n, mem) == StoreChunk(PushTo(m, offset, r, mem), offset + r, n, mem[r..])
  {
    hide StoreChunk;
    assert ChunkStart(offset, offset + (r + n) - 1) == r;
  }

  /** The store when `done` bytes of a push have had their effect, in `chunks` chunks. A push of no bytes has
      one empty chunk, unless it is at the start of a block. */
  function Pushed(m: Store, offset: nat, len: nat, chunks: nat, done: nat, data: seq<byte>): Store
    requires WellFormed(m) && |data| >= len + 64 && done <= len
  {
    if len > 0 then PushTo(m, offset, done, data)
    else if chunks == 0 then m
    else StoreChunk(m, offset, 0, data)
  }

  lemma PushedNone(m: Store, offset: nat, len: nat, data: seq<byte>)
    requires WellFormed(m) && |data| >= len + 64
    ensures Pushed(m, offset, len, 0, 0, data) == m
  {
  }

  lemma PushedAnyChunks(m: Store, offset: nat, len: nat, i: nat, done: nat, data: seq<byte>)
    requires WellFormed(m) && |data| >= len + 64 && done <= len
    ensures len > 0 ==> Pushed(m, offset, len, i, done, data) == Pushed(m, offset, len, i + 1, done, data)
  {
  }

  /** The file size after a push that completes. */
  function Extended(size: nat, offset: nat, len: nat): nat {
    if offset % 64 + len > 0 && offset + len > size then offset + len else size
  }

  lemma PushedOneMore(m: Store, offset: nat, len: nat, i: nat, data: seq<byte>)
    requires WellFormed(m) && |data| >= len + 64 && offset + len <= OFFSET_LIMIT && i < BlockCount(offset, len)
    ensures var r, r' := Cut(offset, len, i), Cut(offset, len, i + 1);
            && r <= r' <= len && r' - r == ChunkLength(offset, len, r) <= 64 && (offset + r) / 64 < 0x10000
            && (offset + r) % 64 + (r' - r) <= 64 && WellFormed(Pushed(m, offset, len, i, r, data))
            && Pushed(m, offset, len, i + 1, r', data)
               == StoreChunk(Pushed(m, offset, len, i, r, data), offset + r, r' - r, data[r..])
  {
    hide PushTo, StoreChunk;
    CutStep(offset, len, i);
    var r := Cut(offset, len, i);
    if len > 0 {
      PushOneMore(m, offset, r, ChunkLength(offset, len, r), data);
    } else {
      assert i == 0 && data[0..] == data;
    }
  }

  // ----- what a push does when no allocation fails -----

  /** A block of that number, or one before it, is stored. */
  ghost predicate HasBlockUpTo(m: Store, id: nat) {
    exists k :: k in m && k <= id
  }

  /** A chunk of seven bytes ends the push. It has had its effect by then, unless its block is new and would
      have become the head of the list. */
  ghost predicate TakesSeven(m: Store, offset: nat, mem: seq<byte>) {
    Blank(mem) || HasBlockUpTo(m, offset / 64)
  }

  /** How many bytes of a push have their effect. */
  ghost function DoneOf(m: Store, offset: nat, len: nat, mem: seq<byte>): (done: nat)
    requires WellFormed(m) && |mem| >= len + 64
    ensures done <= len && (!HasChunkOfSeven(offset, len) ==> done == len)
  {
    if !HasChunkOfSeven(offset, len) then len
    else
      var i := SevenIndex(offset, len);
      var r := Cut(offset, len, i);
      if TakesSeven(PushTo(m, offset, r, mem), offset + r, mem[r..]) then Cut(offset, len, i + 1) else r
  }

  /** What is stored, and the file size. */
  datatype File = File(store: Store, size: nat)

  /** The cache after a push of any length, chunks of seven bytes included. */
  ghost function Written(f: File, o: Op): (g: File)
    requires WellFormed(f.store)
    ensures WellFormed(g.store)
  {
    File(if o.len > 0 then PushTo(f.store, o.offset, DoneOf(f.store, o.offset, o.len, o.mem), o.mem)
         else if o.offset % 64 == 0 then f.store
         else StoreChunk(f.store, o.offset, 0, o.mem),
         if HasChunkOfSeven(o.offset, o.len) then f.size else Extended(f.size, o.offset, o.len))
  }

  /** A push that ends at a chunk of seven bytes. */
  lemma PushStopped(m: Store, size: nat, offset: nat, len: nat, i: nat, data: seq<byte>)
    requires WellFormed(m) && |data| >= len + 64
    requires HasChunkOfSeven(offset, len) && i == SevenIndex(offset, len)
    ensures var r, done := Cut(offset, len, i), DoneOf(m, offset, len, data);
            && WellFormed(Pushed(m, offset, len, i, r, data))
            && done == (if TakesSeven(Pushed(m, offset, len, i, r, data), offset + r, data[r..])
                        then Cut(offset, len, i + 1) else r)
            && Written(File(m, size), Op(offset, len, data)) == File(Pushed(m, offset, len, i, done, data), size)
  {
    hide PushTo, TakesSeven, Cut;
  }

  /** A push that goes on to its end. */
  lemma PushCompleted(m: Store, size: nat, offset: nat, len: nat, data: seq<byte>)
    requires WellFormed(m) && |data| >= len + 64 && offset + len <= OFFSET_LIMIT && !HasChunkOfSeven(offset, len)
    ensures Written(File(m, size), Op(offset, len, data))
            == File(Pushed(m, offset, len, BlockCount(offset, len), len, data), Extended(size, offset, len))
  {
    hide PushTo, StoreChunk;
  }
}
