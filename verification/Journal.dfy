/** Whole runs of the journal cache: any writes, and what a read gives after them. */
module Journal {
  import opened Bits
  import opened BlockStore
  import opened Chunks
  import opened FileCache

  /** The cache after a run of writes of any length, starting empty, if no allocation fails. */
  ghost function Replayed(ops: seq<Op>): (f: File)
    ensures WellFormed(f.store)
  {
    if ops == [] then File(map[], 0) else Written(Replayed(ops[..|ops| - 1]), ops[|ops| - 1])
  }

  /** A position of a write whose byte is not written: behind the end of a push that stopped at a chunk of
      seven bytes, or in a blank chunk. */
  ghost predicate Unwritten(m: Store, o: Op, p: nat)
    requires WellFormed(m) && o.offset <= p < o.offset + o.len
  {
    p >= o.offset + DoneOf(m, o.offset, o.len, o.mem) || Skips(o.offset, o.mem, p)
  }

  /** A write changes exactly the bytes of its range that are not left out. */
  lemma WrittenByte(f: File, o: Op, p: nat)
    requires WellFormed(f.store)
    ensures ByteAt(Written(f, o).store, p)
            == if o.offset <= p < o.offset + o.len && !Unwritten(f.store, o, p) then o.mem[p - o.offset]
               else ByteAt(f.store, p)
  {
    hide ByteAt, PushTo, StoreChunk, Skips, DoneOf;
    if o.len > 0 {
      PushByte(f.store, o.offset, DoneOf(f.store, o.offset, o.len, o.mem), o.mem, p);
    } else if o.offset % 64 != 0 {
      StoreChunkByte(f.store, o.offset, 0, o.mem, p);
    }
  }

  /** A write that goes on to its end, spelt out: `s` is where the chunk of position `p` starts in the buffer. */
  lemma CompleteByte(ops: seq<Op>, o: Op, p: nat, s: nat)
    requires !HasChunkOfSeven(o.offset, o.len) && o.offset <= p < o.offset + o.len
    requires s == if p / 64 * 64 <= o.offset then 0 else p / 64 * 64 - o.offset
    ensures ByteAt(Replayed(ops + [o]).store, p)
            == if forall i | s <= i < s + 64 :: o.mem[i] == 0 then ByteAt(Replayed(ops).store, p)
               else o.mem[p - o.offset]
  {
    hide ByteAt, PushTo, HasChunkOfSeven;
    assert (ops + [o])[..|ops|] == ops;
    assert DoneOf(Replayed(ops).store, o.offset, o.len, o.mem) == o.len;
    PushByteSpelt(Replayed(ops).store, o.offset, o.len, o.mem, p, s);
  }

  /** What a write does outside its range, and to the file size. A write of no bytes inside a block extends the
      file, and one at the start of a block does not. */
  lemma WriteAround(ops: seq<Op>, o: Op, p: nat)
    ensures p < o.offset || p >= o.offset + o.len ==>
              ByteAt(Replayed(ops + [o]).store, p) == ByteAt(Replayed(ops).store, p)
    ensures var size := Replayed(ops).size;
            Replayed(ops + [o]).size
            == if !HasChunkOfSeven(o.offset, o.len) && !(o.len == 0 && o.offset % 64 == 0) && o.offset + o.len > size
               then o.offset + o.len else size
  {
    hide ByteAt, PushTo, HasChunkOfSeven, Unwritten, StoreChunk, DoneOf;
    assert (ops + [o])[..|ops|] == ops;
    WrittenByte(Replayed(ops), o, p);
  }

  /** Which blocks are stored after a write: those that were, and those in which a chunk that had its effect
      is not all zero in its 64 bytes of memory. */
  lemma BlockRule(ops: seq<Op>, o: Op, id: nat)
    ensures var a, m := Entry(o.offset, id), Replayed(ops).store;
            id in Replayed(ops + [o]).store
            <==> id in m
                 || (&& a < 64 * (id + 1)
                     && (if o.len == 0 then a == o.offset && o.offset % 64 != 0
                         else a < o.offset + DoneOf(m, o.offset, o.len, o.mem))
                     && NotAllZero(o.mem, a - o.offset))
  {
    hide PushTo, StoreChunk, DoneOf, Blank, NotAllZero, HasChunkOfSeven;
    assert (ops + [o])[..|ops|] == ops;
    var m := Replayed(ops).store;
    if o.len > 0 {
      PushBlocks(m, o.offset, DoneOf(m, o.offset, o.len, o.mem), o.mem, id);
    } else if o.offset % 64 != 0 {
      StoreChunkBlocks(m, o.offset, 0, o.mem, id);
      NotBlank(o.mem, 0);
      assert o.mem[0..] == o.mem;
    }
  }

  /** A push that stops at a chunk of seven bytes, spelt out; the chunk starts `r` bytes into the buffer. Before
      the chunk all is as in a write that goes on to its end, and behind it nothing changes. The chunk itself is written
      exactly if some block up to its own is stored by then. */
  lemma StoppedByte(ops: seq<Op>, o: Op, p: nat, s: nat)
    requires HasChunkOfSeven(o.offset, o.len) && o.offset <= p < o.offset + o.len
    requires s == if p / 64 * 64 <= o.offset then 0 else p / 64 * 64 - o.offset
    ensures var r := Cut(o.offset, o.len, SevenIndex(o.offset, o.len));
            var m := Replayed(ops).store;
            var reached := p < o.offset + r
                           || (p < o.offset + Cut(o.offset, o.len, SevenIndex(o.offset, o.len) + 1)
                               && exists k :: k in PushTo(m, o.offset, r, o.mem) && k <= (o.offset + r) / 64);
            ByteAt(Replayed(ops + [o]).store, p)
            == if !reached || (forall i | s <= i < s + 64 :: o.mem[i] == 0) then ByteAt(m, p) else o.mem[p - o.offset]
  {
    hide ByteAt, PushTo, HasChunkOfSeven, Cut, SevenIndex, DoneOf, Blank, Unwritten;
    assert (ops + [o])[..|ops|] == ops;
    var i := SevenIndex(o.offset, o.len);
    var m, r, r' := Replayed(ops).store, Cut(o.offset, o.len, i), Cut(o.offset, o.len, i + 1);
    CutGrows(o.offset, o.len, i);
    StopsAt(m, o);
    var done := DoneOf(m, o.offset, o.len, o.mem);
    if r <= p - o.offset < r' { CutHolds(o.offset, o.len, i, p); }
    if p < o.offset + done {
      PushByteSpelt(m, o.offset, done, o.mem, p, s);
    } else {
      PushByte(m, o.offset, done, o.mem, p);
    }
  }

  lemma StopsAt(m: Store, o: Op)
    requires WellFormed(m) && HasChunkOfSeven(o.offset, o.len)
    ensures var i := SevenIndex(o.offset, o.len);
            var r := Cut(o.offset, o.len, i);
            DoneOf(m, o.offset, o.len, o.mem)
            == if (forall j | r <= j < r + 64 :: o.mem[j] == 0)
                  || (exists k :: k in PushTo(m, o.offset, r, o.mem) && k <= (o.offset + r) / 64)
               then Cut(o.offset, o.len, i + 1) else r
  {
    hide PushTo, HasChunkOfSeven, Cut, SevenIndex, Blank;
    var r := Cut(o.offset, o.len, SevenIndex(o.offset, o.len));
    BlankWindow(o.mem, r);
    assert TakesSeven(PushTo(m, o.offset, r, o.mem), o.offset + r, o.mem[r..])
        <==> (forall j | r <= j < r + 64 :: o.mem[j] == 0)
             || (exists k :: k in PushTo(m, o.offset, r, o.mem) && k <= (o.offset + r) / 64);
  }

  lemma BlankWindow(mem: seq<byte>, r: nat)
    requires |mem| >= r + 64
    ensures Blank(mem[r..]) <==> forall i | r <= i < r + 64 :: mem[i] == 0
  {
    assert forall i | 0 <= i < 64 :: mem[r..][i] == mem[r + i];
    assert Blank(mem[r..]) ==> forall i | r <= i < r + 64 :: mem[i] == mem[r..][i - r] == 0;
  }

  lemma CutGrows(offset: nat, len: nat, i: nat)
    ensures Cut(offset, len, i) <= Cut(offset, len, i + 1)
  {
  }

  /** Where the chunk of a position starts. */
  lemma CutHolds(offset: nat, len: nat, i: nat, p: nat)
    requires offset + Cut(offset, len, i) <= p < offset + Cut(offset, len, i + 1)
    ensures Cut(offset, len, i) == if p / 64 * 64 <= offset then 0 else p / 64 * 64 - offset
  {
    assert p / 64 == offset / 64 + i by {
      assert offset == offset / 64 * 64 + offset % 64;
      BetweenBlocks(p, offset / 64 + i);
    }
  }

  lemma BetweenBlocks(p: nat, b: nat)
    ensures 64 * b <= p < 64 * (b + 1) ==> p / 64 == b
  {
  }

  /** The cache is the flat file. */
  ghost predicate IsFile(ops: seq<Op>) {
    forall p: nat :: ByteAt(Replayed(ops).store, p) == FlatByte(ops, p)
  }

  ghost predicate IsFileThroughout(ops: seq<Op>) {
    IsFile(ops) && (ops != [] ==> IsFileThroughout(ops[..|ops| - 1]))
  }

  /** The last write leaves out only bytes that are in the file already. */
  ghost predicate LastHarmless(ops: seq<Op>)
    requires ops != []
  {
    var o, before := ops[|ops| - 1], ops[..|ops| - 1];
    forall p: nat | o.offset <= p < o.offset + o.len && Unwritten(Replayed(before).store, o, p) ::
      FlatByte(before, p) == o.mem[p - o.offset]
  }

  ghost predicate Harmless(ops: seq<Op>) {
    ops != [] ==> Harmless(ops[..|ops| - 1]) && LastHarmless(ops)
  }

  /** For every run of writes: the cache is the flat file after each of them if and only if they only ever left
      out bytes that were in the file already. */
  lemma {:induction false} FileExactly(ops: seq<Op>)
    ensures IsFileThroughout(ops) <==> Harmless(ops)
    decreases |ops|
  {
    hide IsFile, LastHarmless;
    if ops == [] {
      NoWrites();
    } else {
      FileExactly(ops[..|ops| - 1]);
      if IsFileThroughout(ops[..|ops| - 1]) {
        LastExactly(ops);
      }
    }
  }

  lemma NoWrites()
    ensures IsFile([]) && Replayed([]) == File(map[], 0)
  {
  }

  lemma LastByteExactly(ops: seq<Op>, p: nat)
    requires ops != [] && ByteAt(Replayed(ops[..|ops| - 1]).store, p) == FlatByte(ops[..|ops| - 1], p)
    ensures var o, before := ops[|ops| - 1], ops[..|ops| - 1];
            ByteAt(Replayed(ops).store, p) == FlatByte(ops, p)
            <==> (o.offset <= p < o.offset + o.len && Unwritten(Replayed(before).store, o, p) ==>
                    FlatByte(before, p) == o.mem[p - o.offset])
  {
    hide ByteAt, Written, Unwritten;
    WrittenByte(Replayed(ops[..|ops| - 1]), ops[|ops| - 1], p);
  }

  lemma LastExactly(ops: seq<Op>)
    requires ops != [] && IsFile(ops[..|ops| - 1])
    ensures IsFile(ops) <==> LastHarmless(ops)
  {
    hide ByteAt, Replayed, FlatByte, Unwritten;
    var o, before := ops[|ops| - 1], ops[..|ops| - 1];
    if IsFile(ops) {
      forall p: nat | o.offset <= p < o.offset + o.len && Unwritten(Replayed(before).store, o, p)
        ensures FlatByte(before, p) == o.mem[p - o.offset]
      {
        LastByteExactly(ops, p);
      }
    }
    if LastHarmless(ops) {
      forall p: nat
        ensures ByteAt(Replayed(ops).store, p) == FlatByte(ops, p)
      {
        LastByteExactly(ops, p);
      }
    }
  }

  // ----- runs without chunks of seven bytes -----

  /** A write that goes on to its end. */
  predicate Completes(o: Op) {
    0 < o.len && !HasChunkOfSeven(o.offset, o.len)
  }

  /** Such runs are those of the store, and the file size is the greatest end of a write. */
  lemma {:induction false} CompleteRun(ops: seq<Op>)
    requires forall i | 0 <= i < |ops| :: Completes(ops[i])
    ensures Replayed(ops) == File(Run(ops), End(ops))
    decreases |ops|
  {
    hide PushTo, HasChunkOfSeven;
    if ops != [] {
      var before, o := ops[..|ops| - 1], ops[|ops| - 1];
      CompleteRun(before);
      assert Completes(o);
      assert DoneOf(Run(before), o.offset, o.len, o.mem) == o.len;
    }
  }

  /** In them only blank chunks are left out. */
  lemma {:induction false} CompleteThroughout(ops: seq<Op>)
    requires forall i | 0 <= i < |ops| :: Completes(ops[i])
    ensures IsFileThroughout(ops) <==> FlatThroughout(ops)
    decreases |ops|
  {
    hide Replayed, Run, ByteAt, FlatByte, Completes;
    CompleteRun(ops);
    if ops != [] {
      CompleteThroughout(ops[..|ops| - 1]);
    }
  }

  lemma CompleteHarmless(ops: seq<Op>)
    requires forall i | 0 <= i < |ops| :: Completes(ops[i])
    ensures Harmless(ops) <==> BlankOnZeros(ops)
  {
    hide Harmless, BlankOnZeros, FlatThroughout, IsFileThroughout;
    CompleteThroughout(ops);
    FileExactly(ops);
    RunIsFlat(ops);
  }

  // ----- the heap -----

  /** Any run of writes on an empty cache, and a read of any range into a zeroed buffer. */
  method Replay(ops: seq<Op>, offset: nat, amount: nat, memory: nat)
    returns (data: array<byte>, size: nat, ghost oom: bool)
    requires forall i | 0 <= i < |ops| :: ops[i].offset + ops[i].len <= OFFSET_LIMIT
    requires offset + amount <= OFFSET_LIMIT
    ensures data.Length == amount
    ensures memory >= 0x10000 * |ops| ==> !oom
    ensures !oom ==> size == Replayed(ops).size
    ensures !oom ==> forall i | 0 <= i < amount :: data[i] == ByteAt(Replayed(ops).store, offset + i)
    ensures !oom && Harmless(ops) ==> forall i | 0 <= i < amount :: data[i] == FlatByte(ops, offset + i)
  {
    hide Run, End, FlatByte, ByteAt, Written, Harmless, DoneOf, HasChunkOfSeven, Linked, Sorted, Separate, Represents;
    var cache := new Cache(memory);
    oom := false;
    NoWrites();
    for k := 0 to |ops|
      invariant cache.Valid() && fresh(cache) && FreshSince([], cache.nodes)
      invariant memory >= 0x10000 * |ops| ==> !oom && cache.memory >= 0x10000 * (|ops| - k)
      invariant !oom ==> File(cache.store, cache.size) == Replayed(ops[..k])
    {
      var o := ops[k];
      ghost var done, failed;
      var rc;
      assert ops[..k + 1][..k] == ops[..k];
      OldOrNew([], cache.nodes);
      rc, done, failed := cache.Write(o.mem, o.len, o.offset, []);
      oom := oom || failed;
    }
    assert ops[..|ops|] == ops;
    ghost var areas := DataOf(cache.nodes);
    data := new byte[amount](_ => 0);
    assert data !in areas;
    var _ := cache.Read(data, amount, offset, []);
    size := cache.FileSize();
    FileExactly(ops);
  }

  lemma SevenDone(mem: seq<byte>)
    requires |mem| >= 71 && mem[0] != 0
    ensures HasChunkOfSeven(0, 7) && DoneOf(map[], 0, 7, mem) == 0 && BlockCount(0, 7) == 1 && Cut(0, 7, 0) == 0
    ensures Run([]) == Run(Logged([], 0, 0, mem)) == map[]
  {
    assert mem[0..] == mem && PushTo(map[], 0, 0, mem) == map[];
    RunSnoc([], 0, 0, mem);
  }

  lemma NothingStored()
    ensures ByteAt(map[], 0) == 0
  {
  }

  /** Seven bytes written to an empty cache are lost, although the write reports success. */
  method SevenBytesLost(mem: seq<byte>, memory: nat) returns (rc: nat, size: nat, b: byte)
    requires |mem| >= 71 && mem[0] != 0
    ensures rc == SQLITE_OK && size == 0 && b == 0 != mem[0]
  {
    hide Run, FlatByte, ByteAt, Written, DoneOf, Logged, IsFlat, HasChunkOfSeven, BlockCount, Cut;
    hide Linked, Sorted, Separate, Represents;
    var cache := new Cache(memory);
    ghost var done, oom;
    SevenDone(mem);
    rc, done, oom := cache.Write(mem, 7, 0, []);
    NothingStored();
    ghost var areas := DataOf(cache.nodes);
    var data := new byte[1](_ => 0);
    assert data !in areas;
    var _ := cache.Read(data, 1, 0, []);
    size := cache.FileSize();
    b := data[0];
  }
}
