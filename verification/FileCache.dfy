/** The in-memory journal cache: a sorted linked list of blocks that is changed in place. */
module FileCache {
  import opened Bits
  import opened BlockStore
  import opened Chunks

  const SQLITE_OK: nat := 0
  const SQLITE_NOMEM: nat := 7

  // ----- the list -----

  class Block {
    const blockid: nat
    var next: Block?
    const data: array<byte>

    constructor (id: nat)
      ensures blockid == id && next == null && fresh(data) && data.Length == 64
      ensures forall i | 0 <= i < 64 :: data[i] == 0
    {
      blockid := id;
      next := null;
      data := new byte[64](_ => 0);
    }
  }

  /** The nodes form one list from `first` to its end. */
  ghost predicate Linked(first: Block?, nodes: seq<Block>)
    reads nodes
  {
    if nodes == [] then first == null
    else
      && first == nodes[0]
      && nodes[|nodes| - 1].next == null
      && forall i {:trigger nodes[i].next} | 0 <= i < |nodes| - 1 :: nodes[i].next == nodes[i + 1]
  }

  /** Strictly increasing 16-bit block numbers; so no node occurs twice. */
  ghost predicate Sorted(nodes: seq<Block>) {
    && (forall i | 0 <= i < |nodes| :: nodes[i].blockid < 0x10000)
    && forall i, j | 0 <= i < j < |nodes| :: nodes[i].blockid < nodes[j].blockid
  }

  /** Each node has a data area of its own. */
  ghost predicate Separate(nodes: seq<Block>) {
    && (forall i | 0 <= i < |nodes| :: nodes[i].data.Length == 64)
    && forall i, j | 0 <= i < j < |nodes| :: nodes[i].data != nodes[j].data
  }

  ghost function DataOf(nodes: seq<Block>): (r: set<array<byte>>)
  {
    set n | n in nodes :: n.data
  }

  /** The blocks of the list are the blocks of the store. */
  ghost predicate Represents(nodes: seq<Block>, m: Store)
    reads DataOf(nodes)
  {
    && (forall n | n in nodes :: n.blockid in m && m[n.blockid] == n.data[..])
    && (forall id | id in m :: exists n :: n in nodes && n.blockid == id)
  }

  class Cache {
    var size: nat
    var list: Block?
    /** How many blocks sqlite3_malloc still has memory for. */
    var memory: nat
    ghost var nodes: seq<Block>
    ghost var store: Store

    ghost predicate Valid()
      reads this, nodes, DataOf(nodes)
    {
      && Linked(list, nodes) && Sorted(nodes) && Separate(nodes)
      && WellFormed(store) && Represents(nodes, store)
    }

    constructor (blocks: nat)
      ensures Valid() && size == 0 && store == map[] && nodes == [] && memory == blocks
    {
      size, list, memory := 0, null, blocks;
      nodes, store := [], map[];
    }

    /** esp8266mem_FileSize */
    method FileSize() returns (r: nat)
      ensures r == size
    {
      r := size;
    }

    /** The loop that looks for the block of an offset: the last one whose number is not greater, or the
        first one if there is none. */
    method FindLeaf(offset: nat) returns (leaf: Block?, moved: bool, ghost k: nat)
      requires Valid()
      ensures if nodes == [] then leaf == null && k == 0 else k < |nodes| && leaf == nodes[k]
      ensures moved <==> k > 0
      ensures k > 0 ==> nodes[k].blockid * 64 <= offset
      ensures k + 1 < |nodes| ==> nodes[k + 1].blockid * 64 > offset
    {
      leaf := list;
      moved := false;
      k := 0;
      while leaf != null && leaf.next != null
        invariant if nodes == [] then leaf == null && k == 0 else k < |nodes| && leaf == nodes[k]
        invariant moved <==> k > 0
        invariant k > 0 ==> nodes[k].blockid * 64 <= offset
        decreases |nodes| - k
      {
        assert k + 1 < |nodes| && leaf.next == nodes[k + 1];
        if leaf.next.blockid * 64 > offset {
          break;
        }
        moved := true;
        leaf := leaf.next;
        k := k + 1;
      }
      assert nodes != [] && k + 1 < |nodes| ==> leaf.next == nodes[k + 1];
    }

    lemma EmptyList()
      requires Valid() && list == null
      ensures forall id: nat :: id !in store
    {
    }

    lemma NonemptyList()
      requires Valid() && list != null
      ensures nodes != []
    {
    }

    lemma LeafHolds(k: nat, offset: nat)
      requires Valid() && k < |nodes|
      requires k > 0 ==> nodes[k].blockid * 64 <= offset
      requires k + 1 < |nodes| ==> nodes[k + 1].blockid * 64 > offset
      ensures offset / 64 in store <==> nodes[k].blockid == offset / 64
      ensures offset / 64 in store ==> store[offset / 64] == nodes[k].data[..]
      ensures nodes[k].data.Length == 64 && nodes[k].data in DataOf(nodes)
    {
      LeafDecides(nodes, store, k, offset);
      assert nodes[k] in nodes;
    }

    /** One chunk of a read: the bytes are copied if the block found is the one of the chunk. */
    method PullChunk(offset: nat, r: nat, n: nat, data: array<byte>)
      requires Valid() && nodes != [] && r + n <= data.Length && (offset + r) % 64 + n <= 64
      requires data !in DataOf(nodes)
      modifies data
      ensures data[..] == Reading(store, offset, r, r + n, old(data[..]))
    {
      hide Linked, Sorted, Separate, Represents;
      var relaoffset := offset + r;
      var leaf, moved, k := FindLeaf(relaoffset);
      LeafHolds(k, relaoffset);
      var relablock := relaoffset as real / 64.0 - leaf.blockid as real;
      InBlock(relaoffset, leaf.blockid);
      ghost var was, block := data[..], leaf.data[..];
      if 0.0 <= relablock < 1.0 {
        forall j | r <= j < r + n {
          data[j] := leaf.data[relaoffset % 64 + (j - r)];
        }
        ReadingHit(store, offset, r, n, was, block, data[..]);
      } else {
        ReadingMiss(store, offset, r, n, was);
      }
    }

    /** filecache_pull: copies what is stored and leaves the rest of the buffer as it is. */
    method Pull(offset: nat, len: nat, data: array<byte>) returns (ret: nat)
      requires Valid() && offset + len <= OFFSET_LIMIT && len <= data.Length
      requires data !in DataOf(nodes)
      modifies data
      ensures Valid() && ret == 0
      ensures data[..] == Reading(store, offset, 0, len, old(data[..]))
    {
      hide Valid, Reading, Cut, ChunkLength, BlockCount;
      ret := 0;
      var r := 0;
      var blocks := BlockCount(offset, len);
      CutEnds(offset, len);
      if blocks == 0 {
        ReadingNone(store, offset, data[..]);
        return 0;
      }
      if list == null {
        EmptyList();
        ReadingEmpty(store, offset, len, data[..]);
        return 0;
      }
      ReadingNone(store, offset, data[..]);
      NonemptyList();
      for i := 0 to blocks
        invariant r == Cut(offset, len, i) <= len && Valid()
        invariant data[..] == Reading(store, offset, 0, r, old(data[..]))
      {
        CutStep(offset, len, i);
        var relalen := ChunkLength(offset, len, r);
        ReadingStep(store, offset, r, relalen, old(data[..]));
        PullChunk(offset, r, relalen, data);
        r := r + relalen;
      }
    }

    // ----- writing -----

    /** A leaf as FindLeaf finds it for an offset. */
    ghost predicate IsLeafFor(leaf: Block?, k: nat, offset: nat)
      reads this, nodes
    {
      if nodes == [] then leaf == null && k == 0
      else
        && k < |nodes| && leaf == nodes[k]
        && (k > 0 ==> nodes[k].blockid * 64 <= offset)
        && (k + 1 < |nodes| ==> nodes[k + 1].blockid * 64 > offset)
    }

    /** A write into a block that is stored. */
    method Overwrite(leaf: Block, ghost k: nat, offset: nat, n: nat, mem: seq<byte>)
      requires Valid() && |mem| >= 64 && offset % 64 + n <= 64 && !Blank(mem)
      requires k < |nodes| && leaf == nodes[k] && leaf.blockid == offset / 64
      modifies this`store, leaf.data
      ensures Valid() && store == StoreChunk(old(store), offset, n, mem)
    {
      ghost var was, m := leaf.data[..], store;
      OnlyNode(nodes, k);
      assert leaf in nodes;
      hide Linked, Sorted, Separate, StoreChunk, Patch, Blank;
      forall j | 0 <= j < n {
        leaf.data[offset % 64 + j] := mem[j];
      }
      PatchIs(was, offset % 64, mem[..n], leaf.data[..]);
      ChunkInBlock(m, offset, n, mem);
      store := StoreChunk(store, offset, n, mem);
      OverwriteRepresents(nodes, m, k);
    }

    /** A new block behind the leaf. */
    method InsertAfter(leaf: Block, ghost k: nat, block: Block)
      requires Valid() && k < |nodes| && leaf == nodes[k] && leaf.blockid < block.blockid < 0x10000
      requires k + 1 < |nodes| ==> block.blockid < nodes[k + 1].blockid
      requires block !in nodes && block.data !in DataOf(nodes) && block.data.Length == 64
      modifies this`nodes, this`store, leaf`next, block`next
      ensures Valid() && store == old(store)[block.blockid := block.data[..]]
      ensures nodes == old(nodes)[..k + 1] + [block] + old(nodes)[k + 1..]
    {
      hide Linked, Sorted, Separate, WellFormed, Represents;
      ghost var before, m := nodes, store;
      ghost var after := before[..k + 1] + [block] + before[k + 1..];
      NoSuchBlock(before, m, k, block.blockid);
      InsertSorted(before, k, block);
      Link(leaf, block, before, k);
      StorePut(m, block.blockid, block.data[..]);
      nodes := after;
      store := m[block.blockid := block.data[..]];
      InsertRepresents(before, m, k, block);
    }

    /** The two assignments that put a block behind the leaf. */
    method Link(leaf: Block, block: Block, ghost before: seq<Block>, ghost k: nat)
      requires k < |before| && leaf == before[k] && block !in before && Linked(list, before) && Sorted(before)
      modifies leaf`next, block`next
      ensures Linked(list, before[..k + 1] + [block] + before[k + 1..])
    {
      DistinctNodes(before);
      block.next := leaf.next;
      leaf.next := block;
      InsertLinked(before, k, block);
    }

    lemma InsertLinked(before: seq<Block>, k: nat, block: Block)
      requires k < |before| && list == before[0] && before[k].next == block
      requires block.next == if k + 1 < |before| then before[k + 1] else null
      requires forall i {:trigger before[i].next} | 0 <= i < |before| - 1 && i != k :: before[i].next == before[i + 1]
      requires k + 1 < |before| ==> before[|before| - 1].next == null
      ensures Linked(list, before[..k + 1] + [block] + before[k + 1..])
    {
      var nodes := before[..k + 1] + [block] + before[k + 1..];
      forall i {:trigger nodes[i].next} | 0 <= i < |nodes| - 1
        ensures nodes[i].next == nodes[i + 1]
      {
        if i < k {
          assert nodes[i] == before[i] && nodes[i + 1] == before[i + 1];
        } else if i > k + 1 {
          assert nodes[i] == before[i - 1] && nodes[i + 1] == before[i];
        }
      }
    }

    lemma NoLeaf()
      requires Valid() && nodes == []
      ensures list == null
    {
    }

    /** A leaf with a greater number is the first node. */
    lemma FrontOnly(k: nat, offset: nat)
      requires Valid() && k < |nodes| && nodes[k].blockid > offset / 64
      requires k > 0 ==> nodes[k].blockid * 64 <= offset
      ensures k == 0 && list == nodes[0]
    {
    }

    /** Links a new block in behind the leaf. */
    method StoreNew(leaf: Block, ghost k: nat, offset: nat, n: nat, mem: seq<byte>, block: Block)
      requires Valid() && |mem| >= 64 && offset % 64 + n <= 64 && !Blank(mem)
      requires k < |nodes| && leaf == nodes[k] && leaf.blockid < block.blockid == offset / 64 < 0x10000
      requires k + 1 < |nodes| ==> nodes[k + 1].blockid * 64 > offset
      requires block !in nodes && block.data !in DataOf(nodes) && block.data.Length == 64
      requires block.data[..] == Patch(ZeroBlock(), offset % 64, mem[..n])
      modifies this`nodes, this`store, leaf`next, block`next
      ensures Valid() && store == StoreChunk(old(store), offset, n, mem)
      ensures forall n :: n in nodes <==> n in old(nodes) || n == block
    {
      hide Linked, Sorted, Separate, Represents, Patch, Blank;
      ghost var before := nodes;
      NoSuchBlock(nodes, store, k, block.blockid);
      InsertAfter(leaf, k, block);
      Inserted(before, k, block);
    }

    lemma LeafIsUpTo(k: nat, id: nat)
      requires Valid() && k < |nodes| && nodes[k].blockid <= id
      ensures HasBlockUpTo(store, id)
    {
      assert nodes[k] in nodes;
    }

    /** If the head comes after a block number, so does the whole list. */
    lemma NoneUpTo(id: nat)
      requires Valid() && (nodes != [] ==> nodes[0].blockid > id)
      ensures !HasBlockUpTo(store, id)
    {
      forall k: nat | k in store
        ensures k > id
      {
        var n :| n in nodes && n.blockid == k;
        var j :| 0 <= j < |nodes| && nodes[j] == n;
        assert j > 0 ==> nodes[0].blockid < nodes[j].blockid;
      }
    }

    /** sqlite3_malloc of a block, as far as it matters here: it fails when there is no memory left. */
    method Malloc() returns (ok: bool)
      requires Valid()
      modifies this`memory
      ensures Valid() && (ok <==> old(memory) > 0) && memory == if ok then old(memory) - 1 else 0
    {
      ok := memory > 0;
      if ok {
        memory := memory - 1;
      }
    }

    lemma StoredIfLeaf(leaf: Block?, k: nat, offset: nat)
      requires Valid() && IsLeafFor(leaf, k, offset)
      ensures offset / 64 in store <==> leaf != null && leaf.blockid == offset / 64
    {
      if nodes == [] {
        EmptyList();
      } else {
        LeafHolds(k, offset);
      }
    }

    /** linkedlist_store. A blank window is not stored. The allocation fails exactly if a block is needed and
        there is no memory for it. A block that belongs before
        the leaf is returned instead of linked in (`before`); every other one is in the list afterwards. */
    method LinkedListStore(leaf: Block?, ghost k: nat, offset: nat, n: nat, mem: seq<byte>)
      returns (leaf': Block?, ret: nat, ghost before: bool, ghost oom: bool)
      requires Valid() && |mem| >= 64 && offset % 64 + n <= 64 && offset / 64 < 0x10000 && IsLeafFor(leaf, k, offset)
      modifies this`nodes, this`store, this`memory, nodes, DataOf(nodes)
      ensures Valid() && list == old(list) && size == old(size)
      ensures oom <==> !Blank(mem) && offset / 64 !in old(store) && old(memory) == 0
      ensures memory == if Blank(mem) || offset / 64 in old(store) || oom then old(memory) else old(memory) - 1
      ensures Grown(old(nodes), nodes) && FreshSince(old(nodes), nodes)
      ensures oom ==> !before && ret == SQLITE_NOMEM && store == old(store) && nodes == old(nodes)
      ensures !oom ==> ret == n
      ensures !before ==> leaf' == leaf && (!oom ==> store == StoreChunk(old(store), offset, n, mem))
      ensures !before && !oom ==> Blank(mem) || HasBlockUpTo(old(store), offset / 64)
      ensures before ==>
                && nodes == old(nodes) && store == old(store) && !Blank(mem)
                && (nodes != [] ==> nodes[0].blockid > offset / 64)
                && leaf' != null && fresh(leaf') && fresh(leaf'.data) && leaf'.data.Length == 64
                && leaf'.blockid == offset / 64 && leaf'.next == list
                && leaf'.data[..] == Patch(ZeroBlock(), offset % 64, mem[..n])
    {
      hide Linked, Sorted, Separate, Represents, WellFormed, Patch;
      leaf', ret, before, oom := leaf, n, false, false;
      GrownSame(nodes);
      if Blank(mem) {
        return;
      }
      var blockid := offset / 64;
      StoredIfLeaf(leaf, k, offset);
      if leaf != null && leaf.blockid <= blockid { LeafIsUpTo(k, blockid); }
      if leaf != null && leaf.blockid == blockid {
        Overwrite(leaf, k, offset, n, mem);
        return;
      }
      var ok := Malloc();
      if !ok {
        ret, oom := SQLITE_NOMEM, true;
        return;
      }
      var block := NewBlock(blockid, offset % 64, mem[..n]);
      if leaf == null {
        NoLeaf();
        block.next := null;
        leaf', before := block, true;
      } else if block.blockid > leaf.blockid {
        StoreNew(leaf, k, offset, n, mem, block);
      } else {
        FrontOnly(k, offset);
        block.next := leaf;
        leaf', before := block, true;
      }
    }

    /** Makes the leaf the head of the list; one that was returned without being linked in joins it so. */
    method SetRoot(leaf: Block?, ghost before: bool, offset: nat, n: nat, mem: seq<byte>)
      requires Valid() && |mem| >= 64 && offset % 64 + n <= 64 && offset / 64 < 0x10000
      requires !before ==> leaf == list
      requires before ==>
                 && !Blank(mem) && leaf != null && leaf.next == list && leaf.blockid == offset / 64
                 && (nodes != [] ==> nodes[0].blockid > offset / 64)
                 && leaf !in nodes && leaf.data !in DataOf(nodes) && leaf.data.Length == 64
                 && leaf.data[..] == Patch(ZeroBlock(), offset % 64, mem[..n])
      modifies this
      ensures Valid() && size == old(size) && memory == old(memory) && list == leaf
      ensures nodes == (if before then [leaf] else []) + old(nodes)
      ensures store == if before then StoreChunk(old(store), offset, n, mem) else old(store)
    {
      hide Linked, Sorted, Separate, Represents, WellFormed, Patch, Blank, ZeroBlock;
      list := leaf;
      if before {
        ghost var block: Block, was, m := leaf, nodes, store;
        FrontAbsent(was, m, block.blockid);
        FrontSorted(was, block);
        FrontLinked(old(list), was, block);
        nodes := [block] + was;
        StorePut(m, block.blockid, block.data[..]);
        store := StoreChunk(m, offset, n, mem);
        FrontRepresents(was, m, block);
      }
    }

    /** One chunk of a write. `stored` says whether it has its effect on the list: exactly unless the allocation
        failed, or a new head block of seven bytes is forgotten. */
    method PushChunk(offset: nat, n: nat, mem: seq<byte>, updateroot: bool)
      returns (updateroot': bool, ret: nat, ghost stored: bool, ghost oom: bool)
      requires Valid() && |mem| >= 64 && offset % 64 + n <= 64 && offset / 64 < 0x10000
      requires !updateroot ==> nodes != [] && nodes[0].blockid * 64 <= offset
      modifies this, nodes, DataOf(nodes)
      ensures Valid() && size == old(size) && Grown(old(nodes), nodes) && FreshSince(old(nodes), nodes)
      ensures oom <==> !Blank(mem) && offset / 64 !in old(store) && old(memory) == 0
      ensures memory <= old(memory) <= memory + 1
      ensures ret == if oom then SQLITE_NOMEM else n
      ensures stored <==> !oom && (n != SQLITE_NOMEM || TakesSeven(old(store), offset, mem))
      ensures store == if stored then StoreChunk(old(store), offset, n, mem) else old(store)
      ensures !updateroot' ==> nodes != [] && nodes[0].blockid * 64 <= offset
    {
      hide Linked, Sorted, Separate, Represents, WellFormed, Patch, StoreChunk, Blank, ZeroBlock;
      var leaf, moved, k := FindLeaf(offset);
      updateroot' := updateroot && !moved;
      HeadLeaf(k, offset);
      ghost var was := nodes;
      ghost var before;
      if nodes == [] || nodes[0].blockid > offset / 64 { NoneUpTo(offset / 64); }
      leaf, ret, before, oom := LinkedListStore(leaf, k, offset, n, mem);
      stored := !before && !oom;
      if was != [] { GrownFront(was, nodes); }
      if ret == SQLITE_NOMEM {
        return;
      }
      if updateroot' {
        if before { NewNode(was, leaf); }
        SetRoot(leaf, before, offset, n, mem);
        stored := true;
        GrownSame(was);
        if before { Prepended(was, leaf); }
      }
    }

    lemma HeadLeaf(k: nat, offset: nat)
      requires Valid() && (k < |nodes| || nodes == []) && (k > 0 ==> k < |nodes| && nodes[k].blockid * 64 <= offset)
      ensures list == if nodes == [] then null else nodes[0]
      ensures k > 0 ==> nodes[0].blockid * 64 <= offset
    {
    }

    method Extend(end: nat)
      requires Valid()
      modifies this`size
      ensures Valid() && size == if end > old(size) then end else old(size)
    {
      if end > size {
        size := end;
      }
    }

    /** filecache_push. When it returns, `done` bytes of the buffer have had their effect. That is all of them
        unless an allocation failed (`oom`) or a chunk of seven bytes was taken for a failed one. */
    method Push(offset: nat, len: nat, data: seq<byte>)
      returns (ret: nat, ghost done: nat, ghost chunks: nat, ghost oom: bool)
      requires Valid() && offset + len <= OFFSET_LIMIT && |data| >= len + 64
      modifies this, nodes, DataOf(nodes)
      ensures Valid() && Grown(old(nodes), nodes) && FreshSince(old(nodes), nodes)
      ensures chunks <= BlockCount(offset, len) && done <= len
      ensures chunks == BlockCount(offset, len) <==> !oom && !HasChunkOfSeven(offset, len)
      ensures store == Pushed(old(store), offset, len, chunks, done, data)
      ensures if chunks == BlockCount(offset, len)
              then ret == done == len && size == Extended(old(size), offset, len)
              else ret == SQLITE_NOMEM && size == old(size)
      ensures oom ==> chunks < BlockCount(offset, len) && done == Cut(offset, len, chunks)
      ensures oom ==> memory == 0 && !Blank(data[done..]) && (offset + done) / 64 !in store
      ensures old(memory) <= memory + BlockCount(offset, len)
      ensures old(memory) >= BlockCount(offset, len) ==> !oom
      ensures !oom ==> done == DoneOf(old(store), offset, len, data)
      ensures !oom && HasChunkOfSeven(offset, len) ==> chunks == SevenIndex(offset, len)
      ensures !oom ==> File(store, size) == Written(File(old(store), old(size)), Op(offset, len, data))
    {
      hide Linked, Sorted, Separate, Represents, WellFormed, Cut, ChunkLength, BlockCount, HasChunkOfSeven, Pushed,
        DoneOf, Written, TakesSeven, SevenIndex, Blank, PushTo, StoreChunk, HasBlockUpTo;
      var r, updateroot := 0, true;
      done, chunks, oom := 0, 0, false;
      var blocks := BlockCount(offset, len);
      CutEnds(offset, len);
      ChunkOfSeven(offset, len);
      ghost var m, m0 := store, memory;
      PushedNone(m, offset, len, data);
      GrownSame(nodes);
      if !HasChunkOfSeven(offset, len) { PushCompleted(m, size, offset, len, data); }
      if blocks == 0 {
        return 0, 0, 0, false;
      }
      for i := 0 to blocks
        invariant Valid() && size == old(size) && Grown(old(nodes), nodes) && FreshSince(old(nodes), nodes)
        invariant r == Cut(offset, len, i) <= len && !oom && m0 <= memory + i
        invariant store == Pushed(m, offset, len, i, r, data)
        invariant !updateroot ==> nodes != [] && nodes[0].blockid * 64 <= offset + r
        invariant forall j | 0 <= j < i :: ChunkLength(offset, len, Cut(offset, len, j)) != 7
      {
        PushedOneMore(m, offset, len, i, data);
        OldOrNew(old(nodes), nodes);
        var relalen := ChunkLength(offset, len, r);
        ghost var stored;
        var n := if relalen > 64 then 64 else relalen;
        updateroot, ret, stored, oom := PushChunk(offset + r, n, data[r..], updateroot);
        if ret == SQLITE_NOMEM {
          chunks, done := i, if stored then Cut(offset, len, i + 1) else r;
          PushedAnyChunks(m, offset, len, i, done, data);
          if !oom {
            FirstOfSeven(offset, len, i);
            PushStopped(m, size, offset, len, i, data);
          }
          return;
        }
        r := r + ret;
      }
      Extend(offset + len);
      ret, done, chunks := r, r, blocks;
    }

    /** esp8266mem_Read */
    method Read(buffer: array<byte>, amount: nat, offset: int, ghost ops: seq<Op>) returns (rc: nat)
      requires Valid() && offset % 0x8000_0000 + amount <= OFFSET_LIMIT && amount <= buffer.Length
      requires buffer !in DataOf(nodes)
      modifies buffer
      ensures Valid() && rc == SQLITE_OK && buffer[amount..] == old(buffer[amount..])
      ensures forall i | 0 <= i < amount ::
                buffer[i] == ByteAt(store, offset % 0x8000_0000 + i)
                <==> (offset % 0x8000_0000 + i) / 64 in store || old(buffer[i]) == 0
      ensures forall i | 0 <= i < amount && (offset % 0x8000_0000 + i) / 64 !in store :: buffer[i] == old(buffer[i])
      ensures store == Run(ops) && IsFlat(ops) && (forall i | 0 <= i < amount :: old(buffer[i]) == 0) ==>
                forall i | 0 <= i < amount :: buffer[i] == FlatByte(ops, offset % 0x8000_0000 + i)
    {
      hide Linked, Sorted, Separate, Represents, WellFormed, ByteAt, FlatByte, Pulled, Run;
      var ofst := offset % 0x8000_0000;
      var _ := Pull(ofst, amount, buffer);
      forall i | 0 <= i < amount
        ensures buffer[i] == ByteAt(store, ofst + i) <==> (ofst + i) / 64 in store || old(buffer[i]) == 0
        ensures (ofst + i) / 64 !in store ==> buffer[i] == old(buffer[i])
      {
        PulledIsByte(store, ofst + i, old(buffer[i]));
      }
      return SQLITE_OK;
    }

    /** esp8266mem_Write. It reports success whatever the push reports. The cache is then as after a run that
        ends in a write of the `done` bytes. */
    method Write(buffer: seq<byte>, amount: nat, offset: int, ghost ops: seq<Op>)
      returns (rc: nat, ghost done: nat, ghost oom: bool)
      requires Valid() && offset % 0x8000_0000 + amount <= OFFSET_LIMIT && |buffer| >= amount + 64
      modifies this, nodes, DataOf(nodes)
      ensures Valid() && Grown(old(nodes), nodes) && FreshSince(old(nodes), nodes) && rc == SQLITE_OK
      ensures done <= amount && (!oom ==> done == DoneOf(old(store), offset % 0x8000_0000, amount, buffer))
      ensures oom ==> exists i :: 0 <= i < BlockCount(offset % 0x8000_0000, amount)
                                  && done == Cut(offset % 0x8000_0000, amount, i)
      ensures oom ==> memory == 0 && !Blank(buffer[done..]) && (offset % 0x8000_0000 + done) / 64 !in store
      ensures old(memory) <= memory + BlockCount(offset % 0x8000_0000, amount)
      ensures old(memory) >= BlockCount(offset % 0x8000_0000, amount) ==> !oom
      ensures !oom ==>
                File(store, size) == Written(File(old(store), old(size)), Op(offset % 0x8000_0000, amount, buffer))
      ensures old(store) == Run(ops) && amount > 0 ==>
                store == Run(Logged(ops, offset % 0x8000_0000, done, buffer))
      ensures old(size) == End(ops) && amount > 0 && !oom && !HasChunkOfSeven(offset % 0x8000_0000, amount) ==>
                size == End(Logged(ops, offset % 0x8000_0000, done, buffer))
      ensures oom || HasChunkOfSeven(offset % 0x8000_0000, amount) ==> size == old(size)
    {
      hide Run, End, Logged, HasChunkOfSeven, Linked, Sorted, Separate, Represents, PushTo, DoneOf, Written, Cut,
        BlockCount, Blank;
      var ofst := offset % 0x8000_0000;
      var ret;
      ghost var chunks;
      ret, done, chunks, oom := Push(ofst, amount, buffer);
      RunSnoc(ops, ofst, done, buffer);
      return SQLITE_OK, done, oom;
    }
  }

  twostate lemma NewNode(nodes: seq<Block>, new block: Block)
    requires fresh(block) && fresh(block.data)
    ensures block !in nodes && block.data !in DataOf(nodes)
  {
  }

  twostate lemma OldOrNew(nodes: seq<Block>, new after: seq<Block>)
    requires FreshSince(nodes, after)
    ensures forall i | 0 <= i < |after| :: after[i] in nodes || fresh(after[i])
    ensures forall d | d in DataOf(after) :: d in DataOf(nodes) || fresh(d)
  {
    assert forall n | n in nodes :: n.data in DataOf(nodes);
  }

  twostate lemma Prepended(nodes: seq<Block>, new block: Block)
    requires fresh(block) && fresh(block.data)
    ensures Grown(nodes, [block] + nodes) && FreshSince(nodes, [block] + nodes)
  {
  }

  /** A run with one more write. */
  function Logged(ops: seq<Op>, offset: nat, len: nat, mem: seq<byte>): seq<Op>
    requires |mem| >= len + 64
  {
    ops + [Op(offset, len, mem)]
  }

  lemma RunSnoc(ops: seq<Op>, offset: nat, len: nat, mem: seq<byte>)
    requires |mem| >= len + 64
    ensures Run(Logged(ops, offset, len, mem)) == PushTo(Run(ops), offset, len, mem)
    ensures End(Logged(ops, offset, len, mem)) == if len > 0 && offset + len > End(ops) then offset + len else End(ops)
  {
    assert (ops + [Op(offset, len, mem)])[..|ops|] == ops;
  }

  /** The head of a list that has grown. */
  lemma GrownFront(before: seq<Block>, after: seq<Block>)
    requires Sorted(after) && Grown(before, after) && before != []
    ensures after != [] && after[0].blockid <= before[0].blockid
  {
    assert before[0] in before;
    var j :| 0 <= j < |after| && after[j] == before[0];
    assert j > 0 ==> after[0].blockid < after[j].blockid;
  }

  lemma FrontAbsent(nodes: seq<Block>, m: Store, id: nat)
    requires Sorted(nodes) && Represents(nodes, m) && (nodes != [] ==> nodes[0].blockid > id)
    ensures id !in m && forall n | n in nodes :: n.blockid != id
  {
    forall n | n in nodes
      ensures n.blockid != id
    {
      var j :| 0 <= j < |nodes| && nodes[j] == n;
      assert j > 0 ==> nodes[0].blockid < nodes[j].blockid;
    }
  }

  lemma FrontSorted(nodes: seq<Block>, block: Block)
    requires Sorted(nodes) && Separate(nodes) && (nodes != [] ==> nodes[0].blockid > block.blockid)
    requires block.blockid < 0x10000 && block.data !in DataOf(nodes) && block.data.Length == 64
    ensures Sorted([block] + nodes) && Separate([block] + nodes)
  {
    var after := [block] + nodes;
    forall i, j | 0 <= i < j < |after|
      ensures after[i].blockid < after[j].blockid && after[i].data != after[j].data
    {
      assert after[j] == nodes[j - 1];
      assert i > 0 ==> after[i] == nodes[i - 1];
      assert j > 1 ==> nodes[0].blockid < nodes[j - 1].blockid;
    }
  }

  lemma FrontLinked(first: Block?, nodes: seq<Block>, block: Block)
    requires Linked(first, nodes) && block.next == first
    ensures Linked(block, [block] + nodes)
  {
    var after := [block] + nodes;
    forall i {:trigger after[i].next} | 0 <= i < |after| - 1
      ensures after[i].next == after[i + 1]
    {
      if i > 0 { assert after[i] == nodes[i - 1] && after[i + 1] == nodes[i]; }
    }
  }

  lemma FrontRepresents(nodes: seq<Block>, m: Store, block: Block)
    requires Represents(nodes, m) && forall n | n in nodes :: n.blockid != block.blockid
    ensures Represents([block] + nodes, m[block.blockid := block.data[..]])
  {
  }

  lemma Inserted(before: seq<Block>, k: nat, block: Block)
    requires k < |before|
    ensures forall n :: n in before[..k + 1] + [block] + before[k + 1..] <==> n in before || n == block
  {
    assert before == before[..k + 1] + before[k + 1..];
  }

  /** A new block with the bytes of a chunk in it and zeros around them. */
  method NewBlock(id: nat, at: nat, d: seq<byte>) returns (block: Block)
    requires at + |d| <= 64
    ensures fresh(block) && fresh(block.data) && block.data.Length == 64 && block.blockid == id
    ensures block.data[..] == Patch(ZeroBlock(), at, d)
  {
    block := new Block(id);
    forall j | 0 <= j < |d| {
      block.data[at + j] := d[j];
    }
    PatchIs(ZeroBlock(), at, d, block.data[..]);
  }

  /** No node is lost from the list. */
  ghost predicate Grown(before: seq<Block>, after: seq<Block>) {
    forall n | n in before :: n in after
  }

  /** Nodes that were not in the list are new, and so are their data. */
  twostate predicate FreshSince(before: seq<Block>, new after: seq<Block>) {
    forall n | n in after :: n in before || (fresh(n) && fresh(n.data))
  }

  lemma GrownSame(nodes: seq<Block>)
    ensures Grown(nodes, nodes)
  {
  }

  /** A block number occurs once. */
  lemma OnlyNode(nodes: seq<Block>, k: nat)
    requires Sorted(nodes) && Separate(nodes) && k < |nodes|
    ensures forall n | n in nodes && n != nodes[k] :: n.blockid != nodes[k].blockid && n.data != nodes[k].data
  {
    forall n | n in nodes && n != nodes[k]
      ensures n.blockid != nodes[k].blockid && n.data != nodes[k].data
    {
      var j :| 0 <= j < |nodes| && nodes[j] == n;
      assert j < k || j > k;
    }
  }

  lemma DistinctNodes(nodes: seq<Block>)
    requires Sorted(nodes)
    ensures forall i, j | 0 <= i < |nodes| && 0 <= j < |nodes| && i != j :: nodes[i] != nodes[j]
  {
    forall i, j | 0 <= i < |nodes| && 0 <= j < |nodes| && i != j
      ensures nodes[i] != nodes[j]
    {
      assert i < j || j < i;
    }
  }

  lemma StorePut(m: Store, id: nat, b: seq<byte>)
    requires WellFormed(m) && |b| == 64
    ensures WellFormed(m[id := b])
  {
  }

  lemma PatchIs(was: seq<byte>, at: nat, d: seq<byte>, now: seq<byte>)
    requires at + |d| <= |was| == |now|
    requires forall i | 0 <= i < |was| :: now[i] == if at <= i < at + |d| then d[i - at] else was[i]
    ensures now == Patch(was, at, d)
  {
  }

  lemma ChunkInBlock(m: Store, offset: nat, n: nat, mem: seq<byte>)
    requires WellFormed(m) && offset % 64 + n <= 64 && |mem| >= n && !Blank(mem) && offset / 64 in m
    ensures StoreChunk(m, offset, n, mem) == m[offset / 64 := Patch(m[offset / 64], offset % 64, mem[..n])]
  {
  }

  lemma OverwriteRepresents(nodes: seq<Block>, m: Store, k: nat)
    requires k < |nodes| && nodes[k].blockid in m
    requires forall n | n in nodes && n != nodes[k] ::
               n.blockid != nodes[k].blockid && n.blockid in m && m[n.blockid] == n.data[..]
    requires forall id | id in m :: exists n :: n in nodes && n.blockid == id
    ensures Represents(nodes, m[nodes[k].blockid := nodes[k].data[..]])
  {
  }

  lemma NoSuchBlock(nodes: seq<Block>, m: Store, k: nat, id: nat)
    requires Sorted(nodes) && Represents(nodes, m) && k < |nodes| && nodes[k].blockid < id
    requires k + 1 < |nodes| ==> id < nodes[k + 1].blockid
    ensures id !in m && forall n | n in nodes :: n.blockid != id
  {
    forall n | n in nodes
      ensures n.blockid != id
    {
      var j :| 0 <= j < |nodes| && nodes[j] == n;
      assert j < k ==> nodes[j].blockid < nodes[k].blockid;
      assert j > k + 1 ==> nodes[k + 1].blockid < nodes[j].blockid;
    }
  }

  lemma InsertSorted(nodes: seq<Block>, k: nat, block: Block)
    requires Sorted(nodes) && Separate(nodes) && k < |nodes| && nodes[k].blockid < block.blockid < 0x10000
    requires k + 1 < |nodes| ==> block.blockid < nodes[k + 1].blockid
    requires block.data !in DataOf(nodes) && block.data.Length == 64
    ensures Sorted(nodes[..k + 1] + [block] + nodes[k + 1..])
    ensures Separate(nodes[..k + 1] + [block] + nodes[k + 1..])
  {
    forall i | 0 <= i < |nodes|
      ensures if i <= k then nodes[i].blockid < block.blockid else nodes[i].blockid > block.blockid
      ensures nodes[i].data != block.data
    {
      assert i < k ==> nodes[i].blockid < nodes[k].blockid;
      assert i > k + 1 ==> nodes[k + 1].blockid < nodes[i].blockid;
      assert nodes[i] in nodes;
    }
    var after := nodes[..k + 1] + [block] + nodes[k + 1..];
    forall i, j | 0 <= i < j < |after|
      ensures after[i].blockid < after[j].blockid && after[i].data != after[j].data
    {
      InsertedAt(nodes, k, block, i);
      InsertedAt(nodes, k, block, j);
    }
    forall i | 0 <= i < |after|
      ensures after[i].blockid < 0x10000 && after[i].data.Length == 64
    {
      InsertedAt(nodes, k, block, i);
    }
  }

  lemma InsertedAt(nodes: seq<Block>, k: nat, block: Block, i: nat)
    requires k < |nodes| && i <= |nodes|
    ensures (nodes[..k + 1] + [block] + nodes[k + 1..])[i]
            == if i <= k then nodes[i] else if i == k + 1 then block else nodes[i - 1]
  {
  }

  lemma InsertRepresents(nodes: seq<Block>, m: Store, k: nat, block: Block)
    requires k < |nodes| && Represents(nodes, m) && forall n | n in nodes :: n.blockid != block.blockid
    ensures Represents(nodes[..k + 1] + [block] + nodes[k + 1..], m[block.blockid := block.data[..]])
  {
    var after := nodes[..k + 1] + [block] + nodes[k + 1..];
    assert forall n :: n in after <==> n in nodes || n == block by {
      assert nodes == nodes[..k + 1] + nodes[k + 1..];
    }
  }

  /** What a read leaves at a position of its buffer: the stored byte, or what was there. */
  function Pulled(m: Store, p: nat, was: byte): byte {
    if p / 64 in m && p % 64 < |m[p / 64]| then m[p / 64][p % 64] else was
  }

  /** A buffer after its part from `r` to `end` has been read at `offset`. */
  function Reading(m: Store, offset: nat, r: nat, end: nat, was: seq<byte>): (buf: seq<byte>)
    ensures |buf| == |was|
  {
    seq(|was|, i requires 0 <= i < |was| => if r <= i < end then Pulled(m, offset + i, was[i]) else was[i])
  }

  lemma ReadingNone(m: Store, offset: nat, was: seq<byte>)
    ensures Reading(m, offset, 0, 0, was) == was
  {
  }

  lemma ReadingEmpty(m: Store, offset: nat, len: nat, was: seq<byte>)
    requires forall id: nat :: id !in m
    ensures Reading(m, offset, 0, len, was) == was
  {
  }

  lemma ReadingStep(m: Store, offset: nat, r: nat, n: nat, was: seq<byte>)
    ensures Reading(m, offset, r, r + n, Reading(m, offset, 0, r, was)) == Reading(m, offset, 0, r + n, was)
  {
  }

  lemma ReadingHit(m: Store, offset: nat, r: nat, n: nat, was: seq<byte>, block: seq<byte>, buf: seq<byte>)
    requires |block| == 64 && (offset + r) % 64 + n <= 64 && r + n <= |was| == |buf|
    requires (offset + r) / 64 in m && m[(offset + r) / 64] == block
    requires forall i | 0 <= i < |was| ::
               buf[i] == if r <= i < r + n then block[(offset + r) % 64 + (i - r)] else was[i]
    ensures buf == Reading(m, offset, r, r + n, was)
  {
    forall i | 0 <= i < |was|
      ensures buf[i] == Reading(m, offset, r, r + n, was)[i]
    {
      if r <= i < r + n {
        PositionInBlock(offset + r, i - r, n);
        assert offset + r + (i - r) == offset + i;
      }
    }
  }

  lemma ReadingMiss(m: Store, offset: nat, r: nat, n: nat, was: seq<byte>)
    requires (offset + r) % 64 + n <= 64 && (offset + r) / 64 !in m
    ensures was == Reading(m, offset, r, r + n, was)
  {
    forall i | 0 <= i < |was|
      ensures was[i] == Reading(m, offset, r, r + n, was)[i]
    {
      if r <= i < r + n {
        PositionInBlock(offset + r, i - r, n);
        assert offset + r + (i - r) == offset + i;
      }
    }
  }

  /** A read gives the byte of the file exactly where its block is stored or the buffer was zero. */
  lemma PulledIsByte(m: Store, p: nat, was: byte)
    requires WellFormed(m)
    ensures Pulled(m, p, was) == ByteAt(m, p) <==> p / 64 in m || was == 0
    ensures p / 64 !in m ==> Pulled(m, p, was) == was
  {
  }

  lemma CutEnds(offset: nat, len: nat)
    requires offset + len <= OFFSET_LIMIT
    ensures Cut(offset, len, 0) == 0 && Cut(offset, len, BlockCount(offset, len)) == len
  {
  }

  /** `relablock` is in [0, 1) exactly when the leaf is the block of the offset. */
  lemma InBlock(offset: nat, id: nat)
    ensures 0.0 <= offset as real / 64.0 - id as real < 1.0 <==> offset / 64 == id
  {
    assert offset == offset / 64 * 64 + offset % 64;
    assert offset as real / 64.0 == (offset / 64) as real + (offset % 64) as real / 64.0;
  }

  /** The block of an offset is stored exactly if the leaf found for it is that block. */
  lemma LeafDecides(nodes: seq<Block>, m: Store, k: nat, offset: nat)
    requires Sorted(nodes) && Represents(nodes, m) && k < |nodes|
    requires k > 0 ==> nodes[k].blockid * 64 <= offset
    requires k + 1 < |nodes| ==> nodes[k + 1].blockid * 64 > offset
    ensures offset / 64 in m <==> nodes[k].blockid == offset / 64
    ensures offset / 64 in m ==> m[offset / 64] == nodes[k].data[..]
  {
    forall j | 0 <= j < |nodes| && j != k
      ensures nodes[j].blockid != offset / 64
    {
      assert j < k ==> nodes[j].blockid < nodes[k].blockid;
      assert j > k + 1 ==> nodes[k + 1].blockid < nodes[j].blockid;
    }
  }

  lemma PositionInBlock(offset: nat, j: nat, n: nat)
    requires offset % 64 + n <= 64 && j < n
    ensures (offset + j) / 64 == offset / 64 && (offset + j) % 64 == offset % 64 + j
  {
  }
}
