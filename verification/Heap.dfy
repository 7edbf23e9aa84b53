/** The allocator of nsdynmemLIB.c in its own form: tags, hole descriptors and the hole list live in
    one flat memory and are written in place. */
module Heap {
  import opened NsList
  import opened HeapBlocks
  import opened HeapMemory
  import Model = HeapModel

  const WORD_MAX := 0x7FFF_FFFF // the largest ns_mem_word_size_t

  datatype Failure = DoubleFree | AllocateSizeNotValid | PointerNotValid | HeapSectorCorrupted

  class Book {
    const mem: array<int>
    const y: Layout
    const holesList: int          // address of the list head inside the book
    var heapMain: seq<int>        // REGION_COUNT first words, 0 if unused
    var heapMainEnd: seq<int>     // and last words
    var heapSize: int
    var temporaryAllocHeapLimit: int
    var stats: Model.Stats
    var failures: seq<Failure>    // what the failure callback has been told

    ghost var regions: seq<Region>
    ghost var blocks: seq<Block>

    function HoleTSize(): nat { HoleSize(y) }

    ghost function Abs(): Model.State
      reads this
    {
      Model.State(regions, blocks, heapSize, temporaryAllocHeapLimit, stats)
    }

    ghost predicate Slots()
      reads this
    {
      && |heapMain| == |heapMainEnd| == Model.REGION_COUNT
      && |regions| <= Model.REGION_COUNT
      && (forall r :: 0 <= r < Model.REGION_COUNT ==> heapMain[r] == if r < |regions| then regions[r].lo else NULL)
      && (forall r :: 0 <= r < |regions| ==> heapMainEnd[r] == regions[r].hi)
    }

    /** The memory holds a well-formed tiling with its tags and its hole list. */
    ghost predicate Formed()
      reads this, mem
    {
      && Geometry(mem.Length, y, holesList, regions)
      && Tiled(regions, blocks)
      && Coalesced(blocks)
      && Stored(mem[..], y, holesList, blocks)
    }

    ghost predicate Valid()
      reads this, mem
    {
      && Formed()
      && Slots()
      && Model.Inv(Abs(), HoleTSize())
    }

    // ----- Reading the book

    /** ns_dyn_mem_region_find: the slot of the region that holds all of block `size` at blockPtr. */
    method RegionFind(blockPtr: int, size: int) returns (index: int)
      requires Slots() && (forall r :: 0 <= r < |regions| ==> regions[r].lo > NULL)
      ensures -1 <= index < |regions|
      ensures index >= 0 ==> regions[index].lo <= blockPtr < regions[index].hi && blockPtr + size < regions[index].hi
      ensures index < 0 ==> forall r :: 0 <= r < |regions| ==>
                !(regions[r].lo <= blockPtr < regions[r].hi && blockPtr + size < regions[r].hi)
    {
      index := 0;
      while index < Model.REGION_COUNT
        invariant 0 <= index <= Model.REGION_COUNT
        invariant forall r :: 0 <= r < index && r < |regions| ==>
                    !(regions[r].lo <= blockPtr < regions[r].hi && blockPtr + size < regions[r].hi)
      {
        if heapMain[index] != NULL {
          if heapMain[index] <= blockPtr && blockPtr < heapMainEnd[index] && blockPtr + size < heapMainEnd[index] {
            return;
          }
        }
        index := index + 1;
      }
      index := -1;
    }

    /** ns_mem_block_validate: whether the two tags of a non-empty block are at blockStart. A block whose
        first tag is intact, as are those of every block of the tiling, validates exactly if both are. */
    method BlockValidate(blockStart: int) returns (ok: bool)
      requires 0 <= blockStart < mem.Length
      requires var n := if mem[blockStart] < 0 then -mem[blockStart] else mem[blockStart];
               blockStart + 1 + n < mem.Length
      ensures ok <==> exists size: nat, live: bool :: size >= 1 && TagsAt(mem[..], Block(blockStart, size, live, 0))
      ensures forall b: Block :: b.start == blockStart && b.size >= 1 && mem[blockStart] == b.Tag() ==>
                (ok <==> TagsAt(mem[..], b))
    {
      var sizeStart := mem[blockStart];
      var end := blockStart + 1 + if sizeStart < 0 then -sizeStart else sizeStart;
      ok := sizeStart != 0 && sizeStart == mem[end];
      ghost var found := Block(blockStart, end - blockStart - 1, sizeStart > 0, 0);
      assert ok ==> TagsAt(mem[..], found);
    }

    /** convert_allocation_size: reports a size that can never be served, and rounds up to words. */
    method ConvertAllocationSize(requested: nat) returns (words: nat)
      modifies this`failures
      ensures words == Model.DataWords(requested)
      ensures failures == old(failures) +
              if requested < 1 || requested > heapSize - Model.Bytes(2) then [AllocateSizeNotValid] else []
    {
      if requested < 1 {
        failures := failures + [AllocateSizeNotValid];
      } else if requested > heapSize - Model.Bytes(2) {
        failures := failures + [AllocateSizeNotValid];
      }
      words := (requested + 4 - 1) / 4;
    }

    /** What the walk over the holes meets at position k. */
    lemma HoleWords(k: int)
      requires Formed() && 0 <= k < |HoleList(y, blocks)|
      ensures var p, b := HoleList(y, blocks)[k] - 1, blocks[HoleIndex(blocks, HoleTSize(), k)];
              && b.start == p && NULL < p && b.size >= HoleTSize() && b.size >= 1
              && p + 1 + b.size < mem.Length
              && mem[p] == -b.size && mem[p + 1 + b.size] == -b.size
    {
      var i := HoleIndex(blocks, HoleTSize(), k);
      assert TagsAt(mem[..], blocks[i]) && WellPlaced(regions, blocks[i]);
    }

    /** Looks at one hole of the walk. In a valid heap it is never taken for corrupted. */
    method Examine(curHole: int, need: nat, ghost k: int) returns (corrupted: bool, fits: bool)
      requires Formed() && 0 <= k < |HoleList(y, blocks)| && curHole == HoleList(y, blocks)[k]
      ensures !corrupted && curHole - 1 > NULL
      ensures fits <==> blocks[HoleIndex(blocks, HoleTSize(), k)].size >= need
    {
      var p := curHole - 1;
      HoleWords(k);
      var ok := BlockValidate(p);
      corrupted := !ok || mem[p] >= 0;
      fits := -mem[p] >= need;
    }

    /** The loop header of the walk: the next hole up for a temporary allocation, else the next down. */
    method Advance(curHole: int, temporary: bool, ghost k: int) returns (e: int)
      requires Formed() && 0 <= k < |HoleList(y, blocks)| && curHole == HoleList(y, blocks)[k]
      ensures var s, l := HoleList(y, blocks), if temporary then k + 1 else k - 1;
              if 0 <= l < |s| then e == s[l] > NULL else e == NULL
    {
      if temporary {
        e := GetNext(mem, y, curHole, holesList, HoleList(y, blocks), k);
      } else {
        e := GetPrevious(mem, y, holesList, curHole, HoleList(y, blocks), k);
      }
    }

    method StartWalk(temporary: bool) returns (e: int)
      requires Formed()
      ensures var s, l := HoleList(y, blocks), if temporary then 0 else |HoleList(y, blocks)| - 1;
              if 0 <= l < |s| then e == s[l] > NULL else e == NULL
    {
      if temporary {
        e := GetFirst(mem, y, holesList, HoleList(y, blocks));
      } else {
        e := GetLast(mem, y, holesList, HoleList(y, blocks));
      }
    }

    /** The search loop of ns_mem_internal_alloc, from either end of the hole list. */
    method FindHole(need: nat, temporary: bool) returns (blockPtr: int, corrupted: bool, ghost i: int)
      requires Formed()
      ensures !corrupted
      ensures i == Model.FitIndex(blocks, need, HoleTSize(), temporary)
      ensures blockPtr == if i < 0 then NULL else blocks[i].start
      ensures i >= 0 ==> blockPtr > NULL
    {
      blockPtr, corrupted, i := NULL, false, -1;
      ghost var s, h := HoleList(y, blocks), HoleTSize();
      ghost var k := if temporary then 0 else |s| - 1;
      var curHole := StartWalk(temporary);
      while curHole != NULL
        invariant !corrupted
        invariant if temporary then 0 <= k <= |s| else -1 <= k < |s|
        invariant if 0 <= k < |s| then curHole == s[k] > NULL else curHole == NULL
        invariant if temporary then Model.Skipped(blocks, need, h, 0, k) else Model.Skipped(blocks, need, h, k + 1, |s|)
        decreases if temporary then |s| - k else k
      {
        var fits;
        corrupted, fits := Examine(curHole, need, k);
        if corrupted {
          break;
        }
        if fits {
          blockPtr := curHole - 1;
          i := HoleIndex(blocks, h, k);
          Model.WalkFindsFit(blocks, need, h, temporary, k);
          return;
        }
        Model.SkipOne(blocks, need, h, k);
        curHole := Advance(curHole, temporary, k);
        k := if temporary then k + 1 else k - 1;
      }
      Model.WalkFindsNone(blocks, need, h, temporary);
    }

    // ----- Allocation

    /** The list and the tiling the memory is expected to hold now. */
    ghost predicate Listing(bs: seq<Block>)
      reads this, mem
    {
      && Geometry(mem.Length, y, holesList, regions)
      && Tiled(regions, bs)
      && IsList(mem[..], y, holesList, HoleList(y, bs))
    }

    /** Writes both tags of block j of t, within blocks lo..hi of bs. */
    method WriteTags(start: int, size: int, tag: int, ghost bs: seq<Block>, ghost lo: int, ghost hi: int,
            ghost t: seq<Block>, ghost j: int)
      requires Listing(t) && 0 <= j < |t| && t[j].start == start && t[j].size == size
      requires 0 <= lo < hi <= |bs| && bs[lo].start <= start && t[j].Last() <= bs[hi - 1].Last()
      modifies mem
      ensures Listing(t)
      ensures 0 <= start < start + 1 + size < mem.Length
      ensures mem[..] == old(mem[..])[start := tag][start + 1 + size := tag]
      ensures Quiet(old(mem[..]), mem[..], y, holesList, bs, lo, hi)
    {
      TagsKeepList(mem[..], y, holesList, regions, t, j, tag);
      TagsQuiet(mem[..], y, holesList, bs, lo, hi, t[j], tag);
      mem[start] := tag;
      mem[start + 1 + size] := tag;
      assert mem[..] == old(mem[..])[start := tag][start + 1 + size := tag];
    }

    /** Lists a descriptor at position k, after `before` or, without one, at the start. */
    method AddDescriptor(before: int, to: int, ghost s: seq<int>, ghost k: int, ghost bs: seq<Block>, ghost lo: int,
            ghost hi: int, ghost t: seq<Block>)
      requires Geometry(mem.Length, y, holesList, regions) && Tiled(regions, t)
      requires IsList(mem[..], y, holesList, s) && HolesOnly(y, bs, s)
      requires 0 <= k <= |s| && HoleList(y, t) == InsertAt(s, k, to)
      requires before == if k == 0 then NULL else s[k - 1]
      requires 0 <= lo < hi <= |bs| && bs[lo].start <= to && to + y.ptr <= bs[hi - 1].Last()
      modifies mem
      ensures Listing(t)
      ensures Quiet(old(mem[..]), mem[..], y, holesList, bs, lo, hi)
      ensures CanJoin(mem.Length, y, holesList, s, to) && Inserted(old(mem[..]), mem[..], y, holesList, s, k, to)
    {
      HolesPlaced(mem.Length, y, holesList, regions, t);
      PlacedCanJoin(mem.Length, y, holesList, s, k, to);
      if before != NULL {
        AddAfter(mem, y, holesList, before, to, s, k - 1);
      } else {
        AddToStart(mem, y, holesList, to, s);
      }
      assert IsList(mem[..], y, holesList, InsertAt(s, k, to)) && Inserted(old(mem[..]), mem[..], y, holesList, s, k, to);
      QuietInsert(old(mem[..]), mem[..], y, holesList, bs, lo, hi, s, k, to);
    }

    /** The bottom split's list surgery: the descriptor at `from` goes, one at `to` takes its place. */
    method MoveDescriptor(from: int, to: int, ghost i: int, ghost k: int, ghost t: seq<Block>)
      requires Listing(blocks) && Tiled(regions, t)
      requires 0 <= k < |HoleList(y, blocks)| && HoleList(y, blocks)[k] == from
      requires HoleList(y, t) == InsertAt(RemoveAt(HoleList(y, blocks), k), k, to)
      requires 0 <= i < |blocks| && blocks[i].start <= to && to + y.ptr <= blocks[i].Last()
      modifies mem
      ensures Listing(t)
      ensures Quiet(old(mem[..]), mem[..], y, holesList, blocks, i, i + 1)
    {
      ghost var s, m0 := HoleList(y, blocks), mem[..];
      RemovedHolesOnly(y, blocks, k);
      var before := GetPrevious(mem, y, holesList, from, s, k);
      Remove(mem, y, holesList, from, s, k);
      ghost var m1, s1 := mem[..], RemoveAt(s, k);
      QuietRemove(m0, m1, y, holesList, blocks, i, i + 1, s, k);
      assert before == if k == 0 then NULL else s1[k - 1];
      AddDescriptor(before, to, s1, k, blocks, i, i + 1, t);
      QuietTrans(m0, m1, mem[..], y, holesList, blocks, i, i + 1);
    }

    method DropDescriptor(hole: int, ghost lo: int, ghost hi: int, ghost k: int, ghost t: seq<Block>)
      requires Listing(blocks) && Tiled(regions, t)
      requires 0 <= k < |HoleList(y, blocks)| && HoleList(y, blocks)[k] == hole
      requires HoleList(y, t) == RemoveAt(HoleList(y, blocks), k)
      requires 0 <= lo < hi <= |blocks|
      modifies mem
      ensures Listing(t)
      ensures Quiet(old(mem[..]), mem[..], y, holesList, blocks, lo, hi)
    {
      ghost var s := HoleList(y, blocks);
      RemovedHolesOnly(y, blocks, k);
      Remove(mem, y, holesList, hole, s, k);
      QuietRemove(old(mem[..]), mem[..], y, holesList, blocks, lo, hi, s, k);
    }

    /** The four tags after a split of hole i into c. */
    method WriteSplit(holePtr: int, holeSize: int, blockPtr: int, dataSize: int, temporary: bool,
                      ghost i: int, ghost c: seq<Block>, ghost t: seq<Block>)
      requires Listing(t) && 0 <= i < |blocks| && t == Splice(blocks, i, i + 1, c) && SameSpan(blocks, i, i + 1, c) &&
                |c| == 2
      requires var x, z := if temporary then c[1] else c[0], if temporary then c[0] else c[1];
               && x.start == holePtr && x.size == holeSize && !x.live
               && z.start == blockPtr && z.size == dataSize && z.live
      modifies mem
      ensures Listing(t)
      ensures TagsAt(mem[..], c[0]) && TagsAt(mem[..], c[1])
      ensures Quiet(old(mem[..]), mem[..], y, holesList, blocks, i, i + 1)
    {
      ghost var m1 := mem[..];
      SpliceAt(blocks, i, i + 1, c, i);
      SpliceAt(blocks, i, i + 1, c, i + 1);
      assert Contiguous(c[0], c[1]);
      WriteTags(holePtr, holeSize, -holeSize, blocks, i, i + 1, t, if temporary then i + 1 else i);
      ghost var m2 := mem[..];
      WriteTags(blockPtr, dataSize, dataSize, blocks, i, i + 1, t, if temporary then i else i + 1);
      QuietTrans(m1, m2, mem[..], y, holesList, blocks, i, i + 1);
    }

    /** A hole with room to spare is split; the remainder is a hole again. */
    method SplitHole(hole: int, need: nat, temporary: bool, ghost i: int) returns (blockPtr: int)
      requires Formed()
      requires 0 <= i < |blocks| && Model.Fits(blocks[i], need, HoleTSize()) && blocks[i].start == hole && need >= 1
      requires blocks[i].size >= need + 2 + HoleTSize()
      modifies mem
      ensures var c := Model.Carve(blocks[i], need, HoleTSize(), temporary);
              && blockPtr == Model.Carved(blocks[i], need, HoleTSize(), temporary).start
              && Listing(Splice(blocks, i, i + 1, c))
              && TagsAt(mem[..], c[0]) && TagsAt(mem[..], c[1])
      ensures Quiet(old(mem[..]), mem[..], y, holesList, blocks, i, i + 1)
    {
      ghost var c := Model.Carve(blocks[i], need, HoleTSize(), temporary);
      ghost var t := Splice(blocks, i, i + 1, c);
      Model.CarveSpan(regions, blocks, i, need, HoleTSize(), temporary);
      SpliceTiled(regions, blocks, i, i + 1, c);
      CarveHoles(y, blocks, i, need, temporary);
      assert TagsAt(mem[..], blocks[i]);
      var holeSize := -mem[hole] - need - 2;
      var holePtr;
      blockPtr := hole;
      if temporary {
        holePtr := blockPtr + 1 + need + 1;
        MoveDescriptor(blockPtr + 1, holePtr + 1, i, HolesBefore(y, blocks, i), t);
      } else {
        holePtr := blockPtr;
        blockPtr := blockPtr + 1 + holeSize + 1;
      }
      ghost var m1 := mem[..];
      WriteSplit(holePtr, holeSize, blockPtr, need, temporary, i, c, t);
      QuietTrans(old(mem[..]), m1, mem[..], y, holesList, blocks, i, i + 1);
    }

    /** A hole without room for a remainder is used whole. */
    method UseHole(hole: int, need: nat, temporary: bool, ghost i: int) returns (dataSize: int)
      requires Formed()
      requires 0 <= i < |blocks| && Model.Fits(blocks[i], need, HoleTSize()) && blocks[i].start == hole && need >= 1
      requires blocks[i].size < need + 2 + HoleTSize()
      modifies mem
      ensures var c := Model.Carve(blocks[i], need, HoleTSize(), temporary);
              && dataSize == blocks[i].size
              && Listing(Splice(blocks, i, i + 1, c))
              && TagsAt(mem[..], c[0])
      ensures Quiet(old(mem[..]), mem[..], y, holesList, blocks, i, i + 1)
    {
      ghost var c := Model.Carve(blocks[i], need, HoleTSize(), temporary);
      ghost var t := Splice(blocks, i, i + 1, c);
      Model.CarveSpan(regions, blocks, i, need, HoleTSize(), temporary);
      SpliceTiled(regions, blocks, i, i + 1, c);
      CarveHoles(y, blocks, i, need, temporary);
      SpliceAt(blocks, i, i + 1, c, i);
      assert TagsAt(mem[..], blocks[i]);
      dataSize := -mem[hole];
      DropDescriptor(hole + 1, i, i + 1, HolesBefore(y, blocks, i), t);
      ghost var m1 := mem[..];
      WriteTags(hole, dataSize, dataSize, blocks, i, i + 1, t, i);
      QuietTrans(old(mem[..]), m1, mem[..], y, holesList, blocks, i, i + 1);
    }

    /** The tail of ns_mem_internal_alloc: hole i, whose tag is at `hole`, is split or used whole. */
    method CarveHole(hole: int, need: nat, temporary: bool, ghost i: int) returns (blockPtr: int, dataSize: int)
      requires Formed()
      requires 0 <= i < |blocks| && Model.Fits(blocks[i], need, HoleTSize()) && blocks[i].start == hole && need >= 1
      modifies mem, this`blocks
      ensures blocks == Splice(old(blocks), i, i + 1, Model.Carve(old(blocks)[i], need, HoleTSize(), temporary))
      ensures var b := Model.Carved(old(blocks)[i], need, HoleTSize(), temporary);
              blockPtr == b.start && dataSize == b.size
      ensures Formed()
      ensures Quiet(old(mem[..]), mem[..], y, holesList, old(blocks), i, i + 1)
    {
      ghost var c := Model.Carve(blocks[i], need, HoleTSize(), temporary);
      Model.CarveTiled(regions, blocks, i, need, HoleTSize(), temporary);
      assert TagsAt(mem[..], blocks[i]);
      blockPtr, dataSize := hole, need;
      if -mem[hole] >= need + 2 + HoleTSize() {
        blockPtr := SplitHole(hole, need, temporary, i);
      } else {
        dataSize := UseHole(hole, need, temporary, i);
      }
      QuietTagged(old(mem[..]), mem[..], y, holesList, regions, blocks, i, i + 1, c);
      blocks := Splice(blocks, i, i + 1, c);
    }

    /** The live payloads of bs hold what they held in m. */
    ghost predicate Kept(m: seq<int>, bs: seq<Block>)
      requires |m| == mem.Length
      reads mem
    {
      forall i, a {:trigger Inside(bs[i], a)} :: 0 <= i < |bs| && bs[i].live && Inside(bs[i], a) && 0 <= a < |m| ==> mem[a] == m[a]
    }

    lemma QuietKept(m: seq<int>, bs: seq<Block>, i: int)
      requires |m| == mem.Length && Geometry(|m|, y, holesList, regions) && Tiled(regions, bs)
      requires 0 <= i < |bs| && !bs[i].live && Quiet(m, mem[..], y, holesList, bs, i, i + 1)
      ensures Kept(m, bs)
    {
      forall j, a | 0 <= j < |bs| && bs[j].live && Inside(bs[j], a) && 0 <= a < |m|
        ensures mem[a] == m[a]
      {
        QuietPayload(m, mem[..], y, holesList, regions, bs, i, i + 1, j, a);
      }
    }

    /** Finds a hole for `need` words and carves it. */
    method Take(need: nat, temporary: bool) returns (blockPtr: int, dataSize: int, corrupted: bool, ghost i: int)
      requires Formed() && need >= 1
      modifies mem, this`blocks
      ensures !corrupted
      ensures i == Model.FitIndex(old(blocks), need, HoleTSize(), temporary)
      ensures i < 0 ==> blockPtr == NULL && blocks == old(blocks)
      ensures i >= 0 ==>
                var b := Model.Carved(old(blocks)[i], need, HoleTSize(), temporary);
                && blockPtr == b.start > NULL && dataSize == b.size
                && blocks == Splice(old(blocks), i, i + 1, Model.Carve(old(blocks)[i], need, HoleTSize(), temporary))
      ensures Formed()
      ensures Kept(old(mem[..]), old(blocks))
    {
      dataSize := need;
      blockPtr, corrupted, i := FindHole(need, temporary);
      if blockPtr != NULL {
        blockPtr, dataSize := CarveHole(blockPtr, need, temporary, i);
        QuietKept(old(mem[..]), old(blocks), i);
      }
    }

    /** The `done` part: the statistics, and the payload address. */
    method Done(blockPtr: int, dataSize: int) returns (p: int)
      modifies this`stats
      ensures blockPtr == NULL ==> p == NULL && stats == Model.CountFail(old(stats))
      ensures blockPtr != NULL ==> p == blockPtr + 1 && stats == Model.CountAlloc(old(stats), Model.Bytes(dataSize + 2))
    {
      if blockPtr != NULL {
        stats := Model.CountAlloc(stats, Model.Bytes(dataSize + 2));
        p := blockPtr + 1;
      } else {
        stats := Model.CountFail(stats);
        p := NULL;
      }
    }

    /** What a request that is not turned away at once does. */
    method Serve(allocSize: nat, temporary: bool) returns (p: int)
      requires Formed() && !(temporary && stats.allocatedBytes > temporaryAllocHeapLimit)
      modifies mem, this`stats, this`failures, this`blocks
      ensures (Abs(), p) == Model.Alloc(old(Abs()), HoleTSize(), allocSize, temporary)
      ensures Formed()
      ensures Kept(old(mem[..]), old(blocks))
      ensures failures == old(failures) +
              if allocSize < 1 || allocSize > heapSize - Model.Bytes(2) then [AllocateSizeNotValid] else []
    {
      var dataSize: int := ConvertAllocationSize(allocSize);
      var blockPtr := NULL;
      ghost var need, i := dataSize, -1;
      if dataSize != 0 {
        var corrupted;
        blockPtr, dataSize, corrupted, i := Take(dataSize, temporary);
        failures := failures + if corrupted then [HeapSectorCorrupted] else [];
      }
      p := Done(blockPtr, dataSize);
      Model.AllocWith(old(Abs()), HoleTSize(), allocSize, temporary, need, i, blocks, stats, p);
    }

    /** ns_mem_internal_alloc. The request must fit the word type once rounded up. */
    method InternalAlloc(allocSize: nat, temporary: bool) returns (p: int)
      requires Valid() && Model.DataWords(allocSize) <= WORD_MAX
      modifies mem, this`stats, this`failures, this`blocks
      ensures Valid()
      ensures (Abs(), p) == Model.Alloc(old(Abs()), HoleTSize(), allocSize, temporary)
      ensures Kept(old(mem[..]), old(blocks))
      ensures failures == old(failures) +
              if temporary && old(stats).allocatedBytes > temporaryAllocHeapLimit then []
              else if allocSize < 1 || allocSize > heapSize - Model.Bytes(2) then [AllocateSizeNotValid] else []
    {
      Model.AllocKeepsInv(Abs(), HoleTSize(), allocSize, temporary);
      if temporary && stats.allocatedBytes > temporaryAllocHeapLimit {
        stats := Model.CountFail(stats);
        p := NULL;
      } else {
        p := Serve(allocSize, temporary);
      }
      assert Abs() == Model.Alloc(old(Abs()), HoleTSize(), allocSize, temporary).0;
    }

    // ----- Freeing

    /** The memory in which live block i has already got the tags of a free block. */
    ghost predicate Invalidated(i: int)
      reads this, mem
    {
      && Listing(blocks)
      && 0 <= i < |blocks| && blocks[i].live
      && TagsAt(mem[..], blocks[i].(live := false))
      && (forall k :: 0 <= k < |blocks| && k != i ==> TagsAt(mem[..], blocks[k]))
    }

    /** Joins the block below, if it is free and not across the start of the region. */
    method MergeBelow(start: int, regionStart: int, ghost i: int) returns (newStart: int, existingStart: int,
            corrupted: bool)
      requires Invalidated(i) && start == blocks[i].start && regionStart == regions[blocks[i].region].lo
      ensures !corrupted
      ensures newStart == blocks[Model.MergeFrom(blocks, i)].start
      ensures existingStart == if HoleBelow(y, blocks, i) then newStart + 1 else NULL
      ensures existingStart != NULL <==> HoleBelow(y, blocks, i)
    {
      newStart, existingStart, corrupted := start, NULL, false;
      assert WellPlaced(regions, blocks[i]) && StartsWell(regions, blocks, i);
      assert i > 0 ==> TagsAt(mem[..], blocks[i - 1]) && WellPlaced(regions, blocks[i - 1]) && Before(blocks[i - 1], blocks[i]);
      if start != regionStart {
        if mem[start - 1] < 0 {
          var blockEnd := start - 1;
          var blockSize := 1 + -mem[blockEnd] + 1;
          newStart := start - blockSize;
          corrupted := mem[newStart] != mem[blockEnd];
          if blockSize >= 1 + HoleTSize() + 1 {
            existingStart := newStart + 1;
          }
        }
      }
    }

    /** Joins the block above, if it is free and not across the end of the region. */
    method MergeAbove(end: int, regionEnd: int, ghost i: int) returns (newEnd: int, existingEnd: int, corrupted: bool)
      requires Invalidated(i) && end == blocks[i].Last() && regionEnd == regions[blocks[i].region].hi
      ensures !corrupted
      ensures newEnd == blocks[Model.MergeTo(blocks, i) - 1].Last()
      ensures existingEnd != NULL <==> HoleAbove(y, blocks, i)
      ensures HoleAbove(y, blocks, i) ==> existingEnd == blocks[i + 1].start + 1
    {
      newEnd, existingEnd, corrupted := end, NULL, false;
      assert WellPlaced(regions, blocks[i]) && EndsWell(regions, blocks, i);
      assert i + 1 < |blocks| ==> TagsAt(mem[..], blocks[i + 1]) && WellPlaced(regions, blocks[i + 1]) && Before(blocks[i], blocks[i + 1]);
      if end != regionEnd {
        if mem[end + 1] < 0 {
          var blockStart := end + 1;
          var blockSize := 1 + -mem[blockStart] + 1;
          newEnd := end + blockSize;
          corrupted := mem[newEnd] != mem[blockStart];
          if blockSize >= 1 + HoleTSize() + 1 {
            existingEnd := blockStart + 1;
          }
        }
      }
    }

    /** The first hole above `toAdd`, where the run lo..hi has no listed hole. */
    method FindAbove(toAdd: int, ghost lo: int) returns (before: int)
      requires Listing(blocks) && 0 <= lo < |blocks| && !IsHole(blocks[lo], HoleTSize()) &&
                toAdd == blocks[lo].start + 1
      ensures HolesBefore(y, blocks, lo) <= |HoleList(y, blocks)|
      ensures before == EntryAt(HoleList(y, blocks), HolesBefore(y, blocks, lo))
    {
      ghost var s, pos, k := HoleList(y, blocks), HolesBefore(y, blocks, lo), 0;
      HolesSplit(blocks, HoleTSize(), lo);
      before := NULL;
      var ptr := GetFirst(mem, y, holesList, s);
      while ptr != NULL
        invariant 0 <= k <= pos && ptr == EntryAt(s, k) && before == NULL
        decreases |s| - k
      {
        HoleSide(y, regions, blocks, lo, k);
        if ptr > toAdd {
          before := ptr;
          break;
        }
        ptr := GetNext(mem, y, ptr, holesList, s, k);
        k := k + 1;
      }
    }

    /** Lists a descriptor at position k, in front of `before` or, without one, at the end. */
    method AddDescriptorBefore(before: int, to: int, ghost s: seq<int>, ghost k: int, ghost bs: seq<Block>,
            ghost lo: int, ghost hi: int, ghost t: seq<Block>)
      requires Geometry(mem.Length, y, holesList, regions) && Tiled(regions, t)
      requires IsList(mem[..], y, holesList, s) && HolesOnly(y, bs, s)
      requires 0 <= k <= |s| && HoleList(y, t) == InsertAt(s, k, to)
      requires before == EntryAt(s, k)
      requires 0 <= lo < hi <= |bs| && bs[lo].start <= to && to + y.ptr <= bs[hi - 1].Last()
      modifies mem
      ensures Listing(t)
      ensures Quiet(old(mem[..]), mem[..], y, holesList, bs, lo, hi)
    {
      HolesPlaced(mem.Length, y, holesList, regions, t);
      PlacedCanJoin(mem.Length, y, holesList, s, k, to);
      if before != NULL {
        AddBefore(mem, y, holesList, before, to, s, k);
      } else {
        AddToEnd(mem, y, holesList, to, s);
      }
      QuietInsert(old(mem[..]), mem[..], y, holesList, bs, lo, hi, s, k, to);
    }

    /** The merged block reaches up over a listed hole: that descriptor, at position k, goes and, unless
        there is one at the bottom already, a new one takes its place. */
    method RelistFromAbove(toAdd: int, existingStart: int, existingEnd: int,
                           ghost k: int, ghost lo: int, ghost hi: int, ghost t: seq<Block>)
      requires Listing(blocks) && Tiled(regions, t)
      requires 0 <= k < |HoleList(y, blocks)| && HoleList(y, blocks)[k] == existingEnd
      requires HoleList(y, t) == if existingStart != NULL then RemoveAt(HoleList(y, blocks), k)
                                 else InsertAt(RemoveAt(HoleList(y, blocks), k), k, toAdd)
      requires 0 <= lo < hi <= |blocks| && blocks[lo].start <= toAdd && toAdd + y.ptr <= blocks[hi - 1].Last()
      modifies mem
      ensures Listing(t)
      ensures Quiet(old(mem[..]), mem[..], y, holesList, blocks, lo, hi)
    {
      ghost var s := HoleList(y, blocks);
      RemovedHolesOnly(y, blocks, k);
      var before := GetNext(mem, y, existingEnd, holesList, s, k);
      Remove(mem, y, holesList, existingEnd, s, k);
      ghost var m1 := mem[..];
      QuietRemove(old(mem[..]), m1, y, holesList, blocks, lo, hi, s, k);
      if existingStart == NULL {
        AddDescriptorBefore(before, toAdd, RemoveAt(s, k), k, blocks, lo, hi, t);
        QuietTrans(old(mem[..]), m1, mem[..], y, holesList, blocks, lo, hi);
      }
    }

    /** The merged block has no listed hole above it in its run. */
    method RelistAlone(toAdd: int, existingStart: int, mergedDataSize: int, ghost lo: int, ghost hi: int,
            ghost t: seq<Block>)
      requires Listing(blocks) && Tiled(regions, t)
      requires 0 <= lo < hi <= |blocks| && blocks[lo].start + 1 == toAdd
      requires mergedDataSize >= HoleTSize() ==> toAdd + y.ptr <= blocks[hi - 1].Last()
      requires existingStart == NULL ==> !IsHole(blocks[lo], HoleTSize()) && HolesBefore(y, blocks, lo) <= |HoleList(y, blocks)|
      requires HoleList(y, t) == if existingStart == NULL && mergedDataSize >= HoleTSize()
                                 then InsertAt(HoleList(y, blocks), HolesBefore(y, blocks, lo), toAdd) else HoleList(y, blocks)
      modifies mem
      ensures Listing(t)
      ensures Quiet(old(mem[..]), mem[..], y, holesList, blocks, lo, hi)
    {
      if existingStart == NULL {
        if mergedDataSize >= HoleTSize() {
          var before := FindAbove(toAdd, lo);
          AddDescriptorBefore(before, toAdd, HoleList(y, blocks), HolesBefore(y, blocks, lo), blocks, lo, hi, t);
        }
      }
    }

    /** The run around live block i and the tiling after it is merged, when a listed hole is on top. */
    lemma RunWithAbove(i: int) returns (k: int, lo: int, hi: int, t: seq<Block>)
      requires Tiled(regions, blocks) && 0 <= i < |blocks| && blocks[i].live && y.ptr >= 1 && HoleAbove(y, blocks, i)
      ensures lo == Model.MergeFrom(blocks, i) && hi == Model.MergeTo(blocks, i) && t == Model.FreeBlocks(blocks, i)
      ensures 0 <= lo < hi <= |blocks| && blocks[lo].start == Model.Merged(blocks, i).start
      ensures blocks[lo].start + 1 + y.ptr <= blocks[hi - 1].Last()
      ensures 0 <= k < |HoleList(y, blocks)| && HoleList(y, blocks)[k] == blocks[i + 1].start + 1
      ensures HoleList(y, t) == if HoleBelow(y, blocks, i) then RemoveAt(HoleList(y, blocks), k)
                                else InsertAt(RemoveAt(HoleList(y, blocks), k), k, blocks[lo].start + 1)
    {
      lo, hi, t := Model.MergeFrom(blocks, i), Model.MergeTo(blocks, i), Model.FreeBlocks(blocks, i);
      MergedFits(i);
      k := MergeHolesAbove(y, blocks, i);
    }

    method RelistWithAbove(start: int, existingStart: int, existingEnd: int, ghost i: int)
      requires Listing(blocks) && 0 <= i < |blocks| && blocks[i].live && Tiled(regions, Model.FreeBlocks(blocks, i))
      requires existingStart != NULL <==> HoleBelow(y, blocks, i)
      requires HoleAbove(y, blocks, i) && existingEnd == blocks[i + 1].start + 1
      requires start == Model.Merged(blocks, i).start
      modifies mem
      ensures Listing(Model.FreeBlocks(blocks, i))
      ensures Quiet(old(mem[..]), mem[..], y, holesList, blocks, Model.MergeFrom(blocks, i), Model.MergeTo(blocks, i))
    {
      ghost var k, lo, hi, t := RunWithAbove(i);
      RelistFromAbove(start + 1, existingStart, existingEnd, k, lo, hi, t);
    }

    /** ... and when none is. */
    lemma RunWithoutAbove(i: int) returns (lo: int, hi: int, t: seq<Block>)
      requires Tiled(regions, blocks) && 0 <= i < |blocks| && blocks[i].live && y.ptr >= 1 && !HoleAbove(y, blocks, i)
      ensures lo == Model.MergeFrom(blocks, i) && hi == Model.MergeTo(blocks, i) && t == Model.FreeBlocks(blocks, i)
      ensures 0 <= lo < hi <= |blocks| && blocks[lo].start == Model.Merged(blocks, i).start
      ensures Model.Merged(blocks, i).size >= HoleTSize() ==> blocks[lo].start + 1 + y.ptr <= blocks[hi - 1].Last()
      ensures !HoleBelow(y, blocks, i) ==> !IsHole(blocks[lo], HoleTSize())
      ensures HolesBefore(y, blocks, lo) <= |HoleList(y, blocks)|
      ensures HoleList(y, t) == if !HoleBelow(y, blocks, i) && Model.Merged(blocks, i).size >= HoleTSize()
                                then InsertAt(HoleList(y, blocks), HolesBefore(y, blocks, lo), blocks[lo].start + 1)
                                else HoleList(y, blocks)
    {
      lo, hi, t := Model.MergeFrom(blocks, i), Model.MergeTo(blocks, i), Model.FreeBlocks(blocks, i);
      MergedFits(i);
      MergeHolesAlone(y, blocks, i);
    }

    method RelistWithoutAbove(start: int, existingStart: int, mergedDataSize: int, ghost i: int)
      requires Listing(blocks) && 0 <= i < |blocks| && blocks[i].live && Tiled(regions, Model.FreeBlocks(blocks, i))
      requires existingStart != NULL <==> HoleBelow(y, blocks, i)
      requires !HoleAbove(y, blocks, i)
      requires start == Model.Merged(blocks, i).start && mergedDataSize == Model.Merged(blocks, i).size
      modifies mem
      ensures Listing(Model.FreeBlocks(blocks, i))
      ensures Quiet(old(mem[..]), mem[..], y, holesList, blocks, Model.MergeFrom(blocks, i), Model.MergeTo(blocks, i))
    {
      ghost var lo, hi, t := RunWithoutAbove(i);
      RelistAlone(start + 1, existingStart, mergedDataSize, lo, hi, t);
    }

    /** Measures the run around the invalidated block and brings the hole list up to date. */
    method JoinNeighbours(curBlock: int, dataSize: int, regionStart: int, regionEnd: int, ghost i: int)
      returns (start: int, mergedDataSize: int, corrupted: bool)
      requires Invalidated(i) && Tiled(regions, Model.FreeBlocks(blocks, i))
      requires blocks[i].start == curBlock && blocks[i].size == dataSize
      requires regionStart == regions[blocks[i].region].lo && regionEnd == regions[blocks[i].region].hi
      modifies mem
      ensures !corrupted
      ensures start == Model.Merged(blocks, i).start && mergedDataSize == Model.Merged(blocks, i).size
      ensures Listing(Model.FreeBlocks(blocks, i))
      ensures Quiet(old(mem[..]), mem[..], y, holesList, blocks, Model.MergeFrom(blocks, i), Model.MergeTo(blocks, i))
    {
      var existingStart, corruptedBelow;
      start, existingStart, corruptedBelow := MergeBelow(curBlock, regionStart, i);
      var end, existingEnd, corruptedAbove := MergeAbove(curBlock + dataSize + 1, regionEnd, i);
      corrupted := corruptedBelow || corruptedAbove;
      mergedDataSize := dataSize + (curBlock - start) + (end - (curBlock + dataSize + 1));
      if existingEnd != NULL {
        RelistWithAbove(start, existingStart, existingEnd, i);
      } else {
        RelistWithoutAbove(start, existingStart, mergedDataSize, i);
      }
    }

    /** The last two writes: the tags of the merged block. */
    method SettleTags(start: int, mergedDataSize: int, ghost m0: seq<int>, ghost i: int)
      requires 0 <= i < |blocks| && blocks[i].live && Tiled(regions, blocks) && Listing(Model.FreeBlocks(blocks, i))
      requires start == Model.Merged(blocks, i).start && mergedDataSize == Model.Merged(blocks, i).size
      requires |m0| == mem.Length && Tagged(m0, blocks)
      requires Quiet(m0, mem[..], y, holesList, blocks, Model.MergeFrom(blocks, i), Model.MergeTo(blocks, i))
      modifies mem
      ensures Listing(Model.FreeBlocks(blocks, i)) && Tagged(mem[..], Model.FreeBlocks(blocks, i))
      ensures Quiet(m0, mem[..], y, holesList, blocks, Model.MergeFrom(blocks, i), Model.MergeTo(blocks, i))
    {
      ghost var lo, hi, m2 := Model.MergeFrom(blocks, i), Model.MergeTo(blocks, i), mem[..];
      ghost var t, b := Model.FreeBlocks(blocks, i), Model.Merged(blocks, i);
      MergedFits(i);
      MergedPlace(i);
      assert b.Last() == blocks[hi - 1].Last();
      WriteTags(start, mergedDataSize, -mergedDataSize, blocks, lo, hi, t, lo);
      assert TagsAt(mem[..], b);
      QuietTrans(m0, m2, mem[..], y, holesList, blocks, lo, hi);
      QuietTagged(m0, mem[..], y, holesList, regions, blocks, lo, hi, [b]);
    }

    /** ns_mem_free_and_merge_with_adjacent_blocks, once the region is known. */
    method Merge(curBlock: int, dataSize: int, regionStart: int, regionEnd: int, ghost i: int) returns (corrupted: bool)
      requires Formed() && 0 <= i < |blocks| && blocks[i].live
      requires blocks[i].start == curBlock && blocks[i].size == dataSize
      requires regionStart == regions[blocks[i].region].lo && regionEnd == regions[blocks[i].region].hi
      modifies mem, this`blocks
      ensures !corrupted
      ensures blocks == Model.FreeBlocks(old(blocks), i) && Formed()
      ensures Quiet(old(mem[..]), mem[..], y, holesList, old(blocks), Model.MergeFrom(old(blocks), i), Model.MergeTo(old(blocks), i))
    {
      Model.FreeTiled(regions, blocks, i);
      Invalidate(curBlock, dataSize, i);
      ghost var m1 := mem[..];
      var start, mergedDataSize;
      start, mergedDataSize, corrupted := JoinNeighbours(curBlock, dataSize, regionStart, regionEnd, i);
      QuietTrans(old(mem[..]), m1, mem[..], y, holesList, blocks, Model.MergeFrom(blocks, i), Model.MergeTo(blocks, i));
      SettleTags(start, mergedDataSize, old(mem[..]), i);
      blocks := Model.FreeBlocks(blocks, i);
    }

    /** The merged block starts and ends with its run, and has room for a descriptor if a neighbour had. */
    lemma MergedFits(i: int)
      requires Tiled(regions, blocks) && 0 <= i < |blocks| && blocks[i].live
      ensures var b := Model.Merged(blocks, i);
              && (HoleBelow(y, blocks, i) || HoleAbove(y, blocks, i) ==> b.size >= HoleTSize())
              && b.start == blocks[Model.MergeFrom(blocks, i)].start
              && (b.size >= HoleTSize() ==> b.start + 1 + y.ptr <= blocks[Model.MergeTo(blocks, i) - 1].Last())
    {
      var lo, hi := Model.MergeFrom(blocks, i), Model.MergeTo(blocks, i);
      assert WellPlaced(regions, blocks[i]) && WellPlaced(regions, blocks[lo]) && WellPlaced(regions, blocks[hi - 1]);
    }

    /** It takes the place of the run in the new tiling. */
    lemma MergedPlace(i: int)
      requires 0 <= i < |blocks|
      ensures var t := Model.FreeBlocks(blocks, i);
              0 <= Model.MergeFrom(blocks, i) < |t| && t[Model.MergeFrom(blocks, i)] == Model.Merged(blocks, i)
    {
      SpliceAt(blocks, Model.MergeFrom(blocks, i), Model.MergeTo(blocks, i), [Model.Merged(blocks, i)], Model.MergeFrom(blocks, i));
    }

    method Invalidate(curBlock: int, dataSize: int, ghost i: int)
      requires Formed() && 0 <= i < |blocks| && blocks[i].live
      requires blocks[i].start == curBlock && blocks[i].size == dataSize
      modifies mem
      ensures Invalidated(i)
      ensures Quiet(old(mem[..]), mem[..], y, holesList, blocks, Model.MergeFrom(blocks, i), Model.MergeTo(blocks, i))
    {
      ghost var lo, hi := Model.MergeFrom(blocks, i), Model.MergeTo(blocks, i);
      ghost var m0 := mem[..];
      MergedFits(i);
      assert WellPlaced(regions, blocks[lo]) && WellPlaced(regions, blocks[hi - 1]);
      WriteTags(curBlock, dataSize, -dataSize, blocks, lo, hi, blocks, i);
      OtherTags(m0, mem[..], regions, blocks, i, -dataSize);
    }

    /** The region a block is found in is its own. */
    lemma RegionOf(i: int, index: int)
      requires Valid() && 0 <= i < |blocks| && 0 <= index < |regions|
      requires regions[index].lo <= blocks[i].start < regions[index].hi
      ensures index == blocks[i].region
    {
      var r := blocks[i].region;
      assert WellPlaced(regions, blocks[i]);
      assert index < r ==> Model.DisjointRegions(regions[index], regions[r]);
      assert r < index ==> Model.DisjointRegions(regions[r], regions[index]);
    }

    /** ns_mem_free_and_merge_with_adjacent_blocks on live block i. */
    method FreeAndMerge(curBlock: int, dataSize: int, ghost i: int) returns (corrupted: bool)
      requires Valid() && 0 <= i < |blocks| && blocks[i].live
      requires blocks[i].start == curBlock && blocks[i].size == dataSize
      modifies mem, this`blocks
      ensures !corrupted
      ensures blocks == Model.FreeBlocks(old(blocks), i) && Formed()
      ensures Quiet(old(mem[..]), mem[..], y, holesList, old(blocks), Model.MergeFrom(old(blocks), i), Model.MergeTo(old(blocks), i))
    {
      assert WellPlaced(regions, blocks[i]);
      var regionIndex := RegionFind(curBlock, dataSize);
      corrupted := regionIndex < 0;
      if regionIndex >= 0 {
        RegionOf(i, regionIndex);
        corrupted := Merge(curBlock, dataSize, heapMain[regionIndex], heapMainEnd[regionIndex], i);
      }
    }

    lemma QuietKeptFree(m: seq<int>, bs: seq<Block>, i: int)
      requires |m| == mem.Length && Geometry(|m|, y, holesList, regions) && Tiled(regions, bs)
      requires 0 <= i < |bs| && Quiet(m, mem[..], y, holesList, bs, Model.MergeFrom(bs, i), Model.MergeTo(bs, i))
      ensures Kept(m, Model.FreeBlocks(bs, i))
    {
      var lo, hi, t := Model.MergeFrom(bs, i), Model.MergeTo(bs, i), Model.FreeBlocks(bs, i);
      forall j, a | 0 <= j < |t| && t[j].live && Inside(t[j], a) && 0 <= a < |m|
        ensures mem[a] == m[a]
      {
        SpliceAt(bs, lo, hi, [Model.Merged(bs, i)], j);
        QuietPayload(m, mem[..], y, holesList, regions, bs, lo, hi, if j < lo then j else j - lo - 1 + hi, a);
      }
    }

    /** What may be handed to Free: NULL, the payload address of any block, or a pointer whose header
        word is in memory but in no region. */
    ghost predicate MayFree(p: int)
      reads this
    {
      && Model.MayFree(Abs(), p)
      && (p != NULL && Model.BlockAt(blocks, p - 1) < 0 ==> 0 <= p - 1 < mem.Length)
    }

    /** The block at a header is found in its region, whether live or free. */
    lemma HeaderFound(i: int)
      requires Valid() && 0 <= i < |blocks|
      ensures var b := blocks[i];
              && 0 <= b.start && b.Last() < mem.Length && b.size >= 1
              && mem[b.start] == b.Tag() && mem[b.Last()] == b.Tag()
              && regions[b.region].lo <= b.start < regions[b.region].hi && b.start + b.Tag() < regions[b.region].hi
    {
      assert WellPlaced(regions, blocks[i]) && TagsAt(mem[..], blocks[i]);
    }

    /** The part of ns_mem_free for a pointer that is not NULL and is the payload of live block i. */
    method FreeLive(ptr: int, size: int, ghost i: int) returns (corrupted: bool)
      requires Valid() && 0 <= i < |blocks| && blocks[i].live && blocks[i].start == ptr && blocks[i].size == size
      modifies mem, this`blocks, this`stats
      ensures !corrupted
      ensures blocks == Model.FreeBlocks(old(blocks), i) && Formed()
      ensures stats == Model.CountFree(old(stats), Model.Bytes(size + 2))
      ensures Kept(old(mem[..]), blocks)
    {
      HeaderFound(i);
      var ok := BlockValidate(ptr);
      corrupted := !ok;
      if ok {
        corrupted := FreeAndMerge(ptr, size, i);
        QuietKeptFree(old(mem[..]), old(blocks), i);
        stats := Model.CountFree(stats, Model.Bytes(size + 2));
      }
    }

    /** Where the header of a pointer that may be freed is. */
    lemma HeaderPlace(ptr: int)
      requires Valid() && MayFree(ptr + 1) && ptr + 1 != NULL
      ensures 0 <= ptr < mem.Length
      ensures Model.BlockAt(blocks, ptr) < 0 ==> forall r :: 0 <= r < |regions| ==> !(regions[r].lo <= ptr < regions[r].hi)
    {
      if Model.BlockAt(blocks, ptr) >= 0 {
        HeaderFound(Model.BlockAt(blocks, ptr));
      }
    }

    /** The first lines of ns_mem_free: the size word and the region of the header; i is the block there, or -1. */
    method LookUp(ptr: int, ghost i: int) returns (regionIndex: int, size: int)
      requires Valid() && MayFree(ptr + 1) && ptr + 1 != NULL && i == Model.BlockAt(blocks, ptr)
      ensures regionIndex < 0 <==> i < 0
      ensures i >= 0 ==> size == blocks[i].Tag() && blocks[i].size >= 1
    {
      HeaderPlace(ptr);
      if i >= 0 {
        HeaderFound(i);
      }
      size := mem[ptr];
      regionIndex := RegionFind(ptr, size);
    }

    /** ns_mem_free of a pointer that is not NULL: i is the block with that header, or -1. */
    method FreeHeader(ptr: int, ghost i: int)
      requires Valid() && MayFree(ptr + 1) && ptr + 1 != NULL && i == Model.BlockAt(blocks, ptr)
      modifies mem, this`blocks, this`stats, this`failures
      ensures Formed()
      ensures Kept(old(mem[..]), blocks)
      ensures i < 0 ==> blocks == old(blocks) && stats == old(stats) && failures == old(failures) + [PointerNotValid]
      ensures i >= 0 && !old(blocks)[i].live ==> blocks == old(blocks) && stats == old(stats) && failures == old(failures) + [DoubleFree]
      ensures i >= 0 && old(blocks)[i].live ==>
                && blocks == Model.FreeBlocks(old(blocks), i)
                && stats == Model.CountFree(old(stats), Model.Bytes(old(blocks)[i].Words()))
                && failures == old(failures)
    {
      var regionIndex, size := LookUp(ptr, i);
      if regionIndex < 0 {
        failures := failures + [PointerNotValid];
      } else if size < 0 {
        failures := failures + [DoubleFree];
      } else {
        var corrupted := FreeLive(ptr, size, i);
        failures := failures + if corrupted then [HeapSectorCorrupted] else [];
      }
    }

    /** ns_mem_free. */
    method Free(block: int)
      requires Valid() && MayFree(block)
      modifies mem, this`blocks, this`stats, this`failures
      ensures Valid()
      ensures Abs() == Model.Free(old(Abs()), block).0
      ensures failures == old(failures) + match Model.Free(old(Abs()), block).1
                                          case NotValid => [PointerNotValid]
                                          case DoubleFree => [Failure.DoubleFree]
                                          case _ => []
      ensures Kept(old(mem[..]), blocks)
    {
      ghost var s := Abs();
      if block != NULL {
        FreeHeader(block - 1, Model.BlockAt(blocks, block - 1));
        Model.FreeByCases(s, HoleTSize(), block, blocks, stats);
        assert Abs() == s.(blocks := blocks, stats := stats);
      }
    }

    /** A client writes to a word of a block it has been given: the book stays as it is. */
    method ClientWrite(p: int, word: nat, v: int)
      requires Valid() && Model.BlockAt(blocks, p - 1) >= 0
      requires var b := blocks[Model.BlockAt(blocks, p - 1)]; b.live && word < b.size
      modifies mem
      ensures Valid() && Abs() == old(Abs())
      ensures mem[..] == old(mem[..])[p + word := v]
    {
      PayloadKeepsStored(mem[..], y, holesList, regions, blocks, Model.BlockAt(blocks, p - 1), p + word, v);
      mem[p + word] := v;
      assert mem[..] == old(mem[..])[p + word := v];
    }

    // ----- Adding a region

    /** ns_dyn_mem_region_save: the first unused slot above 0, if there is one. */
    method RegionSave(start: int, lastOffset: int) returns (ret: int)
      requires Slots() && |regions| >= 1 && start > NULL && (forall r :: 0 <= r < |regions| ==> regions[r].lo > NULL)
      modifies this`heapMain, this`heapMainEnd, this`regions
      ensures Slots()
      ensures ret == if |old(regions)| < Model.REGION_COUNT then 0 else -1
      ensures regions == if ret == 0 then old(regions) + [Region(start, start + lastOffset)] else old(regions)
      ensures Abs() == old(Abs()).(regions := regions)
    {
      var i := 1;
      while i < Model.REGION_COUNT
        invariant 1 <= i <= Model.REGION_COUNT && i <= |regions|
        invariant Slots() && regions == old(regions)
      {
        if heapMain[i] == NULL {
          heapMain := heapMain[i := start];
          heapMainEnd := heapMainEnd[i := heapMain[i] + lastOffset];
          regions := regions + [Region(start, start + lastOffset)];
          return 0;
        }
        i := i + 1;
      }
      ret := -1;
    }

    /** The walk of ns_mem_region_add: the last hole below `toAdd`, or that toAdd is listed already. */
    method FindPlace(toAdd: int, ghost s: seq<int>, ghost k: int) returns (previous: int, duplicate: bool)
      requires IsList(mem[..], y, holesList, s) && 0 <= k <= |s|
      ensures duplicate <==> toAdd in s
      ensures (forall j :: 0 <= j < |s| ==> (s[j] < toAdd <==> j < k)) && !duplicate ==> previous == if k == 0 then NULL else s[k - 1]
    {
      previous, duplicate := NULL, false;
      ghost var j, last := 0, -1;
      var hole := GetFirst(mem, y, holesList, s);
      while hole != NULL
        invariant 0 <= j <= |s| && hole == EntryAt(s, j) && (hole == NULL ==> j == |s|)
        invariant !duplicate && (forall x :: 0 <= x < j ==> s[x] != toAdd)
        invariant -1 <= last < j && previous == (if last < 0 then NULL else s[last]) && (last >= 0 ==> s[last] < toAdd)
        invariant forall x :: last < x < j ==> s[x] > toAdd
        decreases |s| - j
      {
        if hole < toAdd {
          previous := hole;
          last := j;
        } else if hole == toAdd {
          duplicate := true;
          return;
        }
        hole := GetNext(mem, y, hole, holesList, s, j);
        j := j + 1;
      }
    }

    /** The caller's side of ns_mem_region_add: see Model.MayAdd; the memory exists and is not the book's. */
    ghost predicate MayAdd(start: int, words: int)
      reads this
    {
      && Model.MayAdd(Abs(), HoleTSize(), start, words)
      && (start != NULL && words >= 3 ==>
            start > 0 && start + words <= mem.Length && OutsideHead(y, holesList, Region(start, start + words - 1)))
    }

    ghost predicate IsNew(start: int, words: int)
      reads this
    {
      && words >= HoleTSize() + 2
      && forall r :: 0 <= r < |regions| ==> Model.DisjointRegions(regions[r], Region(start, start + words - 1))
    }

    lemma NewOrListed(start: int, words: int)
      requires Valid() && MayAdd(start, words) && start != NULL && words >= 3
      ensures IsNew(start, words) ||
              var i := Model.BlockAt(blocks, start);
              i >= 0 && IsHole(blocks[i], HoleTSize()) && blocks[i].size == words - 2
    {
    }

    lemma NewNotThere(start: int, words: int)
      requires Valid() && IsNew(start, words)
      ensures Model.BlockAt(blocks, start) < 0
    {
      forall k | 0 <= k < |blocks|
        ensures blocks[k].start != start
      {
        assert WellPlaced(regions, blocks[k]);
      }
    }

    /** The tags of the region's hole. They are written before anything is checked: into new memory, or
        over the same tags of a region that is one whole hole. */
    method WriteRegionTags(start: int, words: int)
      requires Valid() && MayAdd(start, words) && start != NULL && words >= 3
      modifies mem
      ensures Formed()
      ensures Kept(old(mem[..]), blocks)
      ensures mem[start] == mem[start + words - 1] == -(words - 2)
    {
      NewOrListed(start, words);
      ghost var added := IsNew(start, words);
      if added {
        NewTagsKeep(mem[..], y, holesList, regions, blocks, start, words, -(words - 2));
      } else {
        assert TagsAt(mem[..], blocks[Model.BlockAt(blocks, start)]);
      }
      mem[start] := -(words - 2);
      mem[start + words - 1] := -(words - 2);
      assert mem[..] == old(mem[..])[start := -(words - 2)][start + words - 1 := -(words - 2)];
      assert !added ==> mem[..] == old(mem[..]);
    }

    /** Links block `at` of t, the one block that is not listed yet. */
    method LinkHole(start: int, previous: int, ghost s: seq<int>, ghost k: int, ghost t: seq<Block>, ghost at: int)
      requires Geometry(mem.Length, y, holesList, regions) && Tiled(regions, t)
      requires IsList(mem[..], y, holesList, s) && HolesOnly(y, t, s)
      requires 0 <= k <= |s| && HoleList(y, t) == InsertAt(s, k, start + 1)
      requires previous == if k == 0 then NULL else s[k - 1]
      requires 0 <= at < |t| && t[at].start == start && t[at].size >= HoleTSize()
      modifies mem
      ensures Listing(t)
      ensures Quiet(old(mem[..]), mem[..], y, holesList, t, at, at + 1)
      ensures 0 <= start <= t[at].Last() < mem.Length
      ensures mem[start] == old(mem[start]) && mem[t[at].Last()] == old(mem[t[at].Last()])
    {
      assert WellPlaced(regions, t[at]);
      AddDescriptor(previous, start + 1, s, k, t, at, at + 1, t);
      InsertKeepsTags(old(mem[..]), mem[..], y, holesList, regions, t, s, k, at);
    }

    /** The last part of ns_mem_region_add: the hole joins the list and the tiling. */
    method ListRegion(start: int, words: int, previous: int, ghost rs: seq<Region>, ghost k: int)
      requires Geometry(mem.Length, y, holesList, rs) && Tiled(rs, blocks) && Coalesced(blocks) &&
                Stored(mem[..], y, holesList, blocks)
      requires regions == rs + [Region(start, start + words - 1)]
      requires words >= HoleTSize() + 2 && start > 0 && start + words <= mem.Length &&
                OutsideHead(y, holesList, Region(start, start + words - 1))
      requires forall r :: 0 <= r < |rs| ==> Model.DisjointRegions(rs[r], Region(start, start + words - 1))
      requires mem[start] == mem[start + words - 1] == -(words - 2)
      requires k == HolesBefore(y, blocks, Model.Position(blocks, start)) <= |HoleList(y, blocks)|
      requires previous == if k == 0 then NULL else HoleList(y, blocks)[k - 1]
      modifies mem, this`blocks
      ensures var at := Model.Position(old(blocks), start);
              blocks == Splice(old(blocks), at, at, [Model.RegionBlock(rs, start, words)])
      ensures Formed()
      ensures Kept(old(mem[..]), old(blocks))
    {
      ghost var at, t, k' := NewTiling(y, rs, blocks, start, words);
      LinkHole(start, previous, HoleList(y, blocks), k, t, at);
      NewRegionQuiet(old(mem[..]), mem[..], y, holesList, rs, blocks, start, words);
      blocks := t;
    }

    method GrowHeap(words: int)
      modifies this`heapSize, this`stats, this`temporaryAllocHeapLimit
      ensures heapSize == old(heapSize) + Model.Bytes(words)
      ensures stats == old(stats).(sectorSize := heapSize)
      ensures temporaryAllocHeapLimit == Model.DefaultLimit(heapSize)
    {
      heapSize := heapSize + Model.Bytes(words);
      stats := stats.(sectorSize := heapSize);
      temporaryAllocHeapLimit := Model.DefaultLimit(heapSize);
    }

    /** ns_mem_region_add past its checks, when a slot is left. */
    method AdoptSaved(start: int, words: int, previous: int, ghost rs: seq<Region>, ghost k: int)
      requires Geometry(mem.Length, y, holesList, rs) && Tiled(rs, blocks) && Coalesced(blocks) &&
                Stored(mem[..], y, holesList, blocks)
      requires regions == rs + [Region(start, start + words - 1)] && Slots()
      requires words >= HoleTSize() + 2 && start > 0 && start + words <= mem.Length &&
                OutsideHead(y, holesList, Region(start, start + words - 1))
      requires forall r :: 0 <= r < |rs| ==> Model.DisjointRegions(rs[r], Region(start, start + words - 1))
      requires mem[start] == mem[start + words - 1] == -(words - 2)
      requires k == HolesBefore(y, blocks, Model.Position(blocks, start)) <= |HoleList(y, blocks)|
      requires previous == if k == 0 then NULL else HoleList(y, blocks)[k - 1]
      modifies mem, this`blocks, this`heapSize, this`stats, this`temporaryAllocHeapLimit
      ensures Formed() && Slots()
      ensures Abs() == Model.Extended(old(Abs()).(regions := rs), start, words)
      ensures Kept(old(mem[..]), old(blocks))
    {
      ListRegion(start, words, previous, rs, k);
      GrowHeap(words);
    }

    method Adopt(start: int, words: int, previous: int, ghost k: int) returns (ret: int)
      requires Formed() && Slots() && |regions| >= 1 && IsNew(start, words) && words >= 3
      requires Model.BlockAt(blocks, start) < 0
      requires start > 0 && start + words <= mem.Length && OutsideHead(y, holesList, Region(start, start + words - 1))
      requires mem[start] == mem[start + words - 1] == -(words - 2)
      requires k == HolesBefore(y, blocks, Model.Position(blocks, start)) <= |HoleList(y, blocks)|
      requires previous == if k == 0 then NULL else HoleList(y, blocks)[k - 1]
      modifies mem, this`heapMain, this`heapMainEnd, this`regions, this`blocks, this`heapSize, this`stats, this`temporaryAllocHeapLimit
      ensures Formed() && Slots()
      ensures (Abs(), ret) == Model.AddRegion(old(Abs()), HoleTSize(), start, words)
      ensures Kept(old(mem[..]), old(blocks))
    {
      ghost var rs, s := regions, Abs();
      ghost var next := Model.AddRegionWith(s, HoleTSize(), start, words);
      assert forall r :: 0 <= r < |rs| ==> Model.DisjointRegions(rs[r], Region(start, start + words - 1));
      ret := RegionSave(start, words - 1);
      if ret != 0 {
        ret := -3;
        assert Abs() == s == next.0;
      } else {
        AdoptSaved(start, words, previous, rs, k);
        assert Abs() == Model.Extended(s, start, words) == next.0;
      }
    }

    /** ns_mem_region_add of word-aligned memory. */
    method RegionAdd(regionPtr: int, words: int) returns (ret: int)
      requires Valid() && MayAdd(regionPtr, words)
      modifies mem, this`heapMain, this`heapMainEnd, this`regions, this`blocks, this`heapSize, this`stats, this`temporaryAllocHeapLimit
      ensures Valid()
      ensures (Abs(), ret) == Model.AddRegion(old(Abs()), HoleTSize(), regionPtr, words)
      ensures Kept(old(mem[..]), old(blocks))
    {
      if regionPtr == NULL || words < 3 {
        ret := -1;
      } else {
        ghost var m0 := mem[..];
        NewOrListed(regionPtr, words);
        WriteRegionTags(regionPtr, words);
        ghost var m1 := mem[..];
        ghost var k := PlaceOf(regionPtr, words);
        var previous, duplicate := FindPlace(regionPtr + 1, HoleList(y, blocks), k);
        if duplicate {
          ret := -2;
        } else {
          NewNotThere(regionPtr, words);
          ret := Adopt(regionPtr, words, previous, k);
          KeptTrans(m0, m1, old(blocks));
        }
      }
      assert (Abs(), ret) == Model.AddRegion(old(Abs()), HoleTSize(), regionPtr, words);
      Model.AddRegionKeepsInv(old(Abs()), HoleTSize(), regionPtr, words);
    }

    lemma KeptTrans(m0: seq<int>, m1: seq<int>, bs: seq<Block>)
      requires |m0| == |m1| == mem.Length && Kept(m1, bs)
      requires forall i, a {:trigger Inside(bs[i], a)} :: 0 <= i < |bs| && bs[i].live && Inside(bs[i], a) && 0 <= a < |m0| ==> m1[a] == m0[a]
      ensures Kept(m0, bs)
    {
    }

    /** Where the walk will find the place of a region, and when it finds the region there already. */
    lemma PlaceOf(start: int, words: int) returns (k: int)
      requires Valid() && MayAdd(start, words) && start != NULL && words >= 3
      ensures 0 <= k <= |HoleList(y, blocks)|
      ensures start + 1 in HoleList(y, blocks) <==> !IsNew(start, words)
      ensures start + 1 in HoleList(y, blocks) <==>
                Model.BlockAt(blocks, start) >= 0 && IsHole(blocks[Model.BlockAt(blocks, start)], HoleTSize())
      ensures IsNew(start, words) ==>
                && k == HolesBefore(y, blocks, Model.Position(blocks, start))
                && forall j :: 0 <= j < |HoleList(y, blocks)| ==> (HoleList(y, blocks)[j] < start + 1 <==> j < k)
    {
      k := 0;
      NewOrListed(start, words);
      if IsNew(start, words) {
        NewHolePlace(y, regions, blocks, start, words);
        NewNotThere(start, words);
        k := HolesBefore(y, blocks, Model.Position(blocks, start));
      } else {
        var i := Model.BlockAt(blocks, start);
        HoleIndexOf(blocks, HoleTSize(), i);
        assert HoleList(y, blocks)[HolesBefore(y, blocks, i)] == start + 1;
      }
    }

    // ----- The first region

    /** Linking a block's descriptor to the empty list leaves its tags. */
    lemma FirstTagsKept(m1: seq<int>, m2: seq<int>)
      requires |m1| == mem.Length && Geometry(|m1|, y, holesList, regions) && Tiled(regions, blocks) && |blocks| == 1
      requires HoleList(y, blocks) == InsertAt([], 0, blocks[0].start + 1) && Tagged(m1, blocks)
      requires Placed(|m1|, y, holesList, []) && CanJoin(|m1|, y, holesList, [], blocks[0].start + 1)
      requires Inserted(m1, m2, y, holesList, [], 0, blocks[0].start + 1)
      ensures Tagged(m2, blocks)
    {
      InsertKeepsTags(m1, m2, y, holesList, regions, blocks, [], 0, 0);
      assert TagsAt(m1, blocks[0]);
    }

    /** Makes a block on its own the one listed hole. */
    method FirstHole(start: int, dataSize: int)
      requires Geometry(mem.Length, y, holesList, regions) && Tiled(regions, blocks)
      requires |blocks| == 1 && blocks[0].start == start && blocks[0].size == dataSize >= HoleTSize() && !blocks[0].live
      modifies mem
      ensures Stored(mem[..], y, holesList, blocks)
    {
      assert WellPlaced(regions, blocks[0]) && OutsideHead(y, holesList, regions[blocks[0].region]);
      mem[start] := -dataSize;
      mem[start + dataSize + 1] := -dataSize;
      Init(mem, y, holesList);
      ghost var m1 := mem[..];
      assert Tagged(m1, blocks) by {
        assert TagsAt(m1, blocks[0]);
      }
      assert blocks == [blocks[0]];
      SmallHoles(y, blocks[0], blocks[0]);
      HolesPlaced(mem.Length, y, holesList, regions, blocks);
      assert InsertAt([], 0, start + 1) == HoleList(y, blocks);
      AddDescriptor(NULL, start + 1, [], 0, blocks, 0, 1, blocks);
      FirstTagsKept(m1, mem[..]);
    }

    /** ns_mem_init of word-aligned memory: the book comes first, the rest becomes one hole. */
    constructor (memory: array<int>, layout: Layout, heap: int, words: int, bookWords: int, listOffset: int)
      requires layout.ptr >= 1 && layout.offset == 0
      requires heap > 0 && heap + words <= memory.Length
      requires 0 <= listOffset && listOffset + HoleSize(layout) <= bookWords
      requires words - bookWords >= HoleSize(layout) + 2
      modifies memory
      ensures Valid() && mem == memory && y == layout && holesList == heap + listOffset
      ensures Abs() == Model.Initial(heap + bookWords, words - bookWords)
      ensures failures == []
    {
      mem, y, holesList := memory, layout, heap + listOffset;
      var start := heap + bookWords;
      var dataSize := words - bookWords - 2;
      heapMain, heapMainEnd := [start, NULL, NULL], [start + dataSize + 1, NULL, NULL];
      heapSize := Model.Bytes(words - bookWords);
      temporaryAllocHeapLimit := Model.DefaultLimit(Model.Bytes(words - bookWords));
      stats := Model.Stats(Model.Bytes(words - bookWords), 0, 0, 0, 0, 0);
      failures := [];
      regions := [Region(start, start + words - bookWords - 1)];
      blocks := [Model.RegionBlock([], start, words - bookWords)];
      new;
      Model.InitialInv(start, words - bookWords, HoleTSize());
      FirstHole(start, dataSize);
    }
  }
}
