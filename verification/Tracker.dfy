/** The allocation tracker of nsdynmem_tracker_lib.c: its configuration record with both tables, the
    linear searches over them, and the two calls that the allocator makes. */
module Tracker {
  import opened Options
  import opened TrackerModel
  import opened TrackerSnapshot

  class Conf {
    var memGiven: bool           // mem_blocks is not NULL
    var memBlocks: seq<Slot>
    var extGiven: bool           // ext_mem_blocks is not NULL
    var extMemBlocks: seq<Ext>
    var lastMemBlockIndex: nat
    var allocatedMemory: int
    const hash: Hash
    const maxSnapShotAllocators: array<Allocator>

    /** The blocks that have been handed in and not yet freed. */
    ghost var live: seq<Ext>

    ghost function Abs(): State
      reads this
    {
      State(memGiven, memBlocks, extGiven, extMemBlocks, lastMemBlockIndex, allocatedMemory)
    }

    ghost predicate Valid()
      reads this
    {
      InRange(hash) && Inv(Abs(), live)
    }

    constructor (hash: Hash, maxSnapShotAllocators: array<Allocator>)
      requires InRange(hash)
      ensures Valid() && live == [] && Abs() == START
      ensures this.hash == hash && this.maxSnapShotAllocators == maxSnapShotAllocators
    {
      memGiven, memBlocks, extGiven, extMemBlocks := false, [], false, [];
      lastMemBlockIndex, allocatedMemory, live := 0, 0, [];
      this.hash, this.maxSnapShotAllocators := hash, maxSnapShotAllocators;
    }

    // ---------- searches: 0 and the index, or -1 and index 0 ----------

    method FindFreeIndex() returns (ret: int, index: nat)
      ensures var r := IndexOf(Callers(memBlocks), 0, |memBlocks|, NULL);
              if r.Some? then ret == 0 && index == r.value else ret == -1 && index == 0
    {
      var i := 0;
      while i < |memBlocks|
        invariant 0 <= i <= |memBlocks|
        invariant IndexOf(Callers(memBlocks), 0, |memBlocks|, NULL) ==
                  IndexOf(Callers(memBlocks), i, |memBlocks|, NULL)
      {
        if memBlocks[i].caller == NULL {
          return 0, i;
        }
        i := i + 1;
      }
      return -1, 0;
    }

    method FindCallerIndex(caller: int) returns (ret: int, index: nat)
      requires lastMemBlockIndex < |memBlocks|
      ensures var r := IndexOf(Callers(memBlocks), 0, lastMemBlockIndex + 1, caller);
              if r.Some? then ret == 0 && index == r.value else ret == -1 && index == 0
    {
      var i := 0;
      while i <= lastMemBlockIndex
        invariant 0 <= i <= lastMemBlockIndex + 1
        invariant IndexOf(Callers(memBlocks), 0, lastMemBlockIndex + 1, caller) ==
                  IndexOf(Callers(memBlocks), i, lastMemBlockIndex + 1, caller)
      {
        if memBlocks[i].caller == caller {
          return 0, i;
        }
        i := i + 1;
      }
      return -1, 0;
    }

    method FindBlockIndex(block: int) returns (ret: int, index: nat)
      requires lastMemBlockIndex < |memBlocks|
      ensures var r := IndexOf(Blocks(memBlocks), 0, lastMemBlockIndex + 1, block);
              if r.Some? then ret == 0 && index == r.value else ret == -1 && index == 0
    {
      var i := 0;
      while i <= lastMemBlockIndex
        invariant 0 <= i <= lastMemBlockIndex + 1
        invariant IndexOf(Blocks(memBlocks), 0, lastMemBlockIndex + 1, block) ==
                  IndexOf(Blocks(memBlocks), i, lastMemBlockIndex + 1, block)
      {
        if memBlocks[i].block == block {
          return 0, i;
        }
        i := i + 1;
      }
      return -1, 0;
    }

    method ExtFindFreeIndex(startIndex: nat) returns (ret: int, index: nat)
      requires startIndex <= |extMemBlocks|
      ensures var r := Probe(ExtCallers(extMemBlocks), startIndex, NULL);
              if r.Some? then ret == 0 && index == r.value else ret == -1 && index == 0
    {
      ghost var keys := ExtCallers(extMemBlocks);
      var i := startIndex;
      while i < |extMemBlocks|
        invariant startIndex <= i <= |extMemBlocks|
        invariant IndexOf(keys, startIndex, |keys|, NULL) == IndexOf(keys, i, |keys|, NULL)
      {
        if extMemBlocks[i].caller == NULL {
          return 0, i;
        }
        i := i + 1;
      }
      if startIndex == 0 {
        return -1, 0;
      }
      i := 0;
      while i < startIndex
        invariant 0 <= i <= startIndex
        invariant IndexOf(keys, 0, startIndex, NULL) == IndexOf(keys, i, startIndex, NULL)
      {
        if extMemBlocks[i].caller == NULL {
          return 0, i;
        }
        i := i + 1;
      }
      return -1, 0;
    }

    method ExtFindBlockIndex(block: int, startIndex: nat) returns (ret: int, index: nat)
      requires startIndex <= |extMemBlocks|
      ensures var r := Probe(ExtBlocks(extMemBlocks), startIndex, block);
              if r.Some? then ret == 0 && index == r.value else ret == -1 && index == 0
    {
      ghost var keys := ExtBlocks(extMemBlocks);
      var i := startIndex;
      while i < |extMemBlocks|
        invariant startIndex <= i <= |extMemBlocks|
        invariant IndexOf(keys, startIndex, |keys|, block) == IndexOf(keys, i, |keys|, block)
      {
        if extMemBlocks[i].block == block {
          return 0, i;
        }
        i := i + 1;
      }
      if startIndex == 0 {
        return -1, 0;
      }
      i := 0;
      while i < startIndex
        invariant 0 <= i <= startIndex
        invariant IndexOf(keys, 0, startIndex, block) == IndexOf(keys, i, startIndex, block)
      {
        if extMemBlocks[i].block == block {
          return 0, i;
        }
        i := i + 1;
      }
      return -1, 0;
    }

    // ---------- alloc ----------

    /** The caller's slot counts the block and a free entry of the second table records it. */
    method Record(callerIndex: nat, freeIndex: nat, caller: int, block: int, allocSize: int)
      requires memGiven && extGiven && callerIndex < |memBlocks| && freeIndex < |extMemBlocks|
      modifies this`memBlocks, this`extMemBlocks, this`allocatedMemory
      ensures Abs() == Extend(old(Abs()), callerIndex, freeIndex, caller, block, allocSize)
    {
      var slot := memBlocks[callerIndex];
      slot := slot.(refCount := slot.refCount + 1);
      slot := slot.(total := Wrap32(slot.total + allocSize));
      slot := slot.(lifetime := 0);
      memBlocks := memBlocks[callerIndex := slot];
      extMemBlocks := extMemBlocks[freeIndex := Ext(block, caller, allocSize)];
      allocatedMemory := Wrap32(allocatedMemory + allocSize);
    }

    /** A further block of a caller that has a slot: an entry of the second table, which may grow once. */
    method AllocFurther(callerIndex: nat, caller: int, block: int, allocSize: int, room: Room) returns (ret: int)
      requires InRange(hash) && memGiven && callerIndex < |memBlocks|
      modifies this`memBlocks, this`extGiven, this`extMemBlocks, this`allocatedMemory
      ensures (Abs(), ret) == AllocMore(old(Abs()), callerIndex, caller, block, allocSize, room, hash)
    {
      if !extGiven {
        if room.extFirst.None? {
          return -1;
        }
        extGiven, extMemBlocks := true, EmptyExts(room.extFirst.value);
      }
      var found, freeIndex := ExtFindFreeIndex(hash(block, |extMemBlocks|));
      if found < 0 {
        if room.extMore.None? {
          extGiven, extMemBlocks := false, [];
          return -1;
        }
        extMemBlocks := extMemBlocks + EmptyExts(room.extMore.value);
        found, freeIndex := ExtFindFreeIndex(hash(block, |extMemBlocks|));
        if found < 0 {
          return -1;
        }
      }
      Record(callerIndex, freeIndex, caller, block, allocSize);
      ret := 0;
    }

    /** The first block of a caller: a free slot of the first table, which may grow once. */
    method AllocSlot(caller: int, block: int, allocSize: int, line: int, room: Room) returns (ret: int)
      requires memGiven
      modifies this`memGiven, this`memBlocks, this`lastMemBlockIndex, this`allocatedMemory
      ensures (Abs(), ret) == AllocFirst(old(Abs()), caller, block, allocSize, line, room)
    {
      var found, freeIndex := FindFreeIndex();
      if found < 0 {
        if room.memMore.None? {
          memGiven, memBlocks := false, [];
          return -1;
        }
        memBlocks := memBlocks + EmptySlots(room.memMore.value);
        found, freeIndex := FindFreeIndex();
        if found < 0 {
          return -1;
        }
      }
      memBlocks := memBlocks[freeIndex := Slot(block, caller, allocSize, allocSize, 1, line % 0x1_0000, 0)];
      if freeIndex > lastMemBlockIndex {
        lastMemBlockIndex := freeIndex;
      }
      allocatedMemory := Wrap32(allocatedMemory + allocSize);
      ret := 0;
    }

    /** ns_dyn_mem_tracker_lib_alloc, before the bookkeeping of the live blocks. */
    method AllocCall(caller: int, block: int, allocSize: int, line: int, room: Room) returns (ret: int)
      requires Valid() && RoomOk(room)
      modifies this`memGiven, this`memBlocks, this`extGiven, this`extMemBlocks, this`lastMemBlockIndex,
               this`allocatedMemory
      ensures (Abs(), ret) == TrackerModel.Alloc(old(Abs()), caller, block, allocSize, line, room, hash)
    {
      if block == NULL {
        return 0;
      }
      if !memGiven {
        if room.memFirst.None? {
          return -1;
        }
        memGiven, memBlocks := true, EmptySlots(room.memFirst.value);
      }
      var found, callerIndex := FindCallerIndex(caller);
      if found >= 0 {
        ret := AllocFurther(callerIndex, caller, block, allocSize, room);
      } else {
        ret := AllocSlot(caller, block, allocSize, line, room);
      }
    }

    /**
      * ns_dyn_mem_tracker_lib_alloc: tracks the block exactly when it returns 0 for one. `room` says
      * how the growth callbacks would answer; all is in order afterwards unless one takes a table away.
      */
    method Alloc(caller: int, block: int, allocSize: int, line: int, room: Room) returns (ret: int)
      requires Valid() && RoomOk(room)
      requires block != NULL ==> Fresh(live, block) && caller != NULL && 0 <= allocSize < 0x1_0000_0000
      modifies this
      ensures ret in {0, -1} && (!Loses(old(Abs()), caller, block, room) ==> Valid())
      ensures live == if block != NULL && ret == 0 then old(live) + [Ext(block, caller, allocSize)] else old(live)
      ensures block == NULL ==> ret == 0 && Abs() == old(Abs())
      ensures (Abs(), ret) == TrackerModel.Alloc(old(Abs()), caller, block, allocSize, line, room, hash)
    {
      ghost var s', r, live' := AllocKeeps(Abs(), live, caller, block, allocSize, line, room, hash);
      ret := AllocCall(caller, block, allocSize, line, room);
      live := live';
      assert Abs() == s';
    }

    // ---------- free ----------

    /** A block found in slot blockIndex. */
    method FreeFromSlot(blockIndex: nat)
      requires memGiven && blockIndex < |memBlocks|
      modifies this`memBlocks, this`allocatedMemory
      ensures Abs() == FreeOwn(old(Abs()), blockIndex)
    {
      var slot := memBlocks[blockIndex];
      if slot.refCount <= 1 {
        slot := slot.(refCount := 0);
        slot := slot.(caller := NULL);
        slot := slot.(total := 0);
        slot := slot.(line := 0);
      } else {
        slot := slot.(refCount := slot.refCount - 1);
        slot := slot.(total := Wrap32(slot.total - slot.size));
      }
      allocatedMemory := Wrap32(allocatedMemory - slot.size);
      slot := slot.(block := NULL);
      slot := slot.(size := 0);
      slot := slot.(lifetime := 0);
      memBlocks := memBlocks[blockIndex := slot];
    }

    /** A block found in entry extBlockIndex, with its caller in slot callerIndex; blockIndex is the result
        of the failed search of the first table. */
    method FreeFromExt(extBlockIndex: nat, callerIndex: nat, blockIndex: nat)
      requires memGiven && extGiven && callerIndex < |memBlocks| && extBlockIndex < |extMemBlocks| && blockIndex == 0
      modifies this`memBlocks, this`extMemBlocks, this`allocatedMemory
      ensures Abs() == FreeExt(old(Abs()), extBlockIndex, callerIndex)
    {
      var size := extMemBlocks[extBlockIndex].size;
      var slot := memBlocks[callerIndex];
      slot := slot.(refCount := slot.refCount - 1);
      slot := slot.(total := Wrap32(slot.total - size));
      memBlocks := memBlocks[callerIndex := slot];
      allocatedMemory := Wrap32(allocatedMemory - size);
      extMemBlocks := extMemBlocks[extBlockIndex := EMPTY_EXT];
      slot := memBlocks[blockIndex];
      slot := slot.(lifetime := 0);
      if slot.refCount == 0 {
        slot := slot.(block := NULL);
        slot := slot.(caller := NULL);
        slot := slot.(size := 0);
        slot := slot.(total := 0);
        slot := slot.(line := 0);
      }
      memBlocks := memBlocks[blockIndex := slot];
    }

    /** ns_dyn_mem_tracker_lib_free, before the bookkeeping of the live blocks. */
    method FreeCall(block: int) returns (ret: int)
      requires Valid()
      modifies this`memBlocks, this`extMemBlocks, this`allocatedMemory
      ensures (Abs(), ret) == TrackerModel.Free(old(Abs()), block, hash)
    {
      if block == NULL || !memGiven {
        return 0;
      }
      var found, blockIndex := FindBlockIndex(block);
      if found >= 0 {
        FreeFromSlot(blockIndex);
        return 0;
      }
      if !extGiven {
        return -1;
      }
      var extFound, extBlockIndex := ExtFindBlockIndex(block, hash(block, |extMemBlocks|));
      if extFound < 0 {
        return -1;
      }
      var callerFound, callerIndex := FindCallerIndex(extMemBlocks[extBlockIndex].caller);
      if callerFound < 0 {
        return -1;
      }
      FreeFromExt(extBlockIndex, callerIndex, blockIndex);
      ret := 0;
    }

    /** ns_dyn_mem_tracker_lib_free: a tracked block is always found and forgotten; nothing else changes
        anything. */
    method Free(block: int) returns (ret: int)
      requires Valid()
      modifies this
      ensures Valid()
      ensures var k := Find(old(live), block);
              if k.Some? then ret == 0 && live == Without(old(live), k.value)
              else live == old(live) && Abs() == old(Abs()) && ret == if block == NULL || !memGiven then 0 else -1
      ensures (Abs(), ret) == TrackerModel.Free(old(Abs()), block, hash)
    {
      ghost var k, s', live' := Find(live, block), Abs(), live;
      if k.Some? {
        s' := FreeFinds(Abs(), live, k.value, hash);
        live' := Without(live, k.value);
      } else {
        UnlistedBlock(live, block);
        FreeUnknown(Abs(), live, block, hash);
      }
      ret := FreeCall(block);
      live := live';
      assert Abs() == s';
    }

    // ---------- the snapshot ----------

    /**
      * ns_dyn_mem_tracker_lib_max_snap_shot_update: the list is what the slots up to the last index make of
      * it, which is the callers that use the most memory if it has 1 to 256 entries.
      */
    method MaxSnapShotUpdate()
      requires Valid() && memGiven
      modifies maxSnapShotAllocators
      ensures Valid() && Abs() == old(Abs()) && WellFormed(memBlocks, lastMemBlockIndex)
      ensures maxSnapShotAllocators[..] == UpTo(memBlocks, lastMemBlockIndex + 1, maxSnapShotAllocators.Length)
      ensures 1 <= maxSnapShotAllocators.Length <= 256 ==>
                Snapshot(maxSnapShotAllocators[..], memBlocks, |memBlocks|)
      ensures forall e :: 0 <= e < maxSnapShotAllocators.Length ==>
                Records(maxSnapShotAllocators[..][e], memBlocks, live)
    {
      forall i | 0 <= i < |memBlocks| && memBlocks[i].block != NULL ensures memBlocks[i].total >= 0 {
        assert Accounted(memBlocks[i], live);
      }
      ListLargest(memBlocks, lastMemBlockIndex, maxSnapShotAllocators);
      UpToRecords(memBlocks, lastMemBlockIndex, live, lastMemBlockIndex + 1, maxSnapShotAllocators.Length);
      if 1 <= maxSnapShotAllocators.Length <= 256 {
        UpdatedSnapshot(memBlocks, lastMemBlockIndex, maxSnapShotAllocators.Length);
      }
    }
  }

  lemma UnlistedBlock(live: seq<Ext>, block: int)
    requires Find(live, block).None?
    ensures forall x :: x in live ==> x.block != block
  {
    assert forall i :: 0 <= i < |live| ==> ExtBlocks(live)[i] != block;
  }
}
