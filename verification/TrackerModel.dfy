/** The allocation tracker of nsdynmem_tracker_lib.c over values: the two tables, one call at a time,
    and the accounting that every run keeps.

    A pointer is an integer and 0 is NULL. Sizes and sums of sizes are 32 bits wide. Each caller has
    one slot in the first table, which may also hold one of its blocks; its other blocks are entries
    of the second table. */
module TrackerModel {
  import opened Options

  const NULL := 0

  datatype Slot = Slot(block: int, caller: int, size: int, total: int, refCount: int, line: int, lifetime: int)

  datatype Ext = Ext(block: int, caller: int, size: int)

  const EMPTY_SLOT := Slot(0, 0, 0, 0, 0, 0, 0)
  const EMPTY_EXT := Ext(0, 0, 0)

  /** The tables, each with whether its pointer is set; a table that is not there has no entries. */
  datatype State = State(memGiven: bool, mem: seq<Slot>, extGiven: bool, ext: seq<Ext>, last: nat, allocatedMemory: int)

  /**
    * How the growth callbacks answer during one call: the size of a first table, if there is memory
    * for one, and for a table that exists the number of empty entries appended (0 if it cannot grow) or
    * None, if the callback answers NULL and the table is gone.
    */
  datatype Room = Room(memFirst: Option<nat>, memMore: Option<nat>, extFirst: Option<nat>, extMore: Option<nat>)

  function Wrap32(x: int): (r: int)
    ensures 0 <= r < 0x1_0000_0000 && (0 <= x < 0x1_0000_0000 ==> r == x)
  {
    x % 0x1_0000_0000
  }

  // ---------- searching ----------

  /** The first index in from .. end - 1 with this key. */
  function IndexOf(keys: seq<int>, from: nat, end: nat, key: int): (r: Option<nat>)
    requires end <= |keys|
    ensures r.Some? ==> from <= r.value < end && keys[r.value] == key
    ensures r.Some? ==> forall i :: from <= i < r.value ==> keys[i] != key
    ensures r.None? ==> forall i :: from <= i < end ==> keys[i] != key
    decreases |keys| - from
  {
    if from >= end then None else if keys[from] == key then Some(from) else IndexOf(keys, from + 1, end, key)
  }

  /** From `start` to the end and then from the beginning. */
  function Probe(keys: seq<int>, start: nat, key: int): (r: Option<nat>)
    requires start <= |keys|
    ensures r.Some? ==> r.value < |keys| && keys[r.value] == key
    ensures r.None? <==> key !in keys
  {
    var r := IndexOf(keys, start, |keys|, key);
    if r.Some? then r else IndexOf(keys, 0, start, key)
  }

  function Callers(mem: seq<Slot>): (keys: seq<int>)
    ensures |keys| == |mem| && forall i :: 0 <= i < |mem| ==> keys[i] == mem[i].caller
  {
    seq(|mem|, i requires 0 <= i < |mem| => mem[i].caller)
  }

  function Blocks(mem: seq<Slot>): (keys: seq<int>)
    ensures |keys| == |mem| && forall i :: 0 <= i < |mem| ==> keys[i] == mem[i].block
  {
    seq(|mem|, i requires 0 <= i < |mem| => mem[i].block)
  }

  function ExtCallers(ext: seq<Ext>): (keys: seq<int>)
    ensures |keys| == |ext| && forall i :: 0 <= i < |ext| ==> keys[i] == ext[i].caller
  {
    seq(|ext|, i requires 0 <= i < |ext| => ext[i].caller)
  }

  function ExtBlocks(ext: seq<Ext>): (keys: seq<int>)
    ensures |keys| == |ext| && forall i :: 0 <= i < |ext| ==> keys[i] == ext[i].block
  {
    seq(|ext|, i requires 0 <= i < |ext| => ext[i].block)
  }

  function EmptySlots(n: nat): seq<Slot> { seq(n, _ => EMPTY_SLOT) }

  function EmptyExts(n: nat): seq<Ext> { seq(n, _ => EMPTY_EXT) }

  /** The hash callback, or start index 0 without one. */
  type Hash = (int, nat) -> nat

  /** The hash stays within the table. */
  ghost predicate InRange(hash: Hash) {
    forall b: int, n: nat :: hash(b, n) < n || (n == 0 && hash(b, n) == 0)
  }

  // ---------- one call of alloc ----------

  /** The tables are usable: every slot that is searched exists. */
  predicate Shaped(s: State) {
    s.memGiven ==> s.last < |s.mem|
  }

  /** One more block for the caller of a slot: its counters go up. */
  function Charged(m: Slot, size: int): Slot {
    m.(refCount := m.refCount + 1, total := Wrap32(m.total + size), lifetime := 0)
  }

  /** Another block of the caller in slot ci goes to entry ei of the second table. */
  function Extend(s: State, ci: nat, ei: nat, caller: int, block: int, size: int): State
    requires s.memGiven && s.extGiven && ci < |s.mem| && ei < |s.ext|
  {
    s.(mem := s.mem[ci := Charged(s.mem[ci], size)], ext := s.ext[ei := Ext(block, caller, size)],
       allocatedMemory := Wrap32(s.allocatedMemory + size))
  }

  /** The first block of a caller goes to a free slot of its own. */
  function Occupy(s: State, i: nat, caller: int, block: int, size: int, line: int): State
    requires s.memGiven && i < |s.mem|
  {
    s.(mem := s.mem[i := Slot(block, caller, size, size, 1, line % 0x1_0000, 0)],
       last := if i > s.last then i else s.last, allocatedMemory := Wrap32(s.allocatedMemory + size))
  }

  /** The second table with `more` empty entries. */
  function GrowExt(s: State, more: nat): State
    requires s.extGiven
  {
    s.(ext := s.ext + EmptyExts(more))
  }

  function GrowMem(s: State, more: nat): State
    requires s.memGiven
  {
    s.(mem := s.mem + EmptySlots(more))
  }

  /** The pointer of the second table is NULL now. */
  function WithoutExt(s: State): State {
    s.(extGiven := false, ext := [])
  }

  /** The pointer of the first table is NULL now; the index of its last used slot stays. */
  function WithoutMem(s: State): State {
    s.(memGiven := false, mem := [])
  }

  function FreeEntry(s: State, block: int, hash: Hash): Option<nat>
    requires s.extGiven && hash(block, |s.ext|) <= |s.ext|
  {
    Probe(ExtCallers(s.ext), hash(block, |s.ext|), NULL)
  }

  ghost function AllocMore(s: State, ci: nat, caller: int, block: int, size: int, room: Room, hash: Hash): (r: (State,
          int))
    requires s.memGiven && ci < |s.mem| && InRange(hash)
  {
    if !s.extGiven && room.extFirst.None? then (s, -1)
    else
      var s1 := if !s.extGiven then s.(extGiven := true, ext := EmptyExts(room.extFirst.value)) else s;
      var e1 := FreeEntry(s1, block, hash);
      if e1.Some? then (Extend(s1, ci, e1.value, caller, block, size), 0)
      else if room.extMore.None? then (WithoutExt(s1), -1)
      else
        var s2 := GrowExt(s1, room.extMore.value);
        var e2 := FreeEntry(s2, block, hash);
        if e2.Some? then (Extend(s2, ci, e2.value, caller, block, size), 0) else (s2, -1)
  }

  function AllocFirst(s: State, caller: int, block: int, size: int, line: int, room: Room): (r: (State, int))
    requires s.memGiven
  {
    var i1 := IndexOf(Callers(s.mem), 0, |s.mem|, NULL);
    if i1.Some? then (Occupy(s, i1.value, caller, block, size, line), 0)
    else if room.memMore.None? then (WithoutMem(s), -1)
    else
      var s2 := GrowMem(s, room.memMore.value);
      var i2 := IndexOf(Callers(s2.mem), 0, |s2.mem|, NULL);
      if i2.Some? then (Occupy(s2, i2.value, caller, block, size, line), 0) else (s2, -1)
  }

  /** A usable first table when there was none. */
  predicate RoomOk(room: Room) {
    room.memFirst.Some? ==> room.memFirst.value > 0
  }

  ghost function AllocGiven(s: State, caller: int, block: int, size: int, line: int, room: Room, hash: Hash)
    : (r: (State, int))
    requires Shaped(s) && s.memGiven && InRange(hash)
  {
    var ci := IndexOf(Callers(s.mem), 0, s.last + 1, caller);
    if ci.Some? then AllocMore(s, ci.value, caller, block, size, room, hash)
    else AllocFirst(s, caller, block, size, line, room)
  }

  /** ns_dyn_mem_tracker_lib_alloc */
  ghost function Alloc(s: State, caller: int, block: int, size: int, line: int, room: Room, hash: Hash): (r: (State,
          int))
    requires Shaped(s) && (!s.memGiven ==> s.last == 0) && RoomOk(room) && InRange(hash)
  {
    if block == NULL then (s, 0)
    else if !s.memGiven && room.memFirst.None? then (s, -1)
    else
      var s1 := if !s.memGiven then s.(memGiven := true, mem := EmptySlots(room.memFirst.value)) else s;
      AllocGiven(s1, caller, block, size, line, room, hash)
  }

  // ---------- one call of free ----------

  /** A slot after its own block has gone: the whole slot is cleared with its last block. */
  function Released(m: Slot): Slot {
    var kept := if m.refCount <= 1 then m.(refCount := 0, caller := NULL, total := 0, line := 0)
                else m.(refCount := m.refCount - 1, total := Wrap32(m.total - m.size));
    kept.(block := NULL, size := 0, lifetime := 0)
  }

  function FreeOwn(s: State, i: nat): State
    requires s.memGiven && i < |s.mem|
  {
    s.(mem := s.mem[i := Released(s.mem[i])],
       allocatedMemory := Wrap32(s.allocatedMemory - s.mem[i].size))
  }

  /** One block less for the caller of a slot. */
  function Discharged(m: Slot, size: int): Slot {
    m.(refCount := m.refCount - 1, total := Wrap32(m.total - size))
  }

  /** What lines 205-218 do to slot `at`: its lifetime restarts, and it is cleared if nothing refers to it. */
  function Tidy(mem: seq<Slot>, at: nat): seq<Slot>
    requires at < |mem|
  {
    mem[at := if mem[at].refCount == 0 then EMPTY_SLOT else mem[at].(lifetime := 0)]
  }

  /** Entry ei of the second table goes; the tidying then looks at slot 0, whoever the caller was. */
  function FreeExt(s: State, ei: nat, ci: nat): State
    requires s.memGiven && s.extGiven && ci < |s.mem| && ei < |s.ext|
  {
    var size := s.ext[ei].size;
    s.(mem := Tidy(s.mem[ci := Discharged(s.mem[ci], size)], 0), ext := s.ext[ei := EMPTY_EXT],
       allocatedMemory := Wrap32(s.allocatedMemory - size))
  }

  /** ns_dyn_mem_tracker_lib_free */
  ghost function Free(s: State, block: int, hash: Hash): (r: (State, int))
    requires Shaped(s) && InRange(hash)
  {
    if block == NULL || !s.memGiven then (s, 0)
    else
      var own := IndexOf(Blocks(s.mem), 0, s.last + 1, block);
      if own.Some? then (FreeOwn(s, own.value), 0)
      else if !s.extGiven then (s, -1)
      else
        var ei := Probe(ExtBlocks(s.ext), hash(block, |s.ext|), block);
        if ei.None? then (s, -1)
        else
          var ci := IndexOf(Callers(s.mem), 0, s.last + 1, s.ext[ei.value].caller);
          if ci.None? then (s, -1) else (FreeExt(s, ei.value, ci.value), 0)
  }

  // ---------- the blocks that are tracked ----------

  function CountOf(live: seq<Ext>, caller: int): nat {
    if live == [] then 0
    else CountOf(live[..|live| - 1], caller) + if live[|live| - 1].caller == caller then 1 else 0
  }

  function SizeOf(live: seq<Ext>, caller: int): int {
    if live == [] then 0
    else SizeOf(live[..|live| - 1], caller) + if live[|live| - 1].caller == caller then live[|live| - 1].size else 0
  }

  function SumOf(live: seq<Ext>): int {
    if live == [] then 0 else SumOf(live[..|live| - 1]) + live[|live| - 1].size
  }

  /** Different blocks, none of them NULL or without a caller. */
  ghost predicate Distinct(live: seq<Ext>) {
    (forall x :: x in live ==> x.block != NULL && x.caller != NULL) &&
    (forall i, j :: 0 <= i < j < |live| ==> live[i].block != live[j].block)
  }

  function Without(live: seq<Ext>, k: nat): seq<Ext>
    requires k < |live|
  {
    live[..k] + live[k + 1..]
  }

  lemma SumsAppend(live: seq<Ext>, x: Ext, caller: int)
    ensures CountOf(live + [x], caller) == CountOf(live, caller) + if x.caller == caller then 1 else 0
    ensures SizeOf(live + [x], caller) == SizeOf(live, caller) + if x.caller == caller then x.size else 0
    ensures SumOf(live + [x]) == SumOf(live) + x.size
  {
    assert (live + [x])[..|live|] == live;
  }

  lemma {:induction false} SumsWithout(live: seq<Ext>, k: nat, caller: int)
    requires k < |live|
    ensures CountOf(Without(live, k), caller) == CountOf(live, caller) - if live[k].caller == caller then 1 else 0
    ensures SizeOf(Without(live, k), caller) == SizeOf(live, caller) - if live[k].caller == caller then live[k].size else 0
    ensures SumOf(Without(live, k)) == SumOf(live) - live[k].size
    decreases |live|
  {
    var n := |live| - 1;
    if k == n {
      assert Without(live, k) == live[..n];
    } else {
      SumsWithout(live[..n], k, caller);
      assert Without(live, k)[..n - 1] == Without(live[..n], k);
    }
  }

  lemma {:induction false} CountZero(live: seq<Ext>, caller: int)
    ensures CountOf(live, caller) == 0 <==> forall x :: x in live ==> x.caller != caller
  {
    if live != [] {
      var rest, x := live[..|live| - 1], live[|live| - 1];
      CountZero(rest, caller);
      assert live == rest + [x];
    }
  }

  lemma InWithout(live: seq<Ext>, k: nat, x: Ext)
    requires k < |live| && Distinct(live)
    ensures x in Without(live, k) <==> x in live && x.block != live[k].block
    ensures Distinct(Without(live, k))
  {
    var w := Without(live, k);
    assert forall i :: 0 <= i < |w| ==> w[i] == live[if i < k then i else i + 1];
    if x in live && x.block != live[k].block {
      var i :| 0 <= i < |live| && live[i] == x;
      assert w[if i < k then i else i - 1] == x;
    }
  }

  // ---------- the accounting ----------

  /** A slot's own block as a record. */
  function Own(m: Slot): Ext { Ext(m.block, m.caller, m.size) }

  /** Two slots with different callers and different own blocks. */
  predicate Apart(m: Slot, n: Slot) {
    (m.caller != NULL ==> m.caller != n.caller) && (m.block != NULL ==> m.block != n.block)
  }

  ghost predicate AllApart(mem: seq<Slot>) {
    forall i, j {:trigger Apart(mem[i], mem[j])} :: 0 <= i < j < |mem| ==> Apart(mem[i], mem[j])
  }

  /** The first table: empty slots hold nothing, and callers and own blocks are never repeated. */
  ghost predicate SlotsOk(mem: seq<Slot>, last: nat) {
    AllApart(mem) &&
    forall i :: 0 <= i < |mem| ==>
      (mem[i].caller == NULL ==> mem[i].block == NULL) && (mem[i].block == NULL ==> mem[i].size == 0) &&
      (last < i ==> mem[i].caller == NULL)
  }

  /** Two blocks that are not the same one, unless NULL. */
  predicate Differ(b: int, c: int) { b != NULL ==> b != c }

  /** The second table: an entry is free as a whole, and blocks are never repeated, also across tables. */
  ghost predicate ExtsOk(mem: seq<Slot>, ext: seq<Ext>) {
    (forall j :: 0 <= j < |ext| ==> (ext[j].caller == NULL <==> ext[j].block == NULL)) &&
    (forall i, j {:trigger Differ(ext[i].block, ext[j].block)} ::
       0 <= i < j < |ext| ==> Differ(ext[i].block, ext[j].block)) &&
    (forall i, j {:trigger Differ(mem[i].block, ext[j].block)} ::
       0 <= i < |mem| && 0 <= j < |ext| ==> Differ(mem[i].block, ext[j].block))
  }

  ghost predicate Listed(mem: seq<Slot>, ext: seq<Ext>, block: int) {
    block in Blocks(mem) || block in ExtBlocks(ext)
  }

  ghost predicate HasSlot(mem: seq<Slot>, caller: int) {
    caller in Callers(mem)
  }

  /** Being listed and having a slot carry over to a table with that slot or entry. */
  lemma StaysListed(mem: seq<Slot>, ext: seq<Ext>, mem2: seq<Slot>, ext2: seq<Ext>, block: int)
    requires Listed(mem, ext, block) && |mem| <= |mem2| && |ext| <= |ext2|
    requires forall i :: 0 <= i < |mem| && mem[i].block == block ==> mem2[i].block == block
    requires forall j :: 0 <= j < |ext| && ext[j].block == block ==> ext2[j].block == block
    ensures Listed(mem2, ext2, block)
  {
    if block in Blocks(mem) {
      var i :| 0 <= i < |mem| && Blocks(mem)[i] == block;
      assert Blocks(mem2)[i] == block;
    } else {
      var j :| 0 <= j < |ext| && ExtBlocks(ext)[j] == block;
      assert ExtBlocks(ext2)[j] == block;
    }
  }

  lemma KeepsSlot(mem: seq<Slot>, mem2: seq<Slot>, caller: int)
    requires HasSlot(mem, caller) && |mem| <= |mem2|
    requires forall i :: 0 <= i < |mem| && mem[i].caller == caller ==> mem2[i].caller == caller
    ensures HasSlot(mem2, caller)
  {
    var i :| 0 <= i < |mem| && Callers(mem)[i] == caller;
    assert Callers(mem2)[i] == caller;
  }

  /** A place in a table holds nothing or a live block. */
  ghost predicate Tracked(x: Ext, live: seq<Ext>) {
    x.block != NULL ==> x in live
  }

  /** A slot accounts for all the live blocks of its caller. */
  ghost predicate Accounted(m: Slot, live: seq<Ext>) {
    m.caller != NULL ==> m.refCount == CountOf(live, m.caller) && m.total == Wrap32(SizeOf(live, m.caller))
  }

  /** The tables hold exactly the live blocks, with their callers and sizes. */
  ghost predicate HoldLive(mem: seq<Slot>, ext: seq<Ext>, live: seq<Ext>) {
    (forall i {:trigger Tracked(Own(mem[i]), live)} :: 0 <= i < |mem| ==> Tracked(Own(mem[i]), live)) &&
    (forall j {:trigger Tracked(ext[j], live)} :: 0 <= j < |ext| ==> Tracked(ext[j], live)) &&
    (forall x {:trigger Listed(mem, ext, x.block)} :: x in live ==> Listed(mem, ext, x.block))
  }

  /** Each caller's slot has the count and the sum over its blocks, wherever they are listed. */
  ghost predicate Accounts(mem: seq<Slot>, live: seq<Ext>) {
    (forall i {:trigger Accounted(mem[i], live)} :: 0 <= i < |mem| ==> Accounted(mem[i], live)) &&
    (forall x {:trigger HasSlot(mem, x.caller)} :: x in live ==> HasSlot(mem, x.caller))
  }

  ghost predicate Tables(mem: seq<Slot>, ext: seq<Ext>, last: nat, live: seq<Ext>) {
    Distinct(live) && SlotsOk(mem, last) && ExtsOk(mem, ext) && HoldLive(mem, ext, live) && Accounts(mem, live)
  }

  ghost predicate Inv(s: State, live: seq<Ext>) {
    Shaped(s) && (!s.memGiven ==> s.mem == [] && s.last == 0 && !s.extGiven) && (!s.extGiven ==> s.ext == []) &&
    Tables(s.mem, s.ext, s.last, live) && s.allocatedMemory == Wrap32(SumOf(live))
  }

  lemma WrapAddSub(x: int, d: int)
    ensures Wrap32(Wrap32(x) + d) == Wrap32(x + d) && Wrap32(Wrap32(x) - d) == Wrap32(x - d)
  {
    var q, y := x / 0x1_0000_0000, Wrap32(x);
    assert x == 0x1_0000_0000 * q + y;
    ModShift(y + d, q);
    ModShift(y - d, q);
  }

  lemma WrapSum(x: int, d: int, y: int)
    requires y == x + d
    ensures Wrap32(Wrap32(x) + d) == Wrap32(y)
  {
    WrapAddSub(x, d);
  }

  lemma ModShift(a: int, q: int)
    ensures Wrap32(a + 0x1_0000_0000 * q) == Wrap32(a)
  {
  }

  lemma SumGrows(live: seq<Ext>, x: Ext)
    ensures Wrap32(Wrap32(SumOf(live)) + x.size) == Wrap32(SumOf(live + [x]))
  {
    SumsAppend(live, x, x.caller);
    WrapSum(SumOf(live), x.size, SumOf(live + [x]));
  }

  lemma SumShrinks(live: seq<Ext>, k: nat)
    requires k < |live|
    ensures Wrap32(Wrap32(SumOf(live)) - live[k].size) == Wrap32(SumOf(Without(live, k)))
  {
    SumsWithout(live, k, live[k].caller);
    WrapSum(SumOf(live), -live[k].size, SumOf(Without(live, k)));
  }

  // ---------- what every step keeps ----------

  lemma MoreSlots(mem: seq<Slot>, ext: seq<Ext>, last: nat, live: seq<Ext>, more: nat)
    requires Tables(mem, ext, last, live)
    ensures Tables(mem + EmptySlots(more), ext, last, live)
  {
    var mem2 := mem + EmptySlots(more);
    assert forall i :: 0 <= i < |mem2| ==> mem2[i] == if i < |mem| then mem[i] else EMPTY_SLOT;
    forall i | 0 <= i < |mem2| ensures Tracked(Own(mem2[i]), live) && Accounted(mem2[i], live) {
      if i < |mem| {
        assert Tracked(Own(mem[i]), live) && Accounted(mem[i], live);
      }
    }
    forall i, j | 0 <= i < j < |mem2| ensures Apart(mem2[i], mem2[j]) {
      if j < |mem| {
        assert Apart(mem[i], mem[j]);
      }
    }
    forall i, j | 0 <= i < |mem2| && 0 <= j < |ext| ensures Differ(mem2[i].block, ext[j].block) {
      if i < |mem| {
        assert Differ(mem[i].block, ext[j].block);
      }
    }
    forall x | x in live ensures Listed(mem2, ext, x.block) && HasSlot(mem2, x.caller) {
      assert Listed(mem, ext, x.block) && HasSlot(mem, x.caller);
      StaysListed(mem, ext, mem2, ext, x.block);
      KeepsSlot(mem, mem2, x.caller);
    }
  }

  lemma MoreExts(mem: seq<Slot>, ext: seq<Ext>, live: seq<Ext>, more: nat)
    requires ExtsOk(mem, ext) && HoldLive(mem, ext, live)
    ensures ExtsOk(mem, ext + EmptyExts(more)) && HoldLive(mem, ext + EmptyExts(more), live)
  {
    var ext2 := ext + EmptyExts(more);
    assert forall i :: 0 <= i < |ext2| ==> ext2[i] == if i < |ext| then ext[i] else EMPTY_EXT;
    forall i | 0 <= i < |ext2| ensures Tracked(ext2[i], live) {
      if i < |ext| {
        assert Tracked(ext[i], live);
      }
    }
    forall i, j | 0 <= i < j < |ext2| ensures Differ(ext2[i].block, ext2[j].block) {
      if j < |ext| {
        assert Differ(ext[i].block, ext[j].block);
      }
    }
    forall i, j | 0 <= i < |mem| && 0 <= j < |ext2| ensures Differ(mem[i].block, ext2[j].block) {
      if j < |ext| {
        assert Differ(mem[i].block, ext[j].block);
      }
    }
    forall x | x in live ensures Listed(mem, ext2, x.block) {
      assert Listed(mem, ext, x.block);
      StaysListed(mem, ext, mem, ext2, x.block);
    }
  }

  ghost predicate Fresh(live: seq<Ext>, block: int) {
    block != NULL && forall x :: x in live ==> x.block != block
  }

  /** The same blocks, callers and sizes: only counters differ. */
  ghost predicate SameOwners(mem: seq<Slot>, mem2: seq<Slot>) {
    |mem| == |mem2| && forall i :: 0 <= i < |mem| ==> Own(mem2[i]) == Own(mem[i])
  }

  lemma CountersOnly(mem: seq<Slot>, mem2: seq<Slot>, ext: seq<Ext>, live: seq<Ext>, last: nat)
    requires SameOwners(mem, mem2) && SlotsOk(mem, last) && ExtsOk(mem, ext) && HoldLive(mem, ext, live)
    ensures SlotsOk(mem2, last) && ExtsOk(mem2, ext) && HoldLive(mem2, ext, live)
  {
    assert forall i :: 0 <= i < |mem| ==> Own(mem2[i]) == Own(mem[i]);
    forall i | 0 <= i < |mem| ensures Tracked(Own(mem2[i]), live) {
      assert Tracked(Own(mem[i]), live);
    }
    forall i, j | 0 <= i < j < |mem| ensures Apart(mem2[i], mem2[j]) {
      assert Apart(mem[i], mem[j]);
    }
    forall i, j | 0 <= i < |mem| && 0 <= j < |ext| ensures Differ(mem2[i].block, ext[j].block) {
      assert Differ(mem[i].block, ext[j].block);
    }
    forall x | x in live ensures Listed(mem2, ext, x.block) {
      assert Listed(mem, ext, x.block);
      StaysListed(mem, ext, mem2, ext, x.block);
    }
  }

  lemma ExtAdded(mem: seq<Slot>, ext: seq<Ext>, live: seq<Ext>, ei: nat, x: Ext)
    requires ExtsOk(mem, ext) && HoldLive(mem, ext, live) && ei < |ext| && ext[ei].caller == NULL
    requires Distinct(live) && Fresh(live, x.block) && x.caller != NULL
    ensures ExtsOk(mem, ext[ei := x]) && HoldLive(mem, ext[ei := x], live + [x])
  {
    var ext2 := ext[ei := x];
    assert forall j :: 0 <= j < |ext2| ==> ext2[j] == if j == ei then x else ext[j];
    assert forall y :: y in live + [x] <==> y in live || y == x;
    forall i, j | 0 <= i < j < |ext| ensures Differ(ext2[i].block, ext2[j].block) {
      assert Differ(ext[i].block, ext[j].block) && Tracked(ext[i], live) && Tracked(ext[j], live);
    }
    forall i, j | 0 <= i < |mem| && 0 <= j < |ext| ensures Differ(mem[i].block, ext2[j].block) {
      assert Differ(mem[i].block, ext[j].block) && Tracked(Own(mem[i]), live);
    }
    forall i | 0 <= i < |mem| ensures Tracked(Own(mem[i]), live + [x]) {
      assert Tracked(Own(mem[i]), live);
    }
    forall j | 0 <= j < |ext| ensures Tracked(ext2[j], live + [x]) {
      assert Tracked(ext[j], live);
    }
    assert ExtBlocks(ext2)[ei] == x.block;
    forall y | y in live ensures Listed(mem, ext2, y.block) {
      assert Listed(mem, ext, y.block);
      StaysListed(mem, ext, mem, ext2, y.block);
    }
  }

  lemma DistinctAppend(live: seq<Ext>, x: Ext)
    requires Distinct(live) && Fresh(live, x.block) && x.caller != NULL
    ensures Distinct(live + [x])
  {
    assert forall y :: y in live + [x] <==> y in live || y == x;
    assert forall i :: 0 <= i < |live| ==> live[i] in live;
  }

  lemma ExtendTables(mem: seq<Slot>, ext: seq<Ext>, last: nat, live: seq<Ext>, ci: nat, ei: nat, x: Ext)
    requires Tables(mem, ext, last, live) && ci < |mem| && ei < |ext| && ext[ei].caller == NULL
    requires Fresh(live, x.block) && x.caller != NULL && mem[ci].caller == x.caller
    ensures Tables(mem[ci := Charged(mem[ci], x.size)], ext[ei := x], last, live + [x])
  {
    DistinctAppend(live, x);
    ExtAdded(mem, ext, live, ei, x);
    CountersOnly(mem, mem[ci := Charged(mem[ci], x.size)], ext[ei := x], live + [x], last);
    ExtendAccounts(mem, live, ci, x);
  }

  lemma ExtendKeeps(s: State, live: seq<Ext>, ci: nat, ei: nat, caller: int, block: int, size: int) returns (s': State)
    requires Inv(s, live) && s.memGiven && s.extGiven && ci < |s.mem| && ei < |s.ext|
    requires Fresh(live, block) && caller != NULL && s.mem[ci].caller == caller && s.ext[ei].caller == NULL
    ensures s' == Extend(s, ci, ei, caller, block, size) && Inv(s', live + [Ext(block, caller, size)])
  {
    var x := Ext(block, caller, size);
    SumGrows(live, x);
    ExtendTables(s.mem, s.ext, s.last, live, ci, ei, x);
    s' := Extend(s, ci, ei, caller, block, size);
  }

  /** At most one slot belongs to a caller. */
  lemma OneSlot(mem: seq<Slot>, i: nat, j: nat)
    requires AllApart(mem) && i < |mem| && j < |mem| && mem[i].caller == mem[j].caller != NULL
    ensures i == j
  {
    assert i < j ==> Apart(mem[i], mem[j]);
    assert j < i ==> Apart(mem[j], mem[i]);
  }

  lemma ExtendAccounts(mem: seq<Slot>, live: seq<Ext>, ci: nat, x: Ext)
    requires Accounts(mem, live) && ci < |mem| && mem[ci].caller == x.caller != NULL
    requires AllApart(mem)
    ensures Accounts(mem[ci := Charged(mem[ci], x.size)], live + [x])
  {
    var mem2 := mem[ci := Charged(mem[ci], x.size)];
    forall i | 0 <= i < |mem| ensures Accounted(mem2[i], live + [x]) {
      assert Accounted(mem[i], live);
      SumsAppend(live, x, mem2[i].caller);
      WrapAddSub(SizeOf(live, mem2[i].caller), x.size);
      if mem[i].caller == x.caller {
        OneSlot(mem, i, ci);
      }
    }
    forall y | y in live + [x] ensures HasSlot(mem2, y.caller) {
      assert Callers(mem)[ci] == x.caller;
      assert y in live || y == x;
      assert HasSlot(mem, y.caller);
      KeepsSlot(mem, mem2, y.caller);
    }
  }

  /** A caller without a slot has no live block. */
  lemma NoSlotNoBlock(mem: seq<Slot>, live: seq<Ext>, caller: int)
    requires Accounts(mem, live) && caller !in Callers(mem)
    ensures CountOf(live, caller) == 0 && SizeOf(live, caller) == 0
  {
    forall x | x in live ensures x.caller != caller {
      assert HasSlot(mem, x.caller);
    }
    CountZero(live, caller);
    SizeZero(live, caller);
  }

  lemma {:induction false} SizeZero(live: seq<Ext>, caller: int)
    requires forall x :: x in live ==> x.caller != caller
    ensures SizeOf(live, caller) == 0
  {
    if live != [] {
      var rest, x := live[..|live| - 1], live[|live| - 1];
      assert live == rest + [x];
      SizeZero(rest, caller);
    }
  }

  lemma OccupyAccounts(mem: seq<Slot>, live: seq<Ext>, i: nat, m: Slot)
    requires Accounts(mem, live) && i < |mem| && mem[i].caller == NULL && m.caller != NULL
    requires m.caller !in Callers(mem) && m.refCount == 1 && m.total == Wrap32(m.size) && Distinct(live)
    ensures Accounts(mem[i := m], live + [Own(m)])
  {
    var mem2, x := mem[i := m], Own(m);
    NoSlotNoBlock(mem, live, m.caller);
    forall k | 0 <= k < |mem| ensures Accounted(mem2[k], live + [x]) {
      assert Accounted(mem[k], live);
      SumsAppend(live, x, mem2[k].caller);
      assert k != i ==> Callers(mem)[k] == mem2[k].caller;
    }
    assert Callers(mem2)[i] == m.caller;
    forall y | y in live + [x] ensures HasSlot(mem2, y.caller) {
      if y != x {
        assert y in live && HasSlot(mem, y.caller);
        KeepsSlot(mem, mem2, y.caller);
      }
    }
  }

  lemma SlotAdded(mem: seq<Slot>, ext: seq<Ext>, live: seq<Ext>, last: nat, i: nat, m: Slot)
    requires SlotsOk(mem, last) && ExtsOk(mem, ext) && HoldLive(mem, ext, live)
    requires i < |mem| && mem[i].caller == NULL && m.caller != NULL
    requires m.caller !in Callers(mem) && Distinct(live) && Fresh(live, m.block)
    ensures SlotsOk(mem[i := m], if i > last then i else last) && ExtsOk(mem[i := m], ext)
    ensures HoldLive(mem[i := m], ext, live + [Own(m)])
  {
    var mem2, x := mem[i := m], Own(m);
    assert forall k :: 0 <= k < |mem| ==> mem2[k] == if k == i then m else mem[k];
    assert forall k :: 0 <= k < |mem| ==> Callers(mem)[k] == mem[k].caller && mem[k].caller != m.caller;
    assert forall y :: y in live + [x] <==> y in live || y == x;
    forall k | 0 <= k < |mem| ensures Tracked(Own(mem2[k]), live + [x]) && mem[k].block != m.block {
      assert Tracked(Own(mem[k]), live);
    }
    forall j | 0 <= j < |ext| ensures Tracked(ext[j], live + [x]) && ext[j].block != m.block {
      assert Tracked(ext[j], live);
    }
    forall k, j | 0 <= k < j < |mem| ensures Apart(mem2[k], mem2[j]) {
      assert Apart(mem[k], mem[j]);
    }
    forall k, j | 0 <= k < |mem| && 0 <= j < |ext| ensures Differ(mem2[k].block, ext[j].block) {
      assert Differ(mem[k].block, ext[j].block);
    }
    assert Blocks(mem2)[i] == m.block;
    forall y | y in live ensures Listed(mem2, ext, y.block) {
      assert Listed(mem, ext, y.block);
      StaysListed(mem, ext, mem2, ext, y.block);
    }
  }

  lemma OccupyTables(mem: seq<Slot>, ext: seq<Ext>, last: nat, live: seq<Ext>, i: nat, m: Slot)
    requires Tables(mem, ext, last, live) && i < |mem| && mem[i].caller == NULL
    requires m.caller != NULL && m.caller !in Callers(mem) && Fresh(live, m.block)
    requires m.refCount == 1 && m.total == Wrap32(m.size)
    ensures Tables(mem[i := m], ext, if i > last then i else last, live + [Own(m)])
  {
    DistinctAppend(live, Own(m));
    OccupyAccounts(mem, live, i, m);
    SlotAdded(mem, ext, live, last, i, m);
  }

  lemma OccupyKeeps(s: State, live: seq<Ext>, i: nat, caller: int, block: int, size: int, line: int) returns (s': State)
    requires Inv(s, live) && s.memGiven && i < |s.mem| && s.mem[i].caller == NULL
    requires Fresh(live, block) && caller != NULL && caller !in Callers(s.mem) && 0 <= size < 0x1_0000_0000
    ensures s' == Occupy(s, i, caller, block, size, line) && Inv(s', live + [Ext(block, caller, size)])
  {
    var m := Slot(block, caller, size, size, 1, line % 0x1_0000, 0);
    SumGrows(live, Own(m));
    OccupyTables(s.mem, s.ext, s.last, live, i, m);
    s' := Occupy(s, i, caller, block, size, line);
  }

  lemma CountPositive(live: seq<Ext>, k: nat)
    requires k < |live|
    ensures CountOf(live, live[k].caller) > 0
  {
    CountZero(live, live[k].caller);
    assert live[k] in live;
  }

  lemma ReleasedAccounts(mem: seq<Slot>, live: seq<Ext>, i: nat, k: nat)
    requires Accounts(mem, live) && Distinct(live) && i < |mem| && k < |live| && live[k] == Own(mem[i])
    requires AllApart(mem)
    ensures Accounts(mem[i := Released(mem[i])], Without(live, k))
  {
    var m, mem2, live2 := mem[i], mem[i := Released(mem[i])], Without(live, k);
    assert live[k] in live;
    CountPositive(live, k);
    forall j | 0 <= j < |mem| ensures Accounted(mem2[j], live2) {
      assert Accounted(mem[j], live);
      SumsWithout(live, k, mem2[j].caller);
      WrapAddSub(SizeOf(live, mem2[j].caller), m.size);
      if mem[j].caller == m.caller {
        OneSlot(mem, i, j);
      }
    }
    SumsWithout(live, k, m.caller);
    CountZero(live2, m.caller);
    assert Accounted(m, live);
    forall x | x in live2 ensures HasSlot(mem2, x.caller) {
      InWithout(live, k, x);
      assert HasSlot(mem, x.caller);
      KeepsSlot(mem, mem2, x.caller);
    }
  }

  lemma ReleasedHolds(mem: seq<Slot>, ext: seq<Ext>, last: nat, live: seq<Ext>, i: nat, k: nat)
    requires SlotsOk(mem, last) && ExtsOk(mem, ext) && HoldLive(mem, ext, live) && Distinct(live)
    requires i < |mem| && k < |live| && live[k] == Own(mem[i]) && mem[i].block != NULL
    ensures SlotsOk(mem[i := Released(mem[i])], last) && ExtsOk(mem[i := Released(mem[i])], ext)
    ensures HoldLive(mem[i := Released(mem[i])], ext, Without(live, k))
  {
    var mem2 := mem[i := Released(mem[i])];
    assert forall j :: 0 <= j < |mem| ==> mem2[j] == if j == i then Released(mem[i]) else mem[j];
    forall p, q | 0 <= p < q < |mem| ensures Apart(mem2[p], mem2[q]) {
      assert Apart(mem[p], mem[q]);
    }
    forall p, q | 0 <= p < |mem| && 0 <= q < |ext| ensures Differ(mem2[p].block, ext[q].block) {
      assert Differ(mem[p].block, ext[q].block);
    }
    forall j | 0 <= j < |mem| ensures Tracked(Own(mem2[j]), Without(live, k)) {
      assert Tracked(Own(mem[j]), live);
      assert j < i ==> Apart(mem[j], mem[i]);
      assert i < j ==> Apart(mem[i], mem[j]);
      InWithout(live, k, Own(mem[j]));
    }
    forall j | 0 <= j < |ext| ensures Tracked(ext[j], Without(live, k)) {
      assert Tracked(ext[j], live);
      assert Differ(mem[i].block, ext[j].block);
      InWithout(live, k, ext[j]);
    }
    forall x | x in Without(live, k) ensures Listed(mem2, ext, x.block) {
      InWithout(live, k, x);
      assert Listed(mem, ext, x.block);
      StaysListed(mem, ext, mem2, ext, x.block);
    }
  }

  lemma ReleaseTables(mem: seq<Slot>, ext: seq<Ext>, last: nat, live: seq<Ext>, i: nat, k: nat)
    requires Tables(mem, ext, last, live)
    requires i < |mem| && k < |live| && live[k] == Own(mem[i]) && mem[i].block != NULL
    ensures Tables(mem[i := Released(mem[i])], ext, last, Without(live, k))
  {
    InWithout(live, k, live[k]);
    ReleasedAccounts(mem, live, i, k);
    ReleasedHolds(mem, ext, last, live, i, k);
  }

  lemma FreeOwnKeeps(s: State, live: seq<Ext>, i: nat, k: nat) returns (s': State)
    requires Inv(s, live) && s.memGiven && i < |s.mem| && k < |live|
    requires live[k] == Own(s.mem[i]) && s.mem[i].block != NULL
    ensures s' == FreeOwn(s, i) && Inv(s', Without(live, k))
  {
    SumShrinks(live, k);
    ReleaseTables(s.mem, s.ext, s.last, live, i, k);
    s' := FreeOwn(s, i);
  }

  lemma DischargedAccounts(mem: seq<Slot>, live: seq<Ext>, ci: nat, k: nat)
    requires Accounts(mem, live) && Distinct(live) && ci < |mem| && k < |live| && live[k].caller == mem[ci].caller
    requires AllApart(mem)
    ensures Accounts(mem[ci := Discharged(mem[ci], live[k].size)], Without(live, k))
  {
    var mem2, live2 := mem[ci := Discharged(mem[ci], live[k].size)], Without(live, k);
    forall j | 0 <= j < |mem| ensures Accounted(mem2[j], live2) {
      assert Accounted(mem[j], live);
      SumsWithout(live, k, mem2[j].caller);
      WrapAddSub(SizeOf(live, mem2[j].caller), live[k].size);
      if mem[j].caller == mem[ci].caller {
        OneSlot(mem, ci, j);
      }
    }
    forall x | x in live2 ensures HasSlot(mem2, x.caller) {
      InWithout(live, k, x);
      assert HasSlot(mem, x.caller);
      KeepsSlot(mem, mem2, x.caller);
    }
  }

  lemma ExtGone(mem: seq<Slot>, ext: seq<Ext>, live: seq<Ext>, ei: nat, k: nat)
    requires ExtsOk(mem, ext) && HoldLive(mem, ext, live) && Distinct(live)
    requires ei < |ext| && k < |live| && live[k] == ext[ei] && ext[ei].block != NULL
    ensures ExtsOk(mem, ext[ei := EMPTY_EXT]) && HoldLive(mem, ext[ei := EMPTY_EXT], Without(live, k))
  {
    var ext2 := ext[ei := EMPTY_EXT];
    assert forall j :: 0 <= j < |ext| ==> ext2[j] == if j == ei then EMPTY_EXT else ext[j];
    forall i, j | 0 <= i < j < |ext| ensures Differ(ext2[i].block, ext2[j].block) {
      assert Differ(ext[i].block, ext[j].block);
    }
    forall i, j | 0 <= i < |mem| && 0 <= j < |ext| ensures Differ(mem[i].block, ext2[j].block) {
      assert Differ(mem[i].block, ext[j].block);
    }
    forall j | 0 <= j < |mem| ensures Tracked(Own(mem[j]), Without(live, k)) {
      assert Tracked(Own(mem[j]), live);
      assert Differ(mem[j].block, ext[ei].block);
      InWithout(live, k, Own(mem[j]));
    }
    forall j | 0 <= j < |ext| ensures Tracked(ext2[j], Without(live, k)) {
      assert Tracked(ext[j], live);
      assert j < ei ==> Differ(ext[j].block, ext[ei].block);
      assert ei < j ==> Differ(ext[ei].block, ext[j].block);
      InWithout(live, k, ext[j]);
    }
    forall x | x in Without(live, k) ensures Listed(mem, ext2, x.block) {
      InWithout(live, k, x);
      assert Listed(mem, ext, x.block);
      StaysListed(mem, ext, mem, ext2, x.block);
    }
  }

  lemma DischargeTables(mem: seq<Slot>, ext: seq<Ext>, last: nat, live: seq<Ext>, ci: nat, ei: nat, k: nat)
    requires Tables(mem, ext, last, live) && ci < |mem| && ei < |ext| && k < |live|
    requires live[k] == ext[ei] && ext[ei].block != NULL && mem[ci].caller == ext[ei].caller
    ensures Tables(mem[ci := Discharged(mem[ci], ext[ei].size)], ext[ei := EMPTY_EXT], last, Without(live, k))
  {
    InWithout(live, k, live[k]);
    DischargedAccounts(mem, live, ci, k);
    ExtGone(mem, ext, live, ei, k);
    CountersOnly(mem, mem[ci := Discharged(mem[ci], ext[ei].size)], ext[ei := EMPTY_EXT], Without(live, k), last);
  }

  lemma TidyAccounts(mem: seq<Slot>, live: seq<Ext>, at: nat)
    requires Accounts(mem, live) && at < |mem|
    ensures Accounts(Tidy(mem, at), live)
  {
    var mem2 := Tidy(mem, at);
    assert forall j :: 0 <= j < |mem| && j != at ==> mem2[j] == mem[j];
    CountZero(live, mem[at].caller);
    forall j | 0 <= j < |mem| ensures Accounted(mem2[j], live) {
      assert Accounted(mem[j], live);
    }
    assert Accounted(mem[at], live);
    forall x | x in live ensures HasSlot(mem2, x.caller) {
      assert HasSlot(mem, x.caller);
      if mem[at].refCount == 0 && x.caller == mem[at].caller {
        CountZero(live, NULL);
      }
      KeepsSlot(mem, mem2, x.caller);
    }
  }

  /** Clearing a slot to which nothing refers changes no account, even if it is not the caller's slot. */
  lemma TidyTables(mem: seq<Slot>, ext: seq<Ext>, last: nat, live: seq<Ext>, at: nat)
    requires Tables(mem, ext, last, live) && at < |mem|
    ensures Tables(Tidy(mem, at), ext, last, live)
  {
    TidyAccounts(mem, live, at);
    CountZero(live, mem[at].caller);
    assert Accounted(mem[at], live) && Tracked(Own(mem[at]), live);
    if mem[at].refCount == 0 {
      assert mem[at].block == NULL;
      ClearTables(mem, ext, last, live, at);
    } else {
      CountersOnly(mem, Tidy(mem, at), ext, live, last);
    }
  }

  lemma ClearTables(mem: seq<Slot>, ext: seq<Ext>, last: nat, live: seq<Ext>, at: nat)
    requires SlotsOk(mem, last) && ExtsOk(mem, ext) && HoldLive(mem, ext, live)
    requires at < |mem| && mem[at].block == NULL
    ensures SlotsOk(mem[at := EMPTY_SLOT], last) && ExtsOk(mem[at := EMPTY_SLOT], ext)
    ensures HoldLive(mem[at := EMPTY_SLOT], ext, live)
  {
    var mem2 := mem[at := EMPTY_SLOT];
    assert forall j :: 0 <= j < |mem| && j != at ==> mem2[j] == mem[j];
    forall j | 0 <= j < |mem| ensures Tracked(Own(mem2[j]), live) {
      assert Tracked(Own(mem[j]), live);
    }
    forall i, j | 0 <= i < j < |mem| ensures Apart(mem2[i], mem2[j]) {
      assert Apart(mem[i], mem[j]);
    }
    forall i, j | 0 <= i < |mem| && 0 <= j < |ext| ensures Differ(mem2[i].block, ext[j].block) {
      assert Differ(mem[i].block, ext[j].block);
    }
    forall x | x in live ensures Listed(mem2, ext, x.block) {
      assert Listed(mem, ext, x.block);
      StaysListed(mem, ext, mem2, ext, x.block);
    }
  }

  lemma FreeExtKeeps(s: State, live: seq<Ext>, ei: nat, ci: nat, k: nat) returns (s': State)
    requires Inv(s, live) && s.memGiven && s.extGiven && ci < |s.mem| && ei < |s.ext| && k < |live|
    requires live[k] == s.ext[ei] && live[k].block != NULL && s.mem[ci].caller == live[k].caller
    ensures s' == FreeExt(s, ei, ci) && Inv(s', Without(live, k))
  {
    var mem, ext := s.mem, s.ext;
    var mem1, ext1 := mem[ci := Discharged(mem[ci], ext[ei].size)], ext[ei := EMPTY_EXT];
    SumShrinks(live, k);
    DischargeTables(mem, ext, s.last, live, ci, ei, k);
    TidyTables(mem1, ext1, s.last, Without(live, k), 0);
    s' := FreeExt(s, ei, ci);
  }

  // ---------- whole calls and whole runs ----------

  /** The second table is full, and the callback that should grow it would take it away. */
  predicate ExtAtRisk(s: State, room: Room) {
    s.extGiven && s.ext != [] && NULL !in ExtCallers(s.ext) && room.extMore.None?
  }

  predicate MemAtRisk(s: State, room: Room) {
    NULL !in Callers(s.mem) && room.memMore.None?
  }

  /** The call takes the second table away. */
  predicate LosesExt(s: State, caller: int, block: int, room: Room) {
    && block != NULL && s.memGiven && s.last < |s.mem| && IndexOf(Callers(s.mem), 0, s.last + 1, caller).Some?
    && ExtAtRisk(s, room)
  }

  /** The call takes the first table away. */
  predicate LosesMem(s: State, caller: int, block: int, room: Room) {
    && block != NULL && s.memGiven && s.last < |s.mem| && IndexOf(Callers(s.mem), 0, s.last + 1, caller).None?
    && MemAtRisk(s, room)
  }

  predicate Loses(s: State, caller: int, block: int, room: Room) {
    LosesExt(s, caller, block, room) || LosesMem(s, caller, block, room)
  }

  /** Alloc tracks the block exactly when it returns 0 for one, and keeps the accounting unless a callback takes
      a table away. */
  lemma AllocKeeps(s: State, live: seq<Ext>, caller: int, block: int, size: int, line: int, room: Room, hash: Hash)
    returns (s': State, ret: int, live': seq<Ext>)
    requires Inv(s, live) && RoomOk(room) && InRange(hash)
    requires block != NULL ==> Fresh(live, block) && caller != NULL && 0 <= size < 0x1_0000_0000
    ensures (s', ret) == Alloc(s, caller, block, size, line, room, hash) && ret in {0, -1}
    ensures live' == if block != NULL && ret == 0 then live + [Ext(block, caller, size)] else live
    ensures block == NULL ==> s' == s && ret == 0
    ensures !Loses(s, caller, block, room) ==> Inv(s', live')
  {
    if block == NULL {
      return s, 0, live;
    }
    if !s.memGiven && room.memFirst.None? {
      return s, -1, live;
    }
    var s1 := FirstTable(s, live, room);
    if !s.memGiven {
      FreshSlots(room.memFirst.value, caller);
    }
    s', ret, live' := AllocGivenKeeps(s1, live, caller, block, size, line, room, hash);
  }

  lemma AllocGivenKeeps(s: State, live: seq<Ext>, caller: int, block: int, size: int, line: int, room: Room, hash: Hash)
    returns (s': State, ret: int, live': seq<Ext>)
    requires Inv(s, live) && InRange(hash) && s.memGiven && Fresh(live, block)
    requires caller != NULL && 0 <= size < 0x1_0000_0000
    ensures (s', ret) == AllocGiven(s, caller, block, size, line, room, hash) && ret in {0, -1}
    ensures live' == if ret == 0 then live + [Ext(block, caller, size)] else live
    ensures !Loses(s, caller, block, room) ==> Inv(s', live')
  {
    var ci := IndexOf(Callers(s.mem), 0, s.last + 1, caller);
    if ci.Some? {
      s', ret, live' := AllocKnownKeeps(s, live, ci.value, caller, block, size, line, room, hash);
    } else {
      s', ret, live' := AllocFirstKeeps(s, live, caller, block, size, line, room);
    }
  }

  lemma AllocKnownKeeps(s: State, live: seq<Ext>, ci: nat, caller: int, block: int, size: int, line: int, room: Room,
                        hash: Hash)
    returns (s': State, ret: int, live': seq<Ext>)
    requires Inv(s, live) && InRange(hash) && s.memGiven && Fresh(live, block) && caller != NULL
    requires IndexOf(Callers(s.mem), 0, s.last + 1, caller) == Some(ci)
    ensures (s', ret) == AllocGiven(s, caller, block, size, line, room, hash) && ret in {0, -1}
    ensures live' == if ret == 0 then live + [Ext(block, caller, size)] else live
    ensures !ExtAtRisk(s, room) ==> Inv(s', live')
  {
    KnownCaller(s, ci, caller, block, size, line, room, hash);
    s', ret, live' := AllocMoreKeeps(s, live, ci, caller, block, size, room, hash);
  }

  lemma KnownCaller(s: State, ci: nat, caller: int, block: int, size: int, line: int, room: Room, hash: Hash)
    requires Shaped(s) && s.memGiven && InRange(hash)
    requires IndexOf(Callers(s.mem), 0, s.last + 1, caller) == Some(ci)
    ensures ci < |s.mem| && s.mem[ci].caller == caller
    ensures AllocGiven(s, caller, block, size, line, room, hash) == AllocMore(s, ci, caller, block, size, room, hash)
  {
  }

  lemma FirstTable(s: State, live: seq<Ext>, room: Room) returns (s': State)
    requires Inv(s, live) && RoomOk(room) && (s.memGiven || room.memFirst.Some?)
    ensures s' == if !s.memGiven then s.(memGiven := true, mem := EmptySlots(room.memFirst.value)) else s
    ensures Inv(s', live)
  {
    s' := s;
    if !s.memGiven {
      var n := room.memFirst.value;
      s' := s.(memGiven := true, mem := EmptySlots(n));
      MoreSlots(s.mem, s.ext, s.last, live, n);
      assert s.mem + EmptySlots(n) == EmptySlots(n);
    }
  }

  lemma AllocMoreKeeps(s: State, live: seq<Ext>, ci: nat, caller: int, block: int, size: int, room: Room, hash: Hash)
    returns (s': State, ret: int, live': seq<Ext>)
    requires Inv(s, live) && InRange(hash) && s.memGiven && ci < |s.mem| && s.mem[ci].caller == caller
    requires Fresh(live, block) && caller != NULL
    ensures (s', ret) == AllocMore(s, ci, caller, block, size, room, hash) && ret in {0, -1}
    ensures live' == if ret == 0 then live + [Ext(block, caller, size)] else live
    ensures !ExtAtRisk(s, room) ==> Inv(s', live')
  {
    if !s.extGiven && room.extFirst.None? {
      return s, -1, live;
    }
    var s1 := FirstExt(s, live, room);
    var e1 := FreeEntry(s1, block, hash);
    if e1.Some? {
      s' := ExtendKeeps(s1, live, ci, e1.value, caller, block, size);
      return s', 0, live + [Ext(block, caller, size)];
    }
    if room.extMore.None? {
      EmptyTableFull(s1.ext);
      return WithoutExt(s1), -1, live;
    }
    var s2 := GrowExt(s1, room.extMore.value);
    MoreExts(s1.mem, s1.ext, live, room.extMore.value);
    var e2 := FreeEntry(s2, block, hash);
    if e2.Some? {
      s' := ExtendKeeps(s2, live, ci, e2.value, caller, block, size);
      return s', 0, live + [Ext(block, caller, size)];
    }
    return s2, -1, live;
  }

  /** A table of empty entries is full only if it has none. */
  lemma EmptyTableFull(ext: seq<Ext>)
    ensures ext == EmptyExts(|ext|) && ext != [] ==> NULL in ExtCallers(ext)
  {
    if ext == EmptyExts(|ext|) && ext != [] {
      assert ExtCallers(ext)[0] == NULL;
    }
  }

  lemma FirstExt(s: State, live: seq<Ext>, room: Room) returns (s': State)
    requires Inv(s, live) && s.memGiven && (s.extGiven || room.extFirst.Some?)
    ensures s' == if !s.extGiven then s.(extGiven := true, ext := EmptyExts(room.extFirst.value)) else s
    ensures Inv(s', live)
  {
    s' := s;
    if !s.extGiven {
      var n := room.extFirst.value;
      s' := s.(extGiven := true, ext := EmptyExts(n));
      MoreExts(s.mem, s.ext, live, n);
      assert s.ext + EmptyExts(n) == EmptyExts(n);
    }
  }

  lemma AllocFirstKeeps(s: State, live: seq<Ext>, caller: int, block: int, size: int, line: int, room: Room)
    returns (s': State, ret: int, live': seq<Ext>)
    requires Inv(s, live) && s.memGiven && Fresh(live, block) && caller != NULL && 0 <= size < 0x1_0000_0000
    requires IndexOf(Callers(s.mem), 0, s.last + 1, caller).None?
    ensures (s', ret) == AllocFirst(s, caller, block, size, line, room) && ret in {0, -1}
    ensures live' == if ret == 0 then live + [Ext(block, caller, size)] else live
    ensures !MemAtRisk(s, room) ==> Inv(s', live')
  {
    NotACaller(s.mem, s.last, caller);
    var i1 := IndexOf(Callers(s.mem), 0, |s.mem|, NULL);
    if i1.Some? {
      s' := OccupyKeeps(s, live, i1.value, caller, block, size, line);
      return s', 0, live + [Ext(block, caller, size)];
    }
    if room.memMore.None? {
      return WithoutMem(s), -1, live;
    }
    var s2 := GrowMem(s, room.memMore.value);
    MoreSlots(s.mem, s.ext, s.last, live, room.memMore.value);
    NotACallerGrown(s.mem, room.memMore.value, caller);
    var i2 := IndexOf(Callers(s2.mem), 0, |s2.mem|, NULL);
    if i2.Some? {
      s' := OccupyKeeps(s2, live, i2.value, caller, block, size, line);
      return s', 0, live + [Ext(block, caller, size)];
    }
    return s2, -1, live;
  }

  /** The entries a table has gained. */
  function Added(more: Option<nat>): nat {
    if more.None? then 0 else more.value
  }

  /**
    * Alloc returns 0 for a block exactly if there is room: an entry of the second table for a caller that
    * has a slot, a slot for any other, be it free already or gained by growing.
    */
  lemma AllocSucceeds(s: State, live: seq<Ext>, caller: int, block: int, size: int, line: int, room: Room, hash: Hash)
    requires Inv(s, live) && RoomOk(room) && InRange(hash) && block != NULL && caller != NULL
    ensures Alloc(s, caller, block, size, line, room, hash).1 == 0 <==>
              if HasSlot(s.mem, caller) then
                if s.extGiven then NULL in ExtCallers(s.ext) || Added(room.extMore) > 0
                else room.extFirst.Some? && room.extFirst.value + Added(room.extMore) > 0
              else if s.memGiven then NULL in Callers(s.mem) || Added(room.memMore) > 0
              else room.memFirst.Some?
  {
    if s.memGiven {
      if IndexOf(Callers(s.mem), 0, s.last + 1, caller).None? {
        NotACaller(s.mem, s.last, caller);
      }
      GrownCallers(s.mem, Added(room.memMore));
      GrownEntries(s.ext, Added(room.extMore));
      if !s.extGiven && room.extFirst.Some? {
        GrownEntries([], room.extFirst.value);
        GrownEntries(EmptyExts(room.extFirst.value), Added(room.extMore));
        assert [] + EmptyExts(room.extFirst.value) == EmptyExts(room.extFirst.value);
      }
    } else if room.memFirst.Some? {
      FreshSlots(room.memFirst.value, caller);
    }
  }

  lemma GrownCallers(mem: seq<Slot>, more: nat)
    ensures NULL in Callers(mem + EmptySlots(more)) <==> NULL in Callers(mem) || more > 0
  {
    var mem2 := mem + EmptySlots(more);
    if NULL in Callers(mem) {
      var i :| 0 <= i < |mem| && Callers(mem)[i] == NULL;
      assert Callers(mem2)[i] == NULL;
    } else if more > 0 {
      assert Callers(mem2)[|mem|] == NULL;
    }
    if NULL in Callers(mem2) && more == 0 {
      assert mem2 == mem;
    }
  }

  lemma GrownEntries(ext: seq<Ext>, more: nat)
    ensures NULL in ExtCallers(ext + EmptyExts(more)) <==> NULL in ExtCallers(ext) || more > 0
  {
    var ext2 := ext + EmptyExts(more);
    if NULL in ExtCallers(ext) {
      var i :| 0 <= i < |ext| && ExtCallers(ext)[i] == NULL;
      assert ExtCallers(ext2)[i] == NULL;
    } else if more > 0 {
      assert ExtCallers(ext2)[|ext|] == NULL;
    }
    if NULL in ExtCallers(ext2) && more == 0 {
      assert ext2 == ext;
    }
  }

  lemma FreshSlots(n: nat, caller: int)
    requires n > 0 && caller != NULL
    ensures IndexOf(Callers(EmptySlots(n)), 0, 1, caller).None?
    ensures IndexOf(Callers(EmptySlots(n)), 0, n, NULL).Some?
  {
    assert Callers(EmptySlots(n))[0] == NULL;
  }

  /** The search up to the last used slot misses no caller. */
  lemma NotACaller(mem: seq<Slot>, last: nat, caller: int)
    requires SlotsOk(mem, last) && last < |mem| && caller != NULL
    requires IndexOf(Callers(mem), 0, last + 1, caller).None?
    ensures caller !in Callers(mem)
  {
    forall i | 0 <= i < |mem| ensures Callers(mem)[i] != caller {
      assert Callers(mem)[i] == mem[i].caller;
    }
  }

  lemma NotACallerGrown(mem: seq<Slot>, more: nat, caller: int)
    requires caller !in Callers(mem) && caller != NULL
    ensures caller !in Callers(mem + EmptySlots(more))
  {
    forall i | 0 <= i < |mem| + more ensures Callers(mem + EmptySlots(more))[i] != caller {
      if i < |mem| {
        assert Callers(mem)[i] != caller;
      }
    }
  }

  lemma SameRecord(live: seq<Ext>, x: Ext, k: nat)
    requires Distinct(live) && x in live && k < |live| && x.block == live[k].block
    ensures x == live[k]
  {
    var i :| 0 <= i < |live| && live[i] == x;
  }

  /** Where the two searches of free end for a live block. */
  lemma Locate(mem: seq<Slot>, ext: seq<Ext>, last: nat, live: seq<Ext>, k: nat, start: nat)
    requires Tables(mem, ext, last, live) && last < |mem| && k < |live| && start <= |ext|
    ensures var own := IndexOf(Blocks(mem), 0, last + 1, live[k].block);
            var ei := Probe(ExtBlocks(ext), start, live[k].block);
            if own.Some? then Own(mem[own.value]) == live[k]
            else ei.Some? && ext[ei.value] == live[k] && ext != []
    ensures IndexOf(Callers(mem), 0, last + 1, live[k].caller).Some?
  {
    var x := live[k];
    assert x in live && Listed(mem, ext, x.block);
    UsedSlot(mem, live, last, x);
    var own := IndexOf(Blocks(mem), 0, last + 1, x.block);
    if own.Some? {
      assert Tracked(Own(mem[own.value]), live);
      SameRecord(live, Own(mem[own.value]), k);
    } else {
      NoOwnBlock(mem, last, x.block);
      assert Tracked(ext[Probe(ExtBlocks(ext), start, x.block).value], live);
      SameRecord(live, ext[Probe(ExtBlocks(ext), start, x.block).value], k);
    }
  }

  /** Every tracked block is found when it is freed, and exactly its record goes. */
  lemma FreeFinds(s: State, live: seq<Ext>, k: nat, hash: Hash) returns (s': State)
    requires Inv(s, live) && InRange(hash) && k < |live|
    ensures (s', 0) == Free(s, live[k].block, hash) && Inv(s', Without(live, k))
  {
    var x, mem, ext := live[k], s.mem, s.ext;
    assert x in live && HasSlot(mem, x.caller);
    Locate(mem, ext, s.last, live, k, hash(x.block, |ext|));
    var own := IndexOf(Blocks(mem), 0, s.last + 1, x.block);
    if own.Some? {
      s' := FreeOwnKeeps(s, live, own.value, k);
    } else {
      var ei := Probe(ExtBlocks(ext), hash(x.block, |ext|), x.block).value;
      s' := FreeExtKeeps(s, live, ei, IndexOf(Callers(mem), 0, s.last + 1, x.caller).value, k);
    }
  }

  /** A live block's caller has its slot among those that are searched. */
  lemma UsedSlot(mem: seq<Slot>, live: seq<Ext>, last: nat, x: Ext)
    requires SlotsOk(mem, last) && Accounts(mem, live) && Distinct(live) && x in live
    ensures last < |mem| ==> IndexOf(Callers(mem), 0, last + 1, x.caller).Some?
  {
    assert HasSlot(mem, x.caller);
    var i :| 0 <= i < |mem| && Callers(mem)[i] == x.caller;
    assert mem[i].caller == x.caller;
  }

  lemma NoOwnBlock(mem: seq<Slot>, last: nat, block: int)
    requires SlotsOk(mem, last) && last < |mem| && block != NULL
    requires IndexOf(Blocks(mem), 0, last + 1, block).None?
    ensures block !in Blocks(mem)
  {
    forall i | 0 <= i < |mem| ensures Blocks(mem)[i] != block {
      assert Blocks(mem)[i] == mem[i].block;
    }
  }

  lemma NotHeld(mem: seq<Slot>, ext: seq<Ext>, live: seq<Ext>, block: int)
    requires HoldLive(mem, ext, live) && block != NULL && forall x :: x in live ==> x.block != block
    ensures block !in Blocks(mem) && block !in ExtBlocks(ext)
  {
    forall i | 0 <= i < |mem| ensures mem[i].block != block {
      assert Tracked(Own(mem[i]), live);
    }
    forall j | 0 <= j < |ext| ensures ext[j].block != block {
      assert Tracked(ext[j], live);
    }
  }

  /** Freeing anything else changes nothing and is reported, unless it is NULL or nothing was ever tracked. */
  lemma FreeUnknown(s: State, live: seq<Ext>, block: int, hash: Hash)
    requires Inv(s, live) && InRange(hash) && forall x :: x in live ==> x.block != block
    ensures Free(s, block, hash) == (s, if block == NULL || !s.memGiven then 0 else -1)
  {
    if block != NULL && s.memGiven {
      NotHeld(s.mem, s.ext, live, block);
    }
  }

  datatype Op = DoAlloc(caller: int, block: int, size: int, line: int, room: Room) | DoFree(block: int)

  const START := State(false, [], false, [], 0, 0)

  /** The index of the record of a block. */
  function Find(live: seq<Ext>, block: int): Option<nat> {
    IndexOf(ExtBlocks(live), 0, |live|, block)
  }

  /** A call the allocator makes: a block that is handed out is not already live. */
  ghost predicate Legal(live: seq<Ext>, op: Op) {
    op.DoAlloc? ==> RoomOk(op.room) &&
                    (op.block != NULL ==> Fresh(live, op.block) && op.caller != NULL && 0 <= op.size < 0x1_0000_0000)
  }

  /** What the code relies on when it is called. */
  predicate Usable(s: State) {
    Shaped(s) && (!s.memGiven ==> s.last == 0)
  }

  /** No growth callback takes a table away during the call. */
  predicate KeepsTables(s: State, op: Op) {
    op.DoAlloc? ==> !Loses(s, op.caller, op.block, op.room)
  }

  /** One call, and the blocks that are live and tracked after it. */
  ghost function Step(s: State, live: seq<Ext>, op: Op, hash: Hash): (State, seq<Ext>)
    requires Usable(s) && Legal(live, op) && InRange(hash)
  {
    match op
    case DoAlloc(caller, block, size, line, room) =>
      var (s', ret) := Alloc(s, caller, block, size, line, room, hash);
      (s', if block != NULL && ret == 0 then live + [Ext(block, caller, size)] else live)
    case DoFree(block) =>
      var k := Find(live, block);
      (Free(s, block, hash).0, if k.Some? then Without(live, k.value) else live)
  }

  lemma StepKeeps(s: State, live: seq<Ext>, op: Op, hash: Hash) returns (s': State, live': seq<Ext>)
    requires Inv(s, live) && Legal(live, op) && KeepsTables(s, op) && InRange(hash)
    ensures (s', live') == Step(s, live, op, hash) && Inv(s', live')
  {
    match op
    case DoAlloc(caller, block, size, line, room) =>
      var ret;
      s', ret, live' := AllocKeeps(s, live, caller, block, size, line, room, hash);
    case DoFree(block) =>
      var k := Find(live, block);
      if k.Some? {
        s' := FreeFinds(s, live, k.value, hash);
        live' := Without(live, k.value);
      } else {
        assert forall i :: 0 <= i < |live| ==> ExtBlocks(live)[i] != block;
        FreeUnknown(s, live, block, hash);
        s', live' := s, live;
      }
  }

  /** The states (s, live) that a legal run of calls can reach. */
  ghost predicate Reaches(s: State, live: seq<Ext>, ops: seq<Op>, hash: Hash, s': State, live': seq<Ext>)
    requires InRange(hash)
    decreases |ops|
  {
    if ops == [] then s == s' && live == live'
    else Usable(s) && Legal(live, ops[0]) && KeepsTables(s, ops[0]) &&
         var (s1, live1) := Step(s, live, ops[0], hash);
         Reaches(s1, live1, ops[1..], hash, s', live')
  }

  lemma {:induction false} RunKeeps(s: State, live: seq<Ext>, ops: seq<Op>, hash: Hash, s': State, live': seq<Ext>)
    requires InRange(hash) && Inv(s, live) && Reaches(s, live, ops, hash, s', live')
    ensures Inv(s', live')
    decreases |ops|
  {
    if ops != [] {
      var s1, live1 := StepKeeps(s, live, ops[0], hash);
      RunKeeps(s1, live1, ops[1..], hash, s', live');
    }
  }

  /**
    * After any run: the memory total is the sum of the sizes of the live blocks; every caller of a live
    * block has exactly one slot, with the count and the sum over its blocks in both tables; and
    * every live block would be found by free.
    */
  lemma RunAccounts(ops: seq<Op>, hash: Hash, s: State, live: seq<Ext>)
    requires InRange(hash) && Reaches(START, [], ops, hash, s, live)
    ensures Shaped(s) && s.allocatedMemory == Wrap32(SumOf(live))
    ensures forall x :: x in live ==> exists i: nat :: OwnsSlot(s.mem, live, x.caller, i)
    ensures forall k: nat :: k < |live| ==> Free(s, live[k].block, hash).1 == 0
  {
    RunKeeps(START, [], ops, hash, s, live);
    forall x | x in live ensures exists i: nat :: OwnsSlot(s.mem, live, x.caller, i) {
      assert HasSlot(s.mem, x.caller);
      var i: nat :| i < |s.mem| && Callers(s.mem)[i] == x.caller;
      forall j: nat | j < |s.mem| && s.mem[j].caller == x.caller ensures j == i {
        OneSlot(s.mem, i, j);
      }
      assert Accounted(s.mem[i], live);
      assert OwnsSlot(s.mem, live, x.caller, i);
    }
    forall k: nat | k < |live| ensures Free(s, live[k].block, hash).1 == 0 {
      var _ := FreeFinds(s, live, k, hash);
    }
  }

  /** Slot i, and no other, belongs to the caller and accounts for all its live blocks. */
  ghost predicate OwnsSlot(mem: seq<Slot>, live: seq<Ext>, caller: int, i: nat) {
    i < |mem| && mem[i].caller == caller && mem[i].refCount == CountOf(live, caller) &&
    mem[i].total == Wrap32(SizeOf(live, caller)) &&
    forall j: nat :: j < |mem| && mem[j].caller == caller ==> j == i
  }

  // ---------- what the slots say ----------

  /** A caller has a slot exactly if the search finds it. */
  lemma CallerSearched(s: State, live: seq<Ext>, caller: int)
    requires Inv(s, live) && s.memGiven && caller != NULL
    ensures IndexOf(Callers(s.mem), 0, s.last + 1, caller).Some? <==> caller in Callers(s.mem)
  {
    if caller in Callers(s.mem) {
      var i :| 0 <= i < |s.mem| && Callers(s.mem)[i] == caller;
      assert s.mem[i].caller == caller;
    }
  }

  /** The slot of the caller after its block has been tracked: its lifetime is 0; a slot it had before keeps its
      own block and its line, a new one holds the block, with the line's low 16 bits. */
  predicate SlotFor(was: seq<Slot>, m: Slot, i: nat, caller: int, block: int, size: int, line: int) {
    && m.caller == caller && m.lifetime == 0
    && if caller in Callers(was) then
         i < |was| && was[i].caller == caller && m.block == was[i].block && m.size == was[i].size && m.line == was[i].line
       else
         (i < |was| ==> was[i].caller == 0) && m.block == block && m.size == size && m.line == line % 0x1_0000
  }

  /** The other slots stay, and those that the table has gained are empty. */
  ghost predicate OthersKept(was: seq<Slot>, now: seq<Slot>, i: nat) {
    && |was| <= |now|
    && forall j :: 0 <= j < |now| && j != i ==> now[j] == if j < |was| then was[j] else Slot(0, 0, 0, 0, 0, 0, 0)
  }

  /** The slots after a call of alloc that has tracked its block. */
  lemma AllocSlots(s: State, live: seq<Ext>, caller: int, block: int, size: int, line: int, room: Room, hash: Hash)
    returns (i: nat)
    requires Inv(s, live) && RoomOk(room) && InRange(hash) && block != NULL && caller != NULL
    requires Alloc(s, caller, block, size, line, room, hash).1 == 0
    ensures var mem := Alloc(s, caller, block, size, line, room, hash).0.mem;
            && i < |mem| && SlotFor(s.mem, mem[i], i, caller, block, size, line)
            && OthersKept(s.mem, mem, i)
  {
    var s1 := FirstTable(s, live, room);
    if !s.memGiven {
      FreshSlots(room.memFirst.value, caller);
    }
    CallerSearched(s1, live, caller);
    var ci := IndexOf(Callers(s1.mem), 0, s1.last + 1, caller);
    if ci.Some? {
      i := ci.value;
      MoreSlotsKept(s1, i, caller, block, size, room, hash);
    } else {
      i := FirstSlotTaken(s1, caller, block, size, line, room);
    }
  }

  lemma MoreSlotsKept(s: State, ci: nat, caller: int, block: int, size: int, room: Room, hash: Hash)
    requires s.memGiven && ci < |s.mem| && InRange(hash)
    requires AllocMore(s, ci, caller, block, size, room, hash).1 == 0
    ensures AllocMore(s, ci, caller, block, size, room, hash).0.mem == s.mem[ci := Charged(s.mem[ci], size)]
  {
  }

  lemma FirstSlotTaken(s: State, caller: int, block: int, size: int, line: int, room: Room) returns (i: nat)
    requires s.memGiven && AllocFirst(s, caller, block, size, line, room).1 == 0
    ensures var mem := AllocFirst(s, caller, block, size, line, room).0.mem;
            && i < |mem| && mem[i] == Slot(block, caller, size, size, 1, line % 0x1_0000, 0)
            && (i < |s.mem| ==> s.mem[i].caller == 0) && OthersKept(s.mem, mem, i)
  {
    var i1 := IndexOf(Callers(s.mem), 0, |s.mem|, NULL);
    if i1.Some? {
      i := i1.value;
    } else {
      var s2 := GrowMem(s, room.memMore.value);
      i := IndexOf(Callers(s2.mem), 0, |s2.mem|, NULL).value;
    }
  }

  /** The slots after block live[k] has been freed from the slot that holds it: the slot is empty if that was the
      last block of its caller, and keeps its caller, line and account otherwise. */
  lemma FreeOwnSlots(s: State, live: seq<Ext>, k: nat, i: nat, hash: Hash)
    requires Inv(s, live) && InRange(hash) && k < |live| && i < |s.mem| && s.mem[i].block == live[k].block
    ensures var c, left := live[k].caller, Without(live, k);
            var now := if CountOf(left, c) == 0 then Slot(0, 0, 0, 0, 0, 0, 0)
                       else Slot(0, c, 0, SizeOf(left, c) % 0x1_0000_0000, CountOf(left, c), s.mem[i].line, 0);
            Free(s, live[k].block, hash).0 ==
            s.(mem := s.mem[i := now], allocatedMemory := SumOf(left) % 0x1_0000_0000)
  {
    var x := live[k];
    assert x in live && s.mem[i].block != NULL && s.memGiven;
    OwnBlockFound(s, live, x.block);
    assert Blocks(s.mem)[i] == x.block;
    var j := IndexOf(Blocks(s.mem), 0, s.last + 1, x.block).value;
    SameSlot(s, i, j);
    OwnIsLive(s, live, k, i);
    SumsWithout(live, k, x.caller);
    WrapAddSub(SizeOf(live, x.caller), x.size);
    WrapAddSub(SumOf(live), x.size);
  }

  lemma SameSlot(s: State, i: nat, j: nat)
    requires i < |s.mem| && j < |s.mem| && AllApart(s.mem) && s.mem[i].block == s.mem[j].block != NULL
    ensures i == j
  {
    assert i < j ==> Apart(s.mem[i], s.mem[j]);
    assert j < i ==> Apart(s.mem[j], s.mem[i]);
  }

  /** A slot that holds a live block has its caller, size and account. */
  lemma OwnIsLive(s: State, live: seq<Ext>, k: nat, i: nat)
    requires Inv(s, live) && k < |live| && i < |s.mem| && s.mem[i].block == live[k].block
    ensures Own(s.mem[i]) == live[k] && s.mem[i].caller != NULL && Accounted(s.mem[i], live)
  {
    assert live[k] in live && Tracked(Own(s.mem[i]), live);
    var j :| 0 <= j < |live| && live[j] == Own(s.mem[i]);
  }

  /** The slots after block live[k] has been freed from entry ei of the second table, its caller being in slot i:
      the entry is empty, and of the caller's slot only the account changes. The tidying then restarts the
      lifetime of slot 0, or clears it if nothing refers to it. */
  lemma FreeExtSlots(s: State, live: seq<Ext>, k: nat, ei: nat, i: nat, hash: Hash)
    requires Inv(s, live) && InRange(hash) && k < |live| && ei < |s.ext| && s.ext[ei].block == live[k].block
    requires i < |s.mem| && s.mem[i].caller == live[k].caller
    ensures var c, left := live[k].caller, Without(live, k);
            var (s', ret) := Free(s, live[k].block, hash);
            && ret == 0 && |s'.mem| == |s.mem| && s'.ext == s.ext[ei := Ext(0, 0, 0)]
            && (forall j :: 0 < j < |s.mem| ==>
                  s'.mem[j] == if j != i then s.mem[j]
                               else s.mem[i].(total := SizeOf(left, c) % 0x1_0000_0000, refCount := CountOf(left, c)))
            && s'.mem[0] == (if i == 0 && CountOf(left, c) == 0 then Slot(0, 0, 0, 0, 0, 0, 0)
                             else if i == 0 then s.mem[0].(total := SizeOf(left, c) % 0x1_0000_0000,
                                                           refCount := CountOf(left, c), lifetime := 0)
                             else if s.mem[0].refCount == 0 then Slot(0, 0, 0, 0, 0, 0, 0)
                             else s.mem[0].(lifetime := 0))
  {
    var x := live[k];
    assert x in live;
    ExtIsLive(s, live, k, ei);
    assert Accounted(s.mem[i], live);
    SumsWithout(live, k, x.caller);
    WrapAddSub(SizeOf(live, x.caller), x.size);
    FreeIsExt(s, live, k, ei, i, hash);
  }

  lemma ExtIsLive(s: State, live: seq<Ext>, k: nat, ei: nat)
    requires Inv(s, live) && k < |live| && ei < |s.ext| && s.ext[ei].block == live[k].block
    ensures s.ext[ei] == live[k] && s.extGiven && s.memGiven
    ensures live[k].block !in Blocks(s.mem) && live[k].block != NULL && live[k].caller != NULL
  {
    assert live[k] in live && Tracked(s.ext[ei], live);
    var j :| 0 <= j < |live| && live[j] == s.ext[ei];
    forall i | 0 <= i < |s.mem|
      ensures Blocks(s.mem)[i] != live[k].block
    {
      assert Differ(s.mem[i].block, s.ext[ei].block);
    }
  }

  lemma FreeIsExt(s: State, live: seq<Ext>, k: nat, ei: nat, i: nat, hash: Hash)
    requires Inv(s, live) && InRange(hash) && k < |live| && ei < |s.ext| && s.ext[ei].block == live[k].block
    requires i < |s.mem| && s.mem[i].caller == live[k].caller
    ensures s.memGiven && s.extGiven && Free(s, live[k].block, hash) == (FreeExt(s, ei, i), 0)
  {
    var x := live[k];
    ExtIsLive(s, live, k, ei);
    OwnBlockFound(s, live, x.block);
    assert ExtBlocks(s.ext)[ei] == x.block;
    var e := Probe(ExtBlocks(s.ext), hash(x.block, |s.ext|), x.block).value;
    assert e < ei ==> Differ(s.ext[e].block, s.ext[ei].block);
    assert ei < e ==> Differ(s.ext[ei].block, s.ext[e].block);
    CallerSearched(s, live, x.caller);
    assert Callers(s.mem)[i] == x.caller;
    OneSlot(s.mem, i, IndexOf(Callers(s.mem), 0, s.last + 1, x.caller).value);
  }

  // ---------- tables that are taken away ----------

  /** What the callback leaves: the call returns -1 and the table is gone. */
  lemma LosingCall(s: State, caller: int, block: int, size: int, line: int, room: Room, hash: Hash)
    requires Shaped(s) && s.memGiven && RoomOk(room) && InRange(hash)
    ensures LosesExt(s, caller, block, room) ==>
              Alloc(s, caller, block, size, line, room, hash) == (s.(extGiven := false, ext := []), -1)
    ensures LosesMem(s, caller, block, room) ==>
              Alloc(s, caller, block, size, line, room, hash) == (s.(memGiven := false, mem := []), -1)
  {
  }

  /** Without the second table exactly the blocks in it can no longer be freed, and the accounting is broken:
      their callers are still charged for them. */
  lemma ExtTableLost(s: State, live: seq<Ext>, caller: int, block: int, room: Room, hash: Hash)
    requires Inv(s, live) && InRange(hash) && LosesExt(s, caller, block, room)
    ensures var t := WithoutExt(s);
            && !Inv(t, live)
            && (forall k: nat :: k < |live| ==> (Free(t, live[k].block, hash).1 == 0 <==> live[k].block in Blocks(s.mem)))
            && (forall j: nat :: j < |s.ext| ==> s.ext[j] in live && Free(t, s.ext[j].block, hash) == (t, -1))
  {
    var t := WithoutExt(s);
    forall k: nat | k < |live|
      ensures Free(t, live[k].block, hash).1 == 0 <==> live[k].block in Blocks(s.mem)
    {
      OwnBlockFound(s, live, live[k].block);
    }
    forall j: nat | j < |s.ext|
      ensures s.ext[j] in live && Free(t, s.ext[j].block, hash) == (t, -1)
    {
      FullEntry(s, live, j);
      OwnBlockFound(s, live, s.ext[j].block);
    }
    assert Listed(t.mem, t.ext, s.ext[0].block) <==> s.ext[0].block in Blocks(s.mem) || s.ext[0].block in ExtBlocks([]);
  }

  /** An entry of a full second table holds a live block that is in no slot. */
  lemma FullEntry(s: State, live: seq<Ext>, j: nat)
    requires Inv(s, live) && j < |s.ext| && NULL !in ExtCallers(s.ext)
    ensures s.ext[j] in live && s.ext[j].block != NULL && s.ext[j].block !in Blocks(s.mem)
  {
    assert ExtCallers(s.ext)[j] == s.ext[j].caller;
    assert Tracked(s.ext[j], live);
    forall i: nat | i < |s.mem|
      ensures Blocks(s.mem)[i] != s.ext[j].block
    {
      assert Differ(s.mem[i].block, s.ext[j].block);
    }
  }

  /** A slot's own block lies among the slots that are searched. */
  lemma OwnBlockFound(s: State, live: seq<Ext>, block: int)
    requires Inv(s, live) && s.memGiven && block != NULL
    ensures IndexOf(Blocks(s.mem), 0, s.last + 1, block).Some? <==> block in Blocks(s.mem)
  {
    if block in Blocks(s.mem) {
      var i :| 0 <= i < |s.mem| && Blocks(s.mem)[i] == block;
      assert i <= s.last;
    }
  }

  /** Without the first table every free returns 0 and does nothing. The accounting survives exactly if nothing
      was left to account for; and unless the last index is 0, a first table of no more slots than that is
      searched past its end. */
  lemma MemTableLost(s: State, live: seq<Ext>, caller: int, block: int, room: Room, hash: Hash)
    requires Inv(s, live) && InRange(hash) && LosesMem(s, caller, block, room)
    ensures var t := WithoutMem(s);
            && (forall b :: Free(t, b, hash) == (t, 0))
            && (Inv(t, live) <==> live == [] && s.last == 0 && !s.extGiven)
            && forall n: nat :: Shaped(t.(memGiven := true, mem := EmptySlots(n))) <==> s.last < n
  {
    var t := WithoutMem(s);
    if live != [] && t.ext == [] {
      var b := live[0].block;
      assert !Listed(t.mem, t.ext, b);
    }
    if live == [] && s.last == 0 && !s.extGiven {
      assert Tables(t.mem, t.ext, t.last, live);
    }
  }

  // ---------- slots that are left behind ----------

  /**
    * When a caller's last block is freed from the second table, its slot is given up only if that is
    * slot 0: the tidying looks there whichever slot has just been discharged.
    */
  lemma SlotGivenUp(s: State, live: seq<Ext>, ei: nat, ci: nat, k: nat)
    requires Inv(s, live) && ei < |s.ext| && ci < |s.mem| && k < |live|
    requires live[k] == s.ext[ei] && live[k].block != NULL && s.mem[ci].caller == live[k].caller
    ensures FreeExt(s, ei, ci).mem[ci].caller == NULL <==> ci == 0 && CountOf(live, live[k].caller) == 1
  {
    assert live[k] in live && Accounted(s.mem[ci], live) && Accounted(s.mem[0], live);
  }

  const NO_ROOM := Room(None, Some(0), None, Some(0))

  /** Caller 1 gets a block and caller 2 two, the second one in the second table; then caller 2 frees both. */
  function LeaveBehind(): seq<Op> {
    [DoAlloc(1, 10, 4, 0, NO_ROOM.(memFirst := Some(2))), DoAlloc(2, 12, 4, 0, NO_ROOM),
     DoAlloc(2, 11, 4, 0, NO_ROOM.(extFirst := Some(1))), DoFree(12), DoFree(11)]
  }

  /** One more call in front of a run, and one behind it. */
  lemma ReachesCons(s: State, live: seq<Ext>, op: Op, ops: seq<Op>, hash: Hash, s1: State, live1: seq<Ext>,
                    s': State, live': seq<Ext>)
    requires InRange(hash) && Usable(s) && Legal(live, op) && KeepsTables(s, op)
    requires Step(s, live, op, hash) == (s1, live1) && Reaches(s1, live1, ops, hash, s', live')
    ensures Reaches(s, live, [op] + ops, hash, s', live')
  {
    assert ([op] + ops)[1..] == ops;
  }

  lemma {:induction false} ReachesSnoc(s: State, live: seq<Ext>, ops: seq<Op>, hash: Hash, s1: State, live1: seq<Ext>,
                                       op: Op, s': State, live': seq<Ext>)
    requires InRange(hash) && Reaches(s, live, ops, hash, s1, live1)
    requires Usable(s1) && Legal(live1, op) && KeepsTables(s1, op) && Step(s1, live1, op, hash) == (s', live')
    ensures Reaches(s, live, ops + [op], hash, s', live')
    decreases |ops|
  {
    if ops == [] {
      ReachesCons(s, live, op, [], hash, s', live', s', live');
      assert [] + [op] == [op] + [];
    } else {
      var (s2, live2) := Step(s, live, ops[0], hash);
      ReachesSnoc(s2, live2, ops[1..], hash, s1, live1, op, s', live');
      ReachesCons(s, live, ops[0], ops[1..] + [op], hash, s2, live2, s', live');
      assert [ops[0]] + (ops[1..] + [op]) == ops + [op];
    }
  }

  /** These calls leave a slot occupied without any reference. */
  lemma SlotLeftBehind(hash: Hash)
    requires InRange(hash)
    ensures var s := State(true, [Slot(10, 1, 4, 4, 1, 0, 0), Slot(NULL, 2, 0, 0, 0, 0, 0)], true, [EMPTY_EXT], 1, 4);
            Reaches(START, [], LeaveBehind(), hash, s, [Ext(10, 1, 4)])
  {
    var x, y, z := Ext(10, 1, 4), Ext(12, 2, 4), Ext(11, 2, 4);
    var first, s3 := ReachThree(hash);
    var s4 := s3.(mem := [Slot(10, 1, 4, 4, 1, 0, 0), Slot(NULL, 2, 0, 4, 1, 0, 0)], allocatedMemory := 8);
    FreeTwelve(s3, hash);
    ReachesSnoc(START, [], first, hash, s3, [x, y, z], DoFree(12), s4, [x, z]);
    LastFree(first + [DoFree(12)], s4, hash);
    assert first + [DoFree(12)] + [DoFree(11)] == LeaveBehind();
  }

  lemma LastFree(ops: seq<Op>, s: State, hash: Hash)
    requires InRange(hash) && Reaches(START, [], ops, hash, s, [Ext(10, 1, 4), Ext(11, 2, 4)])
    requires s == State(true, [Slot(10, 1, 4, 4, 1, 0, 0), Slot(NULL, 2, 0, 4, 1, 0, 0)], true, [Ext(11, 2, 4)], 1, 8)
    ensures var t := State(true, [Slot(10, 1, 4, 4, 1, 0, 0), Slot(NULL, 2, 0, 0, 0, 0, 0)], true, [EMPTY_EXT], 1, 4);
            Reaches(START, [], ops + [DoFree(11)], hash, t, [Ext(10, 1, 4)])
  {
    var t := s.(mem := [Slot(10, 1, 4, 4, 1, 0, 0), Slot(NULL, 2, 0, 0, 0, 0, 0)], ext := [EMPTY_EXT],
                allocatedMemory := 4);
    FreeEleven(s, hash);
    ReachesSnoc(START, [], ops, hash, s, [Ext(10, 1, 4), Ext(11, 2, 4)], DoFree(11), t, [Ext(10, 1, 4)]);
  }

  lemma ReachThree(hash: Hash) returns (first: seq<Op>, s3: State)
    requires InRange(hash)
    ensures first == LeaveBehind()[..3]
    ensures s3 == State(true, [Slot(10, 1, 4, 4, 1, 0, 0), Slot(12, 2, 4, 8, 2, 0, 0)], true, [Ext(11, 2, 4)], 1, 12)
    ensures Reaches(START, [], first, hash, s3, [Ext(10, 1, 4), Ext(12, 2, 4), Ext(11, 2, 4)])
  {
    var ops, x, y, z := LeaveBehind(), Ext(10, 1, 4), Ext(12, 2, 4), Ext(11, 2, 4);
    var s1, s2;
    s1, s2, s3 := FirstThree(hash);
    ReachesSnoc(START, [], [], hash, START, [], ops[0], s1, [x]);
    ReachesSnoc(START, [], [] + [ops[0]], hash, s1, [x], ops[1], s2, [x, y]);
    ReachesSnoc(START, [], [] + [ops[0]] + [ops[1]], hash, s2, [x, y], ops[2], s3, [x, y, z]);
    first := [] + [ops[0]] + [ops[1]] + [ops[2]];
  }

  lemma FirstThree(hash: Hash) returns (s1: State, s2: State, s3: State)
    requires InRange(hash)
    ensures var ops, x, y, z := LeaveBehind(), Ext(10, 1, 4), Ext(12, 2, 4), Ext(11, 2, 4);
            && Usable(s1) && Usable(s2)
            && Legal([], ops[0]) && Step(START, [], ops[0], hash) == (s1, [x])
            && Legal([x], ops[1]) && Step(s1, [x], ops[1], hash) == (s2, [x, y])
            && Legal([x, y], ops[2]) && Step(s2, [x, y], ops[2], hash) == (s3, [x, y, z])
    ensures s3 == State(true, [Slot(10, 1, 4, 4, 1, 0, 0), Slot(12, 2, 4, 8, 2, 0, 0)], true, [Ext(11, 2, 4)], 1, 12)
  {
    s1 := AllocTen(hash);
    s2 := AllocTwelve(s1, hash);
    s3 := AllocEleven(s2, hash);
    assert [] + [Ext(10, 1, 4)] == [Ext(10, 1, 4)];
    assert [Ext(10, 1, 4)] + [Ext(12, 2, 4)] == [Ext(10, 1, 4), Ext(12, 2, 4)];
    assert [Ext(10, 1, 4), Ext(12, 2, 4)] + [Ext(11, 2, 4)] == [Ext(10, 1, 4), Ext(12, 2, 4), Ext(11, 2, 4)];
  }

  lemma AllocTen(hash: Hash) returns (s: State)
    requires InRange(hash)
    ensures s == State(true, [Slot(10, 1, 4, 4, 1, 0, 0), EMPTY_SLOT], false, [], 0, 4)
    ensures Alloc(START, 1, 10, 4, 0, NO_ROOM.(memFirst := Some(2)), hash) == (s, 0)
  {
    var mem := EmptySlots(2);
    s := State(true, [Slot(10, 1, 4, 4, 1, 0, 0), EMPTY_SLOT], false, [], 0, 4);
    assert Callers(mem)[0] == NULL && IndexOf(Callers(mem), 0, 1, 1) == None;
    assert IndexOf(Callers(mem), 0, 2, NULL) == Some(0);
    assert mem[0 := Slot(10, 1, 4, 4, 1, 0, 0)] == s.mem;
  }

  lemma AllocTwelve(s: State, hash: Hash) returns (t: State)
    requires InRange(hash) && s == State(true, [Slot(10, 1, 4, 4, 1, 0, 0), EMPTY_SLOT], false, [], 0, 4)
    ensures t == State(true, [Slot(10, 1, 4, 4, 1, 0, 0), Slot(12, 2, 4, 4, 1, 0, 0)], false, [], 1, 8)
    ensures Alloc(s, 2, 12, 4, 0, NO_ROOM, hash) == (t, 0)
  {
    t := State(true, [Slot(10, 1, 4, 4, 1, 0, 0), Slot(12, 2, 4, 4, 1, 0, 0)], false, [], 1, 8);
    assert Callers(s.mem)[0] == 1 && Callers(s.mem)[1] == NULL;
    assert IndexOf(Callers(s.mem), 0, 1, 2) == None && IndexOf(Callers(s.mem), 0, 2, NULL) == Some(1);
    assert s.mem[1 := Slot(12, 2, 4, 4, 1, 0, 0)] == t.mem;
  }

  lemma AllocEleven(s: State, hash: Hash) returns (t: State)
    requires InRange(hash)
    requires s == State(true, [Slot(10, 1, 4, 4, 1, 0, 0), Slot(12, 2, 4, 4, 1, 0, 0)], false, [], 1, 8)
    ensures t == State(true, [Slot(10, 1, 4, 4, 1, 0, 0), Slot(12, 2, 4, 8, 2, 0, 0)], true, [Ext(11, 2, 4)], 1, 12)
    ensures Alloc(s, 2, 11, 4, 0, NO_ROOM.(extFirst := Some(1)), hash) == (t, 0)
  {
    t := State(true, [Slot(10, 1, 4, 4, 1, 0, 0), Slot(12, 2, 4, 8, 2, 0, 0)], true, [Ext(11, 2, 4)], 1, 12);
    var ext := EmptyExts(1);
    assert Callers(s.mem)[0] == 1 && Callers(s.mem)[1] == 2 && IndexOf(Callers(s.mem), 0, 2, 2) == Some(1);
    assert ExtCallers(ext)[0] == NULL && Probe(ExtCallers(ext), hash(11, 1), NULL) == Some(0);
    assert s.mem[1 := Slot(12, 2, 4, 8, 2, 0, 0)] == t.mem && ext[0 := Ext(11, 2, 4)] == t.ext;
  }

  lemma FreeTwelve(s: State, hash: Hash)
    requires InRange(hash)
    requires s == State(true, [Slot(10, 1, 4, 4, 1, 0, 0), Slot(12, 2, 4, 8, 2, 0, 0)], true, [Ext(11, 2, 4)], 1, 12)
    ensures var live := [Ext(10, 1, 4), Ext(12, 2, 4), Ext(11, 2, 4)];
            var mem := [Slot(10, 1, 4, 4, 1, 0, 0), Slot(NULL, 2, 0, 4, 1, 0, 0)];
            Legal(live, DoFree(12)) &&
            Step(s, live, DoFree(12), hash) == (s.(mem := mem, allocatedMemory := 8), [Ext(10, 1, 4), Ext(11, 2, 4)])
  {
    var live := [Ext(10, 1, 4), Ext(12, 2, 4), Ext(11, 2, 4)];
    assert Blocks(s.mem)[0] == 10 && Blocks(s.mem)[1] == 12 && IndexOf(Blocks(s.mem), 0, 2, 12) == Some(1);
    assert s.mem[1 := Slot(NULL, 2, 0, 4, 1, 0, 0)] == [Slot(10, 1, 4, 4, 1, 0, 0), Slot(NULL, 2, 0, 4, 1, 0, 0)];
    assert ExtBlocks(live)[0] == 10 && ExtBlocks(live)[1] == 12 && Find(live, 12) == Some(1);
    assert Without(live, 1) == [Ext(10, 1, 4), Ext(11, 2, 4)];
  }

  lemma FreeEleven(s: State, hash: Hash)
    requires InRange(hash)
    requires s == State(true, [Slot(10, 1, 4, 4, 1, 0, 0), Slot(NULL, 2, 0, 4, 1, 0, 0)], true, [Ext(11, 2, 4)], 1, 8)
    ensures var live := [Ext(10, 1, 4), Ext(11, 2, 4)];
            var mem := [Slot(10, 1, 4, 4, 1, 0, 0), Slot(NULL, 2, 0, 0, 0, 0, 0)];
            Legal(live, DoFree(11)) &&
            Step(s, live, DoFree(11), hash) ==
            (s.(mem := mem, ext := [EMPTY_EXT], allocatedMemory := 4), [Ext(10, 1, 4)])
  {
    var live := [Ext(10, 1, 4), Ext(11, 2, 4)];
    assert Blocks(s.mem)[0] == 10 && Blocks(s.mem)[1] == NULL && IndexOf(Blocks(s.mem), 0, 2, 11) == None;
    assert ExtBlocks(s.ext)[0] == 11 && Probe(ExtBlocks(s.ext), hash(11, 1), 11) == Some(0);
    assert Callers(s.mem)[0] == 1 && Callers(s.mem)[1] == 2 && IndexOf(Callers(s.mem), 0, 2, 2) == Some(1);
    assert Tidy(s.mem[1 := Discharged(s.mem[1], 4)], 0) == [Slot(10, 1, 4, 4, 1, 0, 0), Slot(NULL, 2, 0, 0, 0, 0, 0)];
    assert s.ext[0 := EMPTY_EXT] == [EMPTY_EXT];
    assert ExtBlocks(live)[0] == 10 && ExtBlocks(live)[1] == 11 && Find(live, 11) == Some(1);
    assert Without(live, 1) == [Ext(10, 1, 4)];
  }
}
