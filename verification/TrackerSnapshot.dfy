/** ns_dyn_mem_tracker_lib_max_snap_shot_update: the callers that use the most memory, kept sorted in a
    list of fixed length by insertion. */
module TrackerSnapshot {
  import opened Options
  import opened TrackerModel

  datatype Allocator = Allocator(caller: int, allocCount: int, totalMemory: int, minLifetime: int, line: int)

  const EMPTY := Allocator(0, 0, 0, 0, 0)

  function EntryOf(m: Slot): Allocator {
    Allocator(m.caller, m.refCount, m.total, m.lifetime, m.line)
  }

  predicate Above(a: Allocator, b: Allocator) { a.totalMemory >= b.totalMemory }

  /** Descending by total memory. */
  ghost predicate Sorted(list: seq<Allocator>) {
    forall a, b {:trigger Above(list[a], list[b])} :: 0 <= a < b < |list| ==> Above(list[a], list[b])
  }

  /** `picks` are different slots before n with a block of their own; the list starts with their entries
      and is empty behind them. */
  ghost predicate Lists(list: seq<Allocator>, mem: seq<Slot>, n: nat, picks: seq<nat>) {
    n <= |mem| && |picks| <= |list| &&
    (forall e :: 0 <= e < |picks| ==>
       picks[e] < n && mem[picks[e]].block != NULL && list[e] == EntryOf(mem[picks[e]])) &&
    (forall e, g :: 0 <= e < g < |picks| ==> picks[e] != picks[g]) &&
    (forall e :: |picks| <= e < |list| ==> list[e] == EMPTY)
  }

  /** Slot i is listed if it has a block of its own, unless the list is full and its last entry is at least
      as large. */
  ghost predicate Considers(list: seq<Allocator>, mem: seq<Slot>, picks: seq<nat>, i: nat)
    requires i < |mem| && list != []
  {
    mem[i].block != NULL && i !in picks ==> |picks| == |list| && mem[i].total <= list[|list| - 1].totalMemory
  }

  /** No slot before n is left out otherwise. */
  ghost predicate Largest(list: seq<Allocator>, mem: seq<Slot>, n: nat, picks: seq<nat>) {
    n <= |mem| && list != [] &&
    forall i: nat {:trigger Considers(list, mem, picks, i)} :: i < n ==> Considers(list, mem, picks, i)
  }

  /** The list is a correct snapshot of the first n slots. */
  ghost predicate Snapshot(list: seq<Allocator>, mem: seq<Slot>, n: nat) {
    Sorted(list) && exists picks: seq<nat> :: Lists(list, mem, n, picks) && Largest(list, mem, n, picks)
  }

  /** Where memmove's count, truncated to uint8_t, covers the rest of the list. */
  function ShiftCount(size: nat, at: nat): nat
    requires at < size
  {
    (size - at - 1) % 256
  }

  /** memmove(&list[at + 1], &list[at], count) and then list[at] = x. */
  function Inserted(list: seq<Allocator>, at: nat, x: Allocator): (r: seq<Allocator>)
    requires at < |list|
    ensures |r| == |list|
  {
    var count := ShiftCount(|list|, at);
    list[..at] + [x] + list[at..at + count] + list[at + 1 + count..]
  }

  lemma InsertedFrom(was: seq<Allocator>, now: seq<Allocator>, at: nat, x: Allocator)
    requires at < |was| == |now|
    requires forall e :: 0 <= e < |was| ==>
               now[e] == if e == at then x
                         else was[if at + 1 <= e < at + 1 + ShiftCount(|was|, at) then e - 1 else e]
    ensures now == Inserted(was, at, x)
  {
  }

  /** Up to 256 entries the whole rest moves and only the last entry drops out. */
  lemma InsertedIsWhole(list: seq<Allocator>, at: nat, x: Allocator)
    requires at < |list|
    ensures ShiftCount(|list|, at) == |list| - at - 1 <==> |list| - at <= 256
    ensures |list| - at <= 256 ==> Inserted(list, at, x) == list[..at] + [x] + list[at..|list| - 1]
  {
  }

  /** The first entry that is no larger than x; there is one if the list is not full. */
  function Place(list: seq<Allocator>, from: nat, total: int): (at: nat)
    requires from <= |list|
    ensures from <= at <= |list|
    ensures at < |list| ==> total >= list[at].totalMemory
    ensures forall e :: from <= e < at ==> total < list[e].totalMemory
    decreases |list| - from
  {
    if from == |list| || total >= list[from].totalMemory then from else Place(list, from + 1, total)
  }

  lemma InsertedAt(list: seq<Allocator>, at: nat, x: Allocator, e: nat)
    requires at < |list| <= 256 && e < |list|
    ensures Inserted(list, at, x)[e] == if e < at then list[e] else if e == at then x else list[e - 1]
  {
    InsertedIsWhole(list, at, x);
  }

  lemma InsertedPair(list: seq<Allocator>, at: nat, x: Allocator, a: nat, b: nat)
    requires at < |list| <= 256 && a < b < |list| && Sorted(list)
    requires x.totalMemory >= list[at].totalMemory && forall e :: 0 <= e < at ==> x.totalMemory < list[e].totalMemory
    ensures Above(Inserted(list, at, x)[a], Inserted(list, at, x)[b])
  {
    InsertedAt(list, at, x, a);
    InsertedAt(list, at, x, b);
    if b < at {
      assert Above(list[a], list[b]);
    } else if a < at < b {
      assert Above(list[a], list[b - 1]);
    } else if a == at {
      assert b - 1 > at ==> Above(list[at], list[b - 1]);
    } else if a > at {
      assert Above(list[a - 1], list[b - 1]);
    }
  }

  lemma InsertedSorted(list: seq<Allocator>, x: Allocator)
    requires |list| <= 256 && Sorted(list) && Place(list, 0, x.totalMemory) < |list|
    ensures Sorted(Inserted(list, Place(list, 0, x.totalMemory), x))
  {
    var at := Place(list, 0, x.totalMemory);
    var list2 := Inserted(list, at, x);
    forall a, b | 0 <= a < b < |list2| ensures Above(list2[a], list2[b]) {
      InsertedPair(list, at, x, a, b);
    }
  }

  /** The picks after slot n has been inserted at position `at`. */
  function Repicked(picks: seq<nat>, at: nat, n: nat, size: nat): (r: seq<nat>)
    requires at <= |picks| <= size && at < size
    ensures |r| == if |picks| < size then |picks| + 1 else size
    ensures forall e :: 0 <= e < |r| ==> r[e] == if e < at then picks[e] else if e == at then n else picks[e - 1]
  {
    picks[..at] + [n] + picks[at..if |picks| < size then |picks| else size - 1]
  }

  /** Zero entries are never passed over. */
  lemma PlaceWithinPicks(list: seq<Allocator>, mem: seq<Slot>, n: nat, picks: seq<nat>, total: int)
    requires Lists(list, mem, n, picks) && total >= 0
    ensures Place(list, 0, total) <= |picks|
  {
    if |picks| < |list| {
      assert list[|picks|] == EMPTY;
    }
  }

  lemma RepickedDiffer(picks: seq<nat>, at: nat, n: nat, size: nat)
    requires at <= |picks| <= size && at < size
    requires forall e :: 0 <= e < |picks| ==> picks[e] < n
    requires forall e, g :: 0 <= e < g < |picks| ==> picks[e] != picks[g]
    ensures var r := Repicked(picks, at, n, size); forall e, g :: 0 <= e < g < |r| ==> r[e] != r[g]
  {
    var r := Repicked(picks, at, n, size);
    forall e, g | 0 <= e < g < |r| ensures r[e] != r[g] {
      var e1, g1 := if e < at then e else e - 1, if g < at then g else g - 1;
      assert e != at ==> picks[e1] < n;
      assert g != at ==> picks[g1] < n;
      assert e != at && g != at ==> picks[e1] != picks[g1];
    }
  }

  lemma InsertedLists(list: seq<Allocator>, mem: seq<Slot>, n: nat, picks: seq<nat>, at: nat)
    requires Lists(list, mem, n, picks) && n < |mem| && mem[n].block != NULL && 1 <= |list| <= 256
    requires at <= |picks| && at < |list|
    ensures Lists(Inserted(list, at, EntryOf(mem[n])), mem, n + 1, Repicked(picks, at, n, |list|))
  {
    var x := EntryOf(mem[n]);
    var list2, picks2 := Inserted(list, at, x), Repicked(picks, at, n, |list|);
    RepickedDiffer(picks, at, n, |list|);
    forall e: nat | e < |picks2|
      ensures picks2[e] < n + 1 && mem[picks2[e]].block != NULL && list2[e] == EntryOf(mem[picks2[e]])
    {
      InsertedAt(list, at, x, e);
      assert e > at ==> picks[e - 1] < n;
    }
    forall e: nat | |picks2| <= e < |list| ensures list2[e] == EMPTY {
      InsertedAt(list, at, x, e);
    }
  }

  lemma InPicks(picks: seq<nat>, at: nat, n: nat, size: nat, i: nat)
    requires at <= |picks| <= size && at < size
    requires i !in Repicked(picks, at, n, size)
    ensures i != n && (i in picks ==> |picks| == size && i == picks[size - 1])
  {
    var r := Repicked(picks, at, n, size);
    assert r[at] == n;
    forall e: nat | e < |picks| && (|picks| < size || e < size - 1) ensures picks[e] in r {
      assert r[if e < at then e else e + 1] == picks[e];
    }
  }

  lemma InsertedLargest(list: seq<Allocator>, mem: seq<Slot>, n: nat, picks: seq<nat>, at: nat)
    requires Lists(list, mem, n, picks) && Largest(list, mem, n, picks) && n < |mem| && mem[n].block != NULL
    requires 1 <= |list| <= 256 && at <= |picks| && at < |list| && Sorted(list)
    requires at == Place(list, 0, mem[n].total)
    ensures Largest(Inserted(list, at, EntryOf(mem[n])), mem, n + 1, Repicked(picks, at, n, |list|))
  {
    var x, k := EntryOf(mem[n]), |list|;
    var list2, picks2 := Inserted(list, at, x), Repicked(picks, at, n, k);
    forall i: nat | i < n + 1
      ensures Considers(list2, mem, picks2, i)
    {
      if mem[i].block != NULL && i !in picks2 {
        InPicks(picks, at, n, k, i);
        InsertedAt(list, at, x, k - 1);
        assert i < n ==> Considers(list, mem, picks, i);
        if at < k - 1 {
          assert Above(list[k - 2], list[k - 1]);
        }
      }
    }
  }

  lemma SnapshotBy(list: seq<Allocator>, mem: seq<Slot>, n: nat, picks: seq<nat>)
    requires Sorted(list) && Lists(list, mem, n, picks) && Largest(list, mem, n, picks)
    ensures Snapshot(list, mem, n)
  {
  }

  /** A slot that finds its place on the list. */
  lemma PlacedSnapshot(list: seq<Allocator>, mem: seq<Slot>, n: nat, picks: seq<nat>, at: nat) returns (r: seq<Allocator>)
    requires Sorted(list) && Lists(list, mem, n, picks) && Largest(list, mem, n, picks) && 1 <= |list| <= 256
    requires n < |mem| && mem[n].block != NULL && mem[n].total >= 0 && at == Place(list, 0, mem[n].total) < |list|
    ensures r == Inserted(list, at, EntryOf(mem[n])) && Snapshot(r, mem, n + 1)
  {
    r := Inserted(list, at, EntryOf(mem[n]));
    PlaceWithinPicks(list, mem, n, picks, mem[n].total);
    InsertedSorted(list, EntryOf(mem[n]));
    InsertedLists(list, mem, n, picks, at);
    InsertedLargest(list, mem, n, picks, at);
    SnapshotBy(r, mem, n + 1, Repicked(picks, at, n, |list|));
  }

  /** A slot that is smaller than all of a full list. */
  lemma UnplacedSnapshot(list: seq<Allocator>, mem: seq<Slot>, n: nat, picks: seq<nat>)
    requires Sorted(list) && Lists(list, mem, n, picks) && Largest(list, mem, n, picks) && list != []
    requires n < |mem| && mem[n].block != NULL && mem[n].total >= 0 && Place(list, 0, mem[n].total) == |list|
    ensures Snapshot(list, mem, n + 1)
  {
    PlaceWithinPicks(list, mem, n, picks, mem[n].total);
    forall i: nat | i < n + 1
      ensures Considers(list, mem, picks, i)
    {
      assert i < n ==> Considers(list, mem, picks, i);
    }
    SnapshotBy(list, mem, n + 1, picks);
  }

  /** Inserting the next slot at its place keeps the snapshot. */
  lemma InsertedSnapshot(list: seq<Allocator>, mem: seq<Slot>, n: nat) returns (r: seq<Allocator>)
    requires Snapshot(list, mem, n) && n < |mem| && mem[n].block != NULL && mem[n].total >= 0 && 1 <= |list| <= 256
    ensures var at := Place(list, 0, mem[n].total);
            r == if at < |list| then Inserted(list, at, EntryOf(mem[n])) else list
    ensures Snapshot(r, mem, n + 1)
  {
    var picks: seq<nat> :| Lists(list, mem, n, picks) && Largest(list, mem, n, picks);
    var at := Place(list, 0, mem[n].total);
    if at < |list| {
      r := PlacedSnapshot(list, mem, n, picks, at);
    } else {
      r := list;
      UnplacedSnapshot(list, mem, n, picks);
    }
  }

  /** A slot without a block of its own changes nothing. */
  lemma SkippedSnapshot(list: seq<Allocator>, mem: seq<Slot>, n: nat)
    requires Snapshot(list, mem, n) && n < |mem| && mem[n].block == NULL
    ensures Snapshot(list, mem, n + 1)
  {
    var picks: seq<nat> :| Lists(list, mem, n, picks) && Largest(list, mem, n, picks);
    forall i: nat | i < n + 1
      ensures Considers(list, mem, picks, i)
    {
      assert i < n ==> Considers(list, mem, picks, i);
    }
    SnapshotBy(list, mem, n + 1, picks);
  }

  /** The slots of a tracker have different callers, which no empty entry has. */
  lemma NotYetListed(list: seq<Allocator>, mem: seq<Slot>, last: nat, n: nat, e: nat)
    requires Snapshot(list, mem, n) && SlotsOk(mem, last) && n < |mem| && mem[n].block != NULL && e < |list|
    ensures list[e].caller != mem[n].caller
  {
    var picks: seq<nat> :| Lists(list, mem, n, picks) && Largest(list, mem, n, picks);
    if e < |picks| {
      assert Apart(mem[picks[e]], mem[n]);
    }
  }

  // ----- The whole update, for a list of any length

  predicate Listed(list: seq<Allocator>, caller: int) {
    exists e :: 0 <= e < |list| && list[e].caller == caller
  }

  /** What one slot does to the list. */
  function Considered(list: seq<Allocator>, m: Slot): (r: seq<Allocator>)
    ensures |r| == |list|
  {
    if m.block == NULL || Listed(list, m.caller) then list
    else
      var at := Place(list, 0, m.total);
      if at < |list| then Inserted(list, at, EntryOf(m)) else list
  }

  /** The list of n entries after the first k slots. */
  function UpTo(mem: seq<Slot>, k: nat, n: nat): (r: seq<Allocator>)
    requires k <= |mem|
    ensures |r| == n
  {
    if k == 0 then seq(n, _ => EMPTY) else Considered(UpTo(mem, k - 1, n), mem[k - 1])
  }

  /** A table of slots as the tracker keeps it. */
  ghost predicate WellFormed(mem: seq<Slot>, last: nat) {
    last < |mem| && SlotsOk(mem, last) && forall i :: 0 <= i < |mem| && mem[i].block != NULL ==> mem[i].total >= 0
  }

  lemma {:induction false} UpToSnapshot(mem: seq<Slot>, last: nat, k: nat, n: nat) returns (list: seq<Allocator>)
    requires WellFormed(mem, last) && k <= |mem| && 1 <= n <= 256
    ensures list == UpTo(mem, k, n) && Snapshot(list, mem, k)
  {
    if k == 0 {
      list := UpTo(mem, 0, n);
      EmptySnapshot(list, mem);
    } else {
      var before := UpToSnapshot(mem, last, k - 1, n);
      list := ConsideredSnapshot(before, mem, last, k);
    }
  }

  lemma ConsideredSnapshot(before: seq<Allocator>, mem: seq<Slot>, last: nat, k: nat) returns (list: seq<Allocator>)
    requires WellFormed(mem, last) && 1 <= k <= |mem| && 1 <= |before| <= 256 && Snapshot(before, mem, k - 1)
    ensures list == Considered(before, mem[k - 1]) && Snapshot(list, mem, k)
  {
    if mem[k - 1].block == NULL {
      list := before;
      SkippedSnapshot(before, mem, k - 1);
    } else {
      forall e: nat | e < |before| ensures before[e].caller != mem[k - 1].caller {
        NotYetListed(before, mem, last, k - 1, e);
      }
      list := InsertedSnapshot(before, mem, k - 1);
    }
  }

  /** A list entry says of the caller of slot m, which has a block of its own, how many live blocks it has and
      how large they are together; its lifetime and line are those of the slot. */
  predicate RecordOf(a: Allocator, m: Slot, live: seq<Ext>) {
    && m.block != 0 && m.caller != 0
    && a.caller == m.caller
    && a.allocCount == CountOf(live, m.caller)
    && a.totalMemory == SizeOf(live, m.caller) % 0x1_0000_0000
    && a.minLifetime == m.lifetime
    && a.line == m.line
  }

  /** An entry of the list is empty or such a record. */
  ghost predicate Records(a: Allocator, mem: seq<Slot>, live: seq<Ext>) {
    a == Allocator(0, 0, 0, 0, 0) || exists i {:trigger mem[i]} :: 0 <= i < |mem| && RecordOf(a, mem[i], live)
  }

  lemma ConsideredRecords(list: seq<Allocator>, mem: seq<Slot>, last: nat, live: seq<Ext>, k: nat)
    requires SlotsOk(mem, last) && Accounts(mem, live) && k < |mem|
    requires forall e :: 0 <= e < |list| ==> Records(list[e], mem, live)
    ensures forall e :: 0 <= e < |list| ==> Records(Considered(list, mem[k])[e], mem, live)
  {
    var m, r := mem[k], Considered(list, mem[k]);
    var x, at := EntryOf(m), Place(list, 0, m.total);
    if m.block != NULL && !Listed(list, m.caller) && at < |list| {
      assert Accounted(m, live) && RecordOf(x, mem[k], live);
      forall e | 0 <= e < |list|
        ensures Records(r[e], mem, live)
      {
        var from := if at < e <= at + ShiftCount(|list|, at) then e - 1 else e;
        assert r[e] == if e == at then x else list[from];
      }
    }
  }

  /** Every entry of a list of any length is empty or a record of a slot. */
  lemma {:induction false} UpToRecords(mem: seq<Slot>, last: nat, live: seq<Ext>, k: nat, n: nat)
    requires SlotsOk(mem, last) && Accounts(mem, live) && k <= |mem|
    ensures forall e :: 0 <= e < n ==> Records(UpTo(mem, k, n)[e], mem, live)
  {
    if k > 0 {
      UpToRecords(mem, last, live, k - 1, n);
      ConsideredRecords(UpTo(mem, k - 1, n), mem, last, live, k - 1);
    }
  }

  lemma UpdatedSnapshot(mem: seq<Slot>, last: nat, n: nat)
    requires WellFormed(mem, last) && 1 <= n <= 256
    ensures Snapshot(UpTo(mem, last + 1, n), mem, |mem|)
  {
    var list := UpToSnapshot(mem, last, last + 1, n);
    UnusedTail(list, mem, last, last + 1);
  }

  /** The slot of caller k, who has one block of k bytes. */
  function Nth(k: nat): Slot {
    Slot(k, k, k, k, 1, 0, 0)
  }

  /** The slots of callers 1, 2, ... with totals 1, 2, ..., each with a block of its own. */
  function Ascending(size: nat): seq<Slot> {
    seq(size, i requires 0 <= i < size => Nth(i + 1))
  }

  lemma AscendingWellFormed(size: nat)
    requires size >= 1
    ensures WellFormed(Ascending(size), size - 1)
  {
    var mem := Ascending(size);
    forall i, j | 0 <= i < j < size ensures Apart(mem[i], mem[j]) {
    }
  }

  /** The slots k, k - 1, ..., except that only the first `most` entries ever fill. */
  predicate Descends(list: seq<Allocator>, k: nat, most: nat) {
    var used := if k <= most then k else most;
    used <= |list| && forall e :: 0 <= e < |list| ==>
      list[e] == if e < used then EntryOf(Nth(k - e)) else EMPTY
  }

  /** At the head only the first c entries move, and the one behind them is overwritten. */
  lemma HeadInserted(list: seq<Allocator>, x: Allocator, c: nat, e: nat)
    requires |list| > c + 1 && ShiftCount(|list|, 0) == c && e < |list|
    ensures Inserted(list, 0, x)[e] == if e == 0 then x else if e <= c then list[e - 1] else list[e]
  {
  }

  lemma HeadDescends(before: seq<Allocator>, k: nat, c: nat) returns (list: seq<Allocator>)
    requires k >= 1 && |before| > c + 1 && ShiftCount(|before|, 0) == c && Descends(before, k - 1, c + 1)
    ensures list == Considered(before, Nth(k)) && Descends(list, k, c + 1)
  {
    var x := EntryOf(Nth(k));
    list := Inserted(before, 0, x);
    HeadConsidered(before, k, c + 1);
    forall e: nat | e < |list|
      ensures list[e] == if e < (if k <= c + 1 then k else c + 1) then EntryOf(Nth(k - e)) else EMPTY
    {
      HeadInserted(before, x, c, e);
    }
  }

  lemma HeadConsidered(before: seq<Allocator>, k: nat, most: nat)
    requires k >= 1 && before != [] && Descends(before, k - 1, most) && 1 <= most
    ensures Considered(before, Nth(k)) == Inserted(before, 0, EntryOf(Nth(k)))
  {
    assert Place(before, 0, k) == 0;
  }

  lemma {:induction false} UpToDescends(size: nat, k: nat, n: nat, c: nat) returns (list: seq<Allocator>)
    requires k <= size && n > c + 1 && ShiftCount(n, 0) == c
    ensures list == UpTo(Ascending(size), k, n) && Descends(list, k, c + 1)
    decreases k
  {
    if k == 0 {
      list := UpTo(Ascending(size), 0, n);
    } else {
      var before := UpToDescends(size, k - 1, n, c);
      list := HeadDescends(before, k, c);
      assert Ascending(size)[k - 1] == Nth(k);
    }
  }

  /** A list of more than 256 entries that has room for every slot of this table leaves the first slot out. */
  lemma LongListForgets(n: nat)
    requires n > 256
    ensures var size := (n - 1) % 256 + 2;
            && WellFormed(Ascending(size), size - 1) && size < n
            && !Snapshot(UpTo(Ascending(size), size, n), Ascending(size), size)
  {
    var size := (n - 1) % 256 + 2;
    var mem := Ascending(size);
    var list := UpTo(mem, size, n);
    AscendingWellFormed(size);
    assert ShiftCount(n, 0) == size - 2;
    var _ := UpToDescends(size, size, n, size - 2);
    forall picks: seq<nat> | Lists(list, mem, size, picks)
      ensures !Largest(list, mem, size, picks)
    {
      FirstSlotMissing(list, mem, size, picks);
    }
  }

  // ----- That table is reached by as many calls

  function AscendingCall(size: nat, k: nat): Op {
    DoAlloc(k, k, k, 0, Room(Some(size), Some(0), None, Some(0)))
  }

  /** Callers 1 to k each allocate a block, in a table of `size` slots. */
  function AscendingCalls(size: nat, k: nat): seq<Op> {
    if k == 0 then [] else AscendingCalls(size, k - 1) + [AscendingCall(size, k)]
  }

  function AscendingTotal(k: nat): int {
    if k == 0 then 0 else Wrap32(AscendingTotal(k - 1) + k)
  }

  function AscendingLive(k: nat): seq<Ext> {
    seq(k, i requires 0 <= i < k => Ext(i + 1, i + 1, i + 1))
  }

  function AscendingState(size: nat, k: nat): State
    requires k <= size
  {
    if k == 0 then START
    else State(true, Ascending(k) + EmptySlots(size - k), false, [], k - 1, AscendingTotal(k))
  }

  lemma IndexIs(keys: seq<int>, end: nat, key: int, i: nat)
    requires i < end <= |keys| && keys[i] == key && forall j :: 0 <= j < i ==> keys[j] != key
    ensures IndexOf(keys, 0, end, key) == Some(i)
  {
  }

  /** Where the searches of the next call end: the caller is new, and slot k is the first free one. */
  lemma AscendingSearch(size: nat, k: nat) returns (mem: seq<Slot>)
    requires k < size
    ensures mem == Ascending(k) + EmptySlots(size - k) && (k == 0 ==> mem == EmptySlots(size))
    ensures IndexOf(Callers(mem), 0, if k == 0 then 1 else k, k + 1) == None
    ensures IndexOf(Callers(mem), 0, size, NULL) == Some(k)
    ensures mem[k := Nth(k + 1)] == Ascending(k + 1) + EmptySlots(size - k - 1)
  {
    mem := Ascending(k) + EmptySlots(size - k);
    assert k == 0 ==> mem == EmptySlots(size);
    IndexIs(Callers(mem), size, NULL, k);
  }

  /** The first block of a new caller goes to the first free slot. */
  lemma FirstBlock(s: State, i: nat, caller: int, block: int, size: int, room: Room, hash: Hash)
    requires Shaped(s) && s.memGiven && InRange(hash)
    requires IndexOf(Callers(s.mem), 0, s.last + 1, caller) == None
    requires IndexOf(Callers(s.mem), 0, |s.mem|, NULL) == Some(i)
    ensures i < |s.mem| && AllocGiven(s, caller, block, size, 0, room, hash) == (Occupy(s, i, caller, block, size, 0), 0)
  {
  }

  lemma AscendingAlloc(size: nat, k: nat, hash: Hash)
    requires k < size && InRange(hash)
    ensures var c := AscendingCall(size, k + 1);
            Usable(AscendingState(size, k)) &&
            Alloc(AscendingState(size, k), c.caller, c.block, c.size, 0, c.room, hash) == (AscendingState(size, k + 1), 0)
  {
    var c, s := AscendingCall(size, k + 1), AscendingState(size, k);
    var mem := AscendingSearch(size, k);
    var s1 := State(true, mem, false, [], s.last, AscendingTotal(k));
    FirstBlock(s1, k, k + 1, k + 1, k + 1, c.room, hash);
  }

  lemma AscendingStep(size: nat, k: nat, hash: Hash)
    requires k < size <= 257 && InRange(hash)
    ensures var s, live, op := AscendingState(size, k), AscendingLive(k), AscendingCall(size, k + 1);
            Usable(s) && Legal(live, op) && KeepsTables(s, op) &&
            Step(s, live, op, hash) == (AscendingState(size, k + 1), AscendingLive(k + 1))
  {
    AscendingAlloc(size, k, hash);
    assert AscendingLive(k + 1) == AscendingLive(k) + [Ext(k + 1, k + 1, k + 1)];
  }

  lemma {:induction false} AscendingReached(size: nat, k: nat, hash: Hash)
    requires k <= size <= 257 && InRange(hash)
    ensures Reaches(START, [], AscendingCalls(size, k), hash, AscendingState(size, k), AscendingLive(k))
  {
    if k == 0 {
      assert AscendingLive(0) == [];
    } else {
      AscendingReached(size, k - 1, hash);
      AscendingStep(size, k - 1, hash);
      ReachesSnoc(START, [], AscendingCalls(size, k - 1), hash, AscendingState(size, k - 1), AscendingLive(k - 1),
                  AscendingCall(size, k), AscendingState(size, k), AscendingLive(k));
    }
  }

  /** The table that a long list forgets a slot of is reached from the empty tracker. */
  lemma ForgottenReached(n: nat, hash: Hash)
    requires n > 256 && InRange(hash)
    ensures var size := (n - 1) % 256 + 2;
            exists ops: seq<Op>, s: State, live: seq<Ext> ::
              Reaches(START, [], ops, hash, s, live) && s.mem == Ascending(size) && s.last == size - 1
  {
    var size := (n - 1) % 256 + 2;
    AscendingReached(size, size, hash);
    assert Ascending(size) + EmptySlots(0) == Ascending(size);
    assert Reaches(START, [], AscendingCalls(size, size), hash, AscendingState(size, size), AscendingLive(size));
  }

  lemma FirstSlotMissing(list: seq<Allocator>, mem: seq<Slot>, size: nat, picks: seq<nat>)
    requires size >= 2 && mem == Ascending(size) && |list| > size
    requires Descends(list, size, size - 1) && Lists(list, mem, size, picks)
    ensures |picks| < |list| && !Considers(list, mem, picks, 0)
  {
    assert list[size] == EMPTY;
    if |picks| > size {
      assert false;
    }
    forall e | 0 <= e < |picks| ensures picks[e] != 0 {
      assert list[e] == EntryOf(mem[picks[e]]);
    }
  }

  /** The update is right for every table exactly with a list of at most 256 entries. */
  lemma SnapshotIff(n: nat)
    requires n >= 1
    ensures (forall mem: seq<Slot>, last: nat :: WellFormed(mem, last) ==> Snapshot(UpTo(mem, last + 1, n), mem, |mem|))
            <==> n <= 256
  {
    if n <= 256 {
      forall mem: seq<Slot>, last: nat | WellFormed(mem, last)
        ensures Snapshot(UpTo(mem, last + 1, n), mem, |mem|)
      {
        UpdatedSnapshot(mem, last, n);
      }
    } else {
      LongListForgets(n);
      var size := (n - 1) % 256 + 2;
      assert WellFormed(Ascending(size), size - 1);
    }
  }

  // ----- The loops

  /** The search for the caller on the list. */
  method OnList(list: array<Allocator>, caller: int) returns (next: bool)
    ensures next <==> Listed(list[..], caller)
  {
    for i := 0 to list.Length
      invariant forall e :: 0 <= e < i ==> list[e].caller != caller
    {
      if list[i].caller == caller {
        return true;
      }
    }
    return false;
  }

  /** memmove(&list[at + 1], &list[at], count) */
  method ShiftDown(list: array<Allocator>, at: nat, count: nat)
    requires at + 1 + count <= list.Length
    modifies list
    ensures forall e :: 0 <= e < list.Length ==>
              list[e] == old(list[if at + 1 <= e < at + 1 + count then e - 1 else e])
  {
    for i := count downto 0
      invariant forall e :: 0 <= e < list.Length ==>
                  list[e] == old(list[if at + 1 + i <= e < at + 1 + count then e - 1 else e])
    {
      list[at + 1 + i] := list[at + i];
    }
  }

  /** The insertion of one slot. */
  method InsertSlot(list: array<Allocator>, m: Slot)
    modifies list
    ensures var at := Place(old(list[..]), 0, m.total);
            list[..] == if at < list.Length then Inserted(old(list[..]), at, EntryOf(m)) else old(list[..])
  {
    ghost var was := list[..];
    var i := 0;
    while i < list.Length
      invariant 0 <= i <= list.Length && list[..] == was
      invariant Place(was, 0, m.total) == Place(was, i, m.total)
    {
      if m.total >= list[i].totalMemory {
        if i != list.Length - 1 {
          ShiftDown(list, i, ShiftCount(list.Length, i));
        }
        list[i] := EntryOf(m);
        InsertedFrom(was, list[..], i, EntryOf(m));
        return;
      }
      i := i + 1;
    }
  }

  /** The update over the slots up to `last`. */
  method ListLargest(mem: seq<Slot>, last: nat, list: array<Allocator>)
    requires last < |mem|
    modifies list
    ensures list[..] == UpTo(mem, last + 1, list.Length)
  {
    ClearList(list);
    assert list[..] == UpTo(mem, 0, list.Length);
    var index := 0;
    while index <= last
      invariant 0 <= index <= last + 1
      invariant list[..] == UpTo(mem, index, list.Length)
    {
      if mem[index].block != NULL {
        var next := OnList(list, mem[index].caller);
        if !next {
          InsertSlot(list, mem[index]);
        }
      }
      index := index + 1;
    }
  }

  /** memset(list, 0, ...) */
  method ClearList(list: array<Allocator>)
    modifies list
    ensures forall e :: 0 <= e < list.Length ==> list[e] == EMPTY
  {
    for i := 0 to list.Length
      invariant forall e :: 0 <= e < i ==> list[e] == EMPTY
    {
      list[i] := EMPTY;
    }
  }

  lemma EmptySnapshot(list: seq<Allocator>, mem: seq<Slot>)
    requires list != [] && forall e :: 0 <= e < |list| ==> list[e] == EMPTY
    ensures Snapshot(list, mem, 0)
  {
    assert Lists(list, mem, 0, []) && Largest(list, mem, 0, []);
  }

  /** Behind the last used slot there are no blocks. */
  lemma {:induction false} UnusedTail(list: seq<Allocator>, mem: seq<Slot>, last: nat, n: nat)
    requires Snapshot(list, mem, n) && SlotsOk(mem, last) && last < n <= |mem|
    ensures Snapshot(list, mem, |mem|)
    decreases |mem| - n
  {
    if n < |mem| {
      SkippedSnapshot(list, mem, n);
      UnusedTail(list, mem, last, n + 1);
    }
  }

  function LiveSlots(mem: seq<Slot>): set<nat> {
    set i: nat | i < |mem| && mem[i].block != NULL
  }

  lemma {:induction false} PickSet(mem: seq<Slot>, picks: seq<nat>) returns (s: set<nat>)
    requires forall e :: 0 <= e < |picks| ==> picks[e] in LiveSlots(mem)
    requires forall e, g :: 0 <= e < g < |picks| ==> picks[e] != picks[g]
    ensures |s| == |picks| && s <= LiveSlots(mem) && forall i :: i in s <==> i in picks
  {
    if picks == [] {
      s := {};
    } else {
      var rest := picks[..|picks| - 1];
      var t := PickSet(mem, rest);
      assert picks == rest + [picks[|picks| - 1]];
      assert forall i :: i in rest ==> i != picks[|picks| - 1];
      s := t + {picks[|picks| - 1]};
    }
  }

  /** With no more live slots than entries, every one of them is listed. */
  lemma AllListedIfTheyFit(list: seq<Allocator>, mem: seq<Slot>, i: nat)
    requires Snapshot(list, mem, |mem|) && i in LiveSlots(mem) && |LiveSlots(mem)| <= |list|
    ensures exists e :: 0 <= e < |list| && list[e] == EntryOf(mem[i])
  {
    var picks: seq<nat> :| Lists(list, mem, |mem|, picks) && Largest(list, mem, |mem|, picks);
    var s := PickSet(mem, picks);
    SubsetSize(s, LiveSlots(mem));
    assert Considers(list, mem, picks, i);
    assert i in picks;
    var e :| 0 <= e < |picks| && picks[e] == i;
    assert list[e] == EntryOf(mem[i]);
  }

  lemma {:induction false} SubsetSize(s: set<nat>, t: set<nat>)
    requires s <= t
    ensures |s| <= |t| && (|s| == |t| ==> s == t)
    decreases |s|
  {
    if s != {} {
      var x :| x in s;
      SubsetSize(s - {x}, t - {x});
      assert s == s - {x} + {x} && t == t - {x} + {x};
    } else if |t| == 0 {
      assert t == {};
    }
  }
}
