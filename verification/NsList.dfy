/** The intrusive doubly linked list of ns_list.h, over a flat, word-addressed memory.

    A pointer is a word address and 0 is NULL. A link record sits `offset` words into its entry
    and holds two pointers of `ptr` words each: `next`, then `prev`. As in the original, `prev`
    does not name an entry: it is the address of the *slot* (the head's `first_entry` or another
    entry's `next`) that points to this one, and the head's second pointer `last_nextptr` is the
    address of the last such slot. A list head at address h is the record (h, h + ptr).

    Only the first word of a pointer is read or written here; its other words belong to it and are
    kept apart from everything else. */
module NsList {

  datatype Layout = Layout(ptr: nat, offset: nat)

  const NULL := 0
  const POISON := 0xDEADBEEF

  /** Record 0 is the head; record i is the link of entry i - 1. Record i starts with the slot that
      points to entry i, or that holds NULL when i is |s|. */
  function Rec(y: Layout, head: int, s: seq<int>, i: int): int
    requires 0 <= i <= |s|
  {
    if i == 0 then head else s[i - 1] + y.offset
  }

  /** Records form a ring through the head. */
  function Succ(s: seq<int>, i: int): int
    requires 0 <= i <= |s|
  {
    if i == |s| then 0 else i + 1
  }

  /** The record that holds the pointer back to slot i: entry i's link, or the head for i == |s|. */
  function BackRec(y: Layout, head: int, s: seq<int>, i: int): int
    requires 0 <= i <= |s|
  {
    Rec(y, head, s, Succ(s, i))
  }

  /** The address of the pointer back to slot i: entry i's `prev`, or the head's `last_nextptr`. */
  function Back(y: Layout, head: int, s: seq<int>, i: int): int
    requires 0 <= i <= |s|
  {
    BackRec(y, head, s, i) + y.ptr
  }

  function EntryAt(s: seq<int>, i: int): int
    requires 0 <= i <= |s|
  {
    if i == |s| then NULL else s[i]
  }

  predicate Apart(y: Layout, a: int, b: int) {
    a + 2 * y.ptr <= b || b + 2 * y.ptr <= a
  }

  predicate InMemory(size: int, y: Layout, rec: int) {
    0 <= rec && rec + 2 * y.ptr <= size
  }

  /** The head and all link records lie in memory and are pairwise disjoint. */
  ghost predicate Placed(size: int, y: Layout, head: int, s: seq<int>) {
    && y.ptr >= 1
    && (forall i :: 0 <= i < |s| ==> s[i] > NULL)
    && (forall i :: 0 <= i <= |s| ==> InMemory(size, y, Rec(y, head, s, i)))
    && (forall i, j {:trigger Apart(y, Rec(y, head, s, i), Rec(y, head, s, j))} ::
          0 <= i < j <= |s| ==> Apart(y, Rec(y, head, s, i), Rec(y, head, s, j)))
  }

  /** Two different records share no pointer. */
  lemma Distinct(size: int, y: Layout, head: int, s: seq<int>, i: int, j: int)
    requires Placed(size, y, head, s) && 0 <= i <= |s| && 0 <= j <= |s|
    ensures i != j ==> Rec(y, head, s, i) != Rec(y, head, s, j)
    ensures Rec(y, head, s, i) != Rec(y, head, s, j) + y.ptr
    ensures Rec(y, head, s, i) + y.ptr != Rec(y, head, s, j)
  {
    assert i < j ==> Apart(y, Rec(y, head, s, i), Rec(y, head, s, j));
    assert j < i ==> Apart(y, Rec(y, head, s, j), Rec(y, head, s, i));
  }

  /** Memory m holds, at `head`, a consistent list whose entries are s in order. */
  ghost predicate IsList(m: seq<int>, y: Layout, head: int, s: seq<int>) {
    && Placed(|m|, y, head, s)
    && (forall i :: 0 <= i <= |s| ==> m[Rec(y, head, s, i)] == EntryAt(s, i))
    && (forall i {:trigger Back(y, head, s, i)} :: 0 <= i <= |s| ==> m[Back(y, head, s, i)] == Rec(y, head, s, i))
  }

  /** What the link of entry i holds, and where the pointer back to its `next` slot is. */
  lemma LinkFacts(m: seq<int>, y: Layout, head: int, s: seq<int>, i: int)
    requires IsList(m, y, head, s) && 0 <= i < |s|
    ensures var link := s[i] + y.offset;
            && 0 <= link && link + 2 * y.ptr <= |m| && link == Rec(y, head, s, i + 1)
            && m[link] == EntryAt(s, i + 1)
            && m[link + y.ptr] == Rec(y, head, s, i)
            && Back(y, head, s, i + 1) == y.ptr + if m[link] == NULL then head else m[link] + y.offset
  {
    assert Rec(y, head, s, i + 1) == s[i] + y.offset;
    assert m[Back(y, head, s, i)] == Rec(y, head, s, i);
  }

  /** A new entry may join the list: its record is in memory and apart from all others. */
  ghost predicate CanJoin(size: int, y: Layout, head: int, s: seq<int>, e: int) {
    && e > NULL
    && InMemory(size, y, e + y.offset)
    && (forall i {:trigger Apart(y, Rec(y, head, s, i), e + y.offset)} ::
          0 <= i <= |s| ==> Apart(y, Rec(y, head, s, i), e + y.offset))
  }

  /** The record of a joining entry shares no pointer with record i. */
  lemma Joining(size: int, y: Layout, head: int, s: seq<int>, e: int, i: int)
    requires y.ptr >= 1 && CanJoin(size, y, head, s, e) && 0 <= i <= |s|
    ensures e + y.offset != Rec(y, head, s, i)
    ensures e + y.offset != Rec(y, head, s, i) + y.ptr
    ensures e + y.offset + y.ptr != Rec(y, head, s, i)
  {
    assert Apart(y, Rec(y, head, s, i), e + y.offset);
  }

  /** What linking e in front of position i writes, and nothing else. */
  ghost predicate Inserted(m: seq<int>, m': seq<int>, y: Layout, head: int, s: seq<int>, i: int, e: int)
    requires 0 <= i <= |s| && Placed(|m|, y, head, s) && CanJoin(|m|, y, head, s, e)
  {
    var slot, back, link := Rec(y, head, s, i), Back(y, head, s, i), e + y.offset;
    && |m'| == |m|
    && m'[slot] == e
    && m'[back] == link
    && m'[link] == EntryAt(s, i)
    && m'[link + y.ptr] == slot
    && (forall k :: 0 <= k < |m| && k != slot && k != back && k != link && k != link + y.ptr ==> m'[k] == m[k])
  }

  function InsertAt(s: seq<int>, i: int, e: int): seq<int>
    requires 0 <= i <= |s|
  {
    s[..i] + [e] + s[i..]
  }

  /** Where the records of the longer list are. */
  lemma InsertRec(y: Layout, head: int, s: seq<int>, i: int, e: int, j: int)
    requires 0 <= i <= |s| && 0 <= j <= |s| + 1
    ensures Rec(y, head, InsertAt(s, i, e), j) ==
            if j <= i then Rec(y, head, s, j) else if j == i + 1 then e + y.offset else Rec(y, head, s, j - 1)
  {
  }

  lemma InsertPlaced(size: int, y: Layout, head: int, s: seq<int>, i: int, e: int)
    requires 0 <= i <= |s| && Placed(size, y, head, s) && CanJoin(size, y, head, s, e)
    ensures Placed(size, y, head, InsertAt(s, i, e))
  {
    var t := InsertAt(s, i, e);
    forall j | 0 <= j <= |t|
      ensures InMemory(size, y, Rec(y, head, t, j))
    {
      InsertRec(y, head, s, i, e, j);
    }
    forall j, k | 0 <= j < k <= |t|
      ensures Apart(y, Rec(y, head, t, j), Rec(y, head, t, k))
    {
      InsertRec(y, head, s, i, e, j);
      InsertRec(y, head, s, i, e, k);
      if j == i + 1 {
        assert Apart(y, Rec(y, head, s, k - 1), e + y.offset);
      } else if k == i + 1 {
        assert Apart(y, Rec(y, head, s, j), e + y.offset);
      }
    }
  }

  /** Every slot and back pointer of the longer list, one position at a time. */
  lemma InsertEntry(m: seq<int>, m': seq<int>, y: Layout, head: int, s: seq<int>, i: int, e: int, j: int)
    requires 0 <= i <= |s| && IsList(m, y, head, s) && CanJoin(|m|, y, head, s, e)
    requires Inserted(m, m', y, head, s, i, e)
    requires 0 <= j <= |s| + 1 && Placed(|m|, y, head, InsertAt(s, i, e))
    ensures m'[Rec(y, head, InsertAt(s, i, e), j)] == EntryAt(InsertAt(s, i, e), j)
  {
    InsertRec(y, head, s, i, e, j);
    if j != i + 1 {
      var j' := if j <= i then j else j - 1;
      Distinct(|m|, y, head, s, j', i);
      Distinct(|m|, y, head, s, j', Succ(s, i));
      Joining(|m|, y, head, s, e, j');
    } else {
      Joining(|m|, y, head, s, e, i);
      Joining(|m|, y, head, s, e, Succ(s, i));
    }
  }

  lemma InsertBackAt(y: Layout, head: int, s: seq<int>, i: int, e: int, j: int)
    requires 0 <= i <= |s| && 0 <= j <= |s| + 1
    ensures Back(y, head, InsertAt(s, i, e), j) ==
            if j == i then e + y.offset + y.ptr else Back(y, head, s, if j < i then j else j - 1)
  {
    InsertRec(y, head, s, i, e, Succ(InsertAt(s, i, e), j));
  }

  lemma InsertBack(m: seq<int>, m': seq<int>, y: Layout, head: int, s: seq<int>, i: int, e: int, j: int)
    requires 0 <= i <= |s| && IsList(m, y, head, s) && CanJoin(|m|, y, head, s, e)
    requires Inserted(m, m', y, head, s, i, e)
    requires 0 <= j <= |s| + 1 && Placed(|m|, y, head, InsertAt(s, i, e))
    ensures m'[Back(y, head, InsertAt(s, i, e), j)] == Rec(y, head, InsertAt(s, i, e), j)
  {
    InsertRec(y, head, s, i, e, j);
    InsertBackAt(y, head, s, i, e, j);
    if j != i {
      var j' := if j < i then j else j - 1;
      Distinct(|m|, y, head, s, Succ(s, j'), i);
      Distinct(|m|, y, head, s, Succ(s, j'), Succ(s, i));
      Joining(|m|, y, head, s, e, Succ(s, j'));
    }
  }

  lemma InsertIsList(m: seq<int>, m': seq<int>, y: Layout, head: int, s: seq<int>, i: int, e: int)
    requires 0 <= i <= |s| && IsList(m, y, head, s) && CanJoin(|m|, y, head, s, e)
    requires Inserted(m, m', y, head, s, i, e)
    ensures IsList(m', y, head, InsertAt(s, i, e))
  {
    InsertPlaced(|m|, y, head, s, i, e);
    forall j | 0 <= j <= |s| + 1
      ensures m'[Rec(y, head, InsertAt(s, i, e), j)] == EntryAt(InsertAt(s, i, e), j)
    {
      InsertEntry(m, m', y, head, s, i, e, j);
    }
    forall j | 0 <= j <= |s| + 1
      ensures m'[Back(y, head, InsertAt(s, i, e), j)] == Rec(y, head, InsertAt(s, i, e), j)
    {
      InsertBack(m, m', y, head, s, i, e, j);
    }
  }

  lemma InsertByWrites(m: seq<int>, y: Layout, head: int, s: seq<int>, i: int, e: int) returns (m': seq<int>)
    requires 0 <= i <= |s| && IsList(m, y, head, s) && CanJoin(|m|, y, head, s, e)
    ensures var slot, back, link := Rec(y, head, s, i), Back(y, head, s, i), e + y.offset;
            m' == m[link + y.ptr := slot][link := EntryAt(s, i)][back := link][slot := e]
    ensures Inserted(m, m', y, head, s, i, e)
  {
    var slot, back, link := Rec(y, head, s, i), Back(y, head, s, i), e + y.offset;
    m' := m[link + y.ptr := slot][link := EntryAt(s, i)][back := link][slot := e];
    Distinct(|m|, y, head, s, i, Succ(s, i));
    Joining(|m|, y, head, s, e, i);
    Joining(|m|, y, head, s, e, Succ(s, i));
  }

  method Init(mem: array<int>, y: Layout, head: int)
    requires y.ptr >= 1 && InMemory(mem.Length, y, head)
    modifies mem
    ensures IsList(mem[..], y, head, [])
    ensures mem[..] == old(mem[..])[head := NULL][head + y.ptr := head]
  {
    mem[head] := NULL;
    mem[head + y.ptr] := head;
  }

  lemma InsertByWritesNextFirst(m: seq<int>, y: Layout, head: int, s: seq<int>, i: int, e: int) returns (m': seq<int>)
    requires 0 <= i <= |s| && IsList(m, y, head, s) && CanJoin(|m|, y, head, s, e)
    ensures var slot, back, link := Rec(y, head, s, i), Back(y, head, s, i), e + y.offset;
            m' == m[link := EntryAt(s, i)][link + y.ptr := slot][slot := e][back := link]
    ensures Inserted(m, m', y, head, s, i, e)
  {
    var slot, back, link := Rec(y, head, s, i), Back(y, head, s, i), e + y.offset;
    m' := m[link := EntryAt(s, i)][link + y.ptr := slot][slot := e][back := link];
    Distinct(|m|, y, head, s, i, Succ(s, i));
    Joining(|m|, y, head, s, e, i);
    Joining(|m|, y, head, s, e, Succ(s, i));
  }

  method AddToStart(mem: array<int>, y: Layout, head: int, entry: int, ghost s: seq<int>)
    requires IsList(mem[..], y, head, s)
    requires CanJoin(mem.Length, y, head, s, entry)
    modifies mem
    ensures Inserted(old(mem[..]), mem[..], y, head, s, 0, entry)
    ensures IsList(mem[..], y, head, InsertAt(s, 0, entry))
  {
    ghost var m := mem[..];
    ghost var m' := InsertByWrites(m, y, head, s, 0, entry);
    Joining(|m|, y, head, s, entry, 0);
    assert Rec(y, head, s, 0) == head;
    mem[entry + y.offset + y.ptr] := head;
    var next := mem[head];
    mem[entry + y.offset] := next;
    if next != NULL {
      assert BackRec(y, head, s, 0) == next + y.offset;
      mem[next + y.offset + y.ptr] := entry + y.offset;
    } else {
      mem[head + y.ptr] := entry + y.offset;
    }
    mem[head] := entry;
    assert mem[..] == m';
    InsertIsList(m, m', y, head, s, 0, entry);
  }

  method AddAfter(mem: array<int>, y: Layout, head: int, current: int, entry: int, ghost s: seq<int>, ghost i: int)
    requires IsList(mem[..], y, head, s)
    requires 0 <= i < |s| && s[i] == current
    requires CanJoin(mem.Length, y, head, s, entry)
    modifies mem
    ensures Inserted(old(mem[..]), mem[..], y, head, s, i + 1, entry)
    ensures IsList(mem[..], y, head, InsertAt(s, i + 1, entry))
  {
    ghost var m := mem[..];
    ghost var m' := InsertByWrites(m, y, head, s, i + 1, entry);
    Joining(|m|, y, head, s, entry, i + 1);
    LinkFacts(m, y, head, s, i);
    mem[entry + y.offset + y.ptr] := current + y.offset;
    var next := mem[current + y.offset];
    mem[entry + y.offset] := next;
    ghost var m1 := m[entry + y.offset + y.ptr := current + y.offset][entry + y.offset := EntryAt(s, i + 1)];
    assert mem[..] == m1;
    if next != NULL {
      mem[next + y.offset + y.ptr] := entry + y.offset;
    } else {
      mem[head + y.ptr] := entry + y.offset;
    }
    assert mem[..] == m1[Back(y, head, s, i + 1) := entry + y.offset];
    mem[current + y.offset] := entry;
    assert mem[..] == m';
    InsertIsList(m, m', y, head, s, i + 1, entry);
  }

  method AddBefore(mem: array<int>, y: Layout, ghost head: int, current: int, entry: int, ghost s: seq<int>,
          ghost i: int)
    requires IsList(mem[..], y, head, s)
    requires 0 <= i < |s| && s[i] == current
    requires CanJoin(mem.Length, y, head, s, entry)
    modifies mem
    ensures Inserted(old(mem[..]), mem[..], y, head, s, i, entry)
    ensures IsList(mem[..], y, head, InsertAt(s, i, entry))
  {
    ghost var m := mem[..];
    ghost var m' := InsertByWritesNextFirst(m, y, head, s, i, entry);
    assert BackRec(y, head, s, i) == current + y.offset && m[Back(y, head, s, i)] == Rec(y, head, s, i);
    mem[entry + y.offset] := current;
    var prevNextptr := mem[current + y.offset + y.ptr];
    mem[entry + y.offset + y.ptr] := prevNextptr;
    mem[prevNextptr] := entry;
    mem[current + y.offset + y.ptr] := entry + y.offset;
    assert mem[..] == m';
    InsertIsList(m, m', y, head, s, i, entry);
  }

  method AddToEnd(mem: array<int>, y: Layout, head: int, entry: int, ghost s: seq<int>)
    requires IsList(mem[..], y, head, s)
    requires CanJoin(mem.Length, y, head, s, entry)
    modifies mem
    ensures Inserted(old(mem[..]), mem[..], y, head, s, |s|, entry)
    ensures IsList(mem[..], y, head, InsertAt(s, |s|, entry))
  {
    ghost var m := mem[..];
    ghost var m' := InsertByWritesNextFirst(m, y, head, s, |s|, entry);
    assert BackRec(y, head, s, |s|) == head && m[Back(y, head, s, |s|)] == Rec(y, head, s, |s|);
    mem[entry + y.offset] := NULL;
    var prevNextptr := mem[head + y.ptr];
    mem[entry + y.offset + y.ptr] := prevNextptr;
    mem[prevNextptr] := entry;
    mem[head + y.ptr] := entry + y.offset;
    assert mem[..] == m';
    InsertIsList(m, m', y, head, s, |s|, entry);
  }

  // ----- Removal

  function RemoveAt(s: seq<int>, i: int): seq<int>
    requires 0 <= i < |s|
  {
    s[..i] + s[i + 1..]
  }

  /** What unlinking entry i writes, and nothing else: its own record ends up poisoned. */
  ghost predicate Removed(m: seq<int>, m': seq<int>, y: Layout, head: int, s: seq<int>, i: int)
    requires 0 <= i < |s| && Placed(|m|, y, head, s)
  {
    var slot, back, link := Rec(y, head, s, i), Back(y, head, s, i + 1), Rec(y, head, s, i + 1);
    && |m'| == |m|
    && m'[slot] == EntryAt(s, i + 1)
    && m'[back] == slot
    && m'[link] == POISON
    && m'[link + y.ptr] == POISON
    && (forall k :: 0 <= k < |m| && k != slot && k != back && k != link && k != link + y.ptr ==> m'[k] == m[k])
  }

  lemma RemoveRec(y: Layout, head: int, s: seq<int>, i: int, j: int)
    requires 0 <= i < |s| && 0 <= j < |s|
    ensures Rec(y, head, RemoveAt(s, i), j) == if j <= i then Rec(y, head, s, j) else Rec(y, head, s, j + 1)
  {
  }

  lemma RemovePlaced(size: int, y: Layout, head: int, s: seq<int>, i: int)
    requires 0 <= i < |s| && Placed(size, y, head, s)
    ensures Placed(size, y, head, RemoveAt(s, i))
  {
    var t := RemoveAt(s, i);
    forall j | 0 <= j <= |t|
      ensures InMemory(size, y, Rec(y, head, t, j))
    {
      RemoveRec(y, head, s, i, j);
    }
    forall j, k | 0 <= j < k <= |t|
      ensures Apart(y, Rec(y, head, t, j), Rec(y, head, t, k))
    {
      RemoveRec(y, head, s, i, j);
      RemoveRec(y, head, s, i, k);
    }
  }

  lemma RemoveEntry(m: seq<int>, m': seq<int>, y: Layout, head: int, s: seq<int>, i: int, j: int)
    requires 0 <= i < |s| && IsList(m, y, head, s) && Removed(m, m', y, head, s, i)
    requires 0 <= j < |s| && Placed(|m|, y, head, RemoveAt(s, i))
    ensures m'[Rec(y, head, RemoveAt(s, i), j)] == EntryAt(RemoveAt(s, i), j)
  {
    RemoveRec(y, head, s, i, j);
    var j' := if j <= i then j else j + 1;
    Distinct(|m|, y, head, s, j', i);
    Distinct(|m|, y, head, s, j', i + 1);
    Distinct(|m|, y, head, s, j', Succ(s, i + 1));
    Distinct(|m|, y, head, s, i, Succ(s, i + 1));
  }

  lemma RemoveBackAt(y: Layout, head: int, s: seq<int>, i: int, j: int)
    requires 0 <= i < |s| && 0 <= j < |s|
    ensures Back(y, head, RemoveAt(s, i), j) == Back(y, head, s, if j < i then j else j + 1)
  {
    RemoveRec(y, head, s, i, Succ(RemoveAt(s, i), j));
  }

  lemma RemoveBack(m: seq<int>, m': seq<int>, y: Layout, head: int, s: seq<int>, i: int, j: int)
    requires 0 <= i < |s| && IsList(m, y, head, s) && Removed(m, m', y, head, s, i)
    requires 0 <= j < |s| && Placed(|m|, y, head, RemoveAt(s, i))
    ensures m'[Back(y, head, RemoveAt(s, i), j)] == Rec(y, head, RemoveAt(s, i), j)
  {
    var j' := if j < i then j else j + 1;
    RemoveRec(y, head, s, i, j);
    RemoveBackAt(y, head, s, i, j);
    Distinct(|m|, y, head, s, Succ(s, j'), i);
    Distinct(|m|, y, head, s, Succ(s, j'), i + 1);
    Distinct(|m|, y, head, s, Succ(s, j'), Succ(s, i + 1));
  }

  lemma RemoveIsList(m: seq<int>, m': seq<int>, y: Layout, head: int, s: seq<int>, i: int)
    requires 0 <= i < |s| && IsList(m, y, head, s) && Removed(m, m', y, head, s, i)
    ensures IsList(m', y, head, RemoveAt(s, i))
  {
    RemovePlaced(|m|, y, head, s, i);
    forall j | 0 <= j < |s|
      ensures m'[Rec(y, head, RemoveAt(s, i), j)] == EntryAt(RemoveAt(s, i), j)
    {
      RemoveEntry(m, m', y, head, s, i, j);
    }
    forall j | 0 <= j < |s|
      ensures m'[Back(y, head, RemoveAt(s, i), j)] == Rec(y, head, RemoveAt(s, i), j)
    {
      RemoveBack(m, m', y, head, s, i, j);
    }
  }

  lemma RemoveByWrites(m: seq<int>, y: Layout, head: int, s: seq<int>, i: int) returns (m': seq<int>)
    requires 0 <= i < |s| && IsList(m, y, head, s)
    ensures var slot, back, link := Rec(y, head, s, i), Back(y, head, s, i + 1), Rec(y, head, s, i + 1);
            m' == m[back := slot][slot := EntryAt(s, i + 1)][link := POISON][link + y.ptr := POISON]
    ensures Removed(m, m', y, head, s, i)
  {
    var slot, back, link := Rec(y, head, s, i), Back(y, head, s, i + 1), Rec(y, head, s, i + 1);
    m' := m[back := slot][slot := EntryAt(s, i + 1)][link := POISON][link + y.ptr := POISON];
    Distinct(|m|, y, head, s, i, i + 1);
    Distinct(|m|, y, head, s, i, Succ(s, i + 1));
    Distinct(|m|, y, head, s, i + 1, Succ(s, i + 1));
  }

  method Remove(mem: array<int>, y: Layout, head: int, removed: int, ghost s: seq<int>, ghost i: int)
    requires IsList(mem[..], y, head, s)
    requires 0 <= i < |s| && s[i] == removed
    modifies mem
    ensures Removed(old(mem[..]), mem[..], y, head, s, i)
    ensures IsList(mem[..], y, head, RemoveAt(s, i))
  {
    ghost var m := mem[..];
    ghost var m' := RemoveByWrites(m, y, head, s, i);
    LinkFacts(m, y, head, s, i);
    var next := mem[removed + y.offset];
    var prevNextptr := mem[removed + y.offset + y.ptr];
    if next != NULL {
      mem[next + y.offset + y.ptr] := prevNextptr;
    } else {
      mem[head + y.ptr] := prevNextptr;
    }
    mem[prevNextptr] := next;
    mem[removed + y.offset] := POISON;
    mem[removed + y.offset + y.ptr] := POISON;
    assert mem[..] == m';
    RemoveIsList(m, m', y, head, s, i);
  }

  // ----- Replacement

  /** What putting r in the place of entry i writes, and nothing else. */
  ghost predicate Replaced(m: seq<int>, m': seq<int>, y: Layout, head: int, s: seq<int>, i: int, r: int)
    requires 0 <= i < |s| && Placed(|m|, y, head, s) && CanJoin(|m|, y, head, s, r)
  {
    var slot, back, link, link' := Rec(y, head, s, i), Back(y, head, s, i + 1), Rec(y, head, s, i + 1), r + y.offset;
    && |m'| == |m|
    && m'[slot] == r
    && m'[back] == link'
    && m'[link'] == EntryAt(s, i + 1)
    && m'[link' + y.ptr] == slot
    && m'[link] == POISON
    && m'[link + y.ptr] == POISON
    && (forall k :: 0 <= k < |m| && k != slot && k != back && k != link && k != link + y.ptr && k != link' && k != link' + y.ptr ==> m'[k] == m[k])
  }

  lemma ReplacePlaced(size: int, y: Layout, head: int, s: seq<int>, i: int, r: int)
    requires 0 <= i < |s| && Placed(size, y, head, s) && CanJoin(size, y, head, s, r)
    ensures Placed(size, y, head, s[i := r])
  {
    var t := s[i := r];
    assert forall j :: 0 <= j <= |t| && j != i + 1 ==> Rec(y, head, t, j) == Rec(y, head, s, j);
    forall j, k | 0 <= j < k <= |t|
      ensures Apart(y, Rec(y, head, t, j), Rec(y, head, t, k))
    {
      if j == i + 1 {
        assert Apart(y, Rec(y, head, s, k), r + y.offset);
      } else if k == i + 1 {
        assert Apart(y, Rec(y, head, s, j), r + y.offset);
      } else {
        assert Apart(y, Rec(y, head, s, j), Rec(y, head, s, k));
      }
    }
  }

  lemma ReplaceEntry(m: seq<int>, m': seq<int>, y: Layout, head: int, s: seq<int>, i: int, r: int, j: int)
    requires 0 <= i < |s| && IsList(m, y, head, s) && CanJoin(|m|, y, head, s, r)
    requires Replaced(m, m', y, head, s, i, r)
    requires 0 <= j <= |s| && Placed(|m|, y, head, s[i := r])
    ensures m'[Rec(y, head, s[i := r], j)] == EntryAt(s[i := r], j)
  {
    assert j != i + 1 ==> Rec(y, head, s[i := r], j) == Rec(y, head, s, j);
    Distinct(|m|, y, head, s, j, i);
    Distinct(|m|, y, head, s, j, i + 1);
    Distinct(|m|, y, head, s, j, Succ(s, i + 1));
    Joining(|m|, y, head, s, r, j);
  }

  lemma ReplaceBack(m: seq<int>, m': seq<int>, y: Layout, head: int, s: seq<int>, i: int, r: int, j: int)
    requires 0 <= i < |s| && IsList(m, y, head, s) && CanJoin(|m|, y, head, s, r)
    requires Replaced(m, m', y, head, s, i, r)
    requires 0 <= j <= |s| && Placed(|m|, y, head, s[i := r])
    ensures m'[Back(y, head, s[i := r], j)] == Rec(y, head, s[i := r], j)
  {
    var t := s[i := r];
    assert Rec(y, head, t, j) == if j != i + 1 then Rec(y, head, s, j) else r + y.offset;
    if j != i {
      assert Back(y, head, t, j) == Back(y, head, s, j);
      Distinct(|m|, y, head, s, Succ(s, j), i);
      Distinct(|m|, y, head, s, Succ(s, j), i + 1);
      Distinct(|m|, y, head, s, Succ(s, j), Succ(s, i + 1));
      Joining(|m|, y, head, s, r, Succ(s, j));
    }
  }

  lemma ReplaceIsList(m: seq<int>, m': seq<int>, y: Layout, head: int, s: seq<int>, i: int, r: int)
    requires 0 <= i < |s| && IsList(m, y, head, s) && CanJoin(|m|, y, head, s, r)
    requires Replaced(m, m', y, head, s, i, r)
    ensures IsList(m', y, head, s[i := r])
  {
    ReplacePlaced(|m|, y, head, s, i, r);
    var t := s[i := r];
    forall j | 0 <= j <= |t|
      ensures m'[Rec(y, head, t, j)] == EntryAt(t, j)
    {
      ReplaceEntry(m, m', y, head, s, i, r, j);
    }
    forall j | 0 <= j <= |t|
      ensures m'[Back(y, head, t, j)] == Rec(y, head, t, j)
    {
      ReplaceBack(m, m', y, head, s, i, r, j);
    }
  }

  lemma ReplaceLinks(m: seq<int>, y: Layout, head: int, s: seq<int>, i: int, r: int) returns (m1: seq<int>)
    requires 0 <= i < |s| && IsList(m, y, head, s) && CanJoin(|m|, y, head, s, r)
    ensures var slot, back, link' := Rec(y, head, s, i), Back(y, head, s, i + 1), r + y.offset;
            && m1 == m[link' + y.ptr := slot][link' := EntryAt(s, i + 1)][back := link'][slot := r]
            && m1[slot] == r && m1[back] == link' && m1[link'] == EntryAt(s, i + 1) && m1[link' + y.ptr] == slot
  {
    var slot, back, link' := Rec(y, head, s, i), Back(y, head, s, i + 1), r + y.offset;
    m1 := m[link' + y.ptr := slot][link' := EntryAt(s, i + 1)][back := link'][slot := r];
    Joining(|m|, y, head, s, r, i);
    Joining(|m|, y, head, s, r, Succ(s, i + 1));
    Distinct(|m|, y, head, s, i, Succ(s, i + 1));
  }

  /** The first four writes link the replacement; the last two poison the replaced record. */
  lemma ReplaceByWrites(m: seq<int>, y: Layout, head: int, s: seq<int>, i: int, r: int) returns (m1: seq<int>,
          m': seq<int>)
    requires 0 <= i < |s| && IsList(m, y, head, s) && CanJoin(|m|, y, head, s, r)
    ensures var slot, back, link, link' := Rec(y, head, s, i), Back(y, head, s, i + 1), Rec(y, head, s, i + 1), r + y.offset;
            && m1 == m[link' + y.ptr := slot][link' := EntryAt(s, i + 1)][back := link'][slot := r]
            && m' == m1[link := POISON][link + y.ptr := POISON]
    ensures Replaced(m, m', y, head, s, i, r)
  {
    m1 := ReplaceLinks(m, y, head, s, i, r);
    m' := m1[Rec(y, head, s, i + 1) := POISON][Rec(y, head, s, i + 1) + y.ptr := POISON];
    Joining(|m|, y, head, s, r, i + 1);
    Distinct(|m|, y, head, s, i, i + 1);
    Distinct(|m|, y, head, s, i + 1, Succ(s, i + 1));
  }

  /** The first four writes: the replacement's link, and what points to it. */
  method LinkReplacement(mem: array<int>, y: Layout, head: int, current: int, replacement: int, ghost s: seq<int>, ghost i: int)
    requires IsList(mem[..], y, head, s)
    requires 0 <= i < |s| && s[i] == current
    requires CanJoin(mem.Length, y, head, s, replacement)
    modifies mem
    ensures var m, slot, back, link := old(mem[..]), Rec(y, head, s, i), Back(y, head, s, i + 1), replacement + y.offset;
            && 0 <= link && link + y.ptr < |m| && 0 <= back < |m| && 0 <= slot < |m|
            && mem[..] == m[link + y.ptr := slot][link := EntryAt(s, i + 1)][back := link][slot := replacement]
  {
    ghost var m := mem[..];
    Joining(|m|, y, head, s, replacement, i + 1);
    LinkFacts(m, y, head, s, i);
    var prevNextptr := mem[current + y.offset + y.ptr];
    mem[replacement + y.offset + y.ptr] := prevNextptr;
    var next := mem[current + y.offset];
    mem[replacement + y.offset] := next;
    ghost var m2 := m[replacement + y.offset + y.ptr := prevNextptr][replacement + y.offset := EntryAt(s, i + 1)];
    assert mem[..] == m2;
    if next != NULL {
      mem[next + y.offset + y.ptr] := replacement + y.offset;
    } else {
      mem[head + y.ptr] := replacement + y.offset;
    }
    assert mem[..] == m2[Back(y, head, s, i + 1) := replacement + y.offset];
    mem[prevNextptr] := replacement;
  }

  method Replace(mem: array<int>, y: Layout, head: int, current: int, replacement: int, ghost s: seq<int>, ghost i: int)
    requires IsList(mem[..], y, head, s)
    requires 0 <= i < |s| && s[i] == current
    requires CanJoin(mem.Length, y, head, s, replacement)
    modifies mem
    ensures Replaced(old(mem[..]), mem[..], y, head, s, i, replacement)
    ensures IsList(mem[..], y, head, s[i := replacement])
  {
    ghost var m := mem[..];
    ghost var m1, m' := ReplaceByWrites(m, y, head, s, i, replacement);
    LinkFacts(m, y, head, s, i);
    LinkReplacement(mem, y, head, current, replacement, s, i);
    assert mem[..] == m1 && Rec(y, head, s, i + 1) == current + y.offset;
    mem[current + y.offset] := POISON;
    mem[current + y.offset + y.ptr] := POISON;
    assert mem[..] == m';
    ReplaceIsList(m, m', y, head, s, i, replacement);
  }

  // ----- Concatenation

  /** Two lists, heads included, share no link record. */
  ghost predicate Disjoint(y: Layout, dst: int, s: seq<int>, src: int, t: seq<int>) {
    forall i, j {:trigger Apart(y, Rec(y, dst, s, i), Rec(y, src, t, j))} ::
      0 <= i <= |s| && 0 <= j <= |t| ==> Apart(y, Rec(y, dst, s, i), Rec(y, src, t, j))
  }

  lemma DisjointAt(y: Layout, dst: int, s: seq<int>, src: int, t: seq<int>, i: int, j: int)
    requires y.ptr >= 1 && Disjoint(y, dst, s, src, t) && 0 <= i <= |s| && 0 <= j <= |t|
    ensures Rec(y, dst, s, i) != Rec(y, src, t, j)
    ensures Rec(y, dst, s, i) != Rec(y, src, t, j) + y.ptr
    ensures Rec(y, dst, s, i) + y.ptr != Rec(y, src, t, j)
  {
    assert Apart(y, Rec(y, dst, s, i), Rec(y, src, t, j));
  }

  /** What moving the non-empty list t at src to the end of s at dst writes, and nothing else. */
  ghost predicate Moved(m: seq<int>, m': seq<int>, y: Layout, dst: int, s: seq<int>, src: int, t: seq<int>)
    requires t != [] && Placed(|m|, y, dst, s) && Placed(|m|, y, src, t)
    requires InMemory(|m|, y, dst) && InMemory(|m|, y, src)
  {
    var slot, back := Rec(y, dst, s, |s|), Back(y, src, t, 0);
    && |m'| == |m|
    && m'[slot] == t[0]
    && m'[back] == slot
    && m'[dst + y.ptr] == Rec(y, src, t, |t|)
    && m'[src] == NULL
    && m'[src + y.ptr] == src
    && (forall k :: 0 <= k < |m| && k != slot && k != back && k != dst + y.ptr && k != src && k != src + y.ptr ==> m'[k] == m[k])
  }

  lemma ConcatRec(y: Layout, dst: int, s: seq<int>, src: int, t: seq<int>, j: int)
    requires 0 <= j <= |s| + |t|
    ensures Rec(y, dst, s + t, j) == if j <= |s| then Rec(y, dst, s, j) else Rec(y, src, t, j - |s|)
  {
  }

  lemma ConcatPlaced(size: int, y: Layout, dst: int, s: seq<int>, src: int, t: seq<int>)
    requires Placed(size, y, dst, s) && Placed(size, y, src, t) && Disjoint(y, dst, s, src, t)
    ensures Placed(size, y, dst, s + t)
  {
    forall j | 0 <= j <= |s + t|
      ensures InMemory(size, y, Rec(y, dst, s + t, j))
    {
      ConcatRec(y, dst, s, src, t, j);
    }
    forall j, k | 0 <= j < k <= |s + t|
      ensures Apart(y, Rec(y, dst, s + t, j), Rec(y, dst, s + t, k))
    {
      ConcatRec(y, dst, s, src, t, j);
      ConcatRec(y, dst, s, src, t, k);
    }
  }

  lemma ConcatEntry(m: seq<int>, m': seq<int>, y: Layout, dst: int, s: seq<int>, src: int, t: seq<int>, j: int)
    requires t != [] && IsList(m, y, dst, s) && IsList(m, y, src, t) && Disjoint(y, dst, s, src, t)
    requires InMemory(|m|, y, dst) && InMemory(|m|, y, src) && Moved(m, m', y, dst, s, src, t)
    requires 0 <= j <= |s| + |t| && Placed(|m|, y, dst, s + t)
    ensures m'[Rec(y, dst, s + t, j)] == EntryAt(s + t, j)
  {
    ConcatRec(y, dst, s, src, t, j);
    assert Rec(y, src, t, 0) == src && Rec(y, dst, s, 0) == dst && BackRec(y, src, t, 0) == Rec(y, src, t, 1);
    if j <= |s| {
      Distinct(|m|, y, dst, s, j, |s|);
      Distinct(|m|, y, dst, s, j, 0);
      DisjointAt(y, dst, s, src, t, j, 0);
      DisjointAt(y, dst, s, src, t, j, 1);
    } else {
      Distinct(|m|, y, src, t, j - |s|, 0);
      Distinct(|m|, y, src, t, j - |s|, 1);
      DisjointAt(y, dst, s, src, t, |s|, j - |s|);
      DisjointAt(y, dst, s, src, t, 0, j - |s|);
    }
  }

  lemma ConcatBackDst(m: seq<int>, m': seq<int>, y: Layout, dst: int, s: seq<int>, src: int, t: seq<int>, j: int)
    requires t != [] && IsList(m, y, dst, s) && IsList(m, y, src, t) && Disjoint(y, dst, s, src, t)
    requires InMemory(|m|, y, dst) && InMemory(|m|, y, src) && Moved(m, m', y, dst, s, src, t)
    requires 0 <= j < |s|
    ensures m'[Back(y, dst, s, j)] == Rec(y, dst, s, j)
  {
    assert Rec(y, src, t, 0) == src && Rec(y, dst, s, 0) == dst && BackRec(y, src, t, 0) == Rec(y, src, t, 1);
    Distinct(|m|, y, dst, s, j + 1, |s|);
    Distinct(|m|, y, dst, s, j + 1, 0);
    DisjointAt(y, dst, s, src, t, j + 1, 0);
    DisjointAt(y, dst, s, src, t, j + 1, 1);
  }

  lemma ConcatBackSrc(m: seq<int>, m': seq<int>, y: Layout, dst: int, s: seq<int>, src: int, t: seq<int>, j: int)
    requires t != [] && IsList(m, y, dst, s) && IsList(m, y, src, t) && Disjoint(y, dst, s, src, t)
    requires InMemory(|m|, y, dst) && InMemory(|m|, y, src) && Moved(m, m', y, dst, s, src, t)
    requires 0 < j < |t|
    ensures m'[Back(y, src, t, j)] == Rec(y, src, t, j)
  {
    assert Rec(y, src, t, 0) == src && Rec(y, dst, s, 0) == dst && BackRec(y, src, t, 0) == Rec(y, src, t, 1);
    Distinct(|m|, y, src, t, j + 1, 0);
    Distinct(|m|, y, src, t, j + 1, 1);
    DisjointAt(y, dst, s, src, t, |s|, j + 1);
    DisjointAt(y, dst, s, src, t, 0, j + 1);
  }

  lemma ConcatBack(m: seq<int>, m': seq<int>, y: Layout, dst: int, s: seq<int>, src: int, t: seq<int>, j: int)
    requires t != [] && IsList(m, y, dst, s) && IsList(m, y, src, t) && Disjoint(y, dst, s, src, t)
    requires InMemory(|m|, y, dst) && InMemory(|m|, y, src) && Moved(m, m', y, dst, s, src, t)
    requires 0 <= j <= |s| + |t| && Placed(|m|, y, dst, s + t)
    ensures m'[Back(y, dst, s + t, j)] == Rec(y, dst, s + t, j)
  {
    ConcatRec(y, dst, s, src, t, j);
    ConcatRec(y, dst, s, src, t, Succ(s + t, j));
    assert Rec(y, src, t, 0) == src && Rec(y, dst, s, 0) == dst && BackRec(y, src, t, 0) == Rec(y, src, t, 1);
    if j < |s| {
      ConcatBackDst(m, m', y, dst, s, src, t, j);
    } else if |s| < j < |s + t| {
      ConcatBackSrc(m, m', y, dst, s, src, t, j - |s|);
    }
  }

  lemma ConcatIsList(m: seq<int>, m': seq<int>, y: Layout, dst: int, s: seq<int>, src: int, t: seq<int>)
    requires t != [] && IsList(m, y, dst, s) && IsList(m, y, src, t) && Disjoint(y, dst, s, src, t)
    requires InMemory(|m|, y, dst) && InMemory(|m|, y, src) && Moved(m, m', y, dst, s, src, t)
    ensures IsList(m', y, dst, s + t) && IsList(m', y, src, [])
  {
    ConcatPlaced(|m|, y, dst, s, src, t);
    forall j | 0 <= j <= |s + t|
      ensures m'[Rec(y, dst, s + t, j)] == EntryAt(s + t, j)
    {
      ConcatEntry(m, m', y, dst, s, src, t, j);
    }
    forall j | 0 <= j <= |s + t|
      ensures m'[Back(y, dst, s + t, j)] == Rec(y, dst, s + t, j)
    {
      ConcatBack(m, m', y, dst, s, src, t, j);
    }
    assert Rec(y, src, t, 0) == src;
  }

  lemma MovedByWrites(m: seq<int>, y: Layout, dst: int, s: seq<int>, src: int, t: seq<int>) returns (m': seq<int>)
    requires t != [] && IsList(m, y, dst, s) && IsList(m, y, src, t) && Disjoint(y, dst, s, src, t)
    ensures InMemory(|m|, y, dst) && InMemory(|m|, y, src)
    ensures var slot, back := Rec(y, dst, s, |s|), Back(y, src, t, 0);
            m' == m[slot := t[0]][back := slot][dst + y.ptr := Rec(y, src, t, |t|)][src := NULL][src + y.ptr := src]
    ensures Moved(m, m', y, dst, s, src, t)
  {
    assert Rec(y, src, t, 0) == src && Rec(y, dst, s, 0) == dst && BackRec(y, src, t, 0) == Rec(y, src, t, 1);
    var slot, back := Rec(y, dst, s, |s|), Back(y, src, t, 0);
    m' := m[slot := t[0]][back := slot][dst + y.ptr := Rec(y, src, t, |t|)][src := NULL][src + y.ptr := src];
    Distinct(|m|, y, dst, s, 0, |s|);
    Distinct(|m|, y, src, t, 0, 1);
    DisjointAt(y, dst, s, src, t, |s|, 0);
    DisjointAt(y, dst, s, src, t, |s|, 1);
    DisjointAt(y, dst, s, src, t, 0, 0);
    DisjointAt(y, dst, s, src, t, 0, 1);
  }

  /** The last slot of the destination takes over the source's entries. */
  method SpliceLists(mem: array<int>, y: Layout, dst: int, src: int, srcFirst: int, ghost s: seq<int>, ghost t: seq<int>)
    requires IsList(mem[..], y, dst, s) && IsList(mem[..], y, src, t) && Disjoint(y, dst, s, src, t)
    requires t != [] && srcFirst == t[0]
    modifies mem
    ensures var m, slot, back := old(mem[..]), Rec(y, dst, s, |s|), Back(y, src, t, 0);
            && 0 <= slot < |m| && 0 <= back < |m| && 0 <= dst + y.ptr < |m|
            && mem[..] == m[slot := t[0]][back := slot][dst + y.ptr := Rec(y, src, t, |t|)]
  {
    ghost var m := mem[..];
    ghost var m' := MovedByWrites(m, y, dst, s, src, t);
    assert Rec(y, dst, s, 0) == dst && Rec(y, src, t, 0) == src;
    assert BackRec(y, dst, s, |s|) == dst && m[Back(y, dst, s, |s|)] == Rec(y, dst, s, |s|);
    assert BackRec(y, src, t, |t|) == src && m[Back(y, src, t, |t|)] == Rec(y, src, t, |t|);
    assert BackRec(y, src, t, 0) == Rec(y, src, t, 1) == srcFirst + y.offset;
    assert mem[dst + y.ptr] == Rec(y, dst, s, |s|) && mem[src + y.ptr] == Rec(y, src, t, |t|);
    mem[mem[dst + y.ptr]] := srcFirst;
    mem[srcFirst + y.offset + y.ptr] := mem[dst + y.ptr];
    assert mem[..] == m[Rec(y, dst, s, |s|) := t[0]][Back(y, src, t, 0) := Rec(y, dst, s, |s|)];
    mem[dst + y.ptr] := mem[src + y.ptr];
  }

  method Concatenate(mem: array<int>, y: Layout, dst: int, src: int, ghost s: seq<int>, ghost t: seq<int>)
    requires IsList(mem[..], y, dst, s) && IsList(mem[..], y, src, t)
    requires Disjoint(y, dst, s, src, t)
    modifies mem
    ensures IsList(mem[..], y, dst, s + t) && IsList(mem[..], y, src, [])
    ensures t == [] ==> mem[..] == old(mem[..])
    ensures t != [] ==> InMemory(mem.Length, y, dst) && InMemory(mem.Length, y, src) && Moved(old(mem[..]), mem[..], y, dst, s, src, t)
  {
    ghost var m := mem[..];
    assert Rec(y, src, t, 0) == src;
    var srcFirst := mem[src];
    if srcFirst == NULL {
      assert s + t == s;
      return;
    }
    ghost var m' := MovedByWrites(m, y, dst, s, src, t);
    SpliceLists(mem, y, dst, src, srcFirst, s, t);
    Init(mem, y, src);
    assert mem[..] == m';
    ConcatIsList(m, m', y, dst, s, src, t);
  }

  // ----- Reading

  method GetNext(mem: array<int>, y: Layout, current: int, ghost head: int, ghost s: seq<int>,
          ghost i: int) returns (e: int)
    requires IsList(mem[..], y, head, s)
    requires 0 <= i < |s| && s[i] == current
    ensures e == EntryAt(s, i + 1)
  {
    assert Rec(y, head, s, i + 1) == current + y.offset;
    e := mem[current + y.offset];
  }

  method GetFirst(mem: array<int>, ghost y: Layout, head: int, ghost s: seq<int>) returns (e: int)
    requires IsList(mem[..], y, head, s)
    ensures e == EntryAt(s, 0)
  {
    assert Rec(y, head, s, 0) == head;
    e := mem[head];
  }

  method GetPrevious(mem: array<int>, y: Layout, head: int, current: int, ghost s: seq<int>,
          ghost i: int) returns (e: int)
    requires IsList(mem[..], y, head, s)
    requires 0 <= i < |s| && s[i] == current
    ensures e == if i == 0 then NULL else s[i - 1]
  {
    assert Rec(y, head, s, 0) == head;
    assert i > 0 ==> Apart(y, Rec(y, head, s, 1), Rec(y, head, s, i + 1));
    if current == mem[head] {
      return NULL;
    }
    assert BackRec(y, head, s, i) == current + y.offset && mem[..][Back(y, head, s, i)] == Rec(y, head, s, i);
    e := mem[current + y.offset + y.ptr] - y.offset;
  }

  method GetLast(mem: array<int>, y: Layout, head: int, ghost s: seq<int>) returns (e: int)
    requires IsList(mem[..], y, head, s)
    ensures e == if |s| == 0 then NULL else s[|s| - 1]
  {
    assert Rec(y, head, s, 0) == head;
    if mem[head] == NULL {
      return NULL;
    }
    assert BackRec(y, head, s, |s|) == head && mem[..][Back(y, head, s, |s|)] == Rec(y, head, s, |s|);
    e := mem[head + y.ptr] - y.offset;
  }

  /** ns_list_count_: it stops, with the number of entries. */
  method Count(mem: array<int>, y: Layout, head: int, ghost s: seq<int>) returns (count: nat)
    requires IsList(mem[..], y, head, s)
    ensures count == |s|
  {
    count := 0;
    var p := GetFirst(mem, y, head, s);
    while p != NULL
      invariant 0 <= count <= |s| && p == EntryAt(s, count)
      decreases |s| - count
    {
      p := GetNext(mem, y, p, head, s, count);
      count := count + 1;
    }
  }

  /** ns_list_foreach: the entries in list order. */
  method Foreach(mem: array<int>, y: Layout, head: int, ghost s: seq<int>) returns (visited: seq<int>)
    requires IsList(mem[..], y, head, s)
    ensures visited == s
  {
    visited := [];
    var e := GetFirst(mem, y, head, s);
    while e != NULL
      invariant |visited| <= |s| && visited == s[..|visited|] && e == EntryAt(s, |visited|)
      decreases |s| - |visited|
    {
      var next := GetNext(mem, y, e, head, s, |visited|);
      visited := visited + [e];
      e := next;
    }
  }

  function Reversed(s: seq<int>): seq<int> {
    if s == [] then [] else Reversed(s[1..]) + [s[0]]
  }

  lemma {:induction false} ReversedSnoc(s: seq<int>, e: int)
    ensures Reversed(s + [e]) == [e] + Reversed(s)
  {
    if s != [] {
      assert (s + [e])[1..] == s[1..] + [e];
      ReversedSnoc(s[1..], e);
    }
  }

  /** ns_list_foreach_reverse: although no entry stores its predecessor, the visit is the reverse. */
  method ForeachReverse(mem: array<int>, y: Layout, head: int, ghost s: seq<int>) returns (visited: seq<int>)
    requires IsList(mem[..], y, head, s)
    ensures visited == Reversed(s)
  {
    visited := [];
    var e := GetLast(mem, y, head, s);
    ghost var left := |s|;
    assert s[..left] == s;
    while e != NULL
      invariant 0 <= left <= |s| && e == if left == 0 then NULL else s[left - 1]
      invariant visited + Reversed(s[..left]) == Reversed(s)
      decreases left
    {
      var previous := GetPrevious(mem, y, head, e, s, left - 1);
      assert s[..left] == s[..left - 1] + [e];
      ReversedSnoc(s[..left - 1], e);
      visited := visited + [e];
      e := previous;
      left := left - 1;
    }
  }

  function Without(s: seq<int>, doomed: set<int>): seq<int> {
    if s == [] then [] else (if s[0] in doomed then [] else [s[0]]) + Without(s[1..], doomed)
  }

  lemma {:induction false} WithoutSnoc(s: seq<int>, e: int, doomed: set<int>)
    ensures Without(s + [e], doomed) == Without(s, doomed) + if e in doomed then [] else [e]
  {
    if s != [] {
      assert (s + [e])[1..] == s[1..] + [e];
      WithoutSnoc(s[1..], e, doomed);
    }
  }

  /** The list while a walk has passed k entries: the survivors among them, then those to come. */
  function Remaining(s: seq<int>, doomed: set<int>, k: nat): seq<int>
    requires k <= |s|
  {
    Without(s[..k], doomed) + s[k..]
  }

  lemma WalkStep(s: seq<int>, doomed: set<int>, k: nat, i: nat, t: seq<int>)
    requires k < |s| && i == |Without(s[..k], doomed)| && t == Remaining(s, doomed, k)
    ensures i < |t| && t[i] == s[k] && EntryAt(t, i + 1) == EntryAt(s, k + 1)
    ensures s[..k] + [s[k]] == s[..k + 1]
    ensures Remaining(s, doomed, k + 1) == if s[k] in doomed then RemoveAt(t, i) else t
    ensures |Without(s[..k + 1], doomed)| == if s[k] in doomed then i else i + 1
  {
    assert s[..k + 1] == s[..k] + [s[k]];
    WithoutSnoc(s[..k], s[k], doomed);
    Pass(Without(s[..k], doomed), s[k], s[k..], s[k + 1..]);
  }

  /** Between survivors a and the entries b to come, e is kept with the former or removed. */
  lemma Pass(a: seq<int>, e: int, b: seq<int>, rest: seq<int>)
    requires b != [] && b[0] == e && b[1..] == rest
    ensures (a + b)[|a|] == e && RemoveAt(a + b, |a|) == a + rest && a + b == a + [e] + rest
    ensures EntryAt(a + b, |a| + 1) == EntryAt(b, 1)
  {
    assert b == [e] + rest;
  }

  lemma WalkEnds(s: seq<int>, doomed: set<int>)
    ensures Remaining(s, doomed, 0) == s && Without(s[..0], doomed) == []
    ensures Remaining(s, doomed, |s|) == Without(s, doomed) && s[..|s|] == s
  {
    assert s[..|s|] == s;
  }

  /** One turn of ns_list_foreach_safe: the successor is noted before the body may remove the entry. */
  method SafeTurn(mem: array<int>, y: Layout, head: int, e: int, doomed: set<int>,
                  ghost s: seq<int>, ghost k: nat, ghost i: nat, ghost t: seq<int>)
    returns (next: int, ghost i': nat, ghost t': seq<int>)
    requires k < |s| && e == s[k] && i == |Without(s[..k], doomed)| && t == Remaining(s, doomed, k)
    requires IsList(mem[..], y, head, t)
    modifies mem
    ensures next == EntryAt(s, k + 1)
    ensures i' == |Without(s[..k + 1], doomed)| && t' == Remaining(s, doomed, k + 1)
    ensures IsList(mem[..], y, head, t')
  {
    WalkStep(s, doomed, k, i, t);
    next := GetNext(mem, y, e, head, t, i);
    if e in doomed {
      Remove(mem, y, head, e, t, i);
      i', t' := i, RemoveAt(t, i);
    } else {
      i', t' := i + 1, t;
    }
  }

  /** ns_list_foreach_safe with a body that removes the current entry when it is doomed: every entry
      is still visited once, in order, and the survivors keep their order. */
  method ForeachSafe(mem: array<int>, y: Layout, head: int, doomed: set<int>,
          ghost s: seq<int>) returns (visited: seq<int>)
    requires IsList(mem[..], y, head, s)
    modifies mem
    ensures visited == s
    ensures IsList(mem[..], y, head, Without(s, doomed))
  {
    visited := [];
    var e := GetFirst(mem, y, head, s);
    ghost var k: nat, i: nat, t := 0, 0, s;
    WalkEnds(s, doomed);
    EntriesNotNull(mem[..], y, head, s);
    while e != NULL
      invariant k <= |s| && visited == s[..k] && e == EntryAt(s, k)
      invariant i == |Without(s[..k], doomed)| && t == Remaining(s, doomed, k)
      invariant IsList(mem[..], y, head, t)
      decreases |s| - k
    {
      visited := visited + [e];
      e, i, t := SafeTurn(mem, y, head, e, doomed, s, k, i, t);
      assert s[..k] + [s[k]] == s[..k + 1];
      k := k + 1;
    }
  }

  lemma EntriesNotNull(m: seq<int>, y: Layout, head: int, s: seq<int>)
    requires IsList(m, y, head, s)
    ensures forall k :: 0 <= k < |s| ==> EntryAt(s, k) != NULL
  {
  }
}
